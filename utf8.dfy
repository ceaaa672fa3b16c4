/** UTF-8 well-formedness (Unicode, table 3-7 "Well-Formed UTF-8 Byte
    Sequences") as Rust's `String::from_utf8` checks it, and the lossy
    conversion `String::from_utf8_lossy`, which replaces each maximal
    ill-formed subpart by U+FFFD. Both codecs use the first to classify a
    reassembled payload; the current codec uses the second for the reason
    text of an echoed Close frame. */
module Utf8 {
  import opened Bytes

  /** Length of the well-formed sequence that `lead` starts, or 0 when no
      well-formed sequence starts with it (0x80-0xC1 and 0xF5-0xFF). */
  function Width(lead: byte): (w: nat)
    ensures w <= 4
  {
    if lead < 0x80 then 1
    else if 0xC2 <= lead <= 0xDF then 2
    else if 0xE0 <= lead <= 0xEF then 3
    else if 0xF0 <= lead <= 0xF4 then 4
    else 0
  }

  /** Whether b may stand at offset k (k >= 1) of a sequence led by `lead`:
      the second byte is restricted after E0, ED, F0 and F4, the others are
      plain continuation bytes. */
  predicate Follows(lead: byte, k: nat, b: byte) {
    if k == 1 && lead == 0xE0 then 0xA0 <= b <= 0xBF
    else if k == 1 && lead == 0xED then 0x80 <= b <= 0x9F
    else if k == 1 && lead == 0xF0 then 0x90 <= b <= 0xBF
    else if k == 1 && lead == 0xF4 then 0x80 <= b <= 0x8F
    else 0x80 <= b <= 0xBF
  }

  /** Given that the first k bytes of s begin a well-formed sequence, how many
      bytes from the start do. */
  function MatchFrom(s: seq<byte>, k: nat): (m: nat)
    requires s != [] && 1 <= k <= Width(s[0]) && k <= |s|
    ensures k <= m <= Width(s[0]) && m <= |s|
    decreases Width(s[0]) - k
  {
    if k < Width(s[0]) && k < |s| && Follows(s[0], k, s[k]) then MatchFrom(s, k + 1) else k
  }

  /** Length of the longest prefix of s that begins a well-formed sequence
      (0 when s[0] cannot lead one). */
  function Matched(s: seq<byte>): (k: nat)
    requires s != []
    ensures k <= Width(s[0]) && k <= |s|
  {
    if Width(s[0]) == 0 then 0 else MatchFrom(s, 1)
  }

  /** s starts with one complete well-formed character. */
  predicate Complete(s: seq<byte>) {
    s != [] && Width(s[0]) > 0 && Matched(s) == Width(s[0])
  }

  /** s is well-formed UTF-8 (`String::from_utf8(s).is_ok()`). */
  predicate Valid(s: seq<byte>)
    decreases |s|
  {
    s == [] || (Complete(s) && Valid(s[Width(s[0])..]))
  }

  /** The UTF-8 encoding of U+FFFD REPLACEMENT CHARACTER. */
  const Replacement: seq<byte> := [0xEF, 0xBF, 0xBD]

  /** `String::from_utf8_lossy(s)` as bytes: complete characters are copied,
      and each maximal ill-formed subpart (at least one byte) becomes one
      U+FFFD. */
  function Lossy(s: seq<byte>): (r: seq<byte>)
    decreases |s|
  {
    if s == [] then []
    else if Complete(s) then s[..Width(s[0])] + Lossy(s[Width(s[0])..])
    else Replacement + Lossy(s[if Matched(s) == 0 then 1 else Matched(s)..])
  }

  /** Matching only looks at the first Width(s[0]) bytes. */
  lemma {:induction false} MatchFromPrefix(s: seq<byte>, t: seq<byte>, k: nat)
    requires s != [] && 1 <= k <= Width(s[0]) && k <= |s|
    requires |s| >= Width(s[0]) && |t| >= Width(s[0]) && t[..Width(s[0])] == s[..Width(s[0])]
    ensures t != [] && t[0] == s[0] && MatchFrom(t, k) == MatchFrom(s, k)
    decreases Width(s[0]) - k
  {
    assert t[0] == t[..Width(s[0])][0];
    if k < Width(s[0]) {
      assert t[k] == t[..Width(s[0])][k];
      assert s[k] == s[..Width(s[0])][k];
      MatchFromPrefix(s, t, k + 1);
    }
  }

  /** A complete character followed by anything is still complete, with the
      same width. */
  lemma CompleteExtends(c: seq<byte>, rest: seq<byte>)
    requires Complete(c) && |c| == Width(c[0])
    ensures Complete(c + rest) && (c + rest)[0] == c[0] && (c + rest)[|c|..] == rest
  {
    var t := c + rest;
    assert t[..|c|] == c;
    MatchFromPrefix(c, t, 1);
  }

  /** U+FFFD is itself well-formed. */
  lemma ReplacementComplete()
    ensures Complete(Replacement) && Width(Replacement[0]) == 3
  {
  }

  /** Well-formed input passes through the lossy conversion unchanged. */
  lemma {:induction false} LossyOfValid(s: seq<byte>)
    requires Valid(s)
    ensures Lossy(s) == s
    decreases |s|
  {
    if s != [] {
      var w := Width(s[0]);
      LossyOfValid(s[w..]);
      assert s[..w] + s[w..] == s;
    }
  }

  /** Prepending one complete character keeps a byte string well-formed. */
  lemma ValidCons(c: seq<byte>, rest: seq<byte>)
    requires Complete(c) && |c| == Width(c[0]) && Valid(rest)
    ensures Valid(c + rest)
  {
    CompleteExtends(c, rest);
  }

  /** The lossy conversion always yields well-formed UTF-8. */
  lemma {:induction false} LossyIsValid(s: seq<byte>)
    ensures Valid(Lossy(s))
    decreases |s|
  {
    if s != [] {
      if Complete(s) {
        var w := Width(s[0]);
        LossyIsValid(s[w..]);
        var c := s[..w];
        assert c[..w] == s[..w];
        MatchFromPrefix(s, c, 1);
        ValidCons(c, Lossy(s[w..]));
      } else {
        var skip := if Matched(s) == 0 then 1 else Matched(s);
        LossyIsValid(s[skip..]);
        ReplacementComplete();
        ValidCons(Replacement, Lossy(s[skip..]));
      }
    }
  }

  /** When no byte can lead a well-formed sequence, every byte becomes its own
      U+FFFD, so the output is three times as long as the input. */
  lemma {:induction false} LossyOfStrayBytes(s: seq<byte>)
    requires forall i :: 0 <= i < |s| ==> Width(s[i]) == 0
    ensures |Lossy(s)| == 3 * |s|
    decreases |s|
  {
    if s != [] {
      LossyOfStrayBytes(s[1..]);
    }
  }
}
