/** Byte-level helpers shared by both frame codecs: big-endian integers
    (`u16::from_be_bytes`, `u64::to_be_bytes`, ...), ASCII text as bytes and
    the XOR masking of RFC 6455, section 5.3. */
module Bytes {

  /** A byte, `u8`. */
  type byte = x: int | 0 <= x < 256

  /** 2 to the power k. */
  function Pow2(k: nat): (r: nat)
    ensures r >= 1
  {
    if k == 0 then 1 else 2 * Pow2(k - 1)
  }

  /** Bitwise exclusive or of the low k bits of a and b. */
  function XorBits(a: nat, b: nat, k: nat): (r: nat)
    requires a < Pow2(k) && b < Pow2(k)
    ensures r < Pow2(k)
  {
    if k == 0 then 0 else 2 * XorBits(a / 2, b / 2, k - 1) + (a % 2 + b % 2) % 2
  }

  /** The width of a byte in bits. */
  const ByteWidth: nat := 8

  /** `a ^ b` on bytes. */
  function Xor(a: byte, b: byte): byte {
    assert Pow2(ByteWidth) == 256;
    XorBits(a, b, ByteWidth)
  }

  lemma HalfBound(a: nat, k: nat)
    requires k > 0 && a < Pow2(k)
    ensures a / 2 < Pow2(k - 1)
  {
  }

  lemma LowBit(q: nat, t: nat)
    requires t < 2
    ensures (2 * q + t) / 2 == q && (2 * q + t) % 2 == t
  {
  }

  lemma ParityTwice(a: nat, b: nat)
    ensures ((a % 2 + b % 2) % 2 + b % 2) % 2 == a % 2
  {
  }

  lemma {:induction false} XorBitsTwice(a: nat, b: nat, k: nat)
    requires a < Pow2(k) && b < Pow2(k)
    ensures XorBits(XorBits(a, b, k), b, k) == a
  {
    if k > 0 {
      var q := XorBits(a / 2, b / 2, k - 1);
      var t := (a % 2 + b % 2) % 2;
      HalfBound(a, k);
      HalfBound(b, k);
      XorBitsTwice(a / 2, b / 2, k - 1);
      LowBit(q, t);
      ParityTwice(a, b);
    }
  }

  /** XOR with the same byte twice gives back the first operand. */
  lemma XorTwice(a: byte, b: byte)
    ensures Xor(Xor(a, b), b) == a
  {
    assert Pow2(8) == 256;
    XorBitsTwice(a, b, 8);
  }

  /** 256 to the power k: the number of values k bytes can hold. */
  function Pow256(k: nat): (r: nat)
    ensures r >= 1
  {
    if k == 0 then 1 else 256 * Pow256(k - 1)
  }

  /** The low `width` bytes of n, most significant first
      (`(n as uW).to_be_bytes()`; bits above the width are dropped). */
  function BigEndian(n: nat, width: nat): (r: seq<byte>)
    ensures |r| == width
  {
    if width == 0 then [] else BigEndian(n / 256, width - 1) + [n % 256]
  }

  /** The unsigned integer whose big-endian bytes are s (`uW::from_be_bytes`). */
  function FromBigEndian(s: seq<byte>): (n: nat)
    ensures n < Pow256(|s|)
  {
    if s == [] then 0 else FromBigEndian(s[..|s| - 1]) * 256 + s[|s| - 1]
  }

  /** Appending a low byte shifts the value up by one byte. */
  lemma FromBigEndianSnoc(s: seq<byte>, b: byte)
    ensures FromBigEndian(s + [b]) == FromBigEndian(s) * 256 + b
  {
    assert (s + [b])[..|s|] == s;
  }

  /** Encoding a value that fits in `width` bytes and decoding it gives it back. */
  lemma {:induction false} BigEndianRoundTrip(n: nat, width: nat)
    requires n < Pow256(width)
    ensures FromBigEndian(BigEndian(n, width)) == n
  {
    if width > 0 {
      var hi, lo := n / 256, n % 256;
      DivBound(n, Pow256(width - 1));
      BigEndianRoundTrip(hi, width - 1);
      FromBigEndianSnoc(BigEndian(hi, width - 1), lo);
    }
  }

  lemma DivBound(n: nat, p: nat)
    requires n < 256 * p
    ensures n / 256 < p
  {
    var q := n / 256;
    assert n == 256 * q + n % 256;
  }

  /** Decoding then re-encoding at the same width gives back the bytes. */
  lemma {:induction false} FromBigEndianRoundTrip(s: seq<byte>)
    ensures BigEndian(FromBigEndian(s), |s|) == s
  {
    if s != [] {
      var init := s[..|s| - 1];
      var n := FromBigEndian(s);
      assert n / 256 == FromBigEndian(init);
      assert n % 256 == s[|s| - 1];
      FromBigEndianRoundTrip(init);
    }
  }

  /** A Rust `&str` literal made only of ASCII characters, as its UTF-8 bytes. */
  function Ascii(s: string): (r: seq<byte>)
    requires forall i :: 0 <= i < |s| ==> s[i] < 128 as char
    ensures |r| == |s|
    ensures forall i :: 0 <= i < |s| ==> r[i] == s[i] as int
  {
    seq(|s|, i requires 0 <= i < |s| => s[i] as int)
  }

  /** `payload[i] ^= mask[i % 4]` applied to every byte (RFC 6455, section 5.3). */
  function Unmask(payload: seq<byte>, mask: seq<byte>): (r: seq<byte>)
    requires |mask| == 4
    ensures |r| == |payload|
  {
    seq(|payload|, i requires 0 <= i < |payload| => Xor(payload[i], mask[i % 4]))
  }

  /** Masking is its own inverse: the same key masks and unmasks. */
  lemma UnmaskInvolution(payload: seq<byte>, mask: seq<byte>)
    requires |mask| == 4
    ensures Unmask(Unmask(payload, mask), mask) == payload
  {
    var once := Unmask(payload, mask);
    var twice := Unmask(once, mask);
    forall i | 0 <= i < |payload|
      ensures twice[i] == payload[i]
    {
      XorTwice(payload[i], mask[i % 4]);
    }
  }

  /** The in-place loop of the codecs: XOR each byte of the buffer with the
      key byte at its index modulo 4. */
  method UnmaskInPlace(a: array<byte>, mask: seq<byte>)
    requires |mask| == 4
    modifies a
    ensures a[..] == Unmask(old(a[..]), mask)
  {
    for i := 0 to a.Length
      invariant forall k :: 0 <= k < i ==> a[k] == Xor(old(a[k]), mask[k % 4])
      invariant forall k :: i <= k < a.Length ==> a[k] == old(a[k])
    {
      a[i] := Xor(a[i], mask[i % 4]);
    }
  }

  /** Concatenation regroups freely. */
  lemma AppendAssoc<T>(a: seq<T>, b: seq<T>, c: seq<T>)
    ensures a + b + c == a + (b + c)
  {
  }
}
