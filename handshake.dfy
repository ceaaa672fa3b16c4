/** The opening handshake (RFC 6455, section 4.2): the server reads the
    client's HTTP upgrade request, checks it and answers with
    `101 Switching Protocols`. The current codec reads the request line by
    line into a table of headers; the legacy one scans one read for the
    line that carries the key. The request is the text the client sent;
    SHA-1 and Base64 are the parameter `digest`. */
module Handshake {
  import opened Wrappers
  import opened Types
  import opened Bytes
  import opened Transport

  /** The GUID RFC 6455 appends to the client's key before hashing. */
  const WsGuid: string := "258EAFA5-E914-47DA-95CA-C5AB0DC85B11"

  // ----- the `str` methods the handshakes use -----

  /** `char::is_whitespace`: the Unicode White_Space property. */
  predicate IsWhitespace(c: char) {
    ('\t' <= c <= '\r') || c == ' ' || c == '\U{85}' || c == '\U{A0}' || c == '\U{1680}'
    || ('\U{2000}' <= c <= '\U{200A}') || c == '\U{2028}' || c == '\U{2029}' || c == '\U{202F}'
    || c == '\U{205F}' || c == '\U{3000}'
  }

  /** `trim_start`: the suffix left once the leading whitespace is gone. */
  function TrimStart(s: string): (r: string)
    ensures |r| <= |s| && r == s[|s| - |r|..]
    ensures forall i | 0 <= i < |s| - |r| :: IsWhitespace(s[i])
    ensures r == [] || !IsWhitespace(r[0])
  {
    if s != [] && IsWhitespace(s[0]) then TrimStart(s[1..]) else s
  }

  /** `trim_end`: the prefix left once the trailing whitespace is gone. */
  function TrimEnd(s: string): (r: string)
    ensures |r| <= |s| && r == s[..|r|]
    ensures forall i | |r| <= i < |s| :: IsWhitespace(s[i])
    ensures r == [] || !IsWhitespace(r[|r| - 1])
  {
    if s != [] && IsWhitespace(s[|s| - 1]) then TrimEnd(s[..|s| - 1]) else s
  }

  /** `trim`. */
  function Trim(s: string): string {
    TrimEnd(TrimStart(s))
  }

  /** Trimming text padded with whitespace on both sides gives back the
      text, when the text itself neither starts nor ends with whitespace. */
  lemma TrimPadded(pre: string, t: string, post: string)
    requires forall i | 0 <= i < |pre| :: IsWhitespace(pre[i])
    requires forall i | 0 <= i < |post| :: IsWhitespace(post[i])
    requires t != [] ==> !IsWhitespace(t[0]) && !IsWhitespace(t[|t| - 1])
    ensures Trim(pre + t + post) == t
  {
    if t == [] {
      assert pre + t + post == pre + post + [];
      assert forall i | |pre| <= i < |pre + post| :: (pre + post)[i] == post[i - |pre|];
      TrimStartPadded(pre + post, []);
    } else {
      assert pre + t + post == pre + (t + post);
      TrimStartPadded(pre, t + post);
      TrimEndPadded(t, post);
    }
  }

  /** `trim_start` drops exactly the leading whitespace. */
  lemma TrimStartPadded(pre: string, rest: string)
    requires forall i | 0 <= i < |pre| :: IsWhitespace(pre[i])
    requires rest != [] ==> !IsWhitespace(rest[0])
    ensures TrimStart(pre + rest) == rest
  {
    var s := pre + rest;
    if rest != [] {
      assert s[|pre|] == rest[0];
    }
  }

  /** `trim_end` drops exactly the trailing whitespace. */
  lemma TrimEndPadded(t: string, post: string)
    requires forall i | 0 <= i < |post| :: IsWhitespace(post[i])
    requires t != [] && !IsWhitespace(t[|t| - 1])
    ensures TrimEnd(t + post) == t
  {
    var s := t + post;
    assert s[|t| - 1] == t[|t| - 1];
    assert forall i | |t| <= i < |s| :: s[i] == post[i - |t|];
  }

  /** ASCII lowercasing of one character. */
  function LowerChar(c: char): char {
    if 'A' <= c <= 'Z' then (c as int + 32) as char else c
  }

  /** `to_lowercase`, for the ASCII letters. */
  function Lower(s: string): (r: string)
    ensures |r| == |s|
  {
    seq(|s|, i requires 0 <= i < |s| => LowerChar(s[i]))
  }

  /** The first index at or after `k` where `s` holds `c`. */
  function FindFrom(s: string, c: char, k: nat): (r: Option<nat>)
    requires k <= |s|
    ensures r.Some? ==> k <= r.value < |s| && s[r.value] == c && forall j | k <= j < r.value :: s[j] != c
    ensures r.None? ==> forall j | k <= j < |s| :: s[j] != c
    decreases |s| - k
  {
    if k == |s| then None else if s[k] == c then Some(k) else FindFrom(s, c, k + 1)
  }

  /** `split_once(':')`: the text before and after the first colon. */
  function SplitOnce(s: string): (r: Option<(string, string)>)
    ensures r.None? <==> forall j | 0 <= j < |s| :: s[j] != ':'
    ensures r.Some? ==> exists i | 0 <= i < |s| :: s[i] == ':' && r.value == (s[..i], s[i + 1..])
                                                  && forall j | 0 <= j < i :: s[j] != ':'
  {
    match FindFrom(s, ':', 0)
    case None => None
    case Some(i) => Some((s[..i], s[i + 1..]))
  }

  /** `contains`: `t` occurs somewhere in `s`. */
  predicate Contains(s: string, t: string)
    decreases |s|
  {
    t <= s || (s != [] && Contains(s[1..], t))
  }

  // ----- the request, line by line -----

  /** Where `read_line` from cursor `pos` stops: right after the next line
      feed, or at the end of the text. */
  function LineEnd(text: string, pos: nat): (e: nat)
    requires pos <= |text|
    ensures pos <= e <= |text|
    ensures pos < |text| ==> pos < e
    ensures e < |text| ==> text[e - 1] == '\n'
    ensures forall i | pos <= i < e - 1 :: text[i] != '\n'
    decreases |text| - pos
  {
    if pos == |text| then pos else if text[pos] == '\n' then pos + 1 else LineEnd(text, pos + 1)
  }

  /** A line that sits at `pos` and ends with its only line feed is exactly
      what `read_line` returns there. */
  lemma LineEndAt(text: string, pos: nat, line: string)
    requires pos + |line| <= |text| && text[pos..pos + |line|] == line
    requires |line| > 0 && line[|line| - 1] == '\n'
    requires forall i | 0 <= i < |line| - 1 :: line[i] != '\n'
    ensures LineEnd(text, pos) == pos + |line|
  {
    assert text[pos + |line| - 1] == line[|line| - 1];
  }

  /** The header lines the loop of the current handshake reads from `pos`:
      every line up to the first that is empty (end of the text) or exactly
      CR LF. */
  function HeaderLines(text: string, pos: nat): (lines: seq<string>)
    requires pos <= |text|
    decreases |text| - pos
  {
    var e := LineEnd(text, pos);
    var line := text[pos..e];
    if line == [] || line == "\r\n" then [] else [line] + HeaderLines(text, e)
  }

  /** The name a header line files its value under: the text before the
      first colon, trimmed and lowercased; none without a colon. */
  function NameOf(line: string): Option<string> {
    match SplitOnce(line)
    case None => None
    case Some((k, _)) => Some(Lower(Trim(k)))
  }

  /** The value of a header line: the text after the first colon, trimmed. */
  function ValueOf(line: string): string
    requires NameOf(line).Some?
  {
    Trim(SplitOnce(line).value.1)
  }

  /** The `insert` of one line into the table; a line without a colon is
      passed over. */
  function AddHeader(headers: map<string, string>, line: string): map<string, string> {
    if NameOf(line).Some? then headers[NameOf(line).value := ValueOf(line)] else headers
  }

  /** The table after inserting `lines` in order into `headers`. */
  function Collect(headers: map<string, string>, lines: seq<string>): map<string, string>
    decreases |lines|
  {
    if lines == [] then headers else Collect(AddHeader(headers, lines[0]), lines[1..])
  }

  /** A header that several lines name holds the value of the last of them. */
  lemma {:induction false} LastHeaderWins(headers: map<string, string>, lines: seq<string>, name: string, i: nat)
    requires i < |lines| && NameOf(lines[i]) == Some(name)
    requires forall j | i < j < |lines| :: NameOf(lines[j]) != Some(name)
    ensures name in Collect(headers, lines) && Collect(headers, lines)[name] == ValueOf(lines[i])
    decreases i
  {
    if i == 0 {
      FirstHeaderWins(headers, lines, name);
    } else {
      NamesShift(lines, name, i);
      LastHeaderWins(AddHeader(headers, lines[0]), lines[1..], name, i - 1);
    }
  }

  /** The first line gives the value when no later line names its header. */
  lemma FirstHeaderWins(headers: map<string, string>, lines: seq<string>, name: string)
    requires 0 < |lines| && NameOf(lines[0]) == Some(name)
    requires forall j | 0 < j < |lines| :: NameOf(lines[j]) != Some(name)
    ensures name in Collect(headers, lines) && Collect(headers, lines)[name] == ValueOf(lines[0])
  {
    NamesShift(lines, name, 0);
    UnnamedHeaderKept(AddHeader(headers, lines[0]), lines[1..], name);
  }

  /** Dropping the first line moves every index down by one. */
  lemma NamesShift(lines: seq<string>, name: string, i: nat)
    requires i < |lines|
    requires forall j | i < j < |lines| :: NameOf(lines[j]) != Some(name)
    ensures forall j | i <= j < |lines| - 1 :: NameOf(lines[1..][j]) != Some(name)
    ensures i > 0 ==> lines[1..][i - 1] == lines[i]
  {
    forall j | i <= j < |lines| - 1 ensures NameOf(lines[1..][j]) != Some(name) {
      assert lines[1..][j] == lines[j + 1];
    }
  }

  /** A name no line gives is left as it was: absent stays absent. */
  lemma {:induction false} UnnamedHeaderKept(headers: map<string, string>, lines: seq<string>, name: string)
    requires forall j | 0 <= j < |lines| :: NameOf(lines[j]) != Some(name)
    ensures name in Collect(headers, lines) <==> name in headers
    ensures name in headers ==> Collect(headers, lines)[name] == headers[name]
    decreases |lines|
  {
    if lines != [] {
      UnnamedHeaderKept(AddHeader(headers, lines[0]), lines[1..], name);
    }
  }

  /** The loop of `handle_websocket_handshake` that reads the header lines
      from `start` into a table. */
  method ReadHeaders(request: string, start: nat) returns (headers: map<string, string>)
    requires start <= |request|
    ensures headers == Collect(map[], HeaderLines(request, start))
  {
    headers := map[];
    var pos := start;
    while true
      invariant pos <= |request|
      invariant Collect(headers, HeaderLines(request, pos)) == Collect(map[], HeaderLines(request, start))
      decreases |request| - pos
    {
      var next := LineEnd(request, pos);
      var line := request[pos..next];
      if |line| == 0 || line == "\r\n" {
        break;
      }
      pos := next;
      var split := SplitOnce(line);
      if split.Some? {
        headers := headers[Lower(Trim(split.value.0)) := Trim(split.value.1)];
      }
    }
  }

  // ----- the checks and the answer of the current handshake -----

  /** Why a handshake is turned down, each with the text of its
      `InvalidData` error. */
  datatype Refusal = InvalidMethod | MissingKey | BadUpgrade | BadConnection | UnsupportedVersion

  function RefusalText(why: Refusal): string {
    match why
    case InvalidMethod => "Invalid HTTP method"
    case MissingKey => "Missing Sec-WebSocket-Key"
    case BadUpgrade => "Missing or invalid Upgrade header"
    case BadConnection => "Missing or invalid Connection header"
    case UnsupportedVersion => "Unsupported Sec-WebSocket-Version"
  }

  /** How a handshake fails: turned down, or the answer could not be written. */
  datatype HandshakeError = Refused(why: Refusal) | WriteFailed(kind: IoErrorKind)

  predicate UpgradeOk(headers: map<string, string>) {
    "upgrade" in headers && Lower(headers["upgrade"]) == "websocket"
  }

  predicate ConnectionOk(headers: map<string, string>) {
    "connection" in headers && Contains(Lower(headers["connection"]), "upgrade")
  }

  predicate VersionOk(headers: map<string, string>) {
    "sec-websocket-version" in headers ==> Trim(headers["sec-websocket-version"]) == "13"
  }

  /** The checks, in the order the code makes them; the first that fails
      names the refusal. On success, the client's key. */
  function Check(requestLine: string, headers: map<string, string>): (r: Result<string, Refusal>)
    ensures r.Ok? <==> "GET" <= requestLine && "sec-websocket-key" in headers
                       && UpgradeOk(headers) && ConnectionOk(headers) && VersionOk(headers)
    ensures r.Ok? ==> r.value == headers["sec-websocket-key"]
    ensures r == Err(InvalidMethod) <==> !("GET" <= requestLine)
    ensures r == Err(MissingKey) ==> "sec-websocket-key" !in headers
  {
    if !("GET" <= requestLine) then Err(InvalidMethod)
    else if "sec-websocket-key" !in headers then Err(MissingKey)
    else if !UpgradeOk(headers) then Err(BadUpgrade)
    else if !ConnectionOk(headers) then Err(BadConnection)
    else if !VersionOk(headers) then Err(UnsupportedVersion)
    else Ok(headers["sec-websocket-key"])
  }

  /** The characters `Base64.encode` produces. */
  predicate IsBase64Char(c: char) {
    ('A' <= c <= 'Z') || ('a' <= c <= 'z') || ('0' <= c <= '9') || c == '+' || c == '/' || c == '='
  }

  /** `Sec-WebSocket-Accept` values: Base64 text. */
  type AcceptKey = s: string | forall i | 0 <= i < |s| :: IsBase64Char(s[i])

  // ----- the answer -----

  /** Printable ASCII other than the space. */
  predicate Visible(s: string) {
    forall i | 0 <= i < |s| :: '!' <= s[i] <= '~'
  }

  /** A header name: printable, not empty, no colon. */
  predicate FieldName(s: string) {
    s != [] && Visible(s) && forall i | 0 <= i < |s| :: s[i] != ':'
  }

  /** One `Name: value` line of a header block. */
  function Field(name: string, value: string): string {
    name + ": " + value + "\r\n"
  }

  /** Lines one after the other. */
  function Concat(lines: seq<string>): string
    decreases |lines|
  {
    if lines == [] then [] else lines[0] + Concat(lines[1..])
  }

  const StatusLine: string := "HTTP/1.1 101 Switching Protocols\r\n"

  /** The header lines `names[k]: values[k]`, in order. */
  function Fields(names: seq<string>, values: seq<string>): (r: seq<string>)
    requires |names| == |values|
    ensures |r| == |names| && forall k | 0 <= k < |r| :: r[k] == Field(names[k], values[k])
  {
    seq(|names|, k requires 0 <= k < |names| => Field(names[k], values[k]))
  }

  /** The header names of the answer, in order. */
  const ResponseNames: seq<string> := ["Upgrade", "Connection", "Sec-WebSocket-Accept", "Sec-WebSocket-Version"]

  /** The header values of the answer, in order. */
  function ResponseValues(accept: AcceptKey): seq<string> {
    ["websocket", "Upgrade", accept, "13"]
  }

  /** The header lines of the answer of the current handshake. */
  function ResponseFields(accept: AcceptKey): seq<string> {
    Fields(ResponseNames, ResponseValues(accept))
  }

  /** The answer of the current handshake: the status line, the header
      lines, and the empty line that ends them. */
  function Response(accept: AcceptKey): string {
    StatusLine + Concat(ResponseFields(accept)) + "\r\n"
  }

  /** The header lines of the answer of the legacy handshake: the same
      without `Sec-WebSocket-Version`. */
  function LegacyFields(accept: AcceptKey): seq<string> {
    Fields(ResponseNames[..3], ResponseValues(accept)[..3])
  }

  function LegacyResponse(accept: AcceptKey): string {
    StatusLine + Concat(LegacyFields(accept)) + "\r\n"
  }

  /** ASCII text: its UTF-8 bytes are its characters. */
  predicate IsAscii(s: string) {
    forall i | 0 <= i < |s| :: s[i] < 128 as char
  }

  /** A line with a single line feed, at its end. */
  predicate SingleLine(line: string) {
    |line| > 0 && line[|line| - 1] == '\n' && forall i | 0 <= i < |line| - 1 :: line[i] != '\n'
  }

  /** The answer as the bytes `write_all` sends. */
  function ResponseBytes(accept: AcceptKey): seq<byte> {
    ResponseIsAscii(accept);
    Ascii(Response(accept))
  }

  function LegacyResponseBytes(accept: AcceptKey): seq<byte> {
    ResponseIsAscii(accept);
    Ascii(LegacyResponse(accept))
  }

  /** A field line is one ASCII line, in which the header reader finds the
      lowercased name and the value. */
  lemma FieldReads(name: string, value: string)
    requires FieldName(name) && Visible(value)
    ensures var line := Field(name, value);
      && NameOf(line) == Some(Lower(name)) && ValueOf(line) == value
      && IsAscii(line) && SingleLine(line) && |line| > 2
  {
    FieldSplits(name, value);
    FieldShape(name, value);
    SeparatorsAreWhitespace();
    TrimPadded([], name, []);
    assert [] + name + [] == name;
    TrimPadded(" ", value, "\r\n");
  }

  /** The first colon of a field line is the one after the name. */
  lemma FieldSplits(name: string, value: string)
    requires FieldName(name)
    ensures SplitOnce(Field(name, value)) == Some((name, " " + value + "\r\n"))
  {
    var line := Field(name, value);
    var rest := " " + value + "\r\n";
    assert line == name + (":" + rest);
    assert line[|name|] == ':';
    assert forall j | 0 <= j < |name| :: line[j] == name[j];
    FirstAt(line, ':', |name|);
    assert line[..|name|] == name && line[|name| + 1..] == rest;
  }

  /** The first occurrence is the one with none before it. */
  lemma FirstAt(s: string, c: char, i: nat)
    requires i < |s| && s[i] == c && forall j | 0 <= j < i :: s[j] != c
    ensures FindFrom(s, c, 0) == Some(i)
  {
  }

  lemma FieldShape(name: string, value: string)
    requires Visible(name) && Visible(value)
    ensures var line := Field(name, value);
      IsAscii(line) && SingleLine(line) && |line| > 2
  {
    var line := Field(name, value);
    assert forall i | 0 <= i < |name| :: line[i] == name[i];
    assert forall i | |name| + 2 <= i < |name| + 2 + |value| :: line[i] == value[i - |name| - 2];
    assert line[|name|] == ':' && line[|name| + 1] == ' ';
    assert line[|line| - 2] == '\r' && line[|line| - 1] == '\n';
  }

  lemma SeparatorsAreWhitespace()
    ensures forall i | 0 <= i < |" "| :: IsWhitespace(" "[i])
    ensures forall i | 0 <= i < |"\r\n"| :: IsWhitespace("\r\n"[i])
  {
  }

  /** Header lines followed by the empty line are read back one by one, up
      to the empty line. */
  lemma {:induction false} HeaderLinesOfFields(text: string, pos: nat, fields: seq<string>)
    requires forall k | 0 <= k < |fields| :: SingleLine(fields[k]) && |fields[k]| > 2
    requires pos + |Concat(fields)| + 2 <= |text|
    requires text[pos..pos + |Concat(fields)| + 2] == Concat(fields) + "\r\n"
    ensures HeaderLines(text, pos) == fields
    decreases |text| - pos
  {
    if fields == [] {
      HeaderBlockEnd(text, pos);
    } else {
      var f, rest := fields[0], fields[1..];
      ConcatStep(fields, "\r\n");
      HeaderLineStep(text, pos, f, Concat(rest) + "\r\n");
      LinesShift(fields);
      HeaderLinesOfFields(text, pos + |f|, rest);
    }
  }

  lemma ConcatStep(lines: seq<string>, tail: string)
    requires lines != []
    ensures Concat(lines) + tail == lines[0] + (Concat(lines[1..]) + tail)
  {
  }

  lemma LinesShift(fields: seq<string>)
    requires fields != []
    requires forall k | 0 <= k < |fields| :: SingleLine(fields[k]) && |fields[k]| > 2
    ensures forall k | 0 <= k < |fields| - 1 :: SingleLine(fields[1..][k]) && |fields[1..][k]| > 2
  {
    forall k | 0 <= k < |fields| - 1 ensures SingleLine(fields[1..][k]) && |fields[1..][k]| > 2 {
      assert fields[1..][k] == fields[k + 1];
    }
  }

  /** The empty line ends the header block. */
  lemma HeaderBlockEnd(text: string, pos: nat)
    requires pos + 2 <= |text| && text[pos..pos + 2] == "\r\n"
    ensures HeaderLines(text, pos) == []
  {
    LineEndAt(text, pos, "\r\n");
  }

  /** A header line at `pos` is read and the reading goes on after it. */
  lemma HeaderLineStep(text: string, pos: nat, f: string, tail: string)
    requires SingleLine(f) && |f| > 2
    requires pos + |f| + |tail| <= |text| && text[pos..pos + |f| + |tail|] == f + tail
    ensures HeaderLines(text, pos) == [f] + HeaderLines(text, pos + |f|)
    ensures text[pos + |f|..pos + |f| + |tail|] == tail
  {
    assert text[pos..pos + |f|] == (f + tail)[..|f|] == f;
    LineEndAt(text, pos, f);
    assert text[pos + |f|..pos + |f| + |tail|] == (f + tail)[|f|..] == tail;
  }

  /** Lines of ASCII text make ASCII text. */
  lemma {:induction false} ConcatAscii(lines: seq<string>)
    requires forall k | 0 <= k < |lines| :: IsAscii(lines[k])
    ensures IsAscii(Concat(lines))
    decreases |lines|
  {
    if lines != [] {
      forall k | 0 <= k < |lines| - 1 ensures IsAscii(lines[1..][k]) {
        assert lines[1..][k] == lines[k + 1];
      }
      ConcatAscii(lines[1..]);
      AsciiConcat(lines[0], Concat(lines[1..]));
    }
  }

  lemma AsciiConcat(a: string, b: string)
    requires IsAscii(a) && IsAscii(b)
    ensures IsAscii(a + b)
  {
    assert forall i | |a| <= i < |a + b| :: (a + b)[i] == b[i - |a|];
  }

  /** Each name lowercased. */
  function LowerAll(names: seq<string>): (r: seq<string>)
    ensures |r| == |names| && forall k | 0 <= k < |r| :: r[k] == Lower(names[k])
  {
    seq(|names|, k requires 0 <= k < |names| => Lower(names[k]))
  }

  /** The table of lines whose names and values are known in advance. */
  function Updates(headers: map<string, string>, names: seq<string>, values: seq<string>): map<string, string>
    requires |names| == |values|
    decreases |names|
  {
    if names == [] then headers else Updates(headers[names[0] := values[0]], names[1..], values[1..])
  }

  lemma {:induction false} CollectNamed(headers: map<string, string>, lines: seq<string>, names: seq<string>, values: seq<string>)
    requires |lines| == |names| == |values|
    requires forall k | 0 <= k < |lines| :: NameOf(lines[k]) == Some(names[k]) && ValueOf(lines[k]) == values[k]
    ensures Collect(headers, lines) == Updates(headers, names, values)
    decreases |lines|
  {
    if lines != [] {
      forall k | 0 <= k < |lines| - 1
        ensures NameOf(lines[1..][k]) == Some(names[1..][k]) && ValueOf(lines[1..][k]) == values[1..][k]
      {
        assert lines[1..][k] == lines[k + 1];
      }
      CollectNamed(headers[names[0] := values[0]], lines[1..], names[1..], values[1..]);
    }
  }

  /** A header block written as `Name: value` lines and closed by the
      empty line is read back as written: the same lines, and a table that
      files each value under its lowercased name. */
  lemma FieldsReadBack(text: string, pos: nat, names: seq<string>, values: seq<string>)
    requires |names| == |values|
    requires forall k | 0 <= k < |names| :: FieldName(names[k]) && Visible(values[k])
    requires pos + |Concat(Fields(names, values))| + 2 <= |text|
    requires text[pos..pos + |Concat(Fields(names, values))| + 2] == Concat(Fields(names, values)) + "\r\n"
    ensures HeaderLines(text, pos) == Fields(names, values)
    ensures Collect(map[], HeaderLines(text, pos)) == Updates(map[], LowerAll(names), values)
  {
    var fields := Fields(names, values);
    FieldsAreLines(names, values);
    HeaderLinesOfFields(text, pos, fields);
    FieldsCollect(names, values);
  }

  /** Each of the lines is a single line. */
  lemma FieldsAreLines(names: seq<string>, values: seq<string>)
    requires |names| == |values|
    requires forall k | 0 <= k < |names| :: Visible(names[k]) && Visible(values[k])
    ensures var fields := Fields(names, values);
      forall k | 0 <= k < |fields| :: SingleLine(fields[k]) && |fields[k]| > 2 && IsAscii(fields[k])
  {
    var fields := Fields(names, values);
    forall k | 0 <= k < |fields| ensures SingleLine(fields[k]) && |fields[k]| > 2 && IsAscii(fields[k]) {
      FieldShape(names[k], values[k]);
    }
  }

  /** What the reader finds in each of the lines. */
  lemma FieldsRead(names: seq<string>, values: seq<string>)
    requires |names| == |values|
    requires forall k | 0 <= k < |names| :: FieldName(names[k]) && Visible(values[k])
    ensures var fields := Fields(names, values);
      forall k | 0 <= k < |fields| ::
        NameOf(fields[k]) == Some(LowerAll(names)[k]) && ValueOf(fields[k]) == values[k]
  {
    var fields := Fields(names, values);
    forall k | 0 <= k < |fields|
      ensures NameOf(fields[k]) == Some(LowerAll(names)[k]) && ValueOf(fields[k]) == values[k]
    {
      FieldReads(names[k], values[k]);
    }
  }

  /** The table the lines make. */
  lemma FieldsCollect(names: seq<string>, values: seq<string>)
    requires |names| == |values|
    requires forall k | 0 <= k < |names| :: FieldName(names[k]) && Visible(values[k])
    ensures Collect(map[], Fields(names, values)) == Updates(map[], LowerAll(names), values)
  {
    FieldsRead(names, values);
    CollectNamed(map[], Fields(names, values), LowerAll(names), values);
  }

  /** Header lines of printable text are ASCII. */
  lemma FieldsAscii(names: seq<string>, values: seq<string>)
    requires |names| == |values|
    requires forall k | 0 <= k < |names| :: Visible(names[k]) && Visible(values[k])
    ensures IsAscii(Concat(Fields(names, values)))
  {
    var fields := Fields(names, values);
    FieldsAreLines(names, values);
    ConcatAscii(fields);
  }

  lemma UpgradeConnectionNames()
    ensures FieldName("Upgrade") && Lower("Upgrade") == "upgrade"
    ensures FieldName("Connection") && Lower("Connection") == "connection"
  {
  }

  lemma AcceptName()
    ensures FieldName("Sec-WebSocket-Accept") && Lower("Sec-WebSocket-Accept") == "sec-websocket-accept"
  {
  }

  lemma VersionName()
    ensures FieldName("Sec-WebSocket-Version") && Lower("Sec-WebSocket-Version") == "sec-websocket-version"
  {
  }

  /** The names and values of the answer are printable, and the names
      lowercase to the keys a reader files them under. */
  lemma ResponseWellFormed(accept: AcceptKey)
    ensures forall k | 0 <= k < 4 :: FieldName(ResponseNames[k]) && Visible(ResponseValues(accept)[k])
    ensures LowerAll(ResponseNames) == ["upgrade", "connection", "sec-websocket-accept", "sec-websocket-version"]
  {
    UpgradeConnectionNames();
    AcceptName();
    VersionName();
    assert Visible("websocket") && Visible("Upgrade") && Visible("13") && Visible(accept);
  }

  lemma StatusLineShape()
    ensures SingleLine(StatusLine) && IsAscii(StatusLine)
  {
  }

  lemma SeparatorsAscii()
    ensures IsAscii("\r\n")
  {
  }

  lemma ResponseIsAscii(accept: AcceptKey)
    ensures IsAscii(Response(accept)) && IsAscii(LegacyResponse(accept))
  {
    var names, values := ResponseNames, ResponseValues(accept);
    ResponseWellFormed(accept);
    FieldsAscii(names, values);
    FieldsAscii(names[..3], values[..3]);
    StatusLineShape();
    SeparatorsAscii();
    AsciiConcat(StatusLine, Concat(ResponseFields(accept)));
    AsciiConcat(StatusLine + Concat(ResponseFields(accept)), "\r\n");
    AsciiConcat(StatusLine, Concat(LegacyFields(accept)));
    AsciiConcat(StatusLine + Concat(LegacyFields(accept)), "\r\n");
  }

  /** The answer of the current handshake is a well-formed header block:
      read back line by line as a request is, it gives exactly its four
      headers, the accept value unchanged. */
  lemma ResponseReadsBack(accept: AcceptKey)
    ensures LineEnd(Response(accept), 0) == |StatusLine|
    ensures HeaderLines(Response(accept), |StatusLine|) == ResponseFields(accept)
    ensures Collect(map[], HeaderLines(Response(accept), |StatusLine|))
         == map["upgrade" := "websocket", "connection" := "Upgrade",
                "sec-websocket-accept" := accept, "sec-websocket-version" := "13"]
  {
    var text := Response(accept);
    var block := Concat(ResponseFields(accept));
    ResponseWellFormed(accept);
    StatusLineShape();
    assert text == StatusLine + (block + "\r\n");
    assert text[..|StatusLine|] == StatusLine;
    LineEndAt(text, 0, StatusLine);
    assert text[|StatusLine|..|StatusLine| + |block| + 2] == block + "\r\n";
    FieldsReadBack(text, |StatusLine|, ResponseNames, ResponseValues(accept));
    ResponseTable(accept);
  }

  lemma ResponseTable(accept: AcceptKey)
    ensures Updates(map[], ["upgrade", "connection", "sec-websocket-accept", "sec-websocket-version"], ResponseValues(accept))
         == map["upgrade" := "websocket", "connection" := "Upgrade",
                "sec-websocket-accept" := accept, "sec-websocket-version" := "13"]
  {
  }

  /** The outcome of the current handshake on `request`: the accept value
      of the answer, or why the request is turned down. The request line
      comes first, then the header lines after it. */
  function Verdict(request: string, digest: string -> AcceptKey): Result<AcceptKey, Refusal> {
    var lineEnd := LineEnd(request, 0);
    match Check(request[..lineEnd], Collect(map[], HeaderLines(request, lineEnd)))
    case Err(why) => Err(why)
    case Ok(key) => Ok(digest(key + WsGuid))
  }

  /** `handle_websocket_handshake`: reads the request, checks it, and
      writes the answer. */
  method Accept(stream: Stream, request: string, digest: string -> AcceptKey) returns (r: Result<(), HandshakeError>)
    modifies stream`output
    ensures Verdict(request, digest).Err? ==>
      r == Err(Refused(Verdict(request, digest).error)) && stream.output == old(stream.output)
    ensures Verdict(request, digest).Ok? && stream.writeFault.None? ==>
      r == Ok(()) && stream.output == old(stream.output) + ResponseBytes(Verdict(request, digest).value)
    ensures Verdict(request, digest).Ok? && stream.writeFault.Some? ==>
      r == Err(WriteFailed(stream.writeFault.value)) && stream.output == old(stream.output)
  {
    var lineEnd := LineEnd(request, 0);
    var requestLine := request[..lineEnd];
    if !("GET" <= requestLine) {
      return Err(Refused(InvalidMethod));
    }
    var headers := ReadHeaders(request, lineEnd);
    if "sec-websocket-key" !in headers {
      return Err(Refused(MissingKey));
    }
    var key := headers["sec-websocket-key"];
    if !("upgrade" in headers && Lower(headers["upgrade"]) == "websocket") {
      return Err(Refused(BadUpgrade));
    }
    if !("connection" in headers && Contains(Lower(headers["connection"]), "upgrade")) {
      return Err(Refused(BadConnection));
    }
    if "sec-websocket-version" in headers && Trim(headers["sec-websocket-version"]) != "13" {
      return Err(Refused(UnsupportedVersion));
    }
    var accept := digest(key + WsGuid);
    var written := stream.WriteAll(ResponseBytes(accept));
    if written.Err? {
      return Err(WriteFailed(written.error));
    }
    return Ok(());
  }

  // ----- the legacy handshake -----

  /** `str::lines`: the text cut at each line feed, with a carriage return
      just before it dropped; a last line without a line feed is kept as it
      stands. */
  function TextLines(s: string): (lines: seq<string>)
    ensures lines == [] <==> s == []
    ensures forall k | 0 <= k < |lines| :: forall j | 0 <= j < |lines[k]| :: lines[k][j] != '\n'
    decreases |s|
  {
    if s == [] then []
    else match FindFrom(s, '\n', 0)
      case None => [s]
      case Some(i) => [DropCr(s[..i])] + TextLines(s[i + 1..])
  }

  /** A line as `lines` hands it out: one carriage return at its end dropped. */
  function DropCr(a: string): string {
    if |a| > 0 && a[|a| - 1] == '\r' then a[..|a| - 1] else a
  }

  /** A last line without a line feed is one line, kept as it stands. */
  lemma TextLinesOfLine(a: string)
    requires a != [] && forall j | 0 <= j < |a| :: a[j] != '\n'
    ensures TextLines(a) == [a]
  {
  }

  /** Text up to the first line feed is the first line, less a carriage
      return before the line feed, and the lines of the rest follow it. */
  lemma TextLinesCons(a: string, b: string)
    requires forall j | 0 <= j < |a| :: a[j] != '\n'
    ensures TextLines(a + "\n" + b) == [DropCr(a)] + TextLines(b)
  {
    var s := a + "\n" + b;
    assert s[|a|] == '\n';
    assert FindFrom(s, '\n', 0) == Some(|a|);
    assert s[..|a|] == a && s[|a| + 1..] == b;
  }

  /** A line the legacy handshake takes for the key line: lowercased, it
      starts with `sec-websocket-key`. */
  predicate IsKeyLine(line: string) {
    "sec-websocket-key" <= Lower(line)
  }

  /** `find`: the index of the first key line at or after `k`. */
  function FindKeyLine(lines: seq<string>, k: nat): (r: Option<nat>)
    requires k <= |lines|
    ensures r.Some? ==> k <= r.value < |lines| && IsKeyLine(lines[r.value])
                        && forall j | k <= j < r.value :: !IsKeyLine(lines[j])
    ensures r.None? ==> forall j | k <= j < |lines| :: !IsKeyLine(lines[j])
    decreases |lines| - k
  {
    if k == |lines| then None else if IsKeyLine(lines[k]) then Some(k) else FindKeyLine(lines, k + 1)
  }

  /** How the legacy handshake ends as the code is written: answered, turned
      down, or the thread panics on `unwrap`. */
  datatype LegacyOutcome = Answered(accept: AcceptKey) | TurnedDown(why: Refusal) | Panicked

  /** The legacy handshake as written: the key is the text after the first
      colon of the first key line, and a key line without a colon makes
      `nth(1)` give `None`, which `unwrap` turns into a panic. */
  function LegacyOutcomeAsWritten(request: string, digest: string -> AcceptKey): LegacyOutcome {
    var lines := TextLines(request);
    match FindKeyLine(lines, 0)
    case None => TurnedDown(MissingKey)
    case Some(i) =>
      match SplitOnce(lines[i])
      case None => Panicked
      case Some((_, rest)) => Answered(digest(Trim(rest) + WsGuid))
  }

  /** A request made of one key line without a colon panics the legacy
      handshake where the current one turns it down. */
  lemma BareKeyLinePanics(line: string, digest: string -> AcceptKey)
    requires IsKeyLine(line)
    requires forall j | 0 <= j < |line| :: line[j] != ':' && line[j] != '\n'
    ensures LegacyOutcomeAsWritten(line, digest) == Panicked
  {
    assert line != [] by { assert |Lower(line)| >= 17; }
    assert FindFrom(line, '\n', 0).None?;
    assert TextLines(line) == [line];
    assert FindKeyLine([line], 0) == Some(0);
  }

  /** The line `Sec-WebSocket-Key` alone is such a request. */
  lemma BareKeyLineExample(digest: string -> AcceptKey)
    ensures LegacyOutcomeAsWritten("Sec-WebSocket-Key", digest) == Panicked
  {
    var line := "Sec-WebSocket-Key";
    assert Lower(line) == "sec-websocket-key";
    BareKeyLinePanics(line, digest);
  }

  /** The client's key among the lines of the legacy request, without the
      panic: a key line without a colon counts as no key at all, as it does
      for the current handshake. */
  function KeyInLines(lines: seq<string>): (r: Result<string, Refusal>)
    ensures r.Err? ==> r.error == MissingKey
  {
    match FindKeyLine(lines, 0)
    case None => Err(MissingKey)
    case Some(i) =>
      match SplitOnce(lines[i])
      case None => Err(MissingKey)
      case Some((_, rest)) => Ok(Trim(rest))
  }

  /** The client's key for the legacy handshake, repaired. */
  function LegacyKey(request: string): Result<string, Refusal> {
    KeyInLines(TextLines(request))
  }

  /** The key is the trimmed text after the first colon of the first key
      line. */
  lemma KeyInLinesFound(lines: seq<string>, i: nat, c: nat)
    requires i < |lines| && c < |lines[i]|
    requires IsKeyLine(lines[i]) && forall j | 0 <= j < i :: !IsKeyLine(lines[j])
    requires lines[i][c] == ':' && forall d | 0 <= d < c :: lines[i][d] != ':'
    ensures KeyInLines(lines) == Ok(Trim(lines[i][c + 1..]))
  {
    assert FindKeyLine(lines, 0) == Some(i);
    assert FindFrom(lines[i], ':', 0) == Some(c);
  }

  /** On a request whose first line is the key line, the key is the trimmed
      text after that line's first colon, whatever follows. */
  lemma LegacyKeyOnFirstLine(a: string, b: string, c: nat)
    requires forall j | 0 <= j < |a| :: a[j] != '\n'
    requires IsKeyLine(DropCr(a)) && c < |DropCr(a)|
    requires DropCr(a)[c] == ':' && forall d | 0 <= d < c :: DropCr(a)[d] != ':'
    ensures LegacyKey(a + "\n" + b) == Ok(Trim(DropCr(a)[c + 1..]))
  {
    TextLinesCons(a, b);
    KeyInLinesFound([DropCr(a)] + TextLines(b), 0, c);
  }

  /** There is no key exactly when no line is a key line or the first key
      line has no colon. */
  lemma KeyInLinesMissing(lines: seq<string>)
    ensures KeyInLines(lines).Err? <==>
      forall i | 0 <= i < |lines| && IsKeyLine(lines[i]) && (forall j | 0 <= j < i :: !IsKeyLine(lines[j])) ::
        forall c | 0 <= c < |lines[i]| :: lines[i][c] != ':'
  {
    var found := FindKeyLine(lines, 0);
    if found.Some? {
      forall i | 0 <= i < |lines| && IsKeyLine(lines[i]) && (forall j | 0 <= j < i :: !IsKeyLine(lines[j]))
        ensures i == found.value
      {
      }
    }
  }

  /** The repair changes nothing but the panic: where the code as written
      answers or turns the request down, the repaired handshake does the
      same, and where it panics, the repaired one turns the request down. */
  lemma LegacyRepairOnlyRemovesPanic(request: string, digest: string -> AcceptKey)
    ensures match LegacyOutcomeAsWritten(request, digest)
      case Answered(accept) => LegacyVerdict(request, digest) == Ok(accept)
      case TurnedDown(why) => LegacyVerdict(request, digest) == Err(why)
      case Panicked => LegacyVerdict(request, digest) == Err(MissingKey)
  {
  }

  /** The outcome of the legacy handshake, repaired. */
  function LegacyVerdict(request: string, digest: string -> AcceptKey): Result<AcceptKey, Refusal> {
    match LegacyKey(request)
    case Err(why) => Err(why)
    case Ok(key) => Ok(digest(key + WsGuid))
  }

  /** The legacy `handle_websocket_handshake`: finds the key in the text of
      one read and writes the answer; a key line without a colon is turned
      down rather than panicking. */
  method LegacyAccept(stream: Stream, request: string, digest: string -> AcceptKey) returns (r: Result<(), HandshakeError>)
    modifies stream`output
    ensures LegacyVerdict(request, digest).Err? ==>
      r == Err(Refused(LegacyVerdict(request, digest).error)) && stream.output == old(stream.output)
    ensures LegacyVerdict(request, digest).Ok? && stream.writeFault.None? ==>
      r == Ok(()) && stream.output == old(stream.output) + LegacyResponseBytes(LegacyVerdict(request, digest).value)
    ensures LegacyVerdict(request, digest).Ok? && stream.writeFault.Some? ==>
      r == Err(WriteFailed(stream.writeFault.value)) && stream.output == old(stream.output)
  {
    var lines := TextLines(request);
    var found := FindKeyLine(lines, 0);
    if found.None? {
      return Err(Refused(MissingKey));
    }
    var split := SplitOnce(lines[found.value]);
    if split.None? {
      return Err(Refused(MissingKey));
    }
    var key := Trim(split.value.1);
    var written := stream.WriteAll(LegacyResponseBytes(digest(key + WsGuid)));
    if written.Err? {
      return Err(WriteFailed(written.error));
    }
    return Ok(());
  }
}
