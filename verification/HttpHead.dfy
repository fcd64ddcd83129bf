/** HTTP/1.x response heads: splitting a raw response into status, headers and
body, and assembling the heads the range downloader sends to its client. */
module HttpHead {
  import opened Arithmetic
  import opened Text
  import opened Wrappers

  datatype Header = Header(name: seq<byte>, value: seq<byte>)

  datatype Response = Response(status: nat, headers: seq<Header>, body: seq<byte>)

  const PLUS: byte := 43
  const END_OF_HEAD: seq<byte> := [CR, LF, CR, LF]

  /** The bytes of an ASCII literal. */
  function Bytes(s: string): (b: seq<byte>)
    ensures |b| == |s|
    ensures forall i :: 0 <= i < |s| ==> b[i] == s[i] as int % 256
  {
    seq(|s|, i requires 0 <= i < |s| => s[i] as int % 256)
  }

  // ---------- Decimal numbers ----------

  predicate Digit(b: byte) {
    48 <= b <= 57
  }

  predicate Digits(s: seq<byte>) {
    forall i :: 0 <= i < |s| ==> Digit(s[i])
  }

  function DecimalValue(s: seq<byte>): nat
    requires Digits(s)
  {
    if s == [] then 0 else 10 * DecimalValue(s[..|s| - 1]) + (s[|s| - 1] - 48)
  }

  lemma DigitBehind(t: seq<byte>, d: byte)
    requires Digits(t) && Digit(d)
    ensures Digits(t + [d]) && DecimalValue(t + [d]) == 10 * DecimalValue(t) + (d - 48)
  {
    assert (t + [d])[..|t|] == t;
  }

  function Decimal(n: nat): (s: seq<byte>)
    ensures s != [] && Digits(s) && DecimalValue(s) == n
  {
    var front := if n < 10 then [] else Decimal(n / 10);
    DigitBehind(front, 48 + n % 10);
    front + [48 + n % 10]
  }

  /** Unsigned parsing: an optional plus sign, at least one digit, no overflow. */
  function ParseUint(s: seq<byte>, max: nat): (r: Option<nat>)
    ensures r.Some? ==> r.value <= max
  {
    var digits := if s != [] && s[0] == PLUS then s[1..] else s;
    if digits != [] && Digits(digits) && DecimalValue(digits) <= max then Some(DecimalValue(digits)) else None
  }

  lemma ParseUintDecimal(n: nat, max: nat)
    requires n <= max
    ensures ParseUint(Decimal(n), max) == Some(n)
  {
  }

  // ---------- Splitting a response ----------

  /** The text cut at every line feed; never empty. */
  function Lines(s: seq<byte>): (r: seq<seq<byte>>)
    ensures r != []
    ensures forall i :: 0 <= i < |r| ==> LF !in r[i]
    decreases |s|
  {
    var i := IndexOf(s, LF);
    if i == -1 then [s] else [s[..i]] + Lines(s[i + 1..])
  }

  function StripCr(s: seq<byte>): (r: seq<byte>)
    ensures |r| <= |s| && r == s[..|r|]
    ensures r == [] || r[|r| - 1] != CR
  {
    if s != [] && s[|s| - 1] == CR then StripCr(s[..|s| - 1]) else s
  }

  /** The second blank-separated word of the status line. */
  function StatusCode(line: seq<byte>): (r: Option<nat>) {
    var i := IndexOf(line, SPACE);
    if i == -1 then None
    else
      var rest := line[i + 1..];
      var j := IndexOf(rest, SPACE);
      ParseUint(if j == -1 then rest else rest[..j], 65_535)
  }

  /** The header on a line; blank lines and lines without a colon carry none. */
  function HeaderOn(line: seq<byte>): (r: seq<Header>) {
    var i := IndexOf(line, COLON);
    if i == -1 then [] else [Header(Trim(line[..i]), Trim(line[i + 1..]))]
  }

  function ParseHeaders(lines: seq<seq<byte>>): (r: Option<seq<Header>>) {
    if lines == [] then Some([])
    else if !Utf8(lines[0]) then None
    else
      var rest := ParseHeaders(lines[1..]);
      if rest.None? then None else Some(HeaderOn(StripCr(lines[0])) + rest.value)
  }

  function SplitResponse(raw: seq<byte>): (r: Option<Response>) {
    var sep := Find(raw, END_OF_HEAD);
    if sep < 0 then None
    else
      var lines := Lines(raw[..sep]);
      if !Utf8(lines[0]) then None
      else
        var code := StatusCode(StripCr(lines[0]));
        var headers := ParseHeaders(lines[1..]);
        if code.None? || headers.None? then None
        else Some(Response(code.value, headers.value, raw[sep + 4..]))
  }

  // ---------- Assembling a head ----------

  function Lower(s: seq<byte>): (r: seq<byte>)
    ensures |r| == |s|
    ensures forall i :: 0 <= i < |s| ==> r[i] == if 65 <= s[i] <= 90 then s[i] + 32 else s[i]
  {
    seq(|s|, i requires 0 <= i < |s| => if 65 <= s[i] <= 90 then s[i] + 32 else s[i])
  }

  /** Headers that describe the transfer of the source response, not the entity. */
  predicate Dropped(name: seq<byte>) {
    var n := Lower(name);
    || n == Bytes("content-length") || n == Bytes("content-range")
    || n == Bytes("content-encoding") || n == Bytes("transfer-encoding")
    || n == Bytes("connection") || n == Bytes("keep-alive")
  }

  function Kept(headers: seq<Header>): (r: seq<Header>)
    ensures forall i :: 0 <= i < |r| ==> r[i] in headers && !Dropped(r[i].name)
  {
    if headers == [] then []
    else if Dropped(headers[0].name) then Kept(headers[1..])
    else [headers[0]] + Kept(headers[1..])
  }

  function StatusText(code: nat, reason: string): seq<byte> {
    Bytes("HTTP/1.1") + [SPACE] + Decimal(code) + [SPACE] + Bytes(reason)
  }

  function FieldLine(h: Header): seq<byte> {
    h.name + [COLON, SPACE] + h.value
  }

  /** A status line, one line per header, and the blank line. */
  function Head(statusLine: seq<byte>, headers: seq<Header>): seq<byte> {
    statusLine + CRLF + Fields(headers) + CRLF
  }

  function Fields(headers: seq<Header>): seq<byte> {
    if headers == [] then [] else FieldLine(headers[0]) + CRLF + Fields(headers[1..])
  }

  function ContentLength(n: nat): Header {
    Header(Bytes("Content-Length"), Decimal(n))
  }

  function Assemble200Head(headers: seq<Header>, length: nat): seq<byte> {
    Head(StatusText(200, "OK"), Kept(headers) + [ContentLength(length)])
  }

  function AssembleFull200(headers: seq<Header>, body: seq<byte>): seq<byte> {
    Assemble200Head(headers, |body|) + body
  }

  function Rewrite206To200(raw: seq<byte>): (r: seq<byte>) {
    match SplitResponse(raw)
    case None => raw
    case Some(p) => AssembleFull200(p.headers, p.body)
  }

  function ContentRangeValue(start: nat, end: nat, total: nat): seq<byte> {
    Bytes("bytes ") + Decimal(start) + [45] + Decimal(end) + [47] + Decimal(total)
  }

  /** The head of a resumed download: the rest of the entity from `start` on. */
  function Assemble206Head(headers: seq<Header>, start: nat, total: nat): seq<byte>
    requires 0 < total
  {
    var length := if total < start then 0 else total - start;
    Head(StatusText(206, "Partial Content"),
         Kept(headers) + [Header(Bytes("Content-Range"), ContentRangeValue(start, total - 1, total)),
                          ContentLength(length)])
  }

  // ---------- What splitting yields ----------

  /** A header as splitting yields it: text, trimmed, on one line, no colon in the name. */
  predicate Clean(h: Header) {
    && Utf8(h.name) && Trimmed(h.name) && LF !in h.name && COLON !in h.name
    && Utf8(h.value) && Trimmed(h.value) && LF !in h.value
  }

  predicate AllClean(headers: seq<Header>) {
    forall i :: 0 <= i < |headers| ==> Clean(headers[i])
  }

  lemma TrimSubset(s: seq<byte>, b: byte)
    requires b !in s
    ensures b !in Trim(s)
  {
    hide TrimStart, TrimEnd;
    TrimStartLeaves(s);
    var t := TrimStart(s);
    assert b !in t;
  }

  lemma {:induction false} StripCrUtf8(s: seq<byte>)
    requires Utf8(s)
    ensures Utf8(StripCr(s))
    decreases |s|
  {
    if s != [] && s[|s| - 1] == CR {
      Utf8Split(s, |s| - 1);
      StripCrUtf8(s[..|s| - 1]);
    }
  }

  lemma CutAtColon(line: seq<byte>, i: nat)
    requires Utf8(line) && i < |line| && line[i] == COLON
    ensures Utf8(line[..i]) && Utf8(line[i + 1..])
  {
    Utf8Split(line, i);
    hide Utf8;
    AsciiIsUtf8([COLON]);
    assert line[i..] == [COLON] + line[i + 1..];
    Utf8Concat([COLON], line[i + 1..]);
  }

  lemma TrimClean(k: seq<byte>, v: seq<byte>)
    requires Utf8(k) && LF !in k && COLON !in k && Utf8(v) && LF !in v
    ensures Clean(Header(Trim(k), Trim(v)))
  {
    hide Utf8, Trim, Trimmed;
    TrimUtf8(k);
    TrimUtf8(v);
    TrimTrims(k);
    TrimTrims(v);
    TrimSubset(k, LF);
    TrimSubset(k, COLON);
    TrimSubset(v, LF);
  }

  lemma HeaderOnClean(line: seq<byte>)
    requires Utf8(line) && LF !in line
    ensures AllClean(HeaderOn(line))
  {
    hide Utf8, Trim, Clean;
    var i := IndexOf(line, COLON);
    if i >= 0 {
      CutAtColon(line, i);
      TrimClean(line[..i], line[i + 1..]);
    }
  }

  lemma {:induction false} ParseHeadersClean(lines: seq<seq<byte>>)
    requires ParseHeaders(lines).Some?
    requires forall i :: 0 <= i < |lines| ==> LF !in lines[i]
    ensures AllClean(ParseHeaders(lines).value)
  {
    hide Utf8, HeaderOn, Clean;
    if lines != [] {
      StripCrUtf8(lines[0]);
      HeaderOnClean(StripCr(lines[0]));
      ParseHeadersClean(lines[1..]);
    }
  }

  lemma SplitClean(raw: seq<byte>)
    requires SplitResponse(raw).Some?
    ensures AllClean(SplitResponse(raw).value.headers)
  {
    hide Utf8, Clean, ParseHeaders, Lines, Find, StatusCode;
    ParseHeadersClean(Lines(raw[..Find(raw, END_OF_HEAD)])[1..]);
  }

  // ---------- Splitting what was assembled ----------

  /** Lines joined by line ends. */
  function Joined(lines: seq<seq<byte>>): seq<byte>
    requires lines != []
  {
    if |lines| == 1 then lines[0] else lines[0] + CRLF + Joined(lines[1..])
  }

  /** The same lines as cutting at line feeds shows them. */
  function WithCr(lines: seq<seq<byte>>): seq<seq<byte>> {
    if |lines| <= 1 then lines else [lines[0] + [CR]] + WithCr(lines[1..])
  }

  /** Lines that hold no line feed and, after the first, something. */
  predicate Plain(lines: seq<seq<byte>>) {
    && (forall i :: 0 <= i < |lines| ==> LF !in lines[i])
    && (forall i :: 0 < i < |lines| ==> lines[i] != [])
  }

  lemma {:induction false} LinesOfJoined(lines: seq<seq<byte>>)
    requires lines != [] && Plain(lines)
    ensures Lines(Joined(lines)) == WithCr(lines)
  {
    if |lines| > 1 {
      var line, rest := lines[0], Joined(lines[1..]);
      var s := line + CRLF + rest;
      assert s[..|line| + 1] == line + [CR];
      IndexOfIs(s, LF, |line| + 1);
      assert s[|line| + 2..] == rest;
      LinesOfJoined(lines[1..]);
    }
  }

  lemma {:induction false} NoEarlyEnd(lines: seq<seq<byte>>, body: seq<byte>, j: nat)
    requires lines != [] && Plain(lines) && j < |Joined(lines)|
    ensures !MatchesAt(Joined(lines) + END_OF_HEAD + body, END_OF_HEAD, j)
    decreases |lines|
  {
    hide MatchesAt;
    var line := lines[0];
    if |lines| == 1 {
      assert Joined(lines) + END_OF_HEAD + body == line + [CR] + ([LF, CR, LF] + body);
      NoEndInLine(line, [LF, CR, LF] + body, j);
    } else {
      var t := Joined(lines[1..]) + END_OF_HEAD + body;
      var s := Joined(lines) + END_OF_HEAD + body;
      assert s == line + CRLF + t;
      if j < |line| {
        assert s == line + [CR] + ([LF] + t);
        NoEndInLine(line, [LF] + t, j);
      } else if j < |line| + 2 {
        NextLineStarts(lines[1..], body);
        NoEndBetween(line, t, j);
      } else {
        NoEarlyEnd(lines[1..], body, j - |line| - 2);
        EndShifts(line + CRLF, t, j);
      }
    }
  }

  /** Behind a line break comes something other than another line break. */
  lemma NextLineStarts(lines: seq<seq<byte>>, body: seq<byte>)
    requires lines != [] && lines[0] != [] && LF !in lines[0]
    ensures var t := Joined(lines) + END_OF_HEAD + body;
            2 <= |t| && t[1] != LF
  {
    var line, t := lines[0], Joined(lines) + END_OF_HEAD + body;
    assert t[..|line| + 1] == line + [CR];
    assert t[1] == (line + [CR])[1];
  }

  lemma NoEndBetween(line: seq<byte>, t: seq<byte>, j: nat)
    requires 2 <= |t| && t[1] != LF && |line| <= j < |line| + 2
    ensures !MatchesAt(line + CRLF + t, END_OF_HEAD, j)
  {
    var s := line + CRLF + t;
    if j + 4 <= |s| {
      var window := s[j..j + 4];
      assert window[0] == s[j] && window[3] == s[j + 3];
    }
  }

  lemma EndShifts(a: seq<byte>, t: seq<byte>, j: nat)
    requires |a| <= j
    ensures MatchesAt(a + t, END_OF_HEAD, j) <==> MatchesAt(t, END_OF_HEAD, j - |a|)
  {
    if j + 4 <= |a| + |t| { assert (a + t)[j..j + 4] == t[j - |a|..j - |a| + 4]; }
  }

  lemma NoEndInLine(line: seq<byte>, rest: seq<byte>, j: nat)
    requires LF !in line && j < |line| && 3 <= |rest|
    ensures !MatchesAt(line + [CR] + rest, END_OF_HEAD, j)
  {
    var window := (line + [CR] + rest)[j..j + 4];
    assert window[1] == if j + 1 < |line| then line[j + 1] else CR;
    assert window[1] != END_OF_HEAD[1];
  }

  lemma EndFound(lines: seq<seq<byte>>, body: seq<byte>)
    requires lines != [] && Plain(lines)
    ensures Find(Joined(lines) + END_OF_HEAD + body, END_OF_HEAD) == |Joined(lines)|
  {
    var s, n := Joined(lines) + END_OF_HEAD + body, |Joined(lines)|;
    assert s[n..n + 4] == END_OF_HEAD;
    forall j | 0 <= j < n ensures !MatchesAt(s, END_OF_HEAD, j) { NoEarlyEnd(lines, body, j); }
    FindIs(s, END_OF_HEAD, n);
  }

  function FieldLines(headers: seq<Header>): seq<seq<byte>> {
    if headers == [] then [] else [FieldLine(headers[0])] + FieldLines(headers[1..])
  }

  lemma {:induction false} HeadIsJoined(statusLine: seq<byte>, headers: seq<Header>)
    ensures Head(statusLine, headers) == Joined([statusLine] + FieldLines(headers)) + END_OF_HEAD
    decreases |headers|
  {
    var lines := [statusLine] + FieldLines(headers);
    if headers == [] {
      assert lines == [statusLine];
      assert statusLine + CRLF + [] + CRLF == statusLine + END_OF_HEAD;
    } else {
      HeadIsJoined(FieldLine(headers[0]), headers[1..]);
      assert lines[1..] == [FieldLine(headers[0])] + FieldLines(headers[1..]);
      var rest := Head(FieldLine(headers[0]), headers[1..]);
      assert Head(statusLine, headers) == statusLine + CRLF + rest;
    }
  }

  lemma {:induction false} FieldLinesPlain(headers: seq<Header>)
    requires AllClean(headers)
    ensures forall i :: 0 <= i < |FieldLines(headers)| ==> FieldLines(headers)[i] != [] && LF !in FieldLines(headers)[i]
  {
    hide Utf8, Trimmed;
    if headers != [] {
      assert Clean(headers[0]);
      FieldLinesPlain(headers[1..]);
    }
  }

  /** A clean header is read back from its own line. */
  lemma FieldLineReads(h: Header, cr: seq<byte>)
    requires Clean(h) && cr in {[], [CR]}
    ensures Utf8(FieldLine(h) + cr)
    ensures HeaderOn(StripCr(FieldLine(h) + cr)) == [h]
  {
    FieldLineText(h, cr);
    FieldLineStrips(h, cr);
    HeaderOnField(h);
  }

  lemma HeaderOnField(h: Header)
    requires Trimmed(h.name) && Trimmed(h.value) && COLON !in h.name
    ensures HeaderOn(FieldLine(h)) == [h]
  {
    hide FieldLine, IndexOf, Trim, Trimmed;
    FieldLineParts(h);
    TrimOfTrimmed(h.name);
    TrimOfTrimmed(h.value);
  }

  lemma FieldLineParts(h: Header)
    requires COLON !in h.name
    ensures var line, n := FieldLine(h), |h.name|;
            |line| > n && line[..n] == h.name && line[n + 1..] == [SPACE] + h.value && IndexOf(line, COLON) == n
  {
    IndexOfIs(FieldLine(h), COLON, |h.name|);
  }

  lemma FieldLineText(h: Header, cr: seq<byte>)
    requires Clean(h) && cr in {[], [CR]}
    ensures Utf8(FieldLine(h) + cr)
  {
    hide Utf8, Trimmed;
    var colon: seq<byte> := [COLON, SPACE];
    AsciiIsUtf8(cr);
    AsciiIsUtf8(colon);
    Utf8Concat(h.value, cr);
    Utf8Concat(colon, h.value + cr);
    Utf8Concat(h.name, colon + (h.value + cr));
    assert FieldLine(h) + cr == h.name + (colon + (h.value + cr));
  }

  lemma FieldLineStrips(h: Header, cr: seq<byte>)
    requires Trimmed(h.value) && cr in {[], [CR]}
    ensures StripCr(FieldLine(h) + cr) == FieldLine(h)
  {
    var line := FieldLine(h);
    assert line[|line| - 1] == if h.value == [] then SPACE else h.value[|h.value| - 1];
    assert line[|line| - 1] != CR;
    assert line + [] == line;
    assert (line + [CR])[..|line|] == line;
  }

  lemma {:induction false} FieldLinesRead(headers: seq<Header>)
    requires AllClean(headers)
    ensures ParseHeaders(WithCr(FieldLines(headers))) == Some(headers)
  {
    hide Clean, Utf8, HeaderOn, StripCr;
    if headers != [] {
      var lines := FieldLines(headers);
      assert lines[1..] == FieldLines(headers[1..]);
      FieldLineReads(headers[0], []);
      FieldLineReads(headers[0], [CR]);
      FieldLinesRead(headers[1..]);
      assert lines[0] + [] == lines[0];
      assert WithCr(lines)[1..] == WithCr(lines[1..]);
      assert [headers[0]] + headers[1..] == headers;
    }
  }

  /** A status line that splitting reads as `code`. */
  predicate StatusLine(line: seq<byte>, code: nat) {
    Ascii(line) && LF !in line && CR !in line && StatusCode(line) == Some(code)
  }

  /** Splitting an assembled head gives back its status, its headers and the body. */
  lemma SplitAssembled(statusLine: seq<byte>, code: nat, headers: seq<Header>, body: seq<byte>)
    requires StatusLine(statusLine, code) && AllClean(headers)
    ensures SplitResponse(Head(statusLine, headers) + body) == Some(Response(code, headers, body))
  {
    var lines := [statusLine] + FieldLines(headers);
    var raw := Joined(lines) + END_OF_HEAD + body;
    HeadIsJoined(statusLine, headers);
    assert Plain(lines) by { FieldLinesPlain(headers); }
    hide SplitResponse, Find, Lines, Utf8, StatusCode, ParseHeaders, AllClean, StripCr;
    hide WithCr, Joined, Plain, FieldLines, Head;
    EndFound(lines, body);
    LinesOfJoined(lines);
    StatusLineReads(statusLine, headers, code);
    FieldLinesRead(headers);
    assert raw[..|Joined(lines)|] == Joined(lines) && raw[|Joined(lines)| + 4..] == body;
    SplitIs(raw, |Joined(lines)|, code, headers);
  }

  lemma SplitIs(raw: seq<byte>, n: nat, code: nat, headers: seq<Header>)
    requires Find(raw, END_OF_HEAD) == n
    requires var lines := Lines(raw[..n]);
             Utf8(lines[0]) && StatusCode(StripCr(lines[0])) == Some(code) && ParseHeaders(lines[1..]) == Some(headers)
    ensures SplitResponse(raw) == Some(Response(code, headers, raw[n + 4..]))
  {
  }

  lemma StatusLineReads(statusLine: seq<byte>, headers: seq<Header>, code: nat)
    requires StatusLine(statusLine, code)
    ensures var cut := WithCr([statusLine] + FieldLines(headers));
            && cut != [] && cut[1..] == WithCr(FieldLines(headers))
            && Utf8(cut[0]) && StatusCode(StripCr(cut[0])) == Some(code)
  {
    hide Utf8, StatusCode;
    var lines := [statusLine] + FieldLines(headers);
    assert lines[1..] == FieldLines(headers);
    AsciiIsUtf8(statusLine);
    AsciiIsUtf8(statusLine + [CR]);
    assert (statusLine + [CR])[..|statusLine|] == statusLine;
  }

  // ---------- Main results ----------

  /** ASCII text between space and tilde. */
  predicate Printable(s: string) {
    forall i :: 0 <= i < |s| ==> ' ' <= s[i] <= '~'
  }

  lemma PrintableBytes(s: string)
    requires Printable(s)
    ensures Ascii(Bytes(s)) && LF !in Bytes(s) && CR !in Bytes(s)
  {
  }

  /** The code is the second word, whatever the version, up to 16 bits. */
  lemma StatusCodeReads(version: seq<byte>, code: nat, reason: seq<byte>)
    requires SPACE !in version
    ensures StatusCode(version + [SPACE] + Decimal(code) + [SPACE] + reason)
         == if code <= 65_535 then Some(code) else None
    ensures ParseUint([PLUS] + Decimal(code), 65_535) == ParseUint(Decimal(code), 65_535)
  {
    hide Decimal, DecimalValue;
    var digits := Decimal(code);
    assert SPACE !in digits && digits[0] != PLUS;
    assert ([PLUS] + digits)[1..] == digits;
    SecondWord(version, digits, reason);
  }

  /** A status line gives its code back. */
  lemma StatusTextReads(code: nat, reason: string)
    requires code <= 65_535 && Printable(reason)
    ensures StatusLine(StatusText(code, reason), code)
  {
    hide StatusCode, ParseUint, Decimal;
    var version, digits := Bytes("HTTP/1.1"), Decimal(code);
    PrintableBytes("HTTP/1.1");
    assert SPACE !in version;
    hide Bytes;
    PrintableBytes(reason);
    assert SPACE !in digits && LF !in digits && CR !in digits && Ascii(digits);
    hide DecimalValue, Digits;
    SecondWord(version, digits, Bytes(reason));
    ParseUintDecimal(code, 65_535);
  }

  lemma SecondWord(first: seq<byte>, second: seq<byte>, rest: seq<byte>)
    requires SPACE !in first && SPACE !in second
    ensures StatusCode(first + [SPACE] + second + [SPACE] + rest) == ParseUint(second, 65_535)
  {
    hide ParseUint;
    var line := first + [SPACE] + second + [SPACE] + rest;
    assert line[..|first|] == first;
    IndexOfIs(line, SPACE, |first|);
    var after := line[|first| + 1..];
    assert after == second + [SPACE] + rest;
    assert after[..|second|] == second;
    IndexOfIs(after, SPACE, |second|);
  }

  /** A name or value of visible characters is clean. */
  predicate Visible(s: seq<byte>) {
    s != [] && forall i :: 0 <= i < |s| ==> SPACE < s[i] < 127
  }

  lemma VisibleText(s: seq<byte>)
    requires Visible(s)
    ensures Utf8(s) && Trimmed(s) && LF !in s
  {
    AsciiIsUtf8(s);
    hide Utf8;
  }

  /** Letters and dashes make visible bytes without a colon. */
  lemma PlainText(s: string)
    requires s != "" && forall i :: 0 <= i < |s| ==> s[i] == '-' || 'A' <= s[i] <= 'Z' || 'a' <= s[i] <= 'z'
    ensures Visible(Bytes(s)) && COLON !in Bytes(s)
  {
    forall i | 0 <= i < |s| ensures SPACE < Bytes(s)[i] < 127 && Bytes(s)[i] != COLON {
      SmallMod(s[i] as int, 256);
    }
  }

  lemma ContentLengthClean(n: nat)
    ensures Clean(ContentLength(n)) && Dropped(ContentLength(n).name)
  {
    hide Utf8, Trimmed, Decimal, Bytes, Lower, Dropped;
    var name := Bytes("Content-Length");
    ContentLengthText();
    ContentLengthDropped();
    VisibleText(name);
    VisibleText(Decimal(n));
  }

  lemma ContentLengthText()
    ensures Visible(Bytes("Content-Length")) && COLON !in Bytes("Content-Length")
  {
    PlainText("Content-Length");
  }

  lemma ContentLengthDropped()
    ensures Dropped(Bytes("Content-Length"))
  {
    assert Lower(Bytes("Content-Length")) == Bytes("content-length");
  }

  lemma {:induction false} KeptOfKept(headers: seq<Header>, more: seq<Header>)
    requires forall i :: 0 <= i < |more| ==> Dropped(more[i].name)
    ensures Kept(Kept(headers) + more) == Kept(headers)
    decreases |headers|, |more|
  {
    hide Dropped;
    if headers == [] {
      assert [] + more == more;
      if more != [] {
        KeptOfKept([], more[1..]);
        assert [] + more[1..] == more[1..];
      }
    } else {
      KeptOfKept(headers[1..], more);
      var rest := Kept(headers[1..]);
      assert [headers[0]] + rest + more == [headers[0]] + (rest + more);
    }
  }

  lemma KeptClean(headers: seq<Header>, n: nat)
    requires AllClean(headers)
    ensures AllClean(Kept(headers) + [ContentLength(n)])
  {
    hide Clean, Dropped;
    ContentLengthClean(n);
  }

  /** The name is this word, but for the case of its letters. */
  predicate Named(name: seq<byte>, word: string) {
    |name| == |word| && forall i :: 0 <= i < |word| ==>
      name[i] == word[i] as int || ('a' <= word[i] <= 'z' && name[i] == word[i] as int - 32)
  }

  /** The six headers that belong to one transfer. */
  predicate OfTransfer(name: seq<byte>) {
    || Named(name, "content-length") || Named(name, "content-range") || Named(name, "content-encoding")
    || Named(name, "transfer-encoding") || Named(name, "connection") || Named(name, "keep-alive")
  }

  lemma LowerIs(name: seq<byte>, word: string)
    requires forall i :: 0 <= i < |word| ==> 'a' <= word[i] <= 'z' || word[i] == '-'
    ensures Lower(name) == Bytes(word) <==> Named(name, word)
  {
    forall i | 0 <= i < |word| ensures Bytes(word)[i] == word[i] as int { SmallMod(word[i] as int, 256); }
    if Named(name, word) {
      assert forall i :: 0 <= i < |word| ==> Lower(name)[i] == Bytes(word)[i];
    }
    if Lower(name) == Bytes(word) {
      assert |name| == |word|;
      assert forall i :: 0 <= i < |word| ==> Lower(name)[i] == Bytes(word)[i];
    }
  }

  lemma DroppedIsOfTransfer(name: seq<byte>)
    ensures Dropped(name) <==> OfTransfer(name)
  {
    hide Lower, Bytes, Named;
    LowerIs(name, "content-length");
    LowerIs(name, "content-range");
    LowerIs(name, "content-encoding");
    LowerIs(name, "transfer-encoding");
    LowerIs(name, "connection");
    LowerIs(name, "keep-alive");
  }

  /** Going through the headers in order, exactly those six are left out. */
  lemma KeptExactly(headers: seq<Header>, h: Header)
    ensures Kept([]) == []
    ensures Kept(headers + [h]) == Kept(headers) + if OfTransfer(h.name) then [] else [h]
  {
    hide Dropped, OfTransfer;
    DroppedIsOfTransfer(h.name);
    KeptSnoc(headers, h);
    assert Kept(headers) + [] == Kept(headers);
  }

  /** The assembled heads start as a client expects. */
  lemma StatusLinesWritten(headers: seq<Header>, length: nat, start: nat, total: nat)
    requires start < total
    ensures Bytes("HTTP/1.1 200 OK") + CRLF <= Assemble200Head(headers, length)
    ensures Bytes("HTTP/1.1 206 Partial Content") + CRLF <= Assemble206Head(headers, start, total)
  {
    StatusWords();
    hide Bytes, Decimal, Kept, Fields, ContentLength, ContentRangeValue, StatusText;
    Opens(StatusText(200, "OK"), Kept(headers) + [ContentLength(length)]);
    Opens(StatusText(206, "Partial Content"),
          Kept(headers) + [Header(Bytes("Content-Range"), ContentRangeValue(start, total - 1, total)),
                           ContentLength(total - start)]);
  }

  lemma Opens(statusLine: seq<byte>, headers: seq<Header>)
    ensures statusLine + CRLF <= Head(statusLine, headers)
  {
    hide Fields;
  }

  lemma StatusWords()
    ensures StatusText(200, "OK") == Bytes("HTTP/1.1 200 OK")
    ensures StatusText(206, "Partial Content") == Bytes("HTTP/1.1 206 Partial Content")
  {
    CodesWritten();
    Words("HTTP/1.1", "200", "OK");
    Words("HTTP/1.1", "206", "Partial Content");
    hide Bytes, Decimal;
    assert "HTTP/1.1" + " " + "200" + " " + "OK" == "HTTP/1.1 200 OK";
    assert "HTTP/1.1" + " " + "206" + " " + "Partial Content" == "HTTP/1.1 206 Partial Content";
  }

  lemma Words(a: string, b: string, c: string)
    ensures Bytes(a + " " + b + " " + c) == Bytes(a) + [SPACE] + Bytes(b) + [SPACE] + Bytes(c)
  {
  }

  lemma CodesWritten()
    ensures Decimal(200) == Bytes("200") && Decimal(206) == Bytes("206")
  {
    assert Decimal(2) == [50] && Decimal(20) == [50, 48];
    assert Decimal(200) == [50, 48, 48] && Decimal(206) == [50, 48, 54];
  }

  /** What a client reads from a 200 head built from clean headers and whatever
      body follows it: the declared length need not be the length of the body. */
  lemma Split200(headers: seq<Header>, length: nat, body: seq<byte>)
    requires AllClean(headers)
    ensures SplitResponse(Assemble200Head(headers, length) + body)
         == Some(Response(200, Kept(headers) + [Header(Bytes("Content-Length"), Decimal(length))], body))
    ensures HeadEnds(Assemble200Head(headers, length), body)
  {
    hide SplitResponse, AllClean, StatusLine, Head, StatusText, HeadEnds, Decimal, Bytes;
    StatusTextReads(200, "OK");
    KeptClean(headers, length);
    SplitAssembled(StatusText(200, "OK"), 200, Kept(headers) + [ContentLength(length)], body);
    EndOfHead(StatusText(200, "OK"), 200, Kept(headers) + [ContentLength(length)], body);
  }

  /** The first blank line is the one that ends `head`. */
  predicate HeadEnds(head: seq<byte>, body: seq<byte>) {
    4 <= |head| && Find(head + body, END_OF_HEAD) == |head| - 4
  }

  lemma EndOfHead(statusLine: seq<byte>, code: nat, headers: seq<Header>, body: seq<byte>)
    requires StatusLine(statusLine, code) && AllClean(headers)
    ensures HeadEnds(Head(statusLine, headers), body)
  {
    var lines := [statusLine] + FieldLines(headers);
    HeadIsJoined(statusLine, headers);
    assert Plain(lines) by { FieldLinesPlain(headers); }
    hide Find, AllClean, StatusLine, Joined, Plain, FieldLines, Head;
    EndFound(lines, body);
  }

  /** Rewriting an accepted response: status 200, the same body, the source
      headers in order without the six dropped names, then one Content-Length
      that says the length of the body. */
  lemma RewriteSplits(raw: seq<byte>)
    requires SplitResponse(raw).Some?
    ensures var p := SplitResponse(raw).value;
            SplitResponse(Rewrite206To200(raw))
            == Some(Response(200, Kept(p.headers) + [Header(Bytes("Content-Length"), Decimal(|p.body|))], p.body))
  {
    hide SplitResponse, Assemble200Head, HeadEnds, Decimal, Bytes;
    SplitClean(raw);
    var p := SplitResponse(raw).value;
    Split200(p.headers, |p.body|, p.body);
  }

  /** Rewriting twice is rewriting once, for every input. */
  lemma RewriteIdempotent(raw: seq<byte>)
    ensures Rewrite206To200(Rewrite206To200(raw)) == Rewrite206To200(raw)
  {
    hide SplitResponse, Assemble200Head, Kept, Decimal, Bytes;
    var split := SplitResponse(raw);
    if split.Some? {
      RewriteSplits(raw);
      AssembledAgain(split.value.headers, |split.value.body|);
    }
  }

  lemma AssembledAgain(headers: seq<Header>, n: nat)
    ensures Assemble200Head(Kept(headers) + [ContentLength(n)], n) == Assemble200Head(headers, n)
  {
    ContentLengthClean(n);
    hide Dropped, Kept, Head, StatusText, Clean, Decimal;
    KeptOfKept(headers, [ContentLength(n)]);
  }

  // ---------- The loops ----------

  lemma {:induction false} ParseHeadersSnoc(lines: seq<seq<byte>>, line: seq<byte>)
    ensures ParseHeaders(lines + [line])
         == if ParseHeaders(lines).None? || !Utf8(line) then None
            else Some(ParseHeaders(lines).value + HeaderOn(StripCr(line)))
  {
    hide Utf8, HeaderOn, StripCr;
    if lines == [] {
      assert [] + [line] == [line] && [line][1..] == [];
      assert [] + HeaderOn(StripCr(line)) == HeaderOn(StripCr(line)) + [];
    } else {
      assert (lines + [line])[1..] == lines[1..] + [line];
      ParseHeadersSnoc(lines[1..], line);
      var first, rest, last := HeaderOn(StripCr(lines[0])), ParseHeaders(lines[1..]), HeaderOn(StripCr(line));
      assert rest.Some? ==> first + (rest.value + last) == (first + rest.value) + last;
    }
  }

  lemma {:induction false} ParseHeadersPrefix(lines: seq<seq<byte>>, i: nat)
    requires i <= |lines| && ParseHeaders(lines[..i]).None?
    ensures ParseHeaders(lines).None?
    decreases |lines| - i
  {
    hide Utf8, HeaderOn, StripCr;
    if i == |lines| {
      assert lines[..i] == lines;
    } else {
      assert lines[..i + 1] == lines[..i] + [lines[i]];
      ParseHeadersSnoc(lines[..i], lines[i]);
      ParseHeadersPrefix(lines, i + 1);
    }
  }

  /** Splitting as the source runs it: one pass over the lines, collecting headers. */
  method Split(raw: seq<byte>) returns (r: Option<Response>)
    ensures r == SplitResponse(raw)
  {
    hide Utf8, Find, Lines, HeaderOn, StripCr, StatusCode, ParseHeaders;
    var sep := Find(raw, END_OF_HEAD);
    if sep < 0 { return None; }
    var lines := Lines(raw[..sep]);
    if !Utf8(lines[0]) { return None; }
    var code := StatusCode(StripCr(lines[0]));
    if code.None? { return None; }
    var fields := lines[1..];
    var headers: seq<Header> := [];
    assert fields[..0] == [];
    NoHeaders();
    for i := 0 to |fields|
      invariant ParseHeaders(fields[..i]) == Some(headers)
    {
      assert fields[..i + 1] == fields[..i] + [fields[i]];
      ParseHeadersSnoc(fields[..i], fields[i]);
      if !Utf8(fields[i]) {
        ParseHeadersPrefix(fields, i + 1);
        return None;
      }
      headers := headers + HeaderOn(StripCr(fields[i]));
    }
    assert fields[..|fields|] == fields;
    r := Some(Response(code.value, headers, raw[sep + 4..]));
  }

  lemma NoHeaders()
    ensures ParseHeaders([]) == Some([]) && Kept([]) == [] && Fields([]) == []
  {
  }

  lemma {:induction false} FieldsSnoc(headers: seq<Header>, h: Header)
    ensures Fields(headers + [h]) == Fields(headers) + FieldLine(h) + CRLF
  {
    hide FieldLine;
    if headers == [] {
      assert [] + [h] == [h] && [h][1..] == [];
    } else {
      assert (headers + [h])[1..] == headers[1..] + [h];
      FieldsSnoc(headers[1..], h);
    }
  }

  lemma {:induction false} KeptSnoc(headers: seq<Header>, h: Header)
    ensures Kept(headers + [h]) == if Dropped(h.name) then Kept(headers) else Kept(headers) + [h]
  {
    hide Dropped;
    if headers == [] {
      assert [] + [h] == [h] && [h][1..] == [];
    } else {
      assert (headers + [h])[1..] == headers[1..] + [h];
      KeptSnoc(headers[1..], h);
    }
  }

  lemma AppendField(start: seq<byte>, headers: seq<Header>, h: Header, out: seq<byte>)
    requires out == start + Fields(Kept(headers)) && !Dropped(h.name)
    ensures out + FieldLine(h) + CRLF == start + Fields(Kept(headers + [h]))
  {
    hide Fields, Kept, FieldLine, Dropped;
    KeptSnoc(headers, h);
    FieldsSnoc(Kept(headers), h);
  }

  lemma CloseHead(headers: seq<Header>, length: nat, out: seq<byte>)
    requires out == StatusText(200, "OK") + CRLF + Fields(Kept(headers))
    ensures out + FieldLine(ContentLength(length)) + CRLF + CRLF == Assemble200Head(headers, length)
  {
    hide Fields, Kept, FieldLine, StatusText, ContentLength;
    FieldsSnoc(Kept(headers), ContentLength(length));
  }

  /** The head as the source builds it: one pass over the source headers. */
  method Build200Head(headers: seq<Header>, length: nat) returns (out: seq<byte>)
    ensures out == Assemble200Head(headers, length)
  {
    hide Dropped, Kept, Fields, FieldLine, ContentLength, StatusText, Assemble200Head;
    var start := StatusText(200, "OK") + CRLF;
    out := start;
    assert headers[..0] == [];
    NoHeaders();
    for i := 0 to |headers|
      invariant out == start + Fields(Kept(headers[..i]))
    {
      var h := headers[i];
      assert headers[..i + 1] == headers[..i] + [h];
      if Dropped(h.name) {
        KeptSnoc(headers[..i], h);
      } else {
        AppendField(start, headers[..i], h, out);
        out := out + FieldLine(h) + CRLF;
      }
    }
    assert headers[..|headers|] == headers;
    CloseHead(headers, length, out);
    out := out + FieldLine(ContentLength(length)) + CRLF + CRLF;
  }
}
