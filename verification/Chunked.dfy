/** Chunked transfer coding (section 7.1 of RFC 9112): two readers that pull
bytes from a connection as they need them, and one decoder that has the whole
buffer.  All three are compared with one function of the complete byte string. */
module Chunked {
  import opened Text

  /** Body received, connection ended too early, or bytes that are no coding. */
  datatype Verdict = Body(bytes: seq<byte>) | Truncated | Malformed

  /** The request reader of the proxy, the response reader of the relay client,
      and the whole-buffer decoder.  They differ in how they treat blank lines. */
  datatype Flavour = Request | Response | Whole

  datatype SizeLine = Skip | Bad | Size(n: nat)

  const USIZE_MAX: nat := 0xFFFF_FFFF_FFFF_FFFF
  const PLUS: byte := 43

  // ---------- Chunk-size lines ----------

  predicate HexDigit(b: byte) {
    48 <= b <= 57 || 65 <= b <= 70 || 97 <= b <= 102
  }

  function DigitValue(b: byte): nat
    requires HexDigit(b)
  {
    if b <= 57 then b - 48 else if b <= 70 then b - 55 else b - 87
  }

  predicate HexDigits(s: seq<byte>) {
    forall i :: 0 <= i < |s| ==> HexDigit(s[i])
  }

  function HexValue(s: seq<byte>): nat
    requires HexDigits(s)
  {
    if s == [] then 0 else 16 * HexValue(s[..|s| - 1]) + DigitValue(s[|s| - 1])
  }

  /** Unsigned base-16 parsing: an optional plus sign, at least one digit, no overflow. */
  function FromHex(s: seq<byte>): (r: SizeLine)
    ensures !r.Skip?
    ensures s == [] ==> r == Bad
  {
    var digits := if s != [] && s[0] == PLUS then s[1..] else s;
    if digits != [] && HexDigits(digits) && HexValue(digits) <= USIZE_MAX then Size(HexValue(digits)) else Bad
  }

  function BeforeSemicolon(s: seq<byte>): seq<byte> {
    var i := IndexOf(s, SEMICOLON);
    if i == -1 then s else s[..i]
  }

  function ReadSizeLine(fl: Flavour, line: seq<byte>): (r: SizeLine) {
    if fl.Request? && line == [] then Skip
    else if !Utf8(line) then Bad
    else if fl.Response? && Trim(line) == [] then Skip
    else FromHex(BeforeSemicolon(Trim(line)))
  }

  // ---------- Reference: the coding as a function of all the bytes ----------

  /** The trailer section ends with an empty line. */
  predicate TrailersEnd(s: seq<byte>)
    decreases |s|
  {
    var i := Find(s, CRLF);
    i >= 0 && (i == 0 || TrailersEnd(s[i + 2..]))
  }

  function Decode(fl: Flavour, s: seq<byte>, out: seq<byte>): (v: Verdict)
    decreases |s|
  {
    var i := Find(s, CRLF);
    if i < 0 then Truncated
    else
      var rest := s[i + 2..];
      match ReadSizeLine(fl, s[..i])
      case Skip => Decode(fl, rest, out)
      case Bad => Malformed
      case Size(n) =>
        if n == 0 then (if TrailersEnd(rest) then Body(out) else Truncated)
        else if |rest| < n + 2 then Truncated
        else if rest[n..n + 2] != CRLF then Malformed
        else Decode(fl, rest[n + 2..], out + rest[..n])
  }

  /** What the first line decides. */
  lemma DecodeLine(fl: Flavour, s: seq<byte>, out: seq<byte>)
    requires Find(s, CRLF) >= 0
    ensures var rest := s[Find(s, CRLF) + 2..];
            Decode(fl, s, out) ==
              match ReadSizeLine(fl, s[..Find(s, CRLF)])
              case Skip => Decode(fl, rest, out)
              case Bad => Malformed
              case Size(n) =>
                if n == 0 then (if TrailersEnd(rest) then Body(out) else Truncated)
                else if |rest| < n + 2 then Truncated
                else if rest[n..n + 2] != CRLF then Malformed
                else Decode(fl, rest[n + 2..], out + rest[..n])
  {
  }

  lemma DecodeNoLine(fl: Flavour, s: seq<byte>, out: seq<byte>)
    requires Find(s, CRLF) < 0
    ensures Decode(fl, s, out) == Truncated
  {
  }

  // ---------- The readers ----------

  function Flatten(arrivals: seq<seq<byte>>): seq<byte> {
    if arrivals == [] then [] else arrivals[0] + Flatten(arrivals[1..])
  }

  /** A connection that yields its bytes in some sequence of reads and then ends,
      with the bytes already read but not yet consumed. */
  class Reader {
    var buf: seq<byte>
    var arrivals: seq<seq<byte>>

    ghost predicate Valid()
      reads this
    {
      forall i :: 0 <= i < |arrivals| ==> arrivals[i] != []
    }

    /** Everything that is still to come. */
    ghost function Rest(): seq<byte>
      reads this
    {
      buf + Flatten(arrivals)
    }

    constructor (leftover: seq<byte>, arrivals: seq<seq<byte>>)
      requires forall i :: 0 <= i < |arrivals| ==> arrivals[i] != []
      ensures Valid() && Rest() == leftover + Flatten(arrivals)
    {
      buf, this.arrivals := leftover, arrivals;
    }

    /** One read; false at the end of the connection. */
    method Fill() returns (more: bool)
      requires Valid()
      modifies this
      ensures Valid() && Rest() == old(Rest())
      ensures more ==> |buf| > |old(buf)| && |arrivals| < |old(arrivals)|
      ensures !more ==> buf == old(buf) && Rest() == buf
    {
      more := arrivals != [];
      if more {
        assert buf + (arrivals[0] + Flatten(arrivals[1..])) == buf + arrivals[0] + Flatten(arrivals[1..]);
        buf, arrivals := buf + arrivals[0], arrivals[1..];
      } else {
        assert buf + [] == buf;
      }
    }

    method ReadCrlfLine() returns (ok: bool, line: seq<byte>)
      requires Valid()
      modifies this
      ensures Valid()
      ensures ok <==> Find(old(Rest()), CRLF) >= 0
      ensures ok ==> var i := Find(old(Rest()), CRLF);
                     line == old(Rest())[..i] && Rest() == old(Rest())[i + 2..]
    {
      ghost var all := Rest();
      while true
        invariant Valid() && Rest() == all
        decreases |arrivals|
      {
        var i := Find(buf, CRLF);
        if i >= 0 {
          FindExtends(buf, Flatten(arrivals), CRLF);
          ok, line := true, buf[..i];
          assert all[i + 2..] == buf[i + 2..] + Flatten(arrivals);
          buf := buf[i + 2..];
          return;
        }
        var more := Fill();
        if !more { return false, []; }
      }
    }

    method FillBuffer(want: nat) returns (ok: bool)
      requires Valid()
      modifies this
      ensures Valid() && Rest() == old(Rest())
      ensures ok <==> want <= |Rest()|
      ensures ok ==> want <= |buf|
    {
      while |buf| < want
        invariant Valid() && Rest() == old(Rest())
        decreases |arrivals|
      {
        var more := Fill();
        if !more { return false; }
      }
      return true;
    }

    method SkipTrailers() returns (ok: bool)
      requires Valid()
      modifies this
      ensures Valid()
      ensures ok <==> TrailersEnd(old(Rest()))
    {
      while true
        invariant Valid() && TrailersEnd(Rest()) == old(TrailersEnd(Rest()))
        decreases |Rest()|
      {
        var got, line := ReadCrlfLine();
        if !got { return false; }
        if line == [] { return true; }
      }
    }

    /** One chunk of `n` bytes and its line end. */
    method TakeChunk(n: nat) returns (v: Verdict)
      requires Valid()
      modifies this
      ensures Valid()
      ensures v == if |old(Rest())| < n + 2 then Truncated
                   else if old(Rest())[n..n + 2] != CRLF then Malformed
                   else Body(old(Rest())[..n])
      ensures v.Body? ==> Rest() == old(Rest())[n + 2..]
    {
      ghost var all := Rest();
      var ok := FillBuffer(n + 2);
      if !ok { return Truncated; }
      assert all[n..n + 2] == buf[n..n + 2] && all[..n] == buf[..n];
      if buf[n..n + 2] != CRLF { return Malformed; }
      v := Body(buf[..n]);
      assert all[n + 2..] == buf[n + 2..] + Flatten(arrivals);
      buf := buf[n + 2..];
    }

    /** The request reader.  However the bytes are split into the leftover and
        later reads, the verdict is that of the complete byte string. */
    method ReadChunkedRequestBody() returns (v: Verdict)
      requires Valid()
      modifies this
      ensures v == Decode(Request, old(Rest()), [])
    {
      hide Rest, Valid, Find, Utf8, Trim, FromHex, BeforeSemicolon, TrailersEnd, Decode;
      var out: seq<byte> := [];
      while true
        invariant Valid() && Decode(Request, Rest(), out) == old(Decode(Request, Rest(), []))
        decreases |Rest()|
      {
        ghost var all := Rest();
        var got, line := ReadCrlfLine();
        if !got { DecodeNoLine(Request, all, out); return Truncated; }
        DecodeLine(Request, all, out);
        if line == [] { continue; }
        if !Utf8(line) { return Malformed; }
        var size := FromHex(BeforeSemicolon(Trim(line)));
        if size.Bad? { return Malformed; }
        if size == Size(0) {
          var ended := SkipTrailers();
          return if ended then Body(out) else Truncated;
        }
        v := TakeChunk(size.n);
        if !v.Body? { return; }
        out := out + v.bytes;
      }
    }

    /** The response reader, likewise. */
    method ReadChunked() returns (v: Verdict)
      requires Valid()
      modifies this
      ensures v == Decode(Response, old(Rest()), [])
    {
      hide Rest, Valid, Find, Utf8, Trim, FromHex, BeforeSemicolon, TrailersEnd, Decode;
      var out: seq<byte> := [];
      while true
        invariant Valid() && Decode(Response, Rest(), out) == old(Decode(Response, Rest(), []))
        decreases |Rest()|
      {
        ghost var all := Rest();
        var got, line := ReadCrlfLine();
        if !got { DecodeNoLine(Response, all, out); return Truncated; }
        DecodeLine(Response, all, out);
        if !Utf8(line) { return Malformed; }
        var text := Trim(line);
        if text == [] { continue; }
        var size := FromHex(BeforeSemicolon(text));
        if size.Bad? { return Malformed; }
        if size == Size(0) {
          var ended := SkipTrailers();
          return if ended then Body(out) else Truncated;
        }
        v := TakeChunk(size.n);
        if !v.Body? { return; }
        out := out + v.bytes;
      }
    }
  }

  /** The whole-buffer decoder. */
  method DecodeChunkedHttpBody(all: seq<byte>) returns (v: Verdict)
    ensures v == Decode(Whole, all, [])
  {
    hide Find, Utf8, Trim, FromHex, BeforeSemicolon;
    var body, out: seq<byte> := all, [];
    while true
      invariant Decode(Whole, body, out) == Decode(Whole, all, [])
      decreases |body|
    {
      var lineEnd := Find(body, CRLF);
      if lineEnd < 0 { return Truncated; }
      if !Utf8(body[..lineEnd]) { return Malformed; }
      var size := FromHex(BeforeSemicolon(Trim(body[..lineEnd])));
      if size.Bad? { return Malformed; }
      body := body[lineEnd + 2..];
      if size == Size(0) {
        ghost var trailers := body;
        while true
          invariant TrailersEnd(body) == TrailersEnd(trailers)
          decreases |body|
        {
          var trailerEnd := Find(body, CRLF);
          if trailerEnd < 0 { return Truncated; }
          if trailerEnd == 0 { return Body(out); }
          body := body[trailerEnd + 2..];
        }
      }
      if |body| < size.n + 2 { return Truncated; }
      if body[size.n..size.n + 2] != CRLF { return Malformed; }
      out, body := out + body[..size.n], body[size.n + 2..];
    }
  }

  // ---------- How the decoders compare ----------

  /** Decoding as `fl` passes over a blank line where a size line is due. */
  predicate MeetsBlank(fl: Flavour, s: seq<byte>)
    decreases |s|
  {
    var i := Find(s, CRLF);
    i >= 0 && (
      var rest := s[i + 2..];
      match ReadSizeLine(fl, s[..i])
      case Skip => true
      case Bad => false
      case Size(n) => 0 < n <= |rest| - 2 && rest[n..n + 2] == CRLF && MeetsBlank(fl, rest[n + 2..]))
  }

  /** The whole-buffer decoder refuses a line the readers skip. */
  lemma SizeLineVersus(fl: Flavour, line: seq<byte>)
    ensures ReadSizeLine(Whole, line)
         == if ReadSizeLine(fl, line).Skip? then Bad else ReadSizeLine(fl, line)
  {
    hide FromHex, Utf8;
    var nothing: seq<byte> := [];
    assert Trim(nothing) == [] && BeforeSemicolon(nothing) == [];
  }

  /** The readers and the whole-buffer decoder give the same verdict on every
      input in which no blank line is passed over, and the whole-buffer decoder
      refuses every other input. */
  lemma {:induction false} WholeVersusReader(fl: Flavour, s: seq<byte>, out: seq<byte>)
    ensures Decode(Whole, s, out) == if MeetsBlank(fl, s) then Malformed else Decode(fl, s, out)
    decreases |s|
  {
    hide Find, TrailersEnd, ReadSizeLine;
    var i := Find(s, CRLF);
    if i >= 0 {
      SizeLineVersus(fl, s[..i]);
      var size := ReadSizeLine(fl, s[..i]);
      if size.Size? && size.n > 0 {
        var rest := s[i + 2..];
        if size.n + 2 <= |rest| && rest[size.n..size.n + 2] == CRLF {
          WholeVersusReader(fl, rest[size.n + 2..], out + rest[..size.n]);
        }
      }
    }
  }

  /** Hence wherever the whole-buffer decoder accepts, both readers give its body. */
  lemma ReadersAgreeWithWhole(s: seq<byte>)
    requires Decode(Whole, s, []).Body?
    ensures Decode(Request, s, []) == Decode(Response, s, []) == Decode(Whole, s, [])
  {
    WholeVersusReader(Request, s, []);
    WholeVersusReader(Response, s, []);
  }

  // ---------- Encodings ----------

  /** A chunk-size line: the digits, optional blanks, and an extension that
      starts with its semicolon. */
  datatype ChunkHead = ChunkHead(digits: seq<byte>, blanks: seq<byte>, ext: seq<byte>)

  datatype Chunk = Chunk(head: ChunkHead, data: seq<byte>)

  function HeadLine(h: ChunkHead): seq<byte> {
    h.digits + h.blanks + h.ext
  }

  predicate ValidHead(h: ChunkHead) {
    && h.digits != [] && HexDigits(h.digits)
    && (forall i :: 0 <= i < |h.blanks| ==> h.blanks[i] == SPACE || h.blanks[i] == TAB)
    && (if h.ext == [] then h.blanks == [] else h.ext[0] == SEMICOLON)
    && Find(HeadLine(h), CRLF) == -1
  }

  predicate ValidChunk(c: Chunk) {
    ValidHead(c.head) && c.data != [] && HexValue(c.head.digits) == |c.data|
  }

  predicate ValidTrailers(trailers: seq<seq<byte>>) {
    forall i :: 0 <= i < |trailers| ==> trailers[i] != [] && Find(trailers[i], CRLF) == -1
  }

  function TrailerSection(trailers: seq<seq<byte>>, tail: seq<byte>): seq<byte> {
    if trailers == [] then CRLF + tail else trailers[0] + CRLF + TrailerSection(trailers[1..], tail)
  }

  /** An encoding of a body as chunks, followed by whatever comes next on the connection. */
  function Encode(chunks: seq<Chunk>, last: ChunkHead, trailers: seq<seq<byte>>, tail: seq<byte>): seq<byte> {
    if chunks == [] then HeadLine(last) + CRLF + TrailerSection(trailers, tail)
    else HeadLine(chunks[0].head) + CRLF + chunks[0].data + CRLF + Encode(chunks[1..], last, trailers, tail)
  }

  function Data(chunks: seq<Chunk>): seq<byte> {
    if chunks == [] then [] else chunks[0].data + Data(chunks[1..])
  }

  /** What the decoders ask of a size line beyond the grammar: nothing between
      the digits and the semicolon, text that is UTF-8, a size that fits. */
  predicate Readable(h: ChunkHead) {
    h.blanks == [] && Utf8(h.ext) && HexDigits(h.digits) && HexValue(h.digits) <= USIZE_MAX
  }

  lemma LineAhead(line: seq<byte>, rest: seq<byte>)
    requires Find(line, CRLF) == -1
    ensures Find(line + CRLF + rest, CRLF) == |line|
    ensures (line + CRLF + rest)[..|line|] == line && (line + CRLF + rest)[|line| + 2..] == rest
  {
    var s := line + CRLF + rest;
    assert s[|line|..|line| + 2] == CRLF;
    forall j | 0 <= j < |line| ensures !MatchesAt(s, CRLF, j) {
      assert !MatchesAt(line, CRLF, j);
      if j + 2 <= |line| {
        assert s[j..j + 2] == line[j..j + 2];
      } else {
        assert s[j..j + 2][1] == CR;
      }
    }
    FindIs(s, CRLF, |line|);
  }

  lemma {:induction false} TrailersDecode(trailers: seq<seq<byte>>, tail: seq<byte>)
    requires ValidTrailers(trailers)
    ensures TrailersEnd(TrailerSection(trailers, tail))
  {
    if trailers == [] {
      LineAhead([], tail);
      assert [] + CRLF + tail == CRLF + tail;
    } else {
      LineAhead(trailers[0], TrailerSection(trailers[1..], tail));
      TrailersDecode(trailers[1..], tail);
    }
  }

  lemma HeadUtf8(h: ChunkHead)
    requires ValidHead(h)
    ensures Utf8(HeadLine(h)) <==> Utf8(h.ext)
  {
    hide Find, Utf8, HexDigit;
    var pre := h.digits + h.blanks;
    assert Ascii(pre) by { VisibleDigits(h.digits); }
    AsciiIsUtf8(pre);
    Utf8Concat(pre, h.ext);
  }

  lemma VisibleDigits(s: seq<byte>)
    requires HexDigits(s)
    ensures forall i :: 0 <= i < |s| ==> SPACE < s[i] < 0x80 && s[i] != SEMICOLON && s[i] != PLUS
  {
  }

  /** A line that starts and ends in visible ASCII is already trimmed; behind a
      semicolon only the end of the extension can go. */
  lemma HeadToken(pre: seq<byte>, ext: seq<byte>)
    requires pre != [] && SPACE < pre[0] < 0x80 && SEMICOLON !in pre
    requires if ext == [] then SPACE < pre[|pre| - 1] < 0x80 else ext[0] == SEMICOLON
    ensures Trim(pre + ext) != [] && BeforeSemicolon(Trim(pre + ext)) == pre
  {
    hide Find, TrimStart, TrimEnd, AsciiSpace, IndexOf;
    var line := pre + ext;
    var last := if ext == [] then |pre| - 1 else |pre|;
    assert line[0] == pre[0] && SPACE < line[last] < 0x80;
    VisibleEnds(line, last);
    var t := Trim(line);
    assert t == line[..|t|] && last < |t|;
    if ext == [] {
      assert t == pre;
    } else {
      assert t[|pre|] == SEMICOLON && t[..|pre|] == pre;
      IndexOfIs(t, SEMICOLON, |pre|);
    }
  }

  /** Trimming reaches neither in front of a visible byte nor past one. */
  lemma VisibleEnds(line: seq<byte>, last: nat)
    requires last < |line| && SPACE < line[0] < 0x80 && SPACE < line[last] < 0x80
    ensures last < |Trim(line)| <= |line| && Trim(line) == line[..|Trim(line)|]
  {
    hide TrimEnd;
    assert TrimStart(line) == line;
    TrimEndKeeps(line, last);
  }

  lemma HeadRead(fl: Flavour, h: ChunkHead)
    requires ValidHead(h)
    ensures ReadSizeLine(fl, HeadLine(h)) == if Readable(h) then Size(HexValue(h.digits)) else Bad
  {
    hide Find, Trim, Utf8, BeforeSemicolon, HexValue;
    var pre := h.digits + h.blanks;
    VisibleDigits(h.digits);
    assert pre[0] == h.digits[0];
    HeadUtf8(h);
    HeadToken(pre, h.ext);
    if h.blanks == [] {
      assert pre == h.digits;
    } else {
      assert pre[|h.digits|] == h.blanks[0];
      assert !HexDigit(pre[|h.digits|]);
    }
  }

  predicate AllReadable(chunks: seq<Chunk>) {
    chunks == [] || (Readable(chunks[0].head) && AllReadable(chunks[1..]))
  }

  lemma DecodeOneChunk(fl: Flavour, c: Chunk, next: seq<byte>, out: seq<byte>)
    requires ValidChunk(c)
    ensures Decode(fl, HeadLine(c.head) + CRLF + c.data + CRLF + next, out)
         == if Readable(c.head) then Decode(fl, next, out + c.data) else Malformed
  {
    hide Find, ReadSizeLine, Readable, HexDigits, HexValue, TrailersEnd;
    var n := |c.data|;
    var rest := c.data + CRLF + next;
    assert HeadLine(c.head) + CRLF + c.data + CRLF + next == HeadLine(c.head) + CRLF + rest;
    LineAhead(HeadLine(c.head), rest);
    HeadRead(fl, c.head);
    assert rest[..n] == c.data && rest[n..n + 2] == CRLF && rest[n + 2..] == next;
  }

  lemma DecodeLastChunk(fl: Flavour, last: ChunkHead, trailers: seq<seq<byte>>, tail: seq<byte>, out: seq<byte>)
    requires ValidHead(last) && HexValue(last.digits) == 0 && ValidTrailers(trailers)
    ensures Decode(fl, HeadLine(last) + CRLF + TrailerSection(trailers, tail), out)
         == if Readable(last) then Body(out) else Malformed
  {
    hide Find, ReadSizeLine, Readable, HexDigits, HexValue, TrailersEnd;
    LineAhead(HeadLine(last), TrailerSection(trailers, tail));
    HeadRead(fl, last);
    TrailersDecode(trailers, tail);
  }

  /** Every decoder inverts every encoding whose size lines it can read, and
      refuses every other one; what follows on the connection is left alone. */
  lemma {:induction false} DecodeInvertsEncode(fl: Flavour, chunks: seq<Chunk>, last: ChunkHead,
                                               trailers: seq<seq<byte>>, tail: seq<byte>, out: seq<byte>)
    requires forall i :: 0 <= i < |chunks| ==> ValidChunk(chunks[i])
    requires ValidHead(last) && HexValue(last.digits) == 0 && ValidTrailers(trailers)
    ensures Decode(fl, Encode(chunks, last, trailers, tail), out)
         == if AllReadable(chunks) && Readable(last) then Body(out + Data(chunks)) else Malformed
  {
    hide Decode, ValidChunk, ValidHead, Readable, ValidTrailers;
    if chunks == [] {
      DecodeLastChunk(fl, last, trailers, tail, out);
      assert out + [] == out;
    } else {
      var c := chunks[0];
      DecodeOneChunk(fl, c, Encode(chunks[1..], last, trailers, tail), out);
      DecodeInvertsEncode(fl, chunks[1..], last, trailers, tail, out + c.data);
      assert out + c.data + Data(chunks[1..]) == out + Data(chunks);
    }
  }

  lemma NoLineEnd(s: seq<byte>)
    requires LF !in s
    ensures Find(s, CRLF) == -1
  {
    assert forall i :: MatchesAt(s, CRLF, i) ==> s[i + 1] == CRLF[1];
  }

  /** The grammar allows blanks before the semicolon of an extension; "1 ;x" is
      such a line and no decoder reads it. */
  lemma BlankBeforeExtensionRefused(fl: Flavour)
    ensures var h := ChunkHead([49], [SPACE], [SEMICOLON, 120]);
            && ValidHead(h)
            && Decode(fl, Encode([Chunk(h, [65])], ChunkHead([48], [], []), [], []), []) == Malformed
  {
    var h := ChunkHead([49], [SPACE], [SEMICOLON, 120]);
    var last := ChunkHead([48], [], []);
    assert HexValue(h.digits) == 1 && HexValue(last.digits) == 0;
    assert HeadLine(h) == [49, SPACE, SEMICOLON, 120] && HeadLine(last) == [48];
    NoLineEnd(HeadLine(h));
    NoLineEnd(HeadLine(last));
    hide Find, Decode, Encode, HexValue;
    DecodeInvertsEncode(fl, [Chunk(h, [65])], last, [], [], []);
  }
}
