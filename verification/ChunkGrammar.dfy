/** What the chunked decoders accept: the coding of section 7.1 of RFC 9112,
widened by a plus sign before the size, white space around a size line, and the
blank lines a reader skips.  Every accepted input has this form, and every input
of this form is accepted with the data of its chunks. */
module ChunkGrammar {
  import opened Text
  import opened Chunked

  // ---------- White space at either end ----------

  /** White space, read from the front. */
  predicate Blank(s: seq<byte>)
    decreases |s|
  {
    s == [] || (SpaceLen(s) > 0 && Blank(s[SpaceLen(s)..]))
  }

  /** White space, read from the back. */
  predicate BlankEnd(s: seq<byte>)
    decreases |s|
  {
    s == [] || (TailSpaceLen(s) > 0 && BlankEnd(s[..|s| - TailSpaceLen(s)]))
  }

  lemma SpaceLenExtends(s: seq<byte>, t: seq<byte>)
    requires SpaceLen(s) > 0
    ensures SpaceLen(s + t) == SpaceLen(s)
  {
    hide AsciiSpace, Space2, Space3;
  }

  /** Only the white space itself decides its length. */
  lemma SpaceLenLocal(s: seq<byte>, n: nat)
    requires 0 < SpaceLen(s) <= n <= |s|
    ensures SpaceLen(s[..n]) == SpaceLen(s)
  {
    hide AsciiSpace, Space2, Space3;
  }

  lemma TailSpaceLenExtends(s: seq<byte>, t: seq<byte>)
    requires TailSpaceLen(t) > 0
    ensures TailSpaceLen(s + t) == TailSpaceLen(t)
  {
    hide AsciiSpace, Space2, Space3, Continuation;
    var u, n := s + t, |s + t|;
    assert u[n - 1] == t[|t| - 1];
    assert |t| >= 2 ==> u[n - 2] == t[|t| - 2];
    assert |t| >= 3 ==> u[n - 3] == t[|t| - 3];
  }

  lemma TailSpaceLenLocal(s: seq<byte>, i: nat)
    requires i <= |s| && 0 < TailSpaceLen(s) <= |s| - i
    ensures TailSpaceLen(s[i..]) == TailSpaceLen(s)
  {
    hide AsciiSpace, Space2, Space3, Continuation;
    var u := s[i..];
    assert u[|u| - 1] == s[|s| - 1];
    assert |u| >= 2 ==> u[|u| - 2] == s[|s| - 2];
    assert |u| >= 3 ==> u[|u| - 3] == s[|s| - 3];
  }

  lemma {:induction false} TrimStartOver(front: seq<byte>, x: seq<byte>)
    requires Blank(front)
    ensures TrimStart(front + x) == TrimStart(x)
    decreases |front|
  {
    hide SpaceLen;
    if front == [] {
      assert front + x == x;
    } else {
      var n := SpaceLen(front);
      SpaceLenExtends(front, x);
      assert (front + x)[n..] == front[n..] + x;
      TrimStartOver(front[n..], x);
    }
  }

  lemma {:induction false} TrimEndOver(x: seq<byte>, back: seq<byte>)
    requires BlankEnd(back)
    ensures TrimEnd(x + back) == TrimEnd(x)
    decreases |back|
  {
    hide TailSpaceLen;
    if back == [] {
      assert x + back == x;
    } else {
      var n := TailSpaceLen(back);
      TailSpaceLenExtends(x, back);
      assert (x + back)[..|x + back| - n] == x + back[..|back| - n];
      TrimEndOver(x, back[..|back| - n]);
    }
  }

  /** What trimming the front takes away is white space. */
  lemma {:induction false} TrimmedFront(s: seq<byte>)
    ensures |TrimStart(s)| <= |s| && Blank(s[..|s| - |TrimStart(s)|]) && TrimStart(s) == s[|s| - |TrimStart(s)|..]
    decreases |s|
  {
    hide SpaceLen;
    TrimStartLeaves(s);
    var n, k := SpaceLen(s), |s| - |TrimStart(s)|;
    if n == 0 {
      assert s[..k] == [];
    } else {
      TrimmedFront(s[n..]);
      SpaceLenLocal(s, k);
      assert s[..k][n..] == s[n..][..k - n];
    }
  }

  lemma {:induction false} TrimmedBack(s: seq<byte>)
    ensures BlankEnd(s[|TrimEnd(s)|..])
    decreases |s|
  {
    hide TailSpaceLen;
    var n, k := TailSpaceLen(s), |TrimEnd(s)|;
    if n == 0 {
      assert s[k..] == [];
    } else {
      var front := s[..|s| - n];
      TrimmedBack(front);
      TailSpaceLenLocal(s, k);
      assert s[k..][..|s| - k - n] == front[k..];
    }
  }

  lemma {:induction false} BlankEndStarts(s: seq<byte>)
    requires BlankEnd(s) && s != []
    ensures SpaceLen(s) > 0
    decreases |s|
  {
    var n := TailSpaceLen(s);
    var front := s[..|s| - n];
    if front == [] {
      OneSpace(s);
    } else {
      hide SpaceLen, TailSpaceLen;
      BlankEndStarts(front);
      SpaceLenExtends(front, s[|s| - n..]);
      assert front + s[|s| - n..] == s;
    }
  }

  lemma OneSpace(s: seq<byte>)
    requires TailSpaceLen(s) == |s| > 0
    ensures SpaceLen(s) > 0
  {
    hide AsciiSpace, Space2, Space3, Continuation;
  }

  /** Trimming leaves nothing exactly of white space. */
  lemma TrimsToNothing(s: seq<byte>)
    ensures Trim(s) == [] <==> Blank(s)
  {
    hide SpaceLen, TailSpaceLen, TrimStart, TrimEnd, Blank, BlankEnd;
    TrimmedFront(s);
    TrimStartLeaves(s);
    var t := TrimStart(s);
    assert s[..|s| - |t|] + t == s;
    if Blank(s) {
      TrimStartOver(s, []);
      assert s + [] == s;
      TrimNothing();
    }
    if Trim(s) == [] {
      TrimmedBack(t);
      assert t[0..] == t;
      if t != [] { BlankEndStarts(t); } else { assert s[..|s|] == s; }
    }
  }

  lemma TrimNothing()
    ensures TrimStart([]) == [] && TrimEnd([]) == []
  {
  }

  // ---------- Size lines ----------

  /** White space, perhaps a plus sign, digits, perhaps an extension that starts
      with its semicolon, and white space. */
  datatype WideHead = WideHead(front: seq<byte>, plus: bool, digits: seq<byte>, ext: seq<byte>, back: seq<byte>)

  function Signed(h: WideHead): seq<byte> {
    (if h.plus then [PLUS] else []) + h.digits
  }

  function WideLine(h: WideHead): seq<byte> {
    h.front + (Signed(h) + h.ext + h.back)
  }

  predicate ValidWide(h: WideHead) {
    && Blank(h.front) && BlankEnd(h.back)
    && h.digits != [] && HexDigits(h.digits) && HexValue(h.digits) <= USIZE_MAX
    && (h.ext == [] || h.ext[0] == SEMICOLON)
    && Utf8(WideLine(h)) && Find(WideLine(h), CRLF) == -1
  }

  lemma SignedReads(h: WideHead)
    requires h.digits != [] && HexDigits(h.digits) && HexValue(h.digits) <= USIZE_MAX
    ensures FromHex(Signed(h)) == Size(HexValue(h.digits))
    ensures var s := Signed(h);
            s != [] && SPACE < s[0] < 0x80 && SPACE < s[|s| - 1] < 0x80 && SEMICOLON !in s
  {
    hide HexValue;
    VisibleDigits(h.digits);
    var s := Signed(h);
    if h.plus { assert s[0] == PLUS && s[1..] == h.digits; } else { assert s == h.digits; }
    assert s[|s| - 1] == h.digits[|h.digits| - 1];
  }

  /** Every such line is read as the number its digits spell. */
  lemma WideReads(fl: Flavour, h: WideHead)
    requires ValidWide(h)
    ensures ReadSizeLine(fl, WideLine(h)) == Size(HexValue(h.digits))
  {
    hide Find, Utf8, Blank, BlankEnd, HexValue, HexDigits, FromHex, BeforeSemicolon, TrimStart, TrimEnd;
    SignedReads(h);
    var num := Signed(h);
    var token := num + h.ext;
    TrimStartOver(h.front, token + h.back);
    assert (token + h.back)[0] == num[0] && token[0] == num[0];
    StartsInk(token + h.back);
    StartsInk(token);
    TrimEndOver(token, h.back);
    HeadToken(num, h.ext);
    assert WideLine(h) != [];
  }

  lemma StartsInk(s: seq<byte>)
    requires s != [] && SPACE < s[0] < 0x80
    ensures TrimStart(s) == s
  {
  }

  /** And every line that is read as a number is such a line. */
  lemma ReadIsWide(fl: Flavour, line: seq<byte>) returns (h: WideHead)
    requires ReadSizeLine(fl, line).Size? && Find(line, CRLF) == -1
    ensures ValidWide(h) && WideLine(h) == line && ReadSizeLine(fl, line) == Size(HexValue(h.digits))
  {
    hide Find, Utf8, Blank, BlankEnd, HexValue, HexDigits, FromHex, BeforeSemicolon, TrimStart, TrimEnd;
    var t := TrimStart(line);
    TrimmedFront(line);
    TrimmedBack(t);
    var front, token, back := line[..|line| - |t|], TrimEnd(t), t[|TrimEnd(t)|..];
    assert line == front + t && t == token + back;
    var num := BeforeSemicolon(token);
    CutAtSemicolon(token);
    var ext := token[|num|..];
    var plus, digits := HexIsSigned(num);
    h := WideHead(front, plus, digits, ext, back);
    assert WideLine(h) == front + (num + ext + back);
  }

  lemma HexIsSigned(num: seq<byte>) returns (plus: bool, digits: seq<byte>)
    requires FromHex(num).Size?
    ensures num == (if plus then [PLUS] else []) + digits
    ensures digits != [] && HexDigits(digits) && HexValue(digits) <= USIZE_MAX
    ensures FromHex(num) == Size(HexValue(digits))
  {
    hide HexValue;
    plus := num != [] && num[0] == PLUS;
    digits := if plus then num[1..] else num;
  }

  lemma CutAtSemicolon(s: seq<byte>)
    ensures var num := BeforeSemicolon(s);
            |num| <= |s| && num == s[..|num|] && (|num| < |s| ==> s[|num|] == SEMICOLON)
            && num + s[|num|..] == s
  {
  }

  // ---------- Messages ----------

  datatype Part = Skipped(line: seq<byte>) | Sized(head: WideHead, data: seq<byte>)

  /** Lines that are passed over where a size line is due: empty ones by the
      request reader, white space by the response reader. */
  predicate Skippable(fl: Flavour, line: seq<byte>) {
    (fl.Request? && line == []) || (fl.Response? && Utf8(line) && Blank(line))
  }

  predicate ValidPart(fl: Flavour, p: Part) {
    match p
    case Skipped(line) => Skippable(fl, line) && Find(line, CRLF) == -1
    case Sized(head, data) => ValidWide(head) && data != [] && HexValue(head.digits) == |data|
  }

  predicate ValidParts(fl: Flavour, parts: seq<Part>) {
    forall i :: 0 <= i < |parts| ==> ValidPart(fl, parts[i])
  }

  function PartText(p: Part): seq<byte> {
    match p
    case Skipped(line) => line + CRLF
    case Sized(head, data) => WideLine(head) + CRLF + (data + CRLF)
  }

  /** The parts, the size line of the last chunk, its trailers, and whatever
      comes next on the connection. */
  datatype Message = Message(parts: seq<Part>, last: WideHead, trailers: seq<seq<byte>>, tail: seq<byte>)

  predicate Valid(fl: Flavour, m: Message) {
    && ValidParts(fl, m.parts) && ValidWide(m.last) && HexValue(m.last.digits) == 0
    && ValidTrailers(m.trailers)
  }

  function Wide(m: Message): seq<byte>
    decreases |m.parts|
  {
    if m.parts == [] then WideLine(m.last) + CRLF + TrailerSection(m.trailers, m.tail)
    else PartText(m.parts[0]) + Wide(m.(parts := m.parts[1..]))
  }

  function PartsData(parts: seq<Part>): seq<byte> {
    if parts == [] then []
    else (if parts[0].Sized? then parts[0].data else []) + PartsData(parts[1..])
  }

  lemma SkipIff(fl: Flavour, line: seq<byte>)
    ensures ReadSizeLine(fl, line).Skip? <==> Skippable(fl, line)
  {
    hide Utf8, Trim, FromHex, BeforeSemicolon, Blank;
    TrimsToNothing(line);
  }

  lemma PartDecodes(fl: Flavour, p: Part, next: seq<byte>, out: seq<byte>)
    requires ValidPart(fl, p)
    ensures Decode(fl, PartText(p) + next, out) == Decode(fl, next, out + if p.Sized? then p.data else [])
  {
    hide Find, ReadSizeLine, HexValue, TrailersEnd, Decode, ValidWide, Skippable;
    var s := PartText(p) + next;
    match p
    case Skipped(line) =>
      LineAhead(line, next);
      SkipIff(fl, line);
      assert out + [] == out;
      DecodeLine(fl, s, out);
    case Sized(head, data) =>
      var n, rest := |data|, data + CRLF + next;
      assert s == WideLine(head) + CRLF + rest;
      assert Find(WideLine(head), CRLF) == -1 by { WideIsLine(head); }
      LineAhead(WideLine(head), rest);
      WideReads(fl, head);
      assert rest[..n] == data && rest[n..n + 2] == CRLF && rest[n + 2..] == next;
      DecodeLine(fl, s, out);
  }

  lemma WideIsLine(h: WideHead)
    requires ValidWide(h)
    ensures Find(WideLine(h), CRLF) == -1
  {
  }

  lemma LastDecodes(fl: Flavour, m: Message, out: seq<byte>)
    requires Valid(fl, m) && m.parts == []
    ensures Decode(fl, Wide(m), out) == Body(out)
  {
    hide Find, ReadSizeLine, HexValue, TrailersEnd, Decode, ValidWide;
    var rest := TrailerSection(m.trailers, m.tail);
    WideIsLine(m.last);
    LineAhead(WideLine(m.last), rest);
    WideReads(fl, m.last);
    TrailersDecode(m.trailers, m.tail);
    DecodeLine(fl, Wide(m), out);
  }

  /** Every message of the wide form is accepted with the data of its chunks. */
  lemma {:induction false} WideDecodes(fl: Flavour, m: Message, out: seq<byte>)
    requires Valid(fl, m)
    ensures Decode(fl, Wide(m), out) == Body(out + PartsData(m.parts))
    decreases |m.parts|
  {
    hide Decode, ValidPart, ValidWide, ValidTrailers, HexValue;
    if m.parts == [] {
      LastDecodes(fl, m, out);
      assert out + [] == out;
    } else {
      var p, rest := m.parts[0], m.(parts := m.parts[1..]);
      var data := if p.Sized? then p.data else [];
      PartDecodes(fl, p, Wide(rest), out);
      WideDecodes(fl, rest, out + data);
      assert out + data + PartsData(rest.parts) == out + (data + PartsData(rest.parts));
    }
  }

  // ---------- And nothing else is accepted ----------

  lemma FirstLine(s: seq<byte>)
    requires Find(s, CRLF) >= 0
    ensures var i := Find(s, CRLF);
            s == s[..i] + CRLF + s[i + 2..] && Find(s[..i], CRLF) == -1
  {
    var i := Find(s, CRLF);
    var line := s[..i];
    assert s[i..i + 2] == CRLF;
    forall j | 0 <= j <= |line| - 2 ensures !MatchesAt(line, CRLF, j) {
      assert s[j..j + 2] == line[j..j + 2];
      assert !MatchesAt(s, CRLF, j);
    }
  }

  lemma {:induction false} TrailersParse(s: seq<byte>) returns (trailers: seq<seq<byte>>, tail: seq<byte>)
    requires TrailersEnd(s)
    ensures ValidTrailers(trailers) && s == TrailerSection(trailers, tail)
    decreases |s|
  {
    hide Find;
    var i := Find(s, CRLF);
    FirstLine(s);
    if i == 0 {
      trailers, tail := [], s[2..];
      assert [] + CRLF + tail == CRLF + tail;
    } else {
      var more;
      more, tail := TrailersParse(s[i + 2..]);
      trailers := [s[..i]] + more;
      assert trailers[1..] == more;
    }
  }

  /** Every accepted input is a message of the wide form, and its body is the
      data of the chunks. */
  lemma {:induction false} DecodeIsWide(fl: Flavour, s: seq<byte>, out: seq<byte>) returns (m: Message)
    requires Decode(fl, s, out).Body?
    ensures Valid(fl, m) && s == Wide(m) && Decode(fl, s, out) == Body(out + PartsData(m.parts))
    decreases |s|
  {
    hide Find, ReadSizeLine, TrailersEnd, Decode, Valid, ValidPart, Wide, PartsData, PartText, Skippable;
    var i := Find(s, CRLF);
    if i < 0 { DecodeNoLine(fl, s, out); }
    FirstLine(s);
    DecodeLine(fl, s, out);
    var line, rest := s[..i], s[i + 2..];
    match ReadSizeLine(fl, line)
    case Skip =>
      var n := DecodeIsWide(fl, rest, out);
      SkippedLine(fl, line, rest);
      m := Prefixed(fl, Skipped(line), n);
      assert [] + PartsData(n.parts) == PartsData(n.parts);
    case Size(size) =>
      if size == 0 {
        m := LastRead(fl, line, rest);
        assert out + [] == out;
      } else {
        var next, data := rest[size + 2..], rest[..size];
        var n := DecodeIsWide(fl, next, out + data);
        var p := ChunkRead(fl, line, rest, size);
        m := Prefixed(fl, p, n);
        assert out + data + PartsData(n.parts) == out + (data + PartsData(n.parts));
      }
  }

  lemma SkippedLine(fl: Flavour, line: seq<byte>, rest: seq<byte>)
    requires ReadSizeLine(fl, line).Skip? && Find(line, CRLF) == -1
    ensures ValidPart(fl, Skipped(line)) && PartText(Skipped(line)) + rest == line + CRLF + rest
  {
    hide Find, ReadSizeLine, Skippable;
    SkipIff(fl, line);
  }

  lemma LastRead(fl: Flavour, line: seq<byte>, rest: seq<byte>) returns (m: Message)
    requires ReadSizeLine(fl, line) == Size(0) && Find(line, CRLF) == -1 && TrailersEnd(rest)
    ensures Valid(fl, m) && Wide(m) == line + CRLF + rest && PartsData(m.parts) == []
  {
    hide Find, ReadSizeLine, TrailersEnd, ValidTrailers, HexValue, ValidWide;
    var head := ReadIsWide(fl, line);
    WideHasDigits(head);
    var trailers, tail := TrailersParse(rest);
    m := Message([], head, trailers, tail);
  }

  lemma WideHasDigits(h: WideHead)
    requires ValidWide(h)
    ensures HexDigits(h.digits)
  {
  }

  lemma ChunkRead(fl: Flavour, line: seq<byte>, rest: seq<byte>, n: nat) returns (p: Part)
    requires ReadSizeLine(fl, line) == Size(n) && Find(line, CRLF) == -1
    requires 0 < n && n + 2 <= |rest| && rest[n..n + 2] == CRLF
    ensures ValidPart(fl, p) && p.Sized? && p.data == rest[..n]
    ensures PartText(p) + rest[n + 2..] == line + CRLF + rest
  {
    hide Find, ReadSizeLine, HexValue, ValidWide;
    var head := ReadIsWide(fl, line);
    WideHasDigits(head);
    var data := rest[..n];
    p := Sized(head, data);
    assert rest == data + CRLF + rest[n + 2..];
    assert line + CRLF + (data + CRLF) + rest[n + 2..] == line + CRLF + (data + CRLF + rest[n + 2..]);
  }

  lemma Prefixed(fl: Flavour, p: Part, n: Message) returns (m: Message)
    requires ValidPart(fl, p) && Valid(fl, n)
    ensures Valid(fl, m) && Wide(m) == PartText(p) + Wide(n)
    ensures PartsData(m.parts) == (if p.Sized? then p.data else []) + PartsData(n.parts)
  {
    hide ValidPart, ValidWide, HexValue, PartText;
    m := n.(parts := [p] + n.parts);
    assert m.parts[1..] == n.parts;
    assert m.(parts := m.parts[1..]) == n;
  }

  // ---------- Sizes as a sender writes them ----------

  const LOWER_CASE: seq<byte> := [48, 49, 50, 51, 52, 53, 54, 55, 56, 57, 97, 98, 99, 100, 101, 102]
  const UPPER_CASE: seq<byte> := [48, 49, 50, 51, 52, 53, 54, 55, 56, 57, 65, 66, 67, 68, 69, 70]

  /** Which digits are written in upper case. */
  type Case = nat -> bool

  /** A number in base sixteen. */
  function Hex(n: nat, upper: Case): seq<byte> {
    var last := if upper(n) then UPPER_CASE[n % 16] else LOWER_CASE[n % 16];
    (if n < 16 then [] else Hex(n / 16, upper)) + [last]
  }

  function Zeros(k: nat): (z: seq<byte>)
    ensures |z| == k && forall i :: 0 <= i < k ==> z[i] == 48
  {
    seq(k, i => 48)
  }

  lemma DigitReads(d: nat)
    requires d < 16
    ensures HexDigit(LOWER_CASE[d]) && DigitValue(LOWER_CASE[d]) == d
    ensures HexDigit(UPPER_CASE[d]) && DigitValue(UPPER_CASE[d]) == d
  {
    if d < 10 {
      assert LOWER_CASE[d] == 48 + d && UPPER_CASE[d] == 48 + d;
    } else {
      assert LOWER_CASE[d] == 87 + d && UPPER_CASE[d] == 55 + d;
    }
  }

  lemma DigitBehind(s: seq<byte>, b: byte)
    requires HexDigits(s) && HexDigit(b)
    ensures HexDigits(s + [b]) && HexValue(s + [b]) == 16 * HexValue(s) + DigitValue(b)
  {
    assert (s + [b])[..|s|] == s;
  }

  lemma {:induction false} HexReads(n: nat, upper: Case)
    ensures Hex(n, upper) != [] && HexDigits(Hex(n, upper)) && HexValue(Hex(n, upper)) == n
  {
    hide HexValue;
    DigitReads(n % 16);
    var last := if upper(n) then UPPER_CASE[n % 16] else LOWER_CASE[n % 16];
    NoDigits();
    if n < 16 {
      DigitBehind([], last);
    } else {
      HexReads(n / 16, upper);
      DigitBehind(Hex(n / 16, upper), last);
    }
  }

  lemma NoDigits()
    ensures HexDigits([]) && HexValue([]) == 0
  {
  }

  lemma {:induction false} ZerosInFront(k: nat, s: seq<byte>)
    requires HexDigits(s)
    ensures HexDigits(Zeros(k) + s) && HexValue(Zeros(k) + s) == HexValue(s)
    decreases |s|, k
  {
    hide HexValue;
    NoDigits();
    if s != [] {
      var front, last := s[..|s| - 1], s[|s| - 1];
      ZerosInFront(k, front);
      DigitBehind(Zeros(k) + front, last);
      DigitBehind(front, last);
      assert front + [last] == s && Zeros(k) + front + [last] == Zeros(k) + s;
    } else if k == 0 {
      assert Zeros(0) + s == [];
    } else {
      ZerosInFront(k - 1, []);
      assert Zeros(k - 1) + [] == Zeros(k - 1);
      DigitBehind(Zeros(k - 1), 48);
      assert Zeros(k - 1) + [48] == Zeros(k) + s;
    }
  }

  /** Every decoder reads a number in base sixteen, in either case and with any
      leading zeros, as that number, and refuses it exactly above 64 bits. */
  lemma SizeAsWritten(fl: Flavour, n: nat, zeros: nat, upper: Case)
    ensures ReadSizeLine(fl, Zeros(zeros) + Hex(n, upper))
         == if n <= 0xFFFF_FFFF_FFFF_FFFF then Size(n) else Bad
  {
    hide ReadSizeLine, HexValue, Find, Utf8, Hex;
    var h := WrittenHead(zeros, n, upper, []);
    HeadAsWritten(zeros, n, upper, []);
    HeadRead(fl, h);
    assert HeadLine(h) == Zeros(zeros) + Hex(n, upper);
    Utf8Empty();
  }

  function WrittenHead(zeros: nat, n: nat, upper: Case, ext: seq<byte>): ChunkHead {
    ChunkHead(Zeros(zeros) + Hex(n, upper), [], ext)
  }

  lemma HeadAsWritten(zeros: nat, n: nat, upper: Case, ext: seq<byte>)
    requires LF !in ext && (ext == [] || ext[0] == SEMICOLON)
    ensures var h := WrittenHead(zeros, n, upper, ext);
            ValidHead(h) && HexDigits(h.digits) && HexValue(h.digits) == n
  {
    hide HexValue, Find, Hex;
    HexReads(n, upper);
    ZerosInFront(zeros, Hex(n, upper));
    var h := WrittenHead(zeros, n, upper, ext);
    VisibleDigits(h.digits);
    NoLineEnd(HeadLine(h));
  }

  /** A chunk as it is written: its data, leading zeros of its size, an extension. */
  datatype Written = Written(data: seq<byte>, zeros: nat, ext: seq<byte>)

  predicate ValidWritten(w: Written) {
    && 1 <= |w.data| <= 0xFFFF_FFFF_FFFF_FFFF
    && LF !in w.ext && Utf8(w.ext) && (w.ext == [] || w.ext[0] == SEMICOLON)
  }

  /** The chunks with their lengths in base sixteen, the last chunk, no trailers. */
  function AsWritten(ws: seq<Written>, upper: Case, tail: seq<byte>): seq<byte> {
    if ws == [] then [48] + CRLF + CRLF + tail
    else
      var w := ws[0];
      Zeros(w.zeros) + Hex(|w.data|, upper) + w.ext + CRLF + w.data + CRLF + AsWritten(ws[1..], upper, tail)
  }

  function WrittenData(ws: seq<Written>): seq<byte> {
    if ws == [] then [] else ws[0].data + WrittenData(ws[1..])
  }

  lemma LastAsWritten(fl: Flavour, tail: seq<byte>, out: seq<byte>)
    ensures Decode(fl, [48] + CRLF + CRLF + tail, out) == Body(out)
  {
    hide Decode, HexValue, Find;
    var last := ChunkHead([48], [], []);
    NoDigits();
    DigitBehind([], 48);
    assert [] + [48] == [48] && HeadLine(last) == [48];
    NoLineEnd([48]);
    Utf8Empty();
    DecodeLastChunk(fl, last, [], tail, out);
    assert [48] + CRLF + CRLF + tail == [48] + CRLF + (CRLF + tail);
  }

  /** What a sender writes, chunk by chunk with its length in front, every decoder
      gives back. */
  lemma {:induction false} WrittenDecodes(fl: Flavour, ws: seq<Written>, upper: Case, tail: seq<byte>, out: seq<byte>)
    requires forall i :: 0 <= i < |ws| ==> ValidWritten(ws[i])
    ensures Decode(fl, AsWritten(ws, upper, tail), out) == Body(out + WrittenData(ws))
  {
    hide Decode, HexValue, HexDigits, Hex, Find, Utf8, ValidHead;
    if ws == [] {
      LastAsWritten(fl, tail, out);
      assert out + [] == out;
    } else {
      var w, next := ws[0], AsWritten(ws[1..], upper, tail);
      var c := Chunk(WrittenHead(w.zeros, |w.data|, upper, w.ext), w.data);
      assert ValidWritten(w);
      HeadAsWritten(w.zeros, |w.data|, upper, w.ext);
      DecodeOneChunk(fl, c, next, out);
      assert HeadLine(c.head) == Zeros(w.zeros) + Hex(|w.data|, upper) + w.ext;
      WrittenDecodes(fl, ws[1..], upper, tail, out + w.data);
      assert out + w.data + WrittenData(ws[1..]) == out + WrittenData(ws);
    }
  }
}
