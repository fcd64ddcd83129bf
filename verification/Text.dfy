/** Bytes seen as text: UTF-8 well-formedness, Unicode trimming and searching,
the parts of string handling that the HTTP parsers rest on. */
module Text {

  type byte = b: int | 0 <= b < 256

  const TAB: byte := 9
  const LF: byte := 10
  const CR: byte := 13
  const SPACE: byte := 32
  const COLON: byte := 58
  const SEMICOLON: byte := 59
  const CRLF: seq<byte> := [CR, LF]

  // ---------- Searching ----------

  predicate MatchesAt(s: seq<byte>, pat: seq<byte>, i: int) {
    0 <= i <= |s| - |pat| && s[i..i + |pat|] == pat
  }

  /** Index of the first occurrence of `pat` at or after `from`, or -1. */
  function Find(s: seq<byte>, pat: seq<byte>, from: nat := 0): (r: int)
    ensures r == -1 || (from <= r && MatchesAt(s, pat, r))
    ensures forall j :: from <= j && (r == -1 || j < r) ==> !MatchesAt(s, pat, j)
    decreases |s| - from
  {
    if from + |pat| > |s| then -1
    else if MatchesAt(s, pat, from) then from
    else Find(s, pat, from + 1)
  }

  /** The first occurrence is the only index with this property. */
  lemma FindIs(s: seq<byte>, pat: seq<byte>, i: nat)
    requires MatchesAt(s, pat, i)
    requires forall j :: 0 <= j < i ==> !MatchesAt(s, pat, j)
    ensures Find(s, pat) == i
  {
  }

  /** More bytes behind do not move an occurrence that is already there. */
  lemma FindExtends(s: seq<byte>, t: seq<byte>, pat: seq<byte>)
    requires Find(s, pat) >= 0
    ensures Find(s + t, pat) == Find(s, pat)
  {
    var i := Find(s, pat);
    assert (s + t)[i..i + |pat|] == s[i..i + |pat|];
    forall j | 0 <= j < i ensures !MatchesAt(s + t, pat, j) {
      assert !MatchesAt(s, pat, j);
      assert (s + t)[j..j + |pat|] == s[j..j + |pat|];
    }
    FindIs(s + t, pat, i);
  }

  /** Index of the first byte `b`, or -1. */
  function IndexOf(s: seq<byte>, b: byte): (r: int)
    ensures -1 <= r < |s|
    ensures r == -1 ==> b !in s
    ensures r >= 0 ==> s[r] == b && b !in s[..r]
  {
    if s == [] then -1
    else if s[0] == b then 0
    else
      var r := IndexOf(s[1..], b);
      assert r >= 0 ==> s[..r + 1] == [s[0]] + s[1..][..r];
      if r == -1 then -1 else r + 1
  }

  lemma IndexOfIs(s: seq<byte>, b: byte, i: nat)
    requires i < |s| && s[i] == b && b !in s[..i]
    ensures IndexOf(s, b) == i
  {
    assert b in s;
    var r := IndexOf(s, b);
    assert r <= i;
  }

  // ---------- UTF-8 ----------

  predicate Ascii(s: seq<byte>) {
    forall i :: 0 <= i < |s| ==> s[i] < 0x80
  }

  predicate Continuation(b: byte) {
    0x80 <= b < 0xC0
  }

  /** Length of the well-formed scalar value at the front, or 0. */
  function ScalarLen(s: seq<byte>): (n: nat)
    ensures n <= |s| && n <= 4
    ensures s != [] && s[0] < 0x80 ==> n == 1
    ensures n > 0 ==> !Continuation(s[0])
    ensures forall i :: 1 <= i < n ==> Continuation(s[i])
  {
    if s == [] then 0
    else if s[0] < 0x80 then 1
    else if 0xC2 <= s[0] <= 0xDF then
      if |s| >= 2 && Continuation(s[1]) then 2 else 0
    else if 0xE0 <= s[0] <= 0xEF then
      if |s| >= 3 && Continuation(s[1]) && Continuation(s[2])
         && (s[0] == 0xE0 ==> 0xA0 <= s[1]) && (s[0] == 0xED ==> s[1] < 0xA0) then 3 else 0
    else if 0xF0 <= s[0] <= 0xF4 then
      if |s| >= 4 && Continuation(s[1]) && Continuation(s[2]) && Continuation(s[3])
         && (s[0] == 0xF0 ==> 0x90 <= s[1]) && (s[0] == 0xF4 ==> s[1] < 0x90) then 4 else 0
    else 0
  }

  predicate Utf8(s: seq<byte>) {
    s == [] || (ScalarLen(s) > 0 && Utf8(s[ScalarLen(s)..]))
  }

  lemma ScalarLenExtends(s: seq<byte>, t: seq<byte>)
    requires ScalarLen(s) > 0
    ensures ScalarLen(s + t) == ScalarLen(s)
  {
  }

  lemma {:induction false} Utf8Concat(s: seq<byte>, t: seq<byte>)
    requires Utf8(s)
    ensures Utf8(s + t) <==> Utf8(t)
    decreases |s|
  {
    if s == [] {
      assert s + t == t;
    } else {
      var n := ScalarLen(s);
      ScalarLenExtends(s, t);
      assert (s + t)[n..] == s[n..] + t;
      Utf8Concat(s[n..], t);
    }
  }

  lemma ScalarAlone(s: seq<byte>)
    requires ScalarLen(s) > 0
    ensures Utf8(s[..ScalarLen(s)])
  {
    var n := ScalarLen(s);
    assert ScalarLen(s[..n]) == n;
    assert s[..n][n..] == [];
  }

  lemma Utf8Tail(s: seq<byte>)
    requires Utf8(s) && s != []
    ensures ScalarLen(s) > 0 && Utf8(s[ScalarLen(s)..])
  {
  }

  /** A scalar value in front of text is text. */
  lemma ScalarInFront(s: seq<byte>, t: seq<byte>)
    requires ScalarLen(s) > 0 && Utf8(t)
    ensures Utf8(s[..ScalarLen(s)] + t)
  {
    hide Utf8, ScalarLen;
    ScalarAlone(s);
    Utf8Concat(s[..ScalarLen(s)], t);
  }

  /** Text may be cut in front of any byte that is not a continuation byte. */
  lemma {:induction false} Utf8Split(s: seq<byte>, i: nat)
    requires Utf8(s) && i <= |s| && (i < |s| ==> !Continuation(s[i]))
    ensures Utf8(s[..i]) && Utf8(s[i..])
    decreases |s|
  {
    hide Utf8, ScalarLen, Continuation;
    if i == 0 {
      assert s[..0] == [] && s[0..] == s;
      Utf8Empty();
    } else {
      Utf8Tail(s);
      var n := ScalarLen(s);
      FirstScalarEnds(s, i);
      SliceJoin(s, n, i);
      var rest := s[n..];
      Utf8Split(rest, i - n);
      ScalarInFront(s, rest[..i - n]);
    }
  }

  lemma Utf8Empty()
    ensures Utf8([])
  {
  }

  lemma FirstScalarEnds(s: seq<byte>, i: nat)
    requires 0 < i <= |s| && (i < |s| ==> !Continuation(s[i]))
    ensures ScalarLen(s) <= i
  {
    hide Continuation;
  }

  lemma SliceJoin(s: seq<byte>, n: nat, i: nat)
    requires n <= i <= |s|
    ensures s[..i] == s[..n] + s[n..][..i - n] && s[i..] == s[n..][i - n..]
    ensures i < |s| ==> s[n..][i - n] == s[i]
  {
  }

  lemma {:induction false} AsciiIsUtf8(s: seq<byte>)
    requires Ascii(s)
    ensures Utf8(s)
  {
    if s != [] { AsciiIsUtf8(s[1..]); }
  }

  // ---------- Trimming ----------

  predicate AsciiSpace(b: byte) {
    9 <= b <= 13 || b == 32
  }

  /** The White_Space scalars of Unicode beyond ASCII, in UTF-8. */
  predicate Space2(a: byte, b: byte) {
    a == 0xC2 && (b == 0x85 || b == 0xA0)
  }

  predicate Space3(a: byte, b: byte, c: byte) {
    || (a == 0xE1 && b == 0x9A && c == 0x80)
    || (a == 0xE2 && b == 0x80 && (0x80 <= c <= 0x8A || c == 0xA8 || c == 0xA9 || c == 0xAF))
    || (a == 0xE2 && b == 0x81 && c == 0x9F)
    || (a == 0xE3 && b == 0x80 && c == 0x80)
  }

  /** Length of the white-space scalar at the front, or 0. */
  function SpaceLen(s: seq<byte>): (n: nat)
    ensures n <= |s|
  {
    if |s| >= 1 && AsciiSpace(s[0]) then 1
    else if |s| >= 2 && Space2(s[0], s[1]) then 2
    else if |s| >= 3 && Space3(s[0], s[1], s[2]) then 3
    else 0
  }

  /** Length of the white-space scalar at the back, or 0. */
  function TailSpaceLen(s: seq<byte>): (n: nat)
    ensures n <= |s|
    ensures n > 0 ==> !Continuation(s[|s| - n])
    ensures forall i :: |s| - n <= i < |s| ==> AsciiSpace(s[i]) || 0x80 <= s[i]
  {
    var n := |s|;
    if n >= 1 && AsciiSpace(s[n - 1]) then 1
    else if n >= 2 && Space2(s[n - 2], s[n - 1]) then 2
    else if n >= 3 && Space3(s[n - 3], s[n - 2], s[n - 1]) then 3
    else 0
  }

  function TrimStart(s: seq<byte>): (r: seq<byte>)
    decreases |s|
  {
    if SpaceLen(s) > 0 then TrimStart(s[SpaceLen(s)..]) else s
  }

  /** What is left is the longest end of the text that starts visibly. */
  lemma {:induction false} TrimStartLeaves(s: seq<byte>)
    ensures var r := TrimStart(s);
            SpaceLen(r) == 0 && |r| <= |s| && r == s[|s| - |r|..]
    decreases |s|
  {
    hide SpaceLen;
    var n := SpaceLen(s);
    if n > 0 {
      TrimStartLeaves(s[n..]);
      SliceOfSlice(s, n, |s| - |TrimStart(s)|);
    }
  }

  lemma SliceOfSlice(s: seq<byte>, n: nat, i: nat)
    requires n <= i <= |s|
    ensures s[n..][i - n..] == s[i..]
  {
  }

  function TrimEnd(s: seq<byte>): (r: seq<byte>)
    ensures TailSpaceLen(r) == 0
    ensures |r| <= |s| && r == s[..|r|]
    decreases |s|
  {
    if TailSpaceLen(s) > 0 then TrimEnd(s[..|s| - TailSpaceLen(s)]) else s
  }

  function Trim(s: seq<byte>): (r: seq<byte>) {
    TrimEnd(TrimStart(s))
  }

  predicate Trimmed(s: seq<byte>) {
    SpaceLen(s) == 0 && TailSpaceLen(s) == 0
  }

  lemma SpaceLenPrefix(t: seq<byte>, n: nat)
    requires n <= |t| && SpaceLen(t) == 0
    ensures SpaceLen(t[..n]) == 0
  {
    hide AsciiSpace, Space2, Space3;
  }

  /** Trimming trims. */
  lemma TrimTrims(s: seq<byte>)
    ensures Trimmed(Trim(s))
  {
    hide SpaceLen, TailSpaceLen, TrimStart, TrimEnd;
    var t := TrimStart(s);
    TrimStartLeaves(s);
    SpaceLenPrefix(t, |TrimEnd(t)|);
  }

  /** Trimming a trimmed text changes nothing, also behind a space. */
  lemma TrimOfTrimmed(s: seq<byte>)
    requires Trimmed(s)
    ensures Trim(s) == s && Trim([SPACE] + s) == s
  {
    assert ([SPACE] + s)[1..] == s;
  }

  lemma {:induction false} TrimStartUtf8(s: seq<byte>)
    requires Utf8(s)
    ensures Utf8(TrimStart(s))
    decreases |s|
  {
    if SpaceLen(s) > 0 {
      SpaceIsScalar(s);
      Utf8Tail(s);
      hide Utf8, SpaceLen, ScalarLen;
      TrimStartUtf8(s[SpaceLen(s)..]);
    }
  }

  lemma SpaceIsScalar(s: seq<byte>)
    requires SpaceLen(s) > 0
    ensures ScalarLen(s) == SpaceLen(s)
  {
  }

  lemma {:induction false} TrimEndUtf8(s: seq<byte>)
    requires Utf8(s)
    ensures Utf8(TrimEnd(s))
    decreases |s|
  {
    hide Utf8, TailSpaceLen;
    var n := TailSpaceLen(s);
    if n > 0 {
      Utf8Split(s, |s| - n);
      TrimEndUtf8(s[..|s| - n]);
    }
  }

  lemma TrimUtf8(s: seq<byte>)
    requires Utf8(s)
    ensures Utf8(Trim(s))
  {
    hide Utf8, TrimStart, TrimEnd;
    TrimStartUtf8(s);
    TrimEndUtf8(TrimStart(s));
  }

  /** Trimming the back never reaches past a visible ASCII byte. */
  lemma {:induction false} TrimEndKeeps(s: seq<byte>, i: nat)
    requires i < |s| && s[i] < 0x80 && !AsciiSpace(s[i])
    ensures i < |TrimEnd(s)|
    decreases |s|
  {
    var n := TailSpaceLen(s);
    if n > 0 {
      TrimEndKeeps(s[..|s| - n], i);
    }
  }
}
