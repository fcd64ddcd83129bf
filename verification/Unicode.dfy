/** What the byte-level text functions mean in terms of Unicode: well-formed
UTF-8 is the encoding of scalar values, and trimming is by the White_Space
property. */
module Unicode {
  import opened Text

  predicate IsScalar(cp: nat) {
    cp < 0x11_0000 && !(0xD800 <= cp < 0xE000)
  }

  /** UTF-8 of one scalar value (section 3 of RFC 3629). */
  function EncodeScalar(cp: nat): (s: seq<byte>)
    requires IsScalar(cp)
    ensures 1 <= |s| <= 4
  {
    if cp < 0x80 then [cp]
    else if cp < 0x800 then [0xC0 + cp / 64, 0x80 + cp % 64]
    else if cp < 0x1_0000 then [0xE0 + cp / 4096, 0x80 + cp / 64 % 64, 0x80 + cp % 64]
    else [0xF0 + cp / 262_144, 0x80 + cp / 4096 % 64, 0x80 + cp / 64 % 64, 0x80 + cp % 64]
  }

  function EncodeAll(cps: seq<nat>): seq<byte>
    requires forall i :: 0 <= i < |cps| ==> IsScalar(cps[i])
  {
    if cps == [] then [] else EncodeScalar(cps[0]) + EncodeAll(cps[1..])
  }

  /** The scalar at the front of text is read in its full length. */
  lemma ScalarReads(cp: nat, t: seq<byte>)
    requires IsScalar(cp)
    ensures ScalarLen(EncodeScalar(cp) + t) == |EncodeScalar(cp)|
  {
    var s := EncodeScalar(cp) + t;
    if 0x800 <= cp < 0x1_0000 {
      assert s[0] == 0xE0 ==> 0xA0 <= s[1];
      assert s[0] == 0xED ==> s[1] < 0xA0;
    } else if 0x1_0000 <= cp {
      assert s[0] == 0xF0 ==> 0x90 <= s[1];
      assert s[0] == 0xF4 ==> s[1] < 0x90;
    }
  }

  lemma Split2(a: nat, b: nat)
    requires b < 64
    ensures (64 * a + b) / 64 == a && (64 * a + b) % 64 == b
  {
  }

  lemma Split3(a: nat, b: nat, c: nat)
    requires b < 64 && c < 64
    ensures var cp := 4096 * a + 64 * b + c;
            cp / 4096 == a && cp / 64 % 64 == b && cp % 64 == c
  {
    Split2(64 * a + b, c);
    Split2(a, b);
  }

  lemma Split4(a: nat, b: nat, c: nat, d: nat)
    requires b < 64 && c < 64 && d < 64
    ensures var cp := 262_144 * a + 4096 * b + 64 * c + d;
            cp / 262_144 == a && cp / 4096 % 64 == b && cp / 64 % 64 == c && cp % 64 == d
  {
    Split3(64 * a + b, c, d);
    Split2(a, b);
  }

  lemma Read2(s: seq<byte>) returns (cp: nat)
    requires ScalarLen(s) == 2
    ensures IsScalar(cp) && s[..2] == EncodeScalar(cp)
  {
    var a: int, b: int := s[0], s[1];
    cp := 64 * (a - 0xC0) + (b - 0x80);
    Split2(a - 0xC0, b - 0x80);
  }

  lemma Read3(s: seq<byte>) returns (cp: nat)
    requires ScalarLen(s) == 3
    ensures IsScalar(cp) && s[..3] == EncodeScalar(cp)
  {
    var a: int, b: int, c: int := s[0], s[1], s[2];
    cp := 4096 * (a - 0xE0) + 64 * (b - 0x80) + (c - 0x80);
    Split3(a - 0xE0, b - 0x80, c - 0x80);
    assert 0x800 <= cp < 0x1_0000 && !(0xD800 <= cp < 0xE000);
  }

  lemma Read4(s: seq<byte>) returns (cp: nat)
    requires ScalarLen(s) == 4
    ensures IsScalar(cp) && s[..4] == EncodeScalar(cp)
  {
    var a: int, b: int, c: int, d: int := s[0], s[1], s[2], s[3];
    cp := 262_144 * (a - 0xF0) + 4096 * (b - 0x80) + 64 * (c - 0x80) + (d - 0x80);
    Split4(a - 0xF0, b - 0x80, c - 0x80, d - 0x80);
    assert 0x1_0000 <= cp < 0x11_0000;
  }

  /** And whatever is read as one is the encoding of a scalar. */
  lemma ReadIsScalar(s: seq<byte>) returns (cp: nat)
    requires ScalarLen(s) > 0
    ensures IsScalar(cp) && s[..ScalarLen(s)] == EncodeScalar(cp)
  {
    var n := ScalarLen(s);
    if n == 1 {
      cp := s[0];
    } else {
      hide ScalarLen, EncodeScalar;
      if n == 2 { cp := Read2(s); } else if n == 3 { cp := Read3(s); } else { cp := Read4(s); }
    }
  }

  /** The encoding of any scalar values is well formed. */
  lemma {:induction false} EncodedIsUtf8(cps: seq<nat>)
    requires forall i :: 0 <= i < |cps| ==> IsScalar(cps[i])
    ensures Utf8(EncodeAll(cps))
  {
    hide ScalarLen, EncodeScalar;
    if cps != [] {
      var first, rest := EncodeScalar(cps[0]), EncodeAll(cps[1..]);
      ScalarReads(cps[0], rest);
      EncodedIsUtf8(cps[1..]);
      assert (first + rest)[|first|..] == rest;
    }
  }

  /** And every well-formed text is one. */
  lemma {:induction false} Utf8IsEncoded(s: seq<byte>) returns (cps: seq<nat>)
    requires Utf8(s)
    ensures forall i :: 0 <= i < |cps| ==> IsScalar(cps[i])
    ensures EncodeAll(cps) == s
    decreases |s|
  {
    hide ScalarLen, EncodeScalar;
    if s == [] {
      cps := [];
    } else {
      var n := ScalarLen(s);
      var cp := ReadIsScalar(s);
      var rest := Utf8IsEncoded(s[n..]);
      cps := [cp] + rest;
      assert cps[1..] == rest && s == s[..n] + s[n..];
    }
  }

  /** The scalar values with the White_Space property. */
  predicate WhiteSpace(cp: nat) {
    || 9 <= cp <= 13 || cp == 0x20 || cp == 0x85 || cp == 0xA0 || cp == 0x1680 || 0x2000 <= cp <= 0x200A
    || cp == 0x2028 || cp == 0x2029 || cp == 0x202F || cp == 0x205F || cp == 0x3000
  }

  /** At the front of text exactly these are taken for white space. */
  lemma FrontSpaceIff(cp: nat, t: seq<byte>)
    requires IsScalar(cp)
    ensures SpaceLen(EncodeScalar(cp) + t) == if WhiteSpace(cp) then |EncodeScalar(cp)| else 0
  {
    var s := EncodeScalar(cp) + t;
    if cp < 0x80 {
      assert s[0] == cp;
    } else if cp < 0x800 {
      assert s[0] == 0xC0 + cp / 64 && s[1] == 0x80 + cp % 64;
    } else if cp < 0x1_0000 {
      assert s[0] == 0xE0 + cp / 4096 && s[1] == 0x80 + cp / 64 % 64 && s[2] == 0x80 + cp % 64;
    } else {
      assert s[0] >= 0xF0;
    }
  }

  /** And likewise at the back. */
  lemma BackSpaceIff(t: seq<byte>, cp: nat)
    requires IsScalar(cp)
    ensures TailSpaceLen(t + EncodeScalar(cp)) == if WhiteSpace(cp) then |EncodeScalar(cp)| else 0
  {
    var e, s := EncodeScalar(cp), t + EncodeScalar(cp);
    var n := |s|;
    if cp < 0x80 {
      assert s[n - 1] == cp;
    } else if cp < 0x800 {
      assert s[n - 2] == 0xC0 + cp / 64 && s[n - 1] == 0x80 + cp % 64;
    } else if cp < 0x1_0000 {
      assert s[n - 3] == 0xE0 + cp / 4096 && s[n - 2] == 0x80 + cp / 64 % 64 && s[n - 1] == 0x80 + cp % 64;
    } else {
      assert 0x80 <= s[n - 3] < 0xC0 && 0x80 <= s[n - 2] < 0xC0 && 0x80 <= s[n - 1] < 0xC0;
    }
  }
}
