/** Framing of SOCKS5 UDP datagrams (section 7 of RFC 1928). */
module Socks5Udp {
  import opened Text
  import opened Wrappers

  const IPV4: byte := 1
  const DOMAIN: byte := 3
  const IPV6: byte := 4

  /** A destination as it is framed; its printed form follows from these fields. */
  datatype Target = Target(atyp: byte, addr: seq<byte>, port: nat)

  /** A target with the payload's offset in the packet. */
  datatype Parsed = Parsed(target: Target, offset: nat)

  /** Addresses that a packet can carry. */
  predicate WellFormed(t: Target) {
    && t.port < 65_536
    && (|| (t.atyp == IPV4 && |t.addr| == 4)
        || (t.atyp == DOMAIN && 1 <= |t.addr| <= 255 && Utf8(t.addr))
        || (t.atyp == IPV6 && |t.addr| == 16))
  }

  function Port(hi: byte, lo: byte): nat {
    256 * hi + lo
  }

  /** The header: the length byte of a name is truncated to eight bits. */
  function Header(t: Target): seq<byte> {
    [0, 0, 0, t.atyp] + (if t.atyp == DOMAIN then [|t.addr| % 256] else []) + t.addr
    + [t.port / 256 % 256, t.port % 256]
  }

  function Build(t: Target, payload: seq<byte>): seq<byte> {
    Header(t) + payload
  }

  /** The address of `n` bytes at `pos` and the port behind it. */
  function ParseAt(buf: seq<byte>, atyp: byte, pos: nat, n: nat): (r: Option<Parsed>)
    requires pos <= |buf|
  {
    if |buf| < pos + n + 2 then None
    else
      var addr := buf[pos..pos + n];
      if atyp == DOMAIN && !Utf8(addr) then None
      else Some(Parsed(Target(atyp, addr, Port(buf[pos + n], buf[pos + n + 1])), pos + n + 2))
  }

  function Parse(buf: seq<byte>): (r: Option<Parsed>) {
    if |buf| < 4 || buf[0] != 0 || buf[1] != 0 || buf[2] != 0 then None
    else if buf[3] == IPV4 then ParseAt(buf, IPV4, 4, 4)
    else if buf[3] == DOMAIN then
      if |buf| < 5 || buf[4] == 0 then None else ParseAt(buf, DOMAIN, 5, buf[4])
    else if buf[3] == IPV6 then ParseAt(buf, IPV6, 4, 16)
    else None
  }

  // ---------- As the source runs it ----------

  method ParsePacketOffsets(buf: seq<byte>) returns (r: Option<Parsed>)
    ensures r == Parse(buf)
  {
    if |buf| < 4 || buf[0] != 0 || buf[1] != 0 || buf[2] != 0 { return None; }
    var atyp, pos: nat, addr: seq<byte> := buf[3], 4, [];
    if atyp == IPV4 {
      if |buf| < pos + 4 + 2 { return None; }
      addr := buf[pos..pos + 4];
      pos := pos + 4;
    } else if atyp == DOMAIN {
      if |buf| < pos + 1 { return None; }
      var len := buf[pos];
      pos := pos + 1;
      if len == 0 || |buf| < pos + len + 2 { return None; }
      addr := buf[pos..pos + len];
      pos := pos + len;
      if !Utf8(addr) { return None; }
    } else if atyp == IPV6 {
      if |buf| < pos + 16 + 2 { return None; }
      addr := buf[pos..pos + 16];
      pos := pos + 16;
    } else {
      return None;
    }
    var port := Port(buf[pos], buf[pos + 1]);
    pos := pos + 2;
    r := Some(Parsed(Target(atyp, addr, port), pos));
  }

  method BuildPacket(t: Target, payload: seq<byte>) returns (out: seq<byte>)
    ensures out == Build(t, payload)
  {
    out := [0, 0, 0, t.atyp];
    if t.atyp == DOMAIN { out := out + [|t.addr| % 256]; }
    out := out + t.addr;
    out := out + [t.port / 256 % 256, t.port % 256];
    out := out + payload;
  }

  // ---------- Main results ----------

  lemma PortBytes(p: nat)
    requires p < 65_536
    ensures Port(p / 256 % 256, p % 256) == p
  {
  }

  /** Where the parts of a built packet lie. */
  lemma Layout(t: Target, payload: seq<byte>)
    ensures var buf, pos, n := Build(t, payload), if t.atyp == 3 then 5 else 4, |t.addr|;
            && |Header(t)| == pos + n + 2 <= |buf|
            && buf[0] == 0 && buf[1] == 0 && buf[2] == 0 && buf[3] == t.atyp
            && (t.atyp == 3 ==> buf[4] == n % 256)
            && buf[pos..pos + n] == t.addr && buf[|Header(t)|..] == payload
            && buf[pos + n] == t.port / 256 % 256 && buf[pos + n + 1] == t.port % 256
  {
    var front := [0, 0, 0, t.atyp] + if t.atyp == DOMAIN then [|t.addr| % 256] else [];
    var port := [t.port / 256 % 256, t.port % 256];
    assert Build(t, payload) == front + t.addr + port + payload;
    assert (front + t.addr + port + payload)[..|front|] == front;
  }

  /** Parsing a built packet returns the target and the payload it was built from
      exactly when the target is well formed. */
  lemma ParseOfBuild(t: Target, payload: seq<byte>)
    requires t.port < 65_536
    ensures var r := Parse(Build(t, payload));
            (r == Some(Parsed(t, |Header(t)|)) && Build(t, payload)[|Header(t)|..] == payload) <==>
              || (t.atyp == 1 && |t.addr| == 4)
              || (t.atyp == 3 && 1 <= |t.addr| <= 255 && Utf8(t.addr))
              || (t.atyp == 4 && |t.addr| == 16)
  {
    hide Utf8, Build, Header, Port;
    Layout(t, payload);
    PortBytes(t.port);
  }

  lemma PortSplits(hi: byte, lo: byte)
    ensures Port(hi, lo) < 65_536 && Port(hi, lo) / 256 % 256 == hi && Port(hi, lo) % 256 == lo
  {
  }

  /** A packet is the header of what was read from it, and the rest. */
  lemma HeaderOf(buf: seq<byte>, atyp: byte, pos: nat, n: nat)
    requires pos + n + 2 <= |buf| && 4 <= pos && buf[0] == 0 && buf[1] == 0 && buf[2] == 0 && buf[3] == atyp
    requires if atyp == DOMAIN then pos == 5 && buf[4] == n else pos == 4
    ensures var t := Target(atyp, buf[pos..pos + n], Port(buf[pos + n], buf[pos + n + 1]));
            Header(t) == buf[..pos + n + 2]
  {
    PortSplits(buf[pos + n], buf[pos + n + 1]);
    hide Port;
    assert buf[..pos] == [0, 0, 0, atyp] + if atyp == DOMAIN then [n] else [];
    assert buf[..pos + n + 2] == buf[..pos] + buf[pos..pos + n] + [buf[pos + n], buf[pos + n + 1]];
  }

  /** Rebuilding any accepted packet reproduces its bytes, and its target is well formed. */
  lemma BuildOfParse(buf: seq<byte>)
    requires Parse(buf).Some?
    ensures var p := Parse(buf).value;
            p.offset <= |buf| && WellFormed(p.target) && Build(p.target, buf[p.offset..]) == buf
  {
    hide Utf8, Header, Port;
    var p := Parse(buf).value;
    var pos := if buf[3] == DOMAIN then 5 else 4;
    HeaderOf(buf, buf[3], pos, p.offset - 2 - pos);
    PortSplits(buf[p.offset - 2], buf[p.offset - 1]);
    assert buf[..p.offset] + buf[p.offset..] == buf;
  }
}
