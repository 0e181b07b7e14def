/** SOCKS5 addresses: the TCP parser of `src/sockaddr_universal.c` and the UDP header parser of
    `src/UDPRelay.cpp`, against the header format of RFC 1928. */
module Socks5 {
  import opened Wrappers
  import opened Bytes

  // ---------- addresses ----------

  datatype Host = IPv4(addr: bytes) | Domain(name: bytes) | IPv6(addr: bytes)

  datatype Address = Address(host: Host, port: nat)

  const ATYP_IPV4: byte := 1
  const ATYP_DOMAIN: byte := 3
  const ATYP_IPV6: byte := 4

  ghost predicate WellFormed(a: Address)
  {
    && a.port < 0x10000
    && match a.host
       case IPv4(x) => |x| == 4
       case Domain(n) => |n| < 256
       case IPv6(x) => |x| == 16
  }

  /** ATYP, DST.ADDR and DST.PORT of section 5 of RFC 1928. */
  function Header(a: Address): (r: bytes)
    requires WellFormed(a)
  {
    (match a.host
     case IPv4(x) => [ATYP_IPV4] + x
     case Domain(n) => [ATYP_DOMAIN, |n| as byte] + n
     case IPv6(x) => [ATYP_IPV6] + x) + Store16(a.port)
  }

  /** The format spelled out: type 1 with 4 bytes, type 3 with a counted name, type 4 with 16 bytes, each
      followed by the port with its higher byte first. */
  lemma {:induction false} Format(a: Address)
    requires WellFormed(a)
    ensures var port := [(a.port / 256) as byte, (a.port % 256) as byte];
            Header(a) == match a.host
                         case IPv4(x) => [0x01] + x + port
                         case Domain(n) => [0x03, |n| as byte] + n + port
                         case IPv6(x) => [0x04] + x + port
  {
  }

  /** What the parsers look for: the host and where the port begins. */
  function Locate(b: bytes, atyp: byte): (r: Option<(Host, nat)>)
    ensures r.Some? ==> 1 < r.value.1 && r.value.1 + 2 <= |b|
  {
    if |b| < 2 then None
    else if atyp == ATYP_IPV4 then
      (if |b| < 7 then None else Some((IPv4(b[1..5]), 5)))
    else if atyp == ATYP_DOMAIN then
      var n := b[1] as nat;
      (if |b| < n + 4 then None else Some((Domain(b[2..2 + n]), 2 + n)))
    else if atyp == ATYP_IPV6 then
      (if |b| < 19 then None else Some((IPv6(b[1..17]), 17)))
    else None
  }

  function AddressAt(b: bytes, r: Option<(Host, nat)>): (a: Option<Address>)
    requires r.Some? ==> r.value.1 + 2 <= |b|
  {
    if r.None? then None else Some(Address(r.value.0, Load16(b[r.value.1..r.value.1 + 2])))
  }

  /** The address a TCP request names. */
  function Parse(b: bytes): (a: Option<Address>)
  {
    if b == [] then None else AddressAt(b, Locate(b, b[0]))
  }

  /** A buffer parses to an address exactly when it begins with the header of that address. */
  lemma {:induction false} ParseIffHeader(b: bytes, a: Address)
    ensures Parse(b) == Some(a) <==> WellFormed(a) && Header(a) <= b
  {
    if WellFormed(a) && Header(a) <= b {
      HeaderParses(b, a);
    }
    if Parse(b) == Some(a) {
      ParsedHeader(b, a);
    }
  }

  lemma {:induction false} HeaderParses(b: bytes, a: Address)
    requires WellFormed(a) && Header(a) <= b
    ensures Parse(b) == Some(a)
  {
    hide Store16, Load16;
    Field16RoundTrip(a.port);
    var h := Header(a);
    var k := |h| - 2;
    assert b[0] == h[0];
    assert h[k..k + 2] == Store16(a.port);
    assert b[k..k + 2] == h[k..k + 2];
    match a.host
    case IPv4(x) => assert b[1..5] == h[1..5] == x;
    case Domain(n) => assert b[1] == h[1] && b[2..2 + |n|] == h[2..2 + |n|] == n;
    case IPv6(x) => assert b[1..17] == h[1..17] == x;
  }

  lemma {:induction false} ParsedHeader(b: bytes, a: Address)
    requires Parse(b) == Some(a)
    ensures WellFormed(a) && Header(a) <= b
  {
    var r := Locate(b, b[0]).value;
    var k := r.1;
    StoreLoad(b[k..k + 2]);
    hide Store16, Load16;
    assert b[..k + 2] == b[..k] + b[k..k + 2] && b[..k + 2] <= b;
    match a.host
    case IPv4(x) => assert b[..5] == [ATYP_IPV4] + x;
    case Domain(n) => assert b[..k] == [ATYP_DOMAIN, |n| as byte] + n;
    case IPv6(x) => assert b[..17] == [ATYP_IPV6] + x;
  }

  lemma {:induction false} StoreLoad(b: bytes)
    requires |b| == 2
    ensures Store16(Load16(b)) == b
  {
  }

  /** More bytes do not change a parsed address. */
  lemma {:induction false} ParseStable(b: bytes, c: bytes)
    requires b <= c && Parse(b).Some?
    ensures Parse(c) == Parse(b)
  {
    hide Parse;
    var a := Parse(b).value;
    ParseIffHeader(b, a);
    ParseIffHeader(c, a);
  }

  /** No two addresses have headers one of which begins with the other. */
  lemma {:induction false} HeadersPrefixFree(a: Address, b: Address)
    requires WellFormed(a) && WellFormed(b) && Header(a) <= Header(b)
    ensures a == b
  {
    ParseIffHeader(Header(b), a);
    ParseIffHeader(Header(b), b);
  }

  /** socks5_address_parse, src/sockaddr_universal.c:17-67. The domain branch reads the length
      byte before any length test; `past` is what memory holds behind the buffer. */
  method AddressParse(data: bytes, past: byte) returns (ok: bool, addr: Address, ghost end: nat)
    ensures ok <==> Parse(data).Some?
    ensures ok ==> addr == Parse(data).value && end == |Header(addr)| <= |data|
  {
    addr, ok, end := Address(IPv4([]), 0), false, 0;
    if |data| == 0 {
      return;
    }
    var offset, size := 1, 0;
    var host;
    if data[0] == ATYP_IPV4 {
      size := 4;
      if |data| < 1 + size + 2 {
        return;
      }
      host := IPv4(data[offset..offset + size]);
    } else if data[0] == ATYP_DOMAIN {
      size := (if offset < |data| then data[offset] else past) as nat;
      offset := offset + 1;
      if |data| < 1 + 1 + size + 2 {
        return;
      }
      host := Domain(data[offset..offset + size]);
    } else if data[0] == ATYP_IPV6 {
      size := 16;
      if |data| < 1 + size + 2 {
        return;
      }
      host := IPv6(data[offset..offset + size]);
    } else {
      return;
    }
    offset := offset + size;
    addr := Address(host, Load16(data[offset..offset + 2]));
    ok := true;
    ParsedHeader(data, addr);
    end := offset + 2;
  }

  // ---------- the UDP header ----------

  /** The address a UDP header names: only the low four bits of ATYP count. */
  function UdpParse(b: bytes): (a: Option<Address>)
  {
    if b == [] then None else AddressAt(b, Locate(b, b[0] % 16))
  }

  /** The UDP parser is the TCP parser on the buffer with the high half of ATYP cleared. */
  lemma {:induction false} UdpIsMasked(b: bytes)
    requires b != []
    ensures UdpParse(b) == Parse([b[0] % 16] + b[1..])
  {
    var c := [b[0] % 16] + b[1..];
    forall lo, hi | 1 <= lo <= hi <= |b| ensures b[lo..hi] == c[lo..hi] {
    }
  }

  /** The two parsers agree on a buffer exactly when ATYP has no high bits, or the bytes do not
      begin with a header even once those bits are cleared. */
  lemma {:induction false} ParsersAgree(b: bytes)
    requires b != []
    ensures Parse(b) == UdpParse(b) <==>
              b[0] < 16 || !exists a :: WellFormed(a) && Header(a) <= [b[0] % 16] + b[1..]
  {
    UdpIsMasked(b);
    var c := [b[0] % 16] + b[1..];
    if b[0] >= 16 {
      assert Parse(b) == None;
      hide Parse, UdpParse;
      if Parse(c) != None {
        ParseIffHeader(c, Parse(c).value);
      }
      forall a | WellFormed(a) && Header(a) <= c ensures Parse(c) == Some(a) {
        ParseIffHeader(c, a);
      }
    }
  }

  /** For instance 0x11 is an IPv4 header to the UDP parser only. */
  lemma {:induction false} ParsersDiffer()
    ensures UdpParse([0x11, 127, 0, 0, 1, 0, 80]) == Some(Address(IPv4([127, 0, 0, 1]), 80))
    ensures Parse([0x11, 127, 0, 0, 1, 0, 80]).None?
  {
    var b: bytes := [0x11, 127, 0, 0, 1, 0, 80];
    assert b[0] % 16 == 1;
    assert b[1..5] == [127, 0, 0, 1] && b[5..7] == [0, 80];
  }

  /** parseUDPRelayHeader, src/UDPRelay.cpp:223-295: the header length, or 0. ATYP and the
      length byte are read before any length test; `past` is what memory holds behind the buffer. */
  method ParseUdpHeader(buf: bytes, past: (byte, byte)) returns (len: nat, addr: Address)
    ensures len == 0 <==> UdpParse(buf).None?
    ensures len != 0 ==> UdpParse(buf) == Some(addr) && WellFormed(addr) && len == |Header(addr)| <= |buf|
  {
    addr := Address(IPv4([]), 0);
    var mem := buf + [past.0, past.1];
    var atyp := mem[0];
    var offset := 1;
    var host := IPv4([]);
    if atyp % 16 == ATYP_IPV4 {
      if |buf| >= 4 + 3 {
        host := IPv4(buf[offset..offset + 4]);
        offset := offset + 4;
      }
    } else if atyp % 16 == ATYP_DOMAIN {
      var nameLen := mem[offset] as nat;
      if nameLen + 4 <= |buf| {
        host := Domain(buf[offset + 1..offset + 1 + nameLen]);
        offset := offset + 1 + nameLen;
      }
    } else if atyp % 16 == ATYP_IPV6 {
      if |buf| >= 16 + 3 {
        host := IPv6(buf[offset..offset + 16]);
        offset := offset + 16;
      }
    }
    if offset == 1 {
      return 0, addr;
    }
    addr := Address(host, Load16(buf[offset..offset + 2]));
    UdpIsMasked(buf);
    ParsedHeader([buf[0] % 16] + buf[1..], addr);
    len := offset + 2;
  }
}
