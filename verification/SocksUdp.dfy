/** internal/landing/udp.go: the SOCKS5 UDP envelope (section 7 of RFC 1928) and its association. */
module SocksUdp {
  import opened Bytes

  type Ip4 = s: Text | |s| == 4 witness [0, 0, 0, 0]
  type Ip16 = s: Text | |s| == 16 witness [0, 0, 0, 0, 0, 0, 0, 0, 0, 0, 0, 0, 0, 0, 0, 0]

  /** A destination host: an address literal, or a name that is not one. */
  datatype Host = V4(ip: Ip4) | V6(ip16: Ip16) | Name(name: Text)

  datatype Target = Target(host: Host, port: int)

  predicate Mapped(ip: Ip16)
  {
    (forall i :: 0 <= i < 10 ==> ip[i] == 0) && ip[10] == 255 && ip[11] == 255
  }

  /** The prefix ::ffff:0:0/96 of section 2.5.5.2 of RFC 4291. */
  lemma {:induction false} MappedPrefix(ip: Ip16)
    ensures Mapped(ip) <==> ip[..12] == [0, 0, 0, 0, 0, 0, 0, 0, 0, 0, 0xff, 0xff]
  {
    var prefix := [0, 0, 0, 0, 0, 0, 0, 0, 0, 0, 0xff, 0xff];
    if Mapped(ip) {
      assert forall i :: 0 <= i < 12 ==> ip[..12][i] == prefix[i];
    }
    if ip[..12] == prefix {
      assert forall i :: 0 <= i < 12 ==> ip[i] == ip[..12][i] == prefix[i];
    }
  }

  /** `net.IP` treats an IPv4-mapped IPv6 address as the IPv4 address. */
  function Canonical(host: Host): Host
  {
    if host.V6? && Mapped(host.ip16) then V4(host.ip16[12..]) else host
  }

  function IsLiteral(host: Host): bool
  {
    !host.Name?
  }

  // ----- The envelope -----

  function HostBytes(host: Host): (r: Option<Text>)
  {
    match Canonical(host)
    case V4(ip) => Some([1] + ip)
    case V6(ip) => Some([4] + ip)
    case Name(name) => if |name| == 0 || |name| > 255 then None else Some([3, |name|] + name)
  }

  function Encode(payload: Text, target: Target): (r: Option<Text>)
  {
    if target.port < 1 || target.port > 65535 then None
    else
      match HostBytes(target.host)
      case None => None
      case Some(host) => Some([0, 0, 0] + host + U16(target.port) + payload)
  }

  /** readAddress: the host of the given type, then the port; what follows is left over. */
  function ReadHost(s: Text, kind: byte): (r: Option<(Host, Text)>)
  {
    match kind
    case 1 => if |s| < 4 then None else Some((V4(s[..4]), s[4..]))
    case 4 => if |s| < 16 then None else Some((Canonical(V6(s[..16])), s[16..]))
    case 3 =>
      if |s| < 1 || s[0] == 0 || |s| < 1 + s[0] as int then None
      else Some((Name(s[1..1 + s[0] as int]), s[1 + s[0] as int..]))
    case _ => None
  }

  function ReadAddress(s: Text, kind: byte): (r: Option<(Target, Text)>)
  {
    match ReadHost(s, kind)
    case None => None
    case Some((host, rest)) => if |rest| < 2 then None else Some((Target(host, U16At(rest, 0)), rest[2..]))
  }

  /** What Receive makes of a datagram: its target and payload. */
  function Decode(b: Text): (r: Option<(Target, Text)>)
  {
    if |b| < 4 || b[0] != 0 || b[1] != 0 || b[2] != 0 then None else ReadAddress(b[4..], b[3])
  }

  lemma {:induction false} HostRoundTrip(host: Host, rest: Text)
    requires HostBytes(host).Some?
    ensures var b := HostBytes(host).value + rest;
            |b| >= 1 && ReadHost(b[1..], b[0]) == Some((Canonical(host), rest))
  {
    match Canonical(host) {
      case V4(ip) => AfterType(1, ip, rest);
      case V6(ip) => AfterType(4, ip, rest);
      case Name(name) => NameRoundTrip(name, rest);
    }
  }

  /** What follows the type byte splits where the address ends. */
  lemma {:induction false} AfterType(kind: byte, address: Text, rest: Text)
    ensures var b := [kind] + address + rest;
            b[0] == kind && b[1..][..|address|] == address && b[1..][|address|..] == rest
  {
    assert ([kind] + address + rest)[1..] == address + rest;
  }

  lemma {:induction false} NameRoundTrip(name: Text, rest: Text)
    requires 1 <= |name| <= 255
    ensures var b := [3, |name|] + name + rest;
            ReadHost(b[1..], b[0]) == Some((Name(name), rest))
  {
    var b := [3, |name|] + name + rest;
    var s := b[1..];
    assert b[0] == 3 && s == [|name|] + name + rest;
    assert s[0] == |name|;
    AfterType(|name|, name, rest);
    assert s[1..1 + |name|] == s[1..][..|name|] && s[1 + |name|..] == s[1..][|name|..];
  }

  /** Every datagram that can be encoded decodes to its target, in canonical form, and its payload. */
  lemma {:induction false} EnvelopeRoundTrip(payload: Text, target: Target)
    requires Encode(payload, target).Some?
    ensures Decode(Encode(payload, target).value) == Some((target.(host := Canonical(target.host)), payload))
  {
    hide HostBytes, ReadHost;
    var host, tail := HostBytes(target.host).value, U16(target.port) + payload;
    var b := Encode(payload, target).value;
    HostRoundTrip(target.host, tail);
    var h := host + tail;
    assert b == [0, 0, 0] + h;
    assert b[3] == h[0] && b[4..] == h[1..];
    assert tail == [] + U16(target.port) + payload;
    U16InContext([], target.port, payload);
    assert tail[2..] == payload;
  }

  /** The layout of section 7 of RFC 1928: two reserved bytes, fragment 0, the address type, the address and the port. */
  lemma {:induction false} EnvelopeLayout(payload: Text, target: Target)
    requires Encode(payload, target).Some?
    ensures var b, port := Encode(payload, target).value, [target.port / 256, target.port % 256];
            match Canonical(target.host)
            case V4(ip) => b == [0, 0, 0, 1] + ip + port + payload
            case V6(ip) => b == [0, 0, 0, 4] + ip + port + payload
            case Name(name) => b == [0, 0, 0, 3, |name|] + name + port + payload
  {
  }

  /** Encoding fails exactly for a port out of range or a name that does not fit. */
  lemma {:induction false} EncodeFails(payload: Text, target: Target)
    ensures Encode(payload, target) == None <==>
            !(1 <= target.port <= 65535) || (target.host.Name? && !(1 <= |target.host.name| <= 255))
  {
  }

  lemma {:induction false} HostOf(s: Text, kind: byte)
    requires ReadHost(s, kind).Some?
    ensures var (host, rest) := ReadHost(s, kind).value;
            && host == Canonical(host) && HostBytes(host).Some?
            && (HostBytes(host).value + rest == [kind] + s <==> !(kind == 4 && Mapped(s[..16])))
  {
  }

  /** Conversely, encoding what was decoded gives the datagram back unless its port is zero or its address is mapped. */
  lemma {:induction false} DecodeThenEncode(b: Text)
    requires Decode(b).Some?
    ensures var (target, payload) := Decode(b).value;
            Encode(payload, target) == Some(b) <==> target.port != 0 && !(b[3] == 4 && Mapped(b[4..][..16]))
  {
    hide HostBytes, ReadHost;
    var (target, payload) := Decode(b).value;
    var (host, rest) := ReadHost(b[4..], b[3]).value;
    HostOf(b[4..], b[3]);
    var h := HostBytes(host).value;
    U16OfSlice(rest, 0);
    assert rest == U16(target.port) + payload by { assert rest == rest[0..2] + rest[2..]; }
    assert b == [0, 0, 0] + ([b[3]] + b[4..]);
    if target.port != 0 {
      var e := Encode(payload, target).value;
      assert e == [0, 0, 0] + (h + rest);
      assert e[3..] == h + rest && b[3..] == [b[3]] + b[4..];
    }
  }
}
