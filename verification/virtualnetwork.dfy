/**
 * The TypeScript decoder the network visualisation uses to display frames:
 * an Ethernet frame's IPv4 header, the UDP or ICMP message inside, the
 * ICMP type names of RFC 792, the byte ranges the header viewer highlights,
 * and the reducer that records decoded frames.
 *
 * JavaScript semantics that matter here: `buf[i]` past the end is
 * `undefined`, which a bit operation treats as 0 and string concatenation
 * prints as "undefined"; `readUInt8`/`readUInt16BE` past the end throw a
 * RangeError; `Buffer.slice` clamps its bounds to the buffer.
 */
module VirtualNetwork {
  import opened Wrappers
  import opened Bytes
  import Actions

  // ------------------------------------------------------------- primitives

  /** The exceptions the decoder throws. */
  datatype DecodeError =
    | NotIpv4          // "Currently only IPv4 is supported"
    | IhlUnsupported   // "Currently only IHL <= 5 is supported"
    | OutOfRange       // RangeError from `readUInt8` / `readUInt16BE`

  /** `buf[i]`: `None` past the end (JavaScript's `undefined`). */
  function ByteAt(buf: seq<byte>, i: nat): (r: Option<byte>)
    ensures r.Some? <==> i < |buf|
    ensures r.Some? ==> r.value == buf[i]
  {
    if i < |buf| then Some(buf[i]) else None
  }

  /** `buf[i]` as an operand of a bit operation: `undefined` acts as 0. */
  function BitsAt(buf: seq<byte>, i: nat): (r: byte)
    ensures i < |buf| ==> r == buf[i]
    ensures i >= |buf| ==> r == 0
  {
    if i < |buf| then buf[i] else 0
  }

  /** `b >> 4`: the high nibble. */
  function HighNibble(b: byte): (r: nat)
    ensures r < 16
  {
    (b >> 4) as nat
  }

  /** `b & 15`: the low nibble. */
  function LowNibble(b: byte): (r: nat)
    ensures r < 16
  {
    (b & 15) as nat
  }

  /** `b >> 2`: the upper six bits. */
  function Upper6(b: byte): (r: nat)
    ensures r < 64
  {
    (b >> 2) as nat
  }

  /** `b & 3`: the lower two bits. */
  function Lower2(b: byte): (r: nat)
    ensures r < 4
  {
    (b & 3) as nat
  }

  /** `b >> 5`: the upper three bits. */
  function Upper3(b: byte): (r: nat)
    ensures r < 8
  {
    (b >> 5) as nat
  }

  /** `buf.readUInt16BE(off)`: a RangeError unless two bytes are there. */
  function ReadUInt16BE(buf: seq<byte>, off: nat): (r: Result<u16, DecodeError>)
    ensures r.Success? <==> off + 2 <= |buf|
    ensures r.Success? ==> r.value == ReadU16(buf, off)
    ensures r.Failure? ==> r.error == OutOfRange
  {
    if off + 2 <= |buf| then Success(ReadU16(buf, off)) else Failure(OutOfRange)
  }

  /**
   * `buf.slice(start, end)` for non-negative bounds: both are clamped to the
   * buffer, and a range that ends before it starts is empty.
   */
  function JsSlice(buf: seq<byte>, start: nat, end: nat): (r: seq<byte>)
    ensures |r| == if end <= start || start >= |buf| then 0 else Min(end, |buf|) - start
    ensures forall i | 0 <= i < |r| :: start + i < |buf| && r[i] == buf[start + i]
  {
    var s := Min(start, |buf|);
    var e := Min(end, |buf|);
    if e <= s then [] else buf[s..e]
  }

  function Min(a: nat, b: nat): nat
  {
    if a <= b then a else b
  }

  /** The decimal digits of `n`, as `String(n)` prints a non-negative integer. */
  function Decimal(n: nat): (s: string)
    ensures 1 <= |s| && forall i | 0 <= i < |s| :: '0' <= s[i] <= '9'
    decreases n
  {
    if n < 10 then [DigitChar(n)] else Decimal(n / 10) + [DigitChar(n % 10)]
  }

  function DigitChar(d: nat): (c: char)
    requires d < 10
    ensures '0' <= c <= '9'
  {
    ['0', '1', '2', '3', '4', '5', '6', '7', '8', '9'][d]
  }

  /** The value of a string of decimal digits. */
  function DecimalValue(s: string): nat
    requires forall i | 0 <= i < |s| :: '0' <= s[i] <= '9'
  {
    if |s| == 0 then 0 else DecimalValue(s[..|s| - 1]) * 10 + (s[|s| - 1] as int - '0' as int)
  }

  /** Reading the digits back gives the number. */
  lemma {:induction false} DecimalRoundTrip(n: nat)
    ensures DecimalValue(Decimal(n)) == n
    decreases n
  {
    var s := Decimal(n);
    if n < 10 {
      assert s[..|s| - 1] == [];
      DigitValue(n);
    } else {
      DecimalRoundTrip(n / 10);
      assert s[..|s| - 1] == Decimal(n / 10);
      DigitValue(n % 10);
    }
  }

  lemma DigitValue(d: nat)
    requires d < 10
    ensures DigitChar(d) as int - '0' as int == d
  {
  }

  /** String concatenation of a possibly `undefined` byte. */
  function ByteText(b: Option<byte>): string
  {
    match b
    case None => "undefined"
    case Some(v) => Decimal(v as int)
  }

  /** Values joined by dots, each printed as string concatenation prints it. */
  function DottedText(parts: seq<Option<byte>>): string
  {
    if |parts| == 0 then ""
    else if |parts| == 1 then ByteText(parts[0])
    else ByteText(parts[0]) + "." + DottedText(parts[1..])
  }

  /**
   * The four values `decodeIp(buf, offset)` concatenates; the string it
   * returns is their `DottedText`.
   */
  function DecodeIp(buf: seq<byte>, offset: nat): seq<Option<byte>>
  {
    [ByteAt(buf, offset), ByteAt(buf, offset + 1), ByteAt(buf, offset + 2), ByteAt(buf, offset + 3)]
  }

  /** The text of the decoded address is `decodeIp`'s string: the four values with dots between. */
  lemma DecodeIpText(buf: seq<byte>, offset: nat)
    ensures DottedText(DecodeIp(buf, offset))
        == ByteText(ByteAt(buf, offset)) + "." + ByteText(ByteAt(buf, offset + 1)) + "."
           + ByteText(ByteAt(buf, offset + 2)) + "." + ByteText(ByteAt(buf, offset + 3))
  {
    DottedFour(ByteAt(buf, offset), ByteAt(buf, offset + 1), ByteAt(buf, offset + 2), ByteAt(buf, offset + 3));
  }

  lemma DottedFour(a: Option<byte>, b: Option<byte>, c: Option<byte>, d: Option<byte>)
    ensures DottedText([a, b, c, d]) == ByteText(a) + "." + ByteText(b) + "." + ByteText(c) + "." + ByteText(d)
  {
    var q := [a, b, c, d];
    assert q[1..] == [b, c, d];
    assert q[1..][1..] == [c, d];
    assert q[1..][1..][1..] == [d];
    assert DottedText([c, d]) == ByteText(c) + "." + ByteText(d);
    assert DottedText([b, c, d]) == ByteText(b) + "." + DottedText([c, d]);
    assert DottedText(q) == ByteText(a) + "." + DottedText([b, c, d]);
    DotsAssociate(ByteText(a), ByteText(b), ByteText(c), ByteText(d));
  }

  lemma DotsAssociate(w: string, x: string, y: string, z: string)
    ensures w + "." + (x + "." + (y + "." + z)) == w + "." + x + "." + y + "." + z
  {
  }

  /** An address's octets as defined values. */
  function DefinedOctets(addr: Ipv4Addr): (r: seq<Option<byte>>)
    ensures |r| == 4 && forall i | 0 <= i < 4 :: r[i] == Some(addr.Octets()[i])
  {
    [Some(addr.a), Some(addr.b), Some(addr.c), Some(addr.d)]
  }

  // -------------------------------------------------------------- ICMP names

  /**
   * `convertIcmpTypeToStr`: the RFC 792 name of an ICMP type and, for
   * "destination unreachable", of codes 0 to 3; `None` for any other type.
   */
  function IcmpTypeToStr(ty: int, code: int): (r: Option<(string, Option<string>)>)
    ensures r.None? <==> ty !in {0, 3, 8, 11, 12}
    ensures ty == 3 ==> r.Some? && r.value.0 == "destination unreachable" && (r.value.1.Some? <==> 0 <= code <= 3)
    ensures ty in {0, 8, 11, 12} ==> r.Some? && r.value.1.None?
  {
    if ty == 3 then
      var t := "destination unreachable";
      if code == 0 then Some((t, Some("network unreachable")))
      else if code == 1 then Some((t, Some("host unreachable")))
      else if code == 2 then Some((t, Some("protocol unreachable")))
      else if code == 3 then Some((t, Some("port unreachable")))
      else Some((t, None))
    else if ty == 0 then Some(("echo reply", None))
    else if ty == 8 then Some(("echo request", None))
    else if ty == 11 then Some(("time exceeded", None))
    else if ty == 12 then Some(("parameter problem", None))
    else None
  }

  /** Different types get different names, and the codes of "destination unreachable" different names too. */
  lemma IcmpNamesDistinct(ty1: int, code1: int, ty2: int, code2: int)
    requires IcmpTypeToStr(ty1, code1).Some? && IcmpTypeToStr(ty2, code2).Some?
    ensures ty1 != ty2 ==> IcmpTypeToStr(ty1, code1).value.0 != IcmpTypeToStr(ty2, code2).value.0
    ensures ty1 == 3 == ty2 && 0 <= code1 <= 3 && 0 <= code2 <= 3 && code1 != code2 ==>
      IcmpTypeToStr(ty1, code1).value.1 != IcmpTypeToStr(ty2, code2).value.1
  {
  }

  // ---------------------------------------------------------- offset ranges

  /** The field names the IPv4 header viewer knows. */
  const IP_FIELDS: seq<string> := ["version", "ihl", "typeOfService", "totalLength", "identification", "flags",
                                   "fragmentOffset", "ttl", "protocol", "checksum", "sourceIp", "destinationIp"]

  /** The field names the UDP header viewer knows. */
  const UDP_FIELDS: seq<string> := ["sourcePort", "destinationPort", "length", "checksum"]

  /** `getIpOffsetRange`: the header bytes `[lo, hi)` a field occupies, `None` for an unknown name. */
  function IpOffsetRange(field: string): (r: Option<(nat, nat)>)
    ensures r.Some? <==> field in IP_FIELDS
    ensures r.Some? ==> r.value.0 < r.value.1 <= 20
  {
    match field
    case "version" => Some((0, 1))
    case "ihl" => Some((0, 1))
    case "typeOfService" => Some((1, 2))
    case "totalLength" => Some((2, 4))
    case "identification" => Some((4, 6))
    case "flags" => Some((6, 7))
    case "fragmentOffset" => Some((6, 8))
    case "ttl" => Some((8, 9))
    case "protocol" => Some((9, 10))
    case "checksum" => Some((10, 12))
    case "sourceIp" => Some((12, 16))
    case "destinationIp" => Some((16, 20))
    case _ => None
  }

  /** `getUdpOffsetRange`: the header bytes `[lo, hi)` a field occupies, `None` for an unknown name. */
  function UdpOffsetRange(field: string): (r: Option<(nat, nat)>)
    ensures r.Some? <==> field in UDP_FIELDS
    ensures r.Some? ==> r.value.0 < r.value.1 <= 8
  {
    match field
    case "sourcePort" => Some((0, 2))
    case "destinationPort" => Some((2, 4))
    case "length" => Some((4, 6))
    case "checksum" => Some((6, 8))
    case _ => None
  }

  // ------------------------------------------------------------ the decoders

  /**
   * The `IpPacket` interface. `sourceIp` and `destinationIp` hold the values
   * `decodeIp` prints; the strings are their `DottedText`.
   */
  datatype IpPacket = IpPacket(
    version: nat, ihl: nat, dscp: nat, ecn: nat, length: nat, identification: nat,
    flags: nat, fragmentOffset: nat, ttl: nat, protocol: nat, checksum: nat,
    sourceIp: seq<Option<byte>>, destinationIp: seq<Option<byte>>, data: seq<byte>)

  /**
   * `decodeIpPacket(buf, offset)`: rejects anything but version 4 and an IHL
   * above 5, reads the fields (a RangeError unless 12 bytes are there), and
   * takes as data the bytes from `offset + 20` up to `offset + length`
   * whatever the IHL says.
   */
  function DecodeIpPacket(buf: seq<byte>, offset: nat): (r: Result<IpPacket, DecodeError>)
    ensures r == Failure(NotIpv4) <==> HighNibble(BitsAt(buf, offset)) != 4
    ensures r == Failure(IhlUnsupported) <==> HighNibble(BitsAt(buf, offset)) == 4 && LowNibble(BitsAt(buf, offset)) > 5
    ensures r.Success? <==> HighNibble(BitsAt(buf, offset)) == 4 && LowNibble(BitsAt(buf, offset)) <= 5 && offset + 12 <= |buf|
    ensures r.Success? ==> r.value.version == 4 && r.value.ihl <= 5
    ensures r.Success? ==>
      var p := r.value;
      && p.ihl == LowNibble(buf[offset])
      && p.dscp == Upper6(buf[offset + 1]) && p.ecn == Lower2(buf[offset + 1])
      && p.length == ReadU16(buf, offset + 2) && p.identification == ReadU16(buf, offset + 4)
      && p.flags == Upper3(buf[offset + 6]) && p.fragmentOffset == ReadU16(buf, offset + 6) % 0x2000
      && p.ttl == buf[offset + 8] as nat && p.protocol == buf[offset + 9] as nat
      && p.checksum == ReadU16(buf, offset + 10)
      && p.sourceIp == DecodeIp(buf, offset + 12) && p.destinationIp == DecodeIp(buf, offset + 16)
      && p.data == JsSlice(buf, offset + 20, offset + p.length)
  {
    var b0 := BitsAt(buf, offset);
    var version := HighNibble(b0);
    if version != 4 then Failure(NotIpv4)
    else
      var ihl := LowNibble(b0);
      if ihl > 5 then Failure(IhlUnsupported)
      else if offset + 12 > |buf| then Failure(OutOfRange)
      else
        var length := ReadU16(buf, offset + 2);
        Success(IpPacket(
          version, ihl,
          Upper6(buf[offset + 1]),
          Lower2(buf[offset + 1]),
          length,
          ReadU16(buf, offset + 4),
          Upper3(buf[offset + 6]),
          ReadU16(buf, offset + 6) % 0x2000,          // & 8191
          buf[offset + 8] as nat,
          buf[offset + 9] as nat,
          ReadU16(buf, offset + 10),
          DecodeIp(buf, offset + 12),
          DecodeIp(buf, offset + 16),
          JsSlice(buf, offset + 20, offset + length)))
  }

  /**
   * The decoded data starts 20 bytes into the header whatever the IHL, and
   * runs to the total length, clamped to the buffer.
   */
  lemma DecodedIpData(buf: seq<byte>, offset: nat)
    requires DecodeIpPacket(buf, offset).Success?
    ensures var p := DecodeIpPacket(buf, offset).value;
      p.length == ReadU16(buf, offset + 2)
      && (offset + 20 <= offset + p.length <= |buf| ==> p.data == buf[offset + 20..offset + p.length])
      && (p.length <= 20 ==> p.data == [])
  {
  }

  /** The object `decodeUdp` returns. */
  datatype UdpDatagram = UdpDatagram(sourcePort: nat, destinationPort: nat, length: nat, checksum: nat, data: seq<byte>)

  /**
   * `decodeUdp`: the four big-endian header words (a RangeError unless 8
   * bytes are there) and the bytes from 8 up to the length field.
   */
  function DecodeUdp(buf: seq<byte>): (r: Result<UdpDatagram, DecodeError>)
    ensures r.Success? <==> |buf| >= 8
    ensures r.Failure? ==> r.error == OutOfRange
    ensures r.Success? ==> r.value.data == JsSlice(buf, 8, r.value.length)
  {
    if |buf| < 8 then Failure(OutOfRange)
    else
      var len := ReadU16(buf, 4);
      Success(UdpDatagram(ReadU16(buf, 0), ReadU16(buf, 2), len, ReadU16(buf, 6), JsSlice(buf, 8, len)))
  }

  /** The RFC 768 header: source port, destination port, length, checksum, each big-endian. */
  function UdpHeaderBytes(src: u16, dst: u16, len: u16, cs: u16): (r: seq<byte>)
    ensures |r| == 8
  {
    U16Bytes(src) + U16Bytes(dst) + U16Bytes(len) + U16Bytes(cs)
  }

  /** Each header word reads back as the value laid out there. */
  lemma UdpHeaderFields(src: u16, dst: u16, len: u16, cs: u16)
    ensures var r := UdpHeaderBytes(src, dst, len, cs);
      ReadU16(r, 0) == src && ReadU16(r, 2) == dst && ReadU16(r, 4) == len && ReadU16(r, 6) == cs
  {
    var r := UdpHeaderBytes(src, dst, len, cs);
    var a, b, c, d := U16Bytes(src), U16Bytes(dst), U16Bytes(len), U16Bytes(cs);
    assert ReadU16(r, 0) == src by { assert r[0] == a[0] && r[1] == a[1]; }
    assert ReadU16(r, 2) == dst by { assert r[2] == b[0] && r[3] == b[1]; }
    assert ReadU16(r, 4) == len by { assert r[4] == c[0] && r[5] == c[1]; }
    assert ReadU16(r, 6) == cs by { assert r[6] == d[0] && r[7] == d[1]; }
  }

  /**
   * Decoding a datagram laid out as RFC 768 puts it on the wire, with the
   * length field counting header and payload, gives the four header values
   * and exactly the payload back.
   */
  lemma UdpRoundTrip(src: u16, dst: u16, cs: u16, payload: seq<byte>)
    requires 8 + |payload| <= 0xFFFF
    ensures var len := 8 + |payload|;
      DecodeUdp(UdpHeaderBytes(src, dst, len, cs) + payload) == Success(UdpDatagram(src, dst, len, cs, payload))
  {
    var len := 8 + |payload|;
    var h := UdpHeaderBytes(src, dst, len, cs);
    UdpHeaderFields(src, dst, len, cs);
    WordInPrefix(h, payload, 0);
    WordInPrefix(h, payload, 2);
    WordInPrefix(h, payload, 4);
    WordInPrefix(h, payload, 6);
    SliceOfSuffix(h, payload);
  }

  /** A word read inside a prefix is the word read in the prefix alone. */
  lemma WordInPrefix(x: seq<byte>, y: seq<byte>, off: nat)
    requires off + 2 <= |x|
    ensures ReadU16(x + y, off) == ReadU16(x, off)
  {
    assert (x + y)[off] == x[off] && (x + y)[off + 1] == x[off + 1];
  }

  /** Slicing a concatenation from the end of its first part to its end gives the second part. */
  lemma SliceOfSuffix(x: seq<byte>, y: seq<byte>)
    ensures JsSlice(x + y, |x|, |x| + |y|) == y
  {
    assert (x + y)[|x|..|x| + |y|] == y;
  }

  /** The object `decodeIcmp` returns. */
  datatype IcmpMessage = IcmpMessage(icmpType: nat, code: nat, checksum: nat)

  /** `decodeIcmp`: type, code and checksum (a RangeError unless 4 bytes are there). */
  function DecodeIcmp(buf: seq<byte>): (r: Result<IcmpMessage, DecodeError>)
    ensures r.Success? <==> |buf| >= 4
    ensures r.Success? ==> r.value.icmpType < 256 && r.value.code < 256
    ensures r.Failure? ==> r.error == OutOfRange
    ensures r.Success? ==>
      r.value.icmpType == buf[0] as nat && r.value.code == buf[1] as nat && r.value.checksum == ReadU16(buf, 2)
  {
    if |buf| < 4 then Failure(OutOfRange)
    else Success(IcmpMessage(buf[0] as nat, buf[1] as nat, ReadU16(buf, 2)))
  }

  /**
   * Decoding an ICMP header laid out as RFC 792 puts it on the wire (type,
   * code, big-endian checksum, then the rest of the message) gives the three
   * values back.
   */
  lemma IcmpRoundTrip(t: byte, c: byte, cs: u16, rest: seq<byte>)
    ensures DecodeIcmp([t, c] + U16Bytes(cs) + rest) == Success(IcmpMessage(t as nat, c as nat, cs))
  {
    var buf := [t, c] + U16Bytes(cs) + rest;
    assert buf[0] == t && buf[1] == c;
    assert buf[2] == U16Bytes(cs)[0] && buf[3] == U16Bytes(cs)[1];
  }

  /** The `Packet` interface: `type` is "udp" or "icmp" or absent. */
  datatype Packet = Packet(kind: Option<string>, raw: seq<byte>, ip: IpPacket,
                           udp: Option<UdpDatagram>, icmp: Option<IcmpMessage>)

  /** The EtherType of IPv4. */
  const ETHERTYPE_IPV4: u16 := 0x0800
  /** Length of the Ethernet header in front of the IPv4 header. */
  const ETHERNET_HEADER_LEN: nat := 14

  /**
   * `decodePacket`: `None` (JavaScript's `undefined`) unless the EtherType at
   * offset 12 is IPv4; otherwise the IPv4 header at offset 14 and, for
   * protocol 17 or 1, the UDP datagram or ICMP message in its data.
   */
  function DecodePacket(raw: seq<byte>): (r: Result<Option<Packet>, DecodeError>)
    ensures |raw| < ETHERNET_HEADER_LEN ==> r == Failure(OutOfRange)
    ensures |raw| >= ETHERNET_HEADER_LEN && ReadU16(raw, 12) != ETHERTYPE_IPV4 ==> r == Success(None)
    ensures r.Success? && r.value.Some? ==>
      var p := r.value.value;
      && |raw| >= ETHERNET_HEADER_LEN && ReadU16(raw, 12) == ETHERTYPE_IPV4
      && p.raw == raw
      && DecodeIpPacket(raw, ETHERNET_HEADER_LEN) == Success(p.ip)
      && (p.udp.Some? <==> p.ip.protocol == 17) && (p.kind == Some("udp") <==> p.ip.protocol == 17)
      && (p.icmp.Some? <==> p.ip.protocol == 1) && (p.kind == Some("icmp") <==> p.ip.protocol == 1)
      && (p.kind.None? <==> p.ip.protocol != 17 && p.ip.protocol != 1)
      && (p.udp.Some? ==> DecodeUdp(p.ip.data) == Success(p.udp.value))
      && (p.icmp.Some? ==> DecodeIcmp(p.ip.data) == Success(p.icmp.value))
    ensures |raw| >= ETHERNET_HEADER_LEN && ReadU16(raw, 12) == ETHERTYPE_IPV4 ==>
      match DecodeIpPacket(raw, ETHERNET_HEADER_LEN)
      case Failure(e) => r == Failure(e)
      case Success(ip) =>
        && (ip.protocol == 17 ==> (r.Failure? <==> DecodeUdp(ip.data).Failure?))
        && (ip.protocol == 17 && r.Failure? ==> r.error == DecodeUdp(ip.data).error)
        && (ip.protocol == 1 ==> (r.Failure? <==> DecodeIcmp(ip.data).Failure?))
        && (ip.protocol == 1 && r.Failure? ==> r.error == DecodeIcmp(ip.data).error)
        && (ip.protocol != 17 && ip.protocol != 1 ==> r.Success?)
        && (r.Success? ==> r.value.Some?)
  {
    if |raw| < ETHERNET_HEADER_LEN then Failure(OutOfRange)
    else if ReadU16(raw, 12) != ETHERTYPE_IPV4 then Success(None)
    else
      match DecodeIpPacket(raw, ETHERNET_HEADER_LEN)
      case Failure(e) => Failure(e)
      case Success(ip) =>
        if ip.protocol == 17 then
          match DecodeUdp(ip.data)
          case Failure(e) => Failure(e)
          case Success(udp) => Success(Some(Packet(Some("udp"), raw, ip, Some(udp), None)))
        else if ip.protocol == 1 then
          match DecodeIcmp(ip.data)
          case Failure(e) => Failure(e)
          case Success(icmp) => Success(Some(Packet(Some("icmp"), raw, ip, None, Some(icmp))))
        else Success(Some(Packet(None, raw, ip, None, None)))
  }

  /**
   * An IPv4 frame (version 4, IHL 5) carrying neither UDP nor ICMP is always
   * recorded, untyped, once the twelve header bytes the decoder reads are there.
   */
  lemma OtherFrameDecodes(raw: seq<byte>)
    requires |raw| >= ETHERNET_HEADER_LEN + 12 && ReadU16(raw, 12) == ETHERTYPE_IPV4
    requires raw[14] == 0x45 && raw[23] != 17 && raw[23] != 1
    ensures var r := DecodePacket(raw);
      r.Success? && r.value.Some? && r.value.value.kind.None? && r.value.value.ip.protocol == raw[23] as nat
  {
    assert HighNibble(raw[14]) == 4 && LowNibble(raw[14]) == 5;
  }

  /**
   * An IPv4 frame (version 4, IHL 5) carrying UDP, whose total length covers
   * the 28 bytes of both headers and fits in the frame, is always recorded as
   * "udp", with the ports and length read from the bytes after the IPv4 header.
   */
  lemma UdpFrameDecodes(raw: seq<byte>)
    requires |raw| >= ETHERNET_HEADER_LEN + 12 && ReadU16(raw, 12) == ETHERTYPE_IPV4
    requires raw[14] == 0x45 && raw[23] == 17
    requires 28 <= ReadU16(raw, 16) && ETHERNET_HEADER_LEN + ReadU16(raw, 16) <= |raw|
    ensures var r := DecodePacket(raw);
      && r.Success? && r.value.Some? && r.value.value.kind == Some("udp") && r.value.value.udp.Some?
      && r.value.value.udp.value.sourcePort == ReadU16(raw, 34)
      && r.value.value.udp.value.destinationPort == ReadU16(raw, 36)
      && r.value.value.udp.value.length == ReadU16(raw, 38)
  {
    assert HighNibble(raw[14]) == 4 && LowNibble(raw[14]) == 5;
    var ip := DecodeIpPacket(raw, ETHERNET_HEADER_LEN).value;
    var d := ip.data;
    assert |d| == ip.length - 20;
    assert ReadU16(d, 0) == ReadU16(raw, 34) by { assert d[0] == raw[34] && d[1] == raw[35]; }
    assert ReadU16(d, 2) == ReadU16(raw, 36) by { assert d[2] == raw[36] && d[3] == raw[37]; }
    assert ReadU16(d, 4) == ReadU16(raw, 38) by { assert d[4] == raw[38] && d[5] == raw[39]; }
  }

  /**
   * An IPv4 frame (version 4, IHL 5) carrying ICMP, whose total length covers
   * the 24 bytes of the two headers' fixed part and fits in the frame, is
   * always recorded as "icmp", with type and code the two bytes after the
   * IPv4 header.
   */
  lemma IcmpFrameDecodes(raw: seq<byte>)
    requires |raw| >= ETHERNET_HEADER_LEN + 12 && ReadU16(raw, 12) == ETHERTYPE_IPV4
    requires raw[14] == 0x45 && raw[23] == 1
    requires 24 <= ReadU16(raw, 16) && ETHERNET_HEADER_LEN + ReadU16(raw, 16) <= |raw|
    ensures var r := DecodePacket(raw);
      && r.Success? && r.value.Some? && r.value.value.kind == Some("icmp") && r.value.value.icmp.Some?
      && r.value.value.icmp.value.icmpType == raw[34] as nat
      && r.value.value.icmp.value.code == raw[35] as nat
  {
    assert HighNibble(raw[14]) == 4 && LowNibble(raw[14]) == 5;
    var ip := DecodeIpPacket(raw, ETHERNET_HEADER_LEN).value;
    var d := ip.data;
    assert |d| == ip.length - 20;
    assert d[0] == raw[34] && d[1] == raw[35];
  }

  // ------------------------------------------------------------- the reducer

  /** The reducer's state: the decoded frames in the order they were sent. */
  datatype NetState = NetState(udpSent: seq<Packet>)

  /** `DEFAULT`. */
  const DefaultNetState := NetState([])

  /**
   * `virtualNetworkReducer`: an absent state (`undefined`, as Redux passes
   * at initialisation) is `DEFAULT`; then a decodable frame is appended, a
   * frame that is not IPv4 leaves the state as it is, and a decoder
   * exception escapes.
   */
  function VirtualNetworkReducer(state: Option<NetState>, action: Actions.Action): (r: Result<NetState, DecodeError>)
    ensures var s := if state.Some? then state.value else DefaultNetState;
      && (!action.SendNetworkFrame? ==> r == Success(s))
      && (action.SendNetworkFrame? ==>
        match DecodePacket(action.frame)
        case Failure(e) => r == Failure(e)
        case Success(None) => r == Success(s)
        case Success(Some(p)) =>
          r.Success? && |r.value.udpSent| == |s.udpSent| + 1
          && r.value.udpSent[..|s.udpSent|] == s.udpSent && r.value.udpSent[|s.udpSent|] == p)
  {
    var s := if state.Some? then state.value else DefaultNetState;
    if !action.SendNetworkFrame? then Success(s)
    else
      match DecodePacket(action.frame)
      case Failure(e) => Failure(e)
      case Success(None) => Success(s)
      case Success(Some(p)) => Success(s.(udpSent := s.udpSent + [p]))
  }

  /**
   * The reducer over a run of actions from a given state, stopping at the
   * first decoder exception.
   */
  function NetRun(state: NetState, actions: seq<Actions.Action>): Result<NetState, DecodeError>
    decreases |actions|
  {
    if |actions| == 0 then Success(state)
    else
      match VirtualNetworkReducer(Some(state), actions[0])
      case Failure(e) => Failure(e)
      case Success(next) => NetRun(next, actions[1..])
  }

  /**
   * Sending frames that each decode to a packet records exactly those
   * packets, after the ones already there and in the order they were sent.
   */
  lemma {:induction false} FramesRecordedInOrder(state: NetState, actions: seq<Actions.Action>, packets: seq<Packet>)
    requires |actions| == |packets|
    requires forall i :: 0 <= i < |actions| ==> Records(actions[i], packets[i])
    ensures NetRun(state, actions) == Success(NetState(state.udpSent + packets))
    decreases |actions|
  {
    if |actions| == 0 {
      AppendParts(state.udpSent, packets);
    } else {
      var next := NetState(state.udpSent + [packets[0]]);
      NetRunStep(state, actions, packets[0]);
      FramesRecordedInOrder(next, actions[1..], packets[1..]);
      AppendParts(state.udpSent, packets);
    }
  }

  /** Appending a sequence is appending its head, then its tail. */
  lemma AppendParts<T>(xs: seq<T>, ys: seq<T>)
    ensures |ys| == 0 ==> xs + ys == xs
    ensures |ys| > 0 ==> xs + [ys[0]] + ys[1..] == xs + ys
  {
    if |ys| > 0 {
      assert [ys[0]] + ys[1..] == ys;
    }
  }

  /** A run whose first frame decodes to `p` continues from the state with `p` appended. */
  lemma NetRunStep(state: NetState, actions: seq<Actions.Action>, p: Packet)
    requires |actions| > 0 && Records(actions[0], p)
    ensures NetRun(state, actions) == NetRun(NetState(state.udpSent + [p]), actions[1..])
  {
    FrameRecorded(state, actions[0], p);
  }

  /** The action sends a frame that decodes to the packet `p`. */
  predicate Records(a: Actions.Action, p: Packet)
  {
    a.SendNetworkFrame? && DecodePacket(a.frame) == Success(Some(p))
  }

  /** One frame that decodes to a packet appends that packet. */
  lemma FrameRecorded(state: NetState, a: Actions.Action, p: Packet)
    requires Records(a, p)
    ensures VirtualNetworkReducer(Some(state), a) == Success(NetState(state.udpSent + [p]))
  {
  }
}
