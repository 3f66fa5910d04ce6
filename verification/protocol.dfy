/** The IP protocol number carried in byte 9 of an IPv4 header (`ip::Protocol`). */
module IpProtocol {
  import opened Bytes

  datatype Protocol = HopByHop | Icmp | Igmp | Tcp | Udp | Unknown(number: byte)

  /** `impl From<Protocol> for u8`. */
  function ToU8(p: Protocol): byte
  {
    match p
    case HopByHop => 0x00
    case Icmp => 0x01
    case Igmp => 0x02
    case Tcp => 0x06
    case Udp => 0x11
    case Unknown(other) => other
  }

  /** The protocol numbers that have a named variant. */
  predicate IsNamed(b: byte)
  {
    b == 0x00 || b == 0x01 || b == 0x02 || b == 0x06 || b == 0x11
  }

  /**
   * `impl From<u8> for Protocol`: every byte maps back to itself, and a byte
   * becomes `Unknown` exactly when it has no named variant.
   */
  function FromU8(b: byte): (p: Protocol)
    ensures ToU8(p) == b
    ensures p.Unknown? <==> !IsNamed(b)
  {
    match b
    case 0x00 => HopByHop
    case 0x01 => Icmp
    case 0x02 => Igmp
    case 0x06 => Tcp
    case 0x11 => Udp
    case other => Unknown(other)
  }

  /**
   * Protocol -> u8 -> Protocol is the identity except for an `Unknown` that
   * carries a named number, which comes back as the named variant.
   */
  lemma ProtocolRoundTrip(p: Protocol)
    ensures FromU8(ToU8(p)) == p <==> !(p.Unknown? && IsNamed(p.number))
  {
  }
}
