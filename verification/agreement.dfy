/**
 * How the display decoder's reading of a header relates to the Rust
 * packet views' getters on the same bytes. Most fields agree outright; the
 * fragment offset is in 8-byte units in the decoder and in bytes in Rust,
 * and the decoder's IP data ignores the header length.
 */
module Agreement {
  import opened Wrappers
  import opened Bytes
  import opened IpProtocol
  import Ipv4
  import Udp
  import opened VirtualNetwork

  /** `b >> 5` is `b / 32`. */
  lemma Upper3Value(b: byte)
    ensures Upper3(b) == b as int / 32
  {
  }

  /** `(b & 15) * 4` in eight bits is four times the low nibble. */
  lemma HeaderLenValue(b: byte)
    ensures ((b & 0x0F) * 4) as int == LowNibble(b) * 4
  {
  }

  /** The decoder's flags field, bit by bit, against the Rust `dont_frag`/`more_frags`. */
  lemma FlagBits(buf: seq<byte>)
    requires |buf| >= 8
    ensures (Upper3(buf[6]) / 2) % 2 == 1 <==> Ipv4.DontFrag(buf)
    ensures Upper3(buf[6]) % 2 == 1 <==> Ipv4.MoreFrags(buf)
  {
    Upper3Value(buf[6]);
    FlagArith(buf[6] as int, buf[7] as int);
  }

  /** The flag bits of a big-endian word seen through its high byte. */
  lemma FlagArith(hi: int, lo: int)
    requires 0 <= hi < 256 && 0 <= lo < 256
    ensures ((hi / 32) / 2) % 2 == ((hi * 256 + lo) / 0x4000) % 2
    ensures (hi / 32) % 2 == ((hi * 256 + lo) / 0x2000) % 2
  {
    var q64, q32 := hi / 64, hi / 32;
    assert hi == q64 * 64 + hi % 64 && hi == q32 * 32 + hi % 32;
    assert (hi * 256 + lo) / 0x4000 == q64 by {
      assert hi * 256 + lo == q64 * 0x4000 + ((hi % 64) * 256 + lo);
    }
    assert (hi * 256 + lo) / 0x2000 == q32 by {
      assert hi * 256 + lo == q32 * 0x2000 + ((hi % 32) * 256 + lo);
    }
    assert q32 / 2 == q64;
  }

  /** The four values of `decodeIp` at an address's position in the buffer are its octets. */
  lemma DecodeIpIsAddress(buf: seq<byte>, off: nat, addr: Ipv4Addr)
    requires off + 4 <= |buf| && addr.Octets() == buf[off..off + 4]
    ensures DecodeIp(buf, off) == DefinedOctets(addr)
  {
    assert addr.Octets()[0] == buf[off] && addr.Octets()[1] == buf[off + 1];
    assert addr.Octets()[2] == buf[off + 2] && addr.Octets()[3] == buf[off + 3];
  }

  /**
   * Where the decoder finds a full 20-byte header at `offset`, it reads the
   * same values as the Rust IPv4 view of the bytes from `offset` on, except
   * that `fragmentOffset` counts 8-byte units where `frag_offset` counts
   * bytes, and the three flag bits are one number.
   */
  lemma DecoderAgreesWithIpv4View(buf: seq<byte>, offset: nat)
    requires offset + 20 <= |buf| && DecodeIpPacket(buf, offset).Success?
    ensures var p, h := DecodeIpPacket(buf, offset).value, buf[offset..];
      && p.version == Ipv4.Version(h) as int
      && p.ihl * 4 == Ipv4.HeaderLen(h) as int
      && p.dscp == Ipv4.Dscp(h) as int && p.ecn == Ipv4.Ecn(h) as int
      && p.length == Ipv4.TotalLen(h) && p.identification == Ipv4.Ident(h)
      && p.fragmentOffset * 8 == Ipv4.FragOffset(h)
      && ((p.flags / 2) % 2 == 1 <==> Ipv4.DontFrag(h)) && (p.flags % 2 == 1 <==> Ipv4.MoreFrags(h))
      && p.ttl == Ipv4.HopLimit(h) as int && p.protocol == ToU8(Ipv4.ProtocolOf(h)) as int
      && p.checksum == Ipv4.ChecksumField(h)
      && p.sourceIp == DefinedOctets(Ipv4.SrcAddr(h)) && p.destinationIp == DefinedOctets(Ipv4.DstAddr(h))
  {
    AgreeNibbles(buf, offset);
    AgreeWords(buf, offset);
    AgreeFlags(buf, offset);
    AgreeBytes(buf, offset);
    AgreeAddresses(buf, offset);
  }

  lemma AgreeNibbles(buf: seq<byte>, offset: nat)
    requires offset + 20 <= |buf| && DecodeIpPacket(buf, offset).Success?
    ensures var p, h := DecodeIpPacket(buf, offset).value, buf[offset..];
      && p.version == Ipv4.Version(h) as int
      && p.ihl * 4 == Ipv4.HeaderLen(h) as int
      && p.dscp == Ipv4.Dscp(h) as int && p.ecn == Ipv4.Ecn(h) as int
  {
    var h := buf[offset..];
    assert h[0] == buf[offset] && h[1] == buf[offset + 1];
    HeaderLenValue(buf[offset]);
  }

  lemma AgreeWords(buf: seq<byte>, offset: nat)
    requires offset + 20 <= |buf| && DecodeIpPacket(buf, offset).Success?
    ensures var p, h := DecodeIpPacket(buf, offset).value, buf[offset..];
      && p.length == Ipv4.TotalLen(h) && p.identification == Ipv4.Ident(h)
      && p.fragmentOffset * 8 == Ipv4.FragOffset(h)
      && p.checksum == Ipv4.ChecksumField(h)
  {
    var p, h := DecodeIpPacket(buf, offset).value, buf[offset..];
    assert p.length == Ipv4.TotalLen(h) by {
      assert h[2] == buf[offset + 2] && h[3] == buf[offset + 3];
    }
    assert p.identification == Ipv4.Ident(h) by {
      assert h[4] == buf[offset + 4] && h[5] == buf[offset + 5];
    }
    assert p.checksum == Ipv4.ChecksumField(h) by {
      assert h[10] == buf[offset + 10] && h[11] == buf[offset + 11];
    }
    assert p.fragmentOffset * 8 == Ipv4.FragOffset(h) by {
      assert p.fragmentOffset == ReadU16(buf, offset + 6) % 0x2000;
      assert h[6] == buf[offset + 6] && h[7] == buf[offset + 7];
      assert ReadU16(buf, offset + 6) == Ipv4.FlagsWord(h);
    }
  }

  lemma AgreeFlags(buf: seq<byte>, offset: nat)
    requires offset + 20 <= |buf| && DecodeIpPacket(buf, offset).Success?
    ensures var p, h := DecodeIpPacket(buf, offset).value, buf[offset..];
      ((p.flags / 2) % 2 == 1 <==> Ipv4.DontFrag(h)) && (p.flags % 2 == 1 <==> Ipv4.MoreFrags(h))
  {
    var h := buf[offset..];
    assert h[6] == buf[offset + 6];
    FlagBits(h);
  }

  lemma AgreeBytes(buf: seq<byte>, offset: nat)
    requires offset + 20 <= |buf| && DecodeIpPacket(buf, offset).Success?
    ensures var p, h := DecodeIpPacket(buf, offset).value, buf[offset..];
      p.ttl == Ipv4.HopLimit(h) as int && p.protocol == ToU8(Ipv4.ProtocolOf(h)) as int
  {
    var h := buf[offset..];
    assert h[8] == buf[offset + 8] && h[9] == buf[offset + 9];
  }

  lemma AgreeAddresses(buf: seq<byte>, offset: nat)
    requires offset + 20 <= |buf| && DecodeIpPacket(buf, offset).Success?
    ensures var p, h := DecodeIpPacket(buf, offset).value, buf[offset..];
      p.sourceIp == DefinedOctets(Ipv4.SrcAddr(h)) && p.destinationIp == DefinedOctets(Ipv4.DstAddr(h))
  {
    var h := buf[offset..];
    assert buf[offset + 12..offset + 16] == h[12..16];
    assert buf[offset + 16..offset + 20] == h[16..20];
    DecodeIpIsAddress(buf, offset + 12, Ipv4.SrcAddr(h));
    DecodeIpIsAddress(buf, offset + 16, Ipv4.DstAddr(h));
  }

  /**
   * The decoder's IP data is the Rust `payload()` when the header is 20
   * bytes long; with a longer header the decoder's data starts inside the
   * options, since it ignores the IHL.
   */
  lemma DecoderDataIsPayload(buf: seq<byte>, offset: nat)
    requires offset <= |buf| && DecodeIpPacket(buf, offset).Success? && Ipv4.CheckLen(buf[offset..]).Success?
    ensures Ipv4.HeaderLen(buf[offset..]) == 20 ==> DecodeIpPacket(buf, offset).value.data == Ipv4.Payload(buf[offset..])
  {
    var h := buf[offset..];
    AgreeWords(buf, offset);
    DecodedIpData(buf, offset);
    if Ipv4.HeaderLen(h) == 20 {
      assert buf[offset + 20..offset + Ipv4.TotalLen(h)] == h[20..Ipv4.TotalLen(h)];
    }
  }

  /** On a datagram of at least 8 bytes the decoder and the Rust UDP view agree field by field. */
  lemma DecoderAgreesWithUdpView(buf: seq<byte>)
    requires |buf| >= 8
    ensures var d := DecodeUdp(buf).value;
      && d.sourcePort == Udp.SrcPort(buf) && d.destinationPort == Udp.DstPort(buf)
      && d.length == Udp.Len(buf) && d.checksum == Udp.ChecksumField(buf)
      && (Udp.CheckLen(buf).Success? ==> d.data == Udp.Payload(buf))
  {
  }

  /**
   * In a frame the decoder accepts, the IP fields are those of the Rust
   * IPv4 view of the bytes after the 14-byte Ethernet header.
   */
  lemma FrameAgreesWithIpv4View(raw: seq<byte>)
    requires DecodePacket(raw).Success? && DecodePacket(raw).value.Some?
    requires |raw| >= ETHERNET_HEADER_LEN + 20
    ensures var p, h := DecodePacket(raw).value.value, raw[ETHERNET_HEADER_LEN..];
      && p.ip.fragmentOffset * 8 == Ipv4.FragOffset(h)
      && p.ip.protocol == ToU8(Ipv4.ProtocolOf(h)) as int
      && p.ip.length == Ipv4.TotalLen(h)
      && p.ip.sourceIp == DefinedOctets(Ipv4.SrcAddr(h)) && p.ip.destinationIp == DefinedOctets(Ipv4.DstAddr(h))
  {
    DecoderAgreesWithIpv4View(raw, ETHERNET_HEADER_LEN);
  }
}
