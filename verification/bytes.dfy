/**
 * Fixed-width integers and the big-endian ("network order") helpers of the
 * `NetworkEndian` struct, plus `std::net::Ipv4Addr` as four octets.
 */
module Bytes {

  type byte = bv8
  type u16 = x: int | 0 <= x < 0x1_0000
  type u32 = x: int | 0 <= x < 0x1_0000_0000

  /**
   * The byte whose value is `x` (Rust's `x as u8` on an in-range value).
   * Written as repeated increment rather than a conversion, which keeps the
   * solver away from integer/bit-vector conversion axioms.
   */
  function ToByte(x: int): (b: byte)
    requires 0 <= x < 256
    ensures b as int == x
    decreases x
  {
    if x == 0 then 0 else ToByte(x - 1) + 1
  }

  /** A byte converted to a number and back is itself. */
  lemma ByteValue(b: byte)
    ensures ToByte(b as int) == b
  {
  }

  /** Distinct bytes have distinct values. */
  lemma ByteValuesDiffer(x: byte, y: byte)
    requires x != y
    ensures x as int != y as int
  {
    ByteValue(x);
    ByteValue(y);
  }

  /** The two bytes of `v.to_be_bytes()`. */
  function U16Bytes(v: u16): (r: seq<byte>)
    ensures |r| == 2 && r[0] as int * 256 + r[1] as int == v
  {
    [ToByte(v / 256), ToByte(v % 256)]
  }

  /** `NetworkEndian::read_u16(&data[off..])`: the two bytes at `off`, high byte first. */
  function ReadU16(s: seq<byte>, off: nat): u16
    requires off + 2 <= |s|
  {
    s[off] as int * 256 + s[off + 1] as int
  }

  /** `NetworkEndian::write_u16(&mut data[off..], v)`: only the two bytes at `off` change. */
  function WriteU16(s: seq<byte>, off: nat, v: u16): (r: seq<byte>)
    requires off + 2 <= |s|
    ensures |r| == |s|
    ensures ReadU16(r, off) == v
    ensures forall i | 0 <= i < |s| && i != off && i != off + 1 :: r[i] == s[i]
  {
    s[..off] + U16Bytes(v) + s[off + 2..]
  }

  /**
   * The two messages the packet views' `check_len` report, both as
   * `io::Error`s of kind `Other`.
   */
  datatype CheckError = Truncated | Malformed

  /** `a` and `b` have the same length and agree on every index outside `[lo, hi)`. */
  predicate SameOutside(a: seq<byte>, b: seq<byte>, lo: nat, hi: nat)
  {
    |a| == |b| && forall i | 0 <= i < |a| && !(lo <= i < hi) :: a[i] == b[i]
  }

  /** Two updates of the same range change nothing outside it. */
  lemma SameOutsideTrans(a: seq<byte>, b: seq<byte>, c: seq<byte>, lo: nat, hi: nat)
    requires SameOutside(a, b, lo, hi) && SameOutside(b, c, lo, hi)
    ensures SameOutside(a, c, lo, hi)
  {
  }

  /** `data[off..off + part.len()].copy_from_slice(part)`. */
  function Overwrite(s: seq<byte>, off: nat, part: seq<byte>): (r: seq<byte>)
    requires off + |part| <= |s|
    ensures SameOutside(s, r, off, off + |part|)
    ensures r[off..off + |part|] == part
  {
    s[..off] + part + s[off + |part|..]
  }

  /** `NetworkEndian::read_u32(&data[off..])`. */
  function ReadU32(s: seq<byte>, off: nat): u32
    requires off + 4 <= |s|
  {
    ((s[off] as int * 256 + s[off + 1] as int) * 256 + s[off + 2] as int) * 256 + s[off + 3] as int
  }

  /** `x.to_be_bytes()` for a `u32`: reading them back gives `x`. */
  function U32ToBeBytes(x: u32): (r: seq<byte>)
    ensures |r| == 4 && ReadU32(r, 0) == x
  {
    DigitsOfU32(x);
    [ToByte(x / 0x100_0000), ToByte((x / 0x1_0000) % 256), ToByte((x / 256) % 256), ToByte(x % 256)]
  }

  /** A `u32` is the base-256 number of its four digits. */
  lemma DigitsOfU32(x: u32)
    ensures x == ((x / 0x100_0000 * 256 + (x / 0x1_0000) % 256) * 256 + (x / 256) % 256) * 256 + x % 256
  {
  }

  /** `std::net::Ipv4Addr`: four octets, most significant first. */
  datatype Ipv4Addr = Ipv4Addr(a: byte, b: byte, c: byte, d: byte)
  {
    /** `Ipv4Addr::octets`. */
    function Octets(): seq<byte> { [a, b, c, d] }

    /** `u32::from(addr)`: the octets read as a big-endian number. */
    function ToU32(): u32 { ReadU32(Octets(), 0) }
  }

  /** `Ipv4Addr::from([u8; 4])`. */
  function AddrFromOctets(o: seq<byte>): (r: Ipv4Addr)
    requires |o| == 4
    ensures r.Octets() == o
  {
    Ipv4Addr(o[0], o[1], o[2], o[3])
  }

  /** `Ipv4Addr::from(u32)`: the address whose big-endian value is `x`. */
  function AddrFromU32(x: u32): (r: Ipv4Addr)
    ensures r.ToU32() == x
    ensures r.Octets() == U32ToBeBytes(x)
  {
    AddrFromOctets(U32ToBeBytes(x))
  }

  /** `Ipv4Addr::from(u32::from(addr)) == addr`. */
  lemma AddrRoundTrip(addr: Ipv4Addr)
    ensures AddrFromU32(addr.ToU32()) == addr
  {
    var x := addr.ToU32();
    assert U32ToBeBytes(x) == addr.Octets() by {
      assert x == ((addr.a as int * 256 + addr.b as int) * 256 + addr.c as int) * 256 + addr.d as int;
      OctetsOfNumber(addr.a, addr.b, addr.c, addr.d);
    }
    OctetsDetermine(AddrFromU32(x), addr);
  }

  /** An address is determined by its octets. */
  lemma OctetsDetermine(p: Ipv4Addr, q: Ipv4Addr)
    requires p.Octets() == q.Octets()
    ensures p == q
  {
    assert p.Octets()[0] == q.Octets()[0] && p.Octets()[1] == q.Octets()[1];
    assert p.Octets()[2] == q.Octets()[2] && p.Octets()[3] == q.Octets()[3];
  }

  /** The digits of a four-digit base-256 number. */
  lemma Base256Digits(a: int, b: int, c: int, d: int)
    requires 0 <= a < 256 && 0 <= b < 256 && 0 <= c < 256 && 0 <= d < 256
    ensures var x := ((a * 256 + b) * 256 + c) * 256 + d;
      x / 0x100_0000 == a && (x / 0x1_0000) % 256 == b && (x / 256) % 256 == c && x % 256 == d
  {
  }

  /** Splitting the big-endian number of four octets gives the octets back. */
  lemma OctetsOfNumber(a: byte, b: byte, c: byte, d: byte)
    ensures U32ToBeBytes(((a as int * 256 + b as int) * 256 + c as int) * 256 + d as int) == [a, b, c, d]
  {
    Base256Digits(a as int, b as int, c as int, d as int);
    ByteValue(a); ByteValue(b); ByteValue(c); ByteValue(d);
  }

  /** Reading four octets as a big-endian `u32` and splitting the number again gives the octets back. */
  lemma ReadU32Bytes(s: seq<byte>, off: nat)
    requires off + 4 <= |s|
    ensures U32ToBeBytes(ReadU32(s, off)) == s[off..off + 4]
  {
    OctetsOfNumber(s[off], s[off + 1], s[off + 2], s[off + 3]);
    assert s[off..off + 4] == [s[off], s[off + 1], s[off + 2], s[off + 3]];
  }
}
