/**
 * The IPv4 header view `ip::Packet` of section 3.1 of RFC 791: a byte
 * buffer with field getters, field setters, `check_len` and the header
 * checksum. A setter returns the new buffer; a Rust panic (an index or a
 * slice out of range) is a precondition.
 */
module Ipv4 {
  import opened Wrappers
  import opened Bytes
  import opened IpProtocol
  import opened Checksum

  /** Offsets of the fields (`mod field`). */
  const VER_IHL: nat := 0
  const DSCP_ECN: nat := 1
  const LENGTH: nat := 2
  const IDENT: nat := 4
  const FLG_OFF: nat := 6
  const TTL: nat := 8
  const PROTOCOL: nat := 9
  const CHECKSUM: nat := 10
  const SRC_ADDR: nat := 12
  const DST_ADDR: nat := 16
  /** `field::DST_ADDR.end`: the length of a header without options. */
  const HEADER_END: nat := 20

  // ---------------------------------------------------------------- getters

  /** `version`: the high nibble of byte 0. */
  function Version(buf: seq<byte>): (r: byte)
    requires |buf| > VER_IHL
    ensures r < 16
  {
    buf[VER_IHL] >> 4
  }

  /** `header_len`: the IHL nibble counts 32-bit words, so the length in bytes is a multiple of 4 up to 60. */
  function HeaderLen(buf: seq<byte>): (r: byte)
    requires |buf| > VER_IHL
    ensures r as int % 4 == 0 && r <= 60
  {
    (buf[VER_IHL] & 0x0F) * 4
  }

  /** `dscp`: the upper six bits of byte 1. */
  function Dscp(buf: seq<byte>): (r: byte)
    requires |buf| > DSCP_ECN
    ensures r < 64
  {
    buf[DSCP_ECN] >> 2
  }

  /** `ecn`: the lower two bits of byte 1. */
  function Ecn(buf: seq<byte>): (r: byte)
    requires |buf| > DSCP_ECN
    ensures r < 4
  {
    buf[DSCP_ECN] & 0x03
  }

  /** `total_len`. */
  function TotalLen(buf: seq<byte>): u16
    requires |buf| >= LENGTH + 2
  {
    ReadU16(buf, LENGTH)
  }

  /** `ident`. */
  function Ident(buf: seq<byte>): u16
    requires |buf| >= IDENT + 2
  {
    ReadU16(buf, IDENT)
  }

  /** The raw flags-and-offset word: reserved bit 0x8000, DF 0x4000, MF 0x2000, offset in the low 13 bits. */
  function FlagsWord(buf: seq<byte>): u16
    requires |buf| >= FLG_OFF + 2
  {
    ReadU16(buf, FLG_OFF)
  }

  /** `dont_frag`: bit 0x4000 of the flags word. */
  function DontFrag(buf: seq<byte>): bool
    requires |buf| >= FLG_OFF + 2
  {
    (FlagsWord(buf) / 0x4000) % 2 == 1    // raw & 0x4000 != 0
  }

  /** `more_frags`: bit 0x2000 of the flags word. */
  function MoreFrags(buf: seq<byte>): bool
    requires |buf| >= FLG_OFF + 2
  {
    (FlagsWord(buf) / 0x2000) % 2 == 1    // raw & 0x2000 != 0
  }

  /**
   * `frag_offset`: the 16-bit shift `raw << 3` drops the three flag bits, so
   * the result is the 13-bit offset field in bytes (8-byte units times 8).
   */
  function FragOffset(buf: seq<byte>): (r: u16)
    requires |buf| >= FLG_OFF + 2
    ensures r == (FlagsWord(buf) % 0x2000) * 8
  {
    ShiftLeft3(FlagsWord(buf));
    (FlagsWord(buf) * 8) % 0x1_0000
  }

  /** A 16-bit `x << 3` keeps only the low 13 bits of `x`. */
  lemma ShiftLeft3(x: u16)
    ensures (x * 8) % 0x1_0000 == (x % 0x2000) * 8
  {
    var q, m := x / 0x2000, x % 0x2000;
    assert x * 8 == q * 0x1_0000 + m * 8;
  }

  /** `hop_limit`. */
  function HopLimit(buf: seq<byte>): byte
    requires |buf| > TTL
  {
    buf[TTL]
  }

  /** `protocol`: byte 9 through `Protocol::from`. */
  function ProtocolOf(buf: seq<byte>): (r: Protocol)
    requires |buf| > PROTOCOL
    ensures ToU8(r) == buf[PROTOCOL]
  {
    FromU8(buf[PROTOCOL])
  }

  /** `checksum`: the stored header checksum. */
  function ChecksumField(buf: seq<byte>): u16
    requires |buf| >= CHECKSUM + 2
  {
    ReadU16(buf, CHECKSUM)
  }

  /** `src_addr`: bytes 12..16 as an address. */
  function SrcAddr(buf: seq<byte>): (r: Ipv4Addr)
    requires |buf| >= SRC_ADDR + 4
    ensures r.Octets() == buf[SRC_ADDR..SRC_ADDR + 4]
  {
    ReadU32Bytes(buf, SRC_ADDR);
    AddrFromU32(ReadU32(buf, SRC_ADDR))
  }

  /** `dst_addr`: bytes 16..20 as an address. */
  function DstAddr(buf: seq<byte>): (r: Ipv4Addr)
    requires |buf| >= DST_ADDR + 4
    ensures r.Octets() == buf[DST_ADDR..DST_ADDR + 4]
  {
    ReadU32Bytes(buf, DST_ADDR);
    AddrFromU32(ReadU32(buf, DST_ADDR))
  }

  // ------------------------------------------------------ length validation

  /**
   * `check_len`: the buffer must hold the fixed header, the header length and
   * the total length, and the header must fit in the total length. Only the
   * last condition is reported as `Malformed`.
   */
  function CheckLen(buf: seq<byte>): (r: Result<(), CheckError>)
    ensures r.Success? <==>
      |buf| >= HEADER_END && HeaderLen(buf) as int <= |buf|
      && HeaderLen(buf) as int <= TotalLen(buf) <= |buf|
    ensures r == Failure(Malformed) <==>
      |buf| >= HEADER_END && HeaderLen(buf) as int <= |buf| && HeaderLen(buf) as int > TotalLen(buf)
  {
    if |buf| < HEADER_END then Failure(Truncated)
    else if |buf| < HeaderLen(buf) as int then Failure(Truncated)
    else if HeaderLen(buf) as int > TotalLen(buf) then Failure(Malformed)
    else if |buf| < TotalLen(buf) then Failure(Truncated)
    else Success(())
  }

  /** `Packet::new_checked`: the buffer itself once `check_len` accepts it. */
  function NewChecked(buf: seq<byte>): (r: Result<seq<byte>, CheckError>)
    ensures r.Success? ==> r.value == buf && CheckLen(buf).Success?
    ensures r.Failure? ==> CheckLen(buf) == Failure(r.error)
  {
    match CheckLen(buf)
    case Success(_) => Success(buf)
    case Failure(e) => Failure(e)
  }

  // ---------------------------------------------------- checksum and payload

  /** `verify_checksum` (outside fuzzing builds): the header sums to 0xFFFF. */
  function VerifyChecksum(buf: seq<byte>): bool
    requires |buf| > VER_IHL && HeaderLen(buf) as int <= |buf|
  {
    OnesSum(buf[..HeaderLen(buf)]) == 0xFFFF
  }

  /** `payload`: the bytes after the header, up to the total length. */
  function Payload(buf: seq<byte>): (r: seq<byte>)
    requires |buf| >= LENGTH + 2 && HeaderLen(buf) as int <= TotalLen(buf) <= |buf|
    ensures |r| == TotalLen(buf) - HeaderLen(buf) as int
    ensures forall i | 0 <= i < |r| :: r[i] == buf[HeaderLen(buf) as int + i]
  {
    buf[HeaderLen(buf)..TotalLen(buf)]
  }

  /** A buffer `check_len` accepts can be given to every getter, to `verify_checksum` and to `payload`. */
  lemma CheckedAccessorsSafe(buf: seq<byte>)
    requires CheckLen(buf).Success?
    ensures |buf| >= DST_ADDR + 4
    ensures HeaderLen(buf) as int <= |buf|
    ensures |Payload(buf)| + HeaderLen(buf) as int == TotalLen(buf)
  {
  }

  // ---------------------------------------------------------------- setters

  /** `set_version`: `value << 4` in a `u8` keeps only the low nibble of the value. */
  function SetVersion(buf: seq<byte>, value: byte): (r: seq<byte>)
    requires |buf| > VER_IHL
    ensures SameOutside(buf, r, VER_IHL, VER_IHL + 1)
    ensures Version(r) == value % 16
    ensures value < 16 ==> Version(r) == value
    ensures HeaderLen(r) == HeaderLen(buf)
  {
    buf[VER_IHL := (buf[VER_IHL] & 0x0F) | (value << 4)]
  }

  /** `set_header_len`: stores `value / 4` in the IHL nibble. */
  function SetHeaderLen(buf: seq<byte>, value: byte): (r: seq<byte>)
    requires |buf| > VER_IHL
    ensures SameOutside(buf, r, VER_IHL, VER_IHL + 1)
    ensures HeaderLen(r) == value / 4 % 16 * 4
    ensures value % 4 == 0 && value <= 60 ==> HeaderLen(r) == value
    ensures Version(r) == Version(buf)
  {
    buf[VER_IHL := (buf[VER_IHL] & 0xF0) | ((value / 4) & 0x0F)]
  }

  /** `set_dscp`: `value << 2` in a `u8` keeps only the low six bits of the value. */
  function SetDscp(buf: seq<byte>, value: byte): (r: seq<byte>)
    requires |buf| > DSCP_ECN
    ensures SameOutside(buf, r, DSCP_ECN, DSCP_ECN + 1)
    ensures Dscp(r) == value % 64
    ensures Ecn(r) == Ecn(buf)
  {
    buf[DSCP_ECN := (buf[DSCP_ECN] & 0x03) | (value << 2)]
  }

  /** `set_ecn`. */
  function SetEcn(buf: seq<byte>, value: byte): (r: seq<byte>)
    requires |buf| > DSCP_ECN
    ensures SameOutside(buf, r, DSCP_ECN, DSCP_ECN + 1)
    ensures Ecn(r) == value % 4
    ensures Dscp(r) == Dscp(buf)
  {
    buf[DSCP_ECN := (buf[DSCP_ECN] & 0xFC) | (value & 0x03)]
  }

  /** `set_total_len`. */
  function SetTotalLen(buf: seq<byte>, value: u16): (r: seq<byte>)
    requires |buf| >= LENGTH + 2
    ensures SameOutside(buf, r, LENGTH, LENGTH + 2)
    ensures TotalLen(r) == value
  {
    WriteU16(buf, LENGTH, value)
  }

  /** `set_ident`. */
  function SetIdent(buf: seq<byte>, value: u16): (r: seq<byte>)
    requires |buf| >= IDENT + 2
    ensures SameOutside(buf, r, IDENT, IDENT + 2)
    ensures Ident(r) == value
  {
    WriteU16(buf, IDENT, value)
  }

  /**
   * The flags-and-offset word assembled from its parts: the reserved bit,
   * DF, MF (each 0 or 1) and the 13-bit offset in 8-byte units. The bitwise
   * updates of the setters are written as reassembly from these parts.
   */
  function FlagsWordOf(reserved: int, df: int, mf: int, units: int): int
  {
    reserved * 0x8000 + df * 0x4000 + mf * 0x2000 + units
  }

  /** Reading the parts back out of an assembled word. */
  lemma FlagsWordParts(reserved: int, df: int, mf: int, units: int)
    requires 0 <= reserved < 2 && 0 <= df < 2 && 0 <= mf < 2 && 0 <= units < 0x2000
    ensures var raw := FlagsWordOf(reserved, df, mf, units);
      0 <= raw < 0x1_0000 && raw / 0x8000 == reserved && (raw / 0x4000) % 2 == df
      && (raw / 0x2000) % 2 == mf && raw % 0x2000 == units
  {
    var raw := FlagsWordOf(reserved, df, mf, units);
    DivModOf(reserved * 4 + df * 2 + mf, units, 0x2000);
    DivModOf(reserved * 2 + df, mf, 2);
    DivModOf(reserved * 2 + df, mf * 0x2000 + units, 0x4000);
    DivModOf(reserved, df, 2);
    DivModOf(reserved, df * 0x4000 + mf * 0x2000 + units, 0x8000);
  }

  /** Euclidean division undoes `q * m + rem` for a remainder below `m`. */
  lemma DivModOf(q: int, rem: int, m: int)
    requires m > 0 && 0 <= rem < m
    ensures (q * m + rem) / m == q && (q * m + rem) % m == rem
  {
    var n := q * m + rem;
    var d, r := n / m, n % m;
    assert (q - d) * m == r - rem;
    MultipleBound(q - d, m);
  }

  /** A non-zero multiple of `m` is at least `m` away from zero. */
  lemma MultipleBound(k: int, m: int)
    requires m > 0
    ensures k >= 1 ==> k * m >= m
    ensures k <= -1 ==> k * m <= -m
  {
  }

  /** Every 16-bit word is assembled from its own parts. */
  lemma FlagsWordOfParts(raw: u16)
    ensures raw == FlagsWordOf(raw / 0x8000, (raw / 0x4000) % 2, (raw / 0x2000) % 2, raw % 0x2000)
  {
    var reserved, r1 := raw / 0x8000, raw % 0x8000;
    var df, r2 := r1 / 0x4000, r1 % 0x4000;
    var mf, units := r2 / 0x2000, r2 % 0x2000;
    assert raw == FlagsWordOf(reserved, df, mf, units);
    FlagsWordParts(reserved, df, mf, units);
  }

  /** `raw & !0xe000`: clears the reserved, DF and MF bits. */
  function WithoutFlags(raw: u16): (r: u16)
    ensures r < 0x2000 && r % 0x2000 == raw % 0x2000
    ensures (r / 0x4000) % 2 == 0 && (r / 0x2000) % 2 == 0
  {
    raw % 0x2000
  }

  /** `raw | 0x4000` when `value`, otherwise `raw & !0x4000`: only the DF bit changes. */
  function WithDontFrag(raw: u16, value: bool): (r: u16)
    ensures (r / 0x4000) % 2 == 1 <==> value
    ensures r / 0x8000 == raw / 0x8000 && (r / 0x2000) % 2 == (raw / 0x2000) % 2
    ensures r % 0x2000 == raw % 0x2000
  {
    var reserved, mf, units := raw / 0x8000, (raw / 0x2000) % 2, raw % 0x2000;
    var df := if value then 1 else 0;
    FlagsWordOfParts(raw);
    FlagsWordParts(reserved, df, mf, units);
    FlagsWordOf(reserved, df, mf, units)
  }

  /** `raw | 0x2000` when `value`, otherwise `raw & !0x2000`: only the MF bit changes. */
  function WithMoreFrags(raw: u16, value: bool): (r: u16)
    ensures (r / 0x2000) % 2 == 1 <==> value
    ensures r / 0x8000 == raw / 0x8000 && (r / 0x4000) % 2 == (raw / 0x4000) % 2
    ensures r % 0x2000 == raw % 0x2000
  {
    var reserved, df, units := raw / 0x8000, (raw / 0x4000) % 2, raw % 0x2000;
    var mf := if value then 1 else 0;
    FlagsWordOfParts(raw);
    FlagsWordParts(reserved, df, mf, units);
    FlagsWordOf(reserved, df, mf, units)
  }

  /** `(raw & 0xe000) | units`: only the 13-bit offset changes. */
  function WithFragUnits(raw: u16, units: int): (r: u16)
    requires 0 <= units < 0x2000
    ensures r / 0x8000 == raw / 0x8000 && (r / 0x4000) % 2 == (raw / 0x4000) % 2
    ensures (r / 0x2000) % 2 == (raw / 0x2000) % 2
    ensures r % 0x2000 == units
  {
    var reserved, df, mf := raw / 0x8000, (raw / 0x4000) % 2, (raw / 0x2000) % 2;
    FlagsWordOfParts(raw);
    FlagsWordParts(reserved, df, mf, units);
    FlagsWordOf(reserved, df, mf, units)
  }

  /** `clear_flags`: zeroes the reserved, DF and MF bits and keeps the offset. */
  function ClearFlags(buf: seq<byte>): (r: seq<byte>)
    requires |buf| >= FLG_OFF + 2
    ensures SameOutside(buf, r, FLG_OFF, FLG_OFF + 2)
    ensures FlagsWord(r) < 0x2000 && !DontFrag(r) && !MoreFrags(r)
    ensures FragOffset(r) == FragOffset(buf)
  {
    WriteU16(buf, FLG_OFF, WithoutFlags(FlagsWord(buf)))
  }

  /** `set_dont_frag`: sets or clears DF; the reserved bit, MF and the offset are kept. */
  function SetDontFrag(buf: seq<byte>, value: bool): (r: seq<byte>)
    requires |buf| >= FLG_OFF + 2
    ensures SameOutside(buf, r, FLG_OFF, FLG_OFF + 2)
    ensures DontFrag(r) == value
    ensures FlagsWord(r) / 0x8000 == FlagsWord(buf) / 0x8000
    ensures MoreFrags(r) == MoreFrags(buf) && FragOffset(r) == FragOffset(buf)
  {
    WriteU16(buf, FLG_OFF, WithDontFrag(FlagsWord(buf), value))
  }

  /** `set_more_frags`: sets or clears MF; the reserved bit, DF and the offset are kept. */
  function SetMoreFrags(buf: seq<byte>, value: bool): (r: seq<byte>)
    requires |buf| >= FLG_OFF + 2
    ensures SameOutside(buf, r, FLG_OFF, FLG_OFF + 2)
    ensures MoreFrags(r) == value
    ensures FlagsWord(r) / 0x8000 == FlagsWord(buf) / 0x8000
    ensures DontFrag(r) == DontFrag(buf) && FragOffset(r) == FragOffset(buf)
  {
    WriteU16(buf, FLG_OFF, WithMoreFrags(FlagsWord(buf), value))
  }

  /**
   * `set_frag_offset`: keeps the three flag bits and stores `value >> 3`, the
   * offset in 8-byte units, so an offset that is a multiple of 8 reads back
   * unchanged.
   */
  function SetFragOffset(buf: seq<byte>, value: u16): (r: seq<byte>)
    requires |buf| >= FLG_OFF + 2
    ensures SameOutside(buf, r, FLG_OFF, FLG_OFF + 2)
    ensures FlagsWord(r) / 0x8000 == FlagsWord(buf) / 0x8000
    ensures DontFrag(r) == DontFrag(buf) && MoreFrags(r) == MoreFrags(buf)
    ensures FragOffset(r) == value / 8 * 8
    ensures value % 8 == 0 ==> FragOffset(r) == value
  {
    WriteU16(buf, FLG_OFF, WithFragUnits(FlagsWord(buf), value / 8))
  }

  /** `set_hop_limit`. */
  function SetHopLimit(buf: seq<byte>, value: byte): (r: seq<byte>)
    requires |buf| > TTL
    ensures SameOutside(buf, r, TTL, TTL + 1)
    ensures HopLimit(r) == value
  {
    buf[TTL := value]
  }

  /** `set_protocol`: stores `u8::from(value)`. */
  function SetProtocol(buf: seq<byte>, value: Protocol): (r: seq<byte>)
    requires |buf| > PROTOCOL
    ensures SameOutside(buf, r, PROTOCOL, PROTOCOL + 1)
    ensures ToU8(ProtocolOf(r)) == ToU8(value)
    ensures !(value.Unknown? && IsNamed(value.number)) ==> ProtocolOf(r) == value
  {
    ProtocolRoundTrip(value);
    buf[PROTOCOL := ToU8(value)]
  }

  /** `set_checksum`. */
  function SetChecksum(buf: seq<byte>, value: u16): (r: seq<byte>)
    requires |buf| >= CHECKSUM + 2
    ensures SameOutside(buf, r, CHECKSUM, CHECKSUM + 2)
    ensures ChecksumField(r) == value
  {
    WriteU16(buf, CHECKSUM, value)
  }

  /** `set_src_addr`: copies the four octets into bytes 12..16. */
  function SetSrcAddr(buf: seq<byte>, value: Ipv4Addr): (r: seq<byte>)
    requires |buf| >= SRC_ADDR + 4
    ensures SameOutside(buf, r, SRC_ADDR, SRC_ADDR + 4)
    ensures SrcAddr(r) == value
  {
    var r := Overwrite(buf, SRC_ADDR, value.Octets());
    AddrRoundTrip(value);
    assert ReadU32(r, SRC_ADDR) == value.ToU32();
    r
  }

  /** `set_dst_addr`: copies the four octets into bytes 16..20. */
  function SetDstAddr(buf: seq<byte>, value: Ipv4Addr): (r: seq<byte>)
    requires |buf| >= DST_ADDR + 4
    ensures SameOutside(buf, r, DST_ADDR, DST_ADDR + 4)
    ensures DstAddr(r) == value
  {
    var r := Overwrite(buf, DST_ADDR, value.Octets());
    AddrRoundTrip(value);
    assert ReadU32(r, DST_ADDR) == value.ToU32();
    r
  }

  // ------------------------------------------------------- header checksum

  /**
   * `fill_checksum`: zero the checksum field, sum the header, store the
   * complement (`!checksum::data(..)`). Only the checksum bytes change.
   */
  function FillChecksum(buf: seq<byte>): (r: seq<byte>)
    requires |buf| >= CHECKSUM + 2 && HeaderLen(buf) as int <= |buf|
    ensures SameOutside(buf, r, CHECKSUM, CHECKSUM + 2)
    ensures HeaderLen(r) == HeaderLen(buf)
  {
    var zeroed := SetChecksum(buf, 0);
    assert zeroed[VER_IHL] == buf[VER_IHL];
    var r := SetChecksum(zeroed, 0xFFFF - OnesSum(zeroed[..HeaderLen(zeroed)]));
    assert r[VER_IHL] == buf[VER_IHL];
    SameOutsideTrans(buf, zeroed, r, CHECKSUM, CHECKSUM + 2);
    r
  }

  /**
   * After `fill_checksum`, `verify_checksum` holds whenever the header covers
   * the checksum field (`header_len` of at least 12).
   */
  lemma FillThenVerify(buf: seq<byte>)
    requires |buf| >= CHECKSUM + 2 && HeaderLen(buf) as int <= |buf|
    requires HeaderLen(buf) as int >= CHECKSUM + 2
    ensures VerifyChecksum(FillChecksum(buf))
  {
    var zeroed := SetChecksum(buf, 0);
    ComplementVerifies(zeroed, HeaderLen(zeroed) as int, CHECKSUM);
  }

  /**
   * Writing the complement of the sum of `s[..h]` into an aligned, zeroed
   * word inside the first `h` bytes makes those bytes sum to 0xFFFF.
   */
  lemma ComplementVerifies(s: seq<byte>, h: nat, off: nat)
    requires off % 2 == 0 && off + 2 <= h <= |s| && h <= 0xFFFF
    requires ReadU16(s, off) == 0
    ensures OnesSum(WriteU16(s, off, 0xFFFF - OnesSum(s[..h]))[..h]) == 0xFFFF
  {
    var sum := OnesSum(s[..h]);
    var t := WriteU16(s, off, 0xFFFF - sum);
    assert t[..h] == WriteU16(s[..h], off, 0xFFFF - sum);
    WordSumWriteU16(s[..h], off, 0xFFFF - sum);
    ComplementFolds(sum, WordSum(s[..h]), OnesSum(t[..h]), WordSum(t[..h]));
  }

  /** Adding the complement of a fold to its total gives a total that folds to 0xFFFF. */
  lemma ComplementFolds(sum: u16, total: nat, r: u16, total': nat)
    requires Folds(sum, total) && Folds(r, total') && total' == total + (0xFFFF - sum)
    ensures r == 0xFFFF
  {
    ComplementCancels(sum, total);
    FoldsToAllOnes(r, total');
  }
}
