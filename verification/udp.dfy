/**
 * The UDP datagram view `udp::Packet` of RFC 768: ports, length and
 * checksum getters and setters, `check_len`, and the checksum over the
 * IPv4 pseudo-header and the datagram. A Rust panic is a precondition.
 */
module Udp {
  import opened Wrappers
  import opened Bytes
  import opened IpProtocol
  import opened Checksum

  /** Offsets of the fields (`mod field`). */
  const SRC_PORT: nat := 0
  const DST_PORT: nat := 2
  const LENGTH: nat := 4
  const CHECKSUM: nat := 6
  /** `field::CHECKSUM.end`: the length of the UDP header. */
  const HEADER_LEN: nat := 8

  /** `src_port`. */
  function SrcPort(buf: seq<byte>): u16
    requires |buf| >= SRC_PORT + 2
  {
    ReadU16(buf, SRC_PORT)
  }

  /** `dst_port`. */
  function DstPort(buf: seq<byte>): u16
    requires |buf| >= DST_PORT + 2
  {
    ReadU16(buf, DST_PORT)
  }

  /** `len`: the length field, header included. */
  function Len(buf: seq<byte>): u16
    requires |buf| >= LENGTH + 2
  {
    ReadU16(buf, LENGTH)
  }

  /** `checksum`: the stored checksum. */
  function ChecksumField(buf: seq<byte>): u16
    requires |buf| >= CHECKSUM + 2
  {
    ReadU16(buf, CHECKSUM)
  }

  /**
   * `check_len`: the buffer must hold the header and the length the header
   * claims, and that length must cover the header. Only a length below 8 is
   * `Malformed`.
   */
  function CheckLen(buf: seq<byte>): (r: Result<(), CheckError>)
    ensures r.Success? <==> |buf| >= HEADER_LEN && HEADER_LEN <= Len(buf) <= |buf|
    ensures r == Failure(Malformed) <==> |buf| >= HEADER_LEN && Len(buf) <= |buf| && Len(buf) < HEADER_LEN
  {
    if |buf| < HEADER_LEN then Failure(Truncated)
    else if |buf| < Len(buf) then Failure(Truncated)
    else if Len(buf) < HEADER_LEN then Failure(Malformed)
    else Success(())
  }

  /** `Packet::new_checked`: the buffer itself once `check_len` accepts it. */
  function NewChecked(buf: seq<byte>): (r: Result<seq<byte>, CheckError>)
    ensures r.Success? ==> r.value == buf && CheckLen(buf).Success?
    ensures r.Failure? ==> CheckLen(buf) == Failure(r.error)
  {
    match CheckLen(buf)
    case Success(_) => Success(buf)
    case Failure(e) => Failure(e)
  }

  /** `payload`: the bytes after the header, up to the length field (`field::PAYLOAD`). */
  function Payload(buf: seq<byte>): (r: seq<byte>)
    requires |buf| >= LENGTH + 2 && HEADER_LEN <= Len(buf) <= |buf|
    ensures |r| + HEADER_LEN == Len(buf)
    ensures forall i | 0 <= i < |r| :: r[i] == buf[HEADER_LEN + i]
  {
    buf[HEADER_LEN..Len(buf)]
  }

  /** A buffer `check_len` accepts can be given to `payload` and to `verify_checksum`. */
  lemma CheckedPayloadSafe(buf: seq<byte>)
    requires CheckLen(buf).Success?
    ensures |buf| >= HEADER_LEN && Len(buf) <= |buf|
    ensures |Payload(buf)| == Len(buf) - HEADER_LEN
  {
  }

  /**
   * The sum `verify_checksum` and `fill_checksum` compute, given the
   * pseudo-header sum `ph`: `ph` combined with the sum of the first `len`
   * bytes of the buffer.
   */
  function SumWith(ph: u16, buf: seq<byte>): u16
    requires |buf| >= LENGTH + 2 && Len(buf) <= |buf|
  {
    Combine([ph, OnesSum(buf[..Len(buf)])])
  }

  /** `checksum::pseudo_header` for this datagram: protocol UDP, the length field as the length. */
  function UdpPseudoHeader(buf: seq<byte>, src: Ipv4Addr, dst: Ipv4Addr): u16
    requires |buf| >= LENGTH + 2
  {
    PseudoHeader(src, dst, Udp, Len(buf))
  }

  /** `verify_checksum`: the pseudo-header and the datagram sum to 0xFFFF. */
  function VerifyChecksum(buf: seq<byte>, src: Ipv4Addr, dst: Ipv4Addr): bool
    requires |buf| >= LENGTH + 2 && Len(buf) <= |buf|
  {
    SumWith(UdpPseudoHeader(buf, src, dst), buf) == 0xFFFF
  }

  /**
   * `verify_checksum` is the RFC 768 rule: the one's-complement sum of the
   * pseudo-header followed by the datagram is all ones.
   */
  lemma VerifyIsSumOverPseudoHeader(buf: seq<byte>, src: Ipv4Addr, dst: Ipv4Addr)
    requires |buf| >= LENGTH + 2 && Len(buf) <= |buf| && Len(buf) + 12 <= 0xFFFF
    ensures VerifyChecksum(buf, src, dst)
        <==> OnesSum(PseudoHeaderBytes(src, dst, Udp, Len(buf)) + buf[..Len(buf)]) == 0xFFFF
  {
    CombineConcat(PseudoHeaderBytes(src, dst, Udp, Len(buf)), buf[..Len(buf)]);
  }

  /** `set_src_port`. */
  function SetSrcPort(buf: seq<byte>, value: u16): (r: seq<byte>)
    requires |buf| >= SRC_PORT + 2
    ensures SameOutside(buf, r, SRC_PORT, SRC_PORT + 2)
    ensures SrcPort(r) == value
    ensures |buf| >= HEADER_LEN ==>
      DstPort(r) == DstPort(buf) && Len(r) == Len(buf) && ChecksumField(r) == ChecksumField(buf)
  {
    WriteU16(buf, SRC_PORT, value)
  }

  /** `set_dst_port`. */
  function SetDstPort(buf: seq<byte>, value: u16): (r: seq<byte>)
    requires |buf| >= DST_PORT + 2
    ensures SameOutside(buf, r, DST_PORT, DST_PORT + 2)
    ensures DstPort(r) == value
    ensures SrcPort(r) == SrcPort(buf)
    ensures |buf| >= HEADER_LEN ==> Len(r) == Len(buf) && ChecksumField(r) == ChecksumField(buf)
  {
    WriteU16(buf, DST_PORT, value)
  }

  /** `set_len`. */
  function SetLen(buf: seq<byte>, value: u16): (r: seq<byte>)
    requires |buf| >= LENGTH + 2
    ensures SameOutside(buf, r, LENGTH, LENGTH + 2)
    ensures Len(r) == value
    ensures SrcPort(r) == SrcPort(buf) && DstPort(r) == DstPort(buf)
    ensures |buf| >= HEADER_LEN ==> ChecksumField(r) == ChecksumField(buf)
  {
    WriteU16(buf, LENGTH, value)
  }

  /** `set_checksum`. */
  function SetChecksum(buf: seq<byte>, value: u16): (r: seq<byte>)
    requires |buf| >= CHECKSUM + 2
    ensures SameOutside(buf, r, CHECKSUM, CHECKSUM + 2)
    ensures ChecksumField(r) == value
    ensures SrcPort(r) == SrcPort(buf) && DstPort(r) == DstPort(buf) && Len(r) == Len(buf)
  {
    WriteU16(buf, CHECKSUM, value)
  }

  /**
   * The value `fill_checksum` stores: the complement of the sum, except that a
   * zero complement is sent as 0xFFFF, since zero means "no checksum" in
   * RFC 768.
   */
  function Transmitted(sum: u16): (c: u16)
    ensures c != 0
    ensures (sum + c) % 0xFFFF == 0
  {
    var checksum := 0xFFFF - sum;     // !combine(..)
    if checksum == 0 then 0xFFFF else checksum
  }

  /**
   * `fill_checksum`: zero the checksum field, sum, store the transmitted
   * value. Only the checksum bytes change, and the stored checksum is never 0.
   */
  function FillChecksum(buf: seq<byte>, src: Ipv4Addr, dst: Ipv4Addr): (r: seq<byte>)
    requires |buf| >= HEADER_LEN && Len(buf) <= |buf|
    ensures SameOutside(buf, r, CHECKSUM, CHECKSUM + 2)
    ensures Len(r) == Len(buf)
    ensures ChecksumField(r) != 0
  {
    var zeroed := SetChecksum(buf, 0);
    var r := SetChecksum(zeroed, Transmitted(SumWith(UdpPseudoHeader(zeroed, src, dst), zeroed)));
    SameOutsideTrans(buf, zeroed, r, CHECKSUM, CHECKSUM + 2);
    r
  }

  /**
   * After `fill_checksum`, `verify_checksum` with the same addresses holds
   * whenever the length field covers the checksum field.
   */
  lemma FillThenVerify(buf: seq<byte>, src: Ipv4Addr, dst: Ipv4Addr)
    requires |buf| >= HEADER_LEN && HEADER_LEN <= Len(buf) <= |buf|
    ensures VerifyChecksum(FillChecksum(buf, src, dst), src, dst)
  {
    var ph := UdpPseudoHeader(buf, src, dst);
    var zeroed := SetChecksum(buf, 0);
    assert UdpPseudoHeader(zeroed, src, dst) == ph;
    assert UdpPseudoHeader(FillChecksum(buf, src, dst), src, dst) == ph;
    FilledSumIsAllOnes(ph, zeroed);
  }

  /**
   * Storing the transmitted value of the sum into a zeroed checksum field
   * makes the sum all ones, whatever the pseudo-header sum.
   */
  lemma FilledSumIsAllOnes(ph: u16, zeroed: seq<byte>)
    requires |zeroed| >= HEADER_LEN && HEADER_LEN <= Len(zeroed) <= |zeroed| && ChecksumField(zeroed) == 0
    ensures SumWith(ph, SetChecksum(zeroed, Transmitted(SumWith(ph, zeroed)))) == 0xFFFF
  {
    var len := Len(zeroed) as int;
    var stored := Transmitted(SumWith(ph, zeroed));
    var r := SetChecksum(zeroed, stored);
    ZeroChecksumAdds(zeroed, stored);
    ComplementedCombine(ph, OnesSum(zeroed[..len]), WordSum(zeroed[..len]),
                        OnesSum(r[..len]), WordSum(r[..len]));
  }

  /**
   * If the data's total grows by the transmitted value of its combination
   * with `ph`, the new combination with `ph` is all ones.
   */
  lemma ComplementedCombine(ph: u16, y: u16, total: nat, y': u16, total': nat)
    requires Folds(y, total) && Folds(y', total')
    requires total' == total + Transmitted(Combine([ph, y]))
    ensures Combine([ph, y']) == 0xFFFF
  {
    CombinePairFolds(ph, ph, y, total);
    CombinePairFolds(ph, ph, y', total');
    TransmittedFolds(Combine([ph, y]), ph + total, Combine([ph, y']), ph + total');
  }

  /** Storing `v` into a zero checksum field adds `v` to the sum over the datagram. */
  lemma ZeroChecksumAdds(buf: seq<byte>, v: u16)
    requires |buf| >= HEADER_LEN && HEADER_LEN <= Len(buf) <= |buf| && ChecksumField(buf) == 0
    ensures Len(SetChecksum(buf, v)) == Len(buf)
    ensures WordSum(SetChecksum(buf, v)[..Len(buf)]) == WordSum(buf[..Len(buf)]) + v
  {
    var len := Len(buf) as int;
    var r := SetChecksum(buf, v);
    assert r[..len] == WriteU16(buf[..len], CHECKSUM, v);
    WordSumWriteU16(buf[..len], CHECKSUM, v);
  }

  /** Adding the transmitted value of a fold to its total gives a total that folds to 0xFFFF. */
  lemma TransmittedFolds(sum: u16, total: nat, r: u16, total': nat)
    requires Folds(sum, total) && Folds(r, total') && total' == total + Transmitted(sum)
    ensures r == 0xFFFF
  {
    FoldsToAllOnes(r, total');
  }
}
