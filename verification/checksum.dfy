/**
 * The one's-complement Internet checksum of section 1 of RFC 1071
 * (`ip::checksum`): the buffer is summed as big-endian 16-bit words and the
 * carries out of bit 15 are added back in ("end-around carry").
 */
module Checksum {
  import opened Bytes
  import opened IpProtocol

  /** Bytes summed per outer iteration of `checksum::data`. */
  const CHUNK_SIZE: nat := 32

  /** The big-endian 16-bit word made of `hi` and `lo`. */
  function Word(hi: byte, lo: byte): u16
  {
    hi as int * 256 + lo as int
  }

  /**
   * Reference definition: the plain sum of `s` read as big-endian 16-bit
   * words, an odd trailing byte being the high byte of a zero-padded word.
   */
  function WordSum(s: seq<byte>): nat
  {
    if |s| == 0 then 0
    else if |s| == 1 then s[0] as int * 256
    else Word(s[0], s[1]) + WordSum(s[2..])
  }

  /** Each word is at most 0xFFFF, so the sum is bounded by 0xFFFF per (possibly partial) word. */
  lemma {:induction false} WordSumBound(s: seq<byte>)
    ensures WordSum(s) <= 0xFFFF * ((|s| + 1) / 2)
  {
    if |s| >= 2 {
      WordSumBound(s[2..]);
    }
  }

  /** Buffers of at most 65535 bytes sum to less than 2^32: the `u32` accumulator never overflows. */
  lemma WordSumFitsU32(s: seq<byte>)
    requires |s| <= 0xFFFF
    ensures WordSum(s) < 0x1_0000_0000
  {
    WordSumBound(s);
    assert (|s| + 1) / 2 <= 0x8000;
  }

  /**
   * `r` is the end-around-carry fold of `total`: the two agree modulo 0xFFFF
   * and `r` is zero only for a zero total (so a non-zero multiple of 0xFFFF
   * folds to 0xFFFF, "negative zero").
   */
  predicate Folds(r: nat, total: nat)
  {
    r % 0xFFFF == total % 0xFFFF && (r == 0 <==> total == 0)
  }

  /**
   * `propagate_carries`: folds a 32-bit accumulator into 16 bits. The second
   * addition cannot overflow a `u16`: the result type is the proof.
   */
  function PropagateCarries(word: u32): (r: u16)
    ensures Folds(r, word)
  {
    var sum := word / 0x1_0000 + word % 0x1_0000;   // (word >> 16) + (word & 0xffff)
    FoldStep(word);
    FoldStep(sum);
    sum / 0x1_0000 + sum % 0x1_0000                  // ((sum >> 16) as u16) + (sum as u16)
  }

  /** Adding the high half to the low half keeps the residue modulo 0xFFFF. */
  lemma FoldStep(w: nat)
    ensures (w / 0x1_0000 + w % 0x1_0000) % 0xFFFF == w % 0xFFFF
    ensures w / 0x1_0000 + w % 0x1_0000 == 0 <==> w == 0
  {
    var q, m := w / 0x1_0000, w % 0x1_0000;
    assert w == 0xFFFF * q + (q + m);
  }

  /** Two folds of the same total are equal. */
  lemma FoldsUnique(r1: u16, r2: u16, total: nat)
    requires Folds(r1, total) && Folds(r2, total)
    ensures r1 == r2
  {
  }

  /** A non-zero multiple of 0xFFFF folds to 0xFFFF. */
  lemma FoldsToAllOnes(r: u16, total: nat)
    requires Folds(r, total) && total != 0 && total % 0xFFFF == 0
    ensures r == 0xFFFF
  {
  }

  /** Adding the complement `0xFFFF - s` of a fold `s` to its total gives a non-zero multiple of 0xFFFF. */
  lemma ComplementCancels(s: u16, total: nat)
    requires Folds(s, total)
    ensures (total + (0xFFFF - s)) % 0xFFFF == 0 && total + (0xFFFF - s) != 0
  {
  }

  /** Shifting by a multiple of 0xFFFF keeps the residue. */
  lemma ModShift(a: int, k: int)
    ensures (a + 0xFFFF * k) % 0xFFFF == a % 0xFFFF
  {
  }

  /** Folding is compatible with addition: the sum of two folds folds the sum of their totals. */
  lemma FoldsAdd(x: nat, total1: nat, y: nat, total2: nat)
    requires Folds(x, total1) && Folds(y, total2)
    ensures Folds(x + y, total1 + total2)
  {
    var k := total1 / 0xFFFF + total2 / 0xFFFF - x / 0xFFFF - y / 0xFFFF;
    assert total1 + total2 == (x + y) + 0xFFFF * k;
    ModShift(x + y, k);
  }

  /**
   * `checksum::data` as a function: the RFC 1071 sum of `s` without the final
   * complement. The callers pass at most 65535 bytes, for which the `u32`
   * accumulator cannot overflow.
   */
  function OnesSum(s: seq<byte>): (r: u16)
    requires |s| <= 0xFFFF
    ensures Folds(r, WordSum(s))
  {
    WordSumFitsU32(s);
    PropagateCarries(WordSum(s))
  }

  /** Summing a concatenation word by word: the split must fall on a word boundary. */
  lemma {:induction false} WordSumAppend(a: seq<byte>, b: seq<byte>)
    requires |a| % 2 == 0
    ensures WordSum(a + b) == WordSum(a) + WordSum(b)
  {
    if |a| == 0 {
      assert a + b == b;
    } else {
      assert (a + b)[2..] == a[2..] + b;
      WordSumAppend(a[2..], b);
    }
  }

  /** Summing a buffer that starts with a whole word. */
  lemma WordSumCons(x: byte, y: byte, rest: seq<byte>)
    ensures WordSum([x, y] + rest) == Word(x, y) + WordSum(rest)
  {
    assert ([x, y] + rest)[2..] == rest;
  }

  /** A buffer is its prefix, the word at `off`, and the rest. */
  lemma SplitAtWord(s: seq<byte>, off: nat)
    requires off + 2 <= |s|
    ensures s == s[..off] + ([s[off], s[off + 1]] + s[off + 2..])
  {
    assert s[off..] == [s[off], s[off + 1]] + s[off + 2..];
    assert s == s[..off] + s[off..];
  }

  /** Overwriting the aligned word at `off` changes the sum by exactly the difference of the words. */
  lemma WordSumWriteU16(s: seq<byte>, off: nat, v: u16)
    requires off % 2 == 0 && off + 2 <= |s|
    ensures WordSum(WriteU16(s, off, v)) == WordSum(s) - Word(s[off], s[off + 1]) + v
  {
    var t := WriteU16(s, off, v);
    SplitAtWord(s, off);
    SplitAtWord(t, off);
    assert t[..off] == s[..off] && t[off + 2..] == s[off + 2..];
    WordSumAppend(s[..off], [s[off], s[off + 1]] + s[off + 2..]);
    WordSumCons(s[off], s[off + 1], s[off + 2..]);
    WordSumAppend(s[..off], [t[off], t[off + 1]] + s[off + 2..]);
    WordSumCons(t[off], t[off + 1], s[off + 2..]);
  }

  /**
   * Replacing one byte changes the word sum by the difference, weighted 256
   * for the high byte of a word and 1 for the low byte.
   */
  lemma {:induction false} WordSumUpdate(s: seq<byte>, i: nat, b: byte)
    requires i < |s|
    ensures WordSum(s[i := b]) == WordSum(s) + WeightedDelta(s[i], b, i % 2 == 0)
  {
    var t := s[i := b];
    if |s| == 1 {
      assert t == [b];
    } else if i >= 2 {
      assert t[2..] == s[2..][i - 2 := b];
      WordSumUpdate(s[2..], i - 2, b);
      assert Word(t[0], t[1]) == Word(s[0], s[1]);
    } else {
      assert t[2..] == s[2..];
      if i == 0 {
        assert Word(t[0], t[1]) == Word(s[0], s[1]) + (b as int - s[0] as int) * 256;
      } else {
        assert Word(t[0], t[1]) == Word(s[0], s[1]) + (b as int - s[1] as int);
      }
    }
  }

  /**
   * The checksum detects every single-byte change: a buffer whose sum is
   * 0xFFFF no longer sums to 0xFFFF once any one byte is altered.
   */
  lemma SingleByteChangeDetected(s: seq<byte>, i: nat, b: byte)
    requires i < |s| <= 0xFFFF && OnesSum(s) == 0xFFFF && s[i] != b
    ensures OnesSum(s[i := b]) != 0xFFFF
  {
    var t := s[i := b];
    WordSumUpdate(s, i, b);
    WeightedDeltaBound(s[i], b, i % 2 == 0);
    FoldsShifted(OnesSum(s), WordSum(s), OnesSum(t), WordSum(t), WeightedDelta(s[i], b, i % 2 == 0));
  }

  /** How much the word sum moves when byte `x` becomes `y` at a high or low byte position. */
  function WeightedDelta(x: byte, y: byte, high: bool): int
  {
    if high then (y as int - x as int) * 256 else y as int - x as int
  }

  /** A one-byte change moves the word sum by a non-zero amount smaller than 0xFFFF. */
  lemma WeightedDeltaBound(x: byte, y: byte, high: bool)
    requires x != y
    ensures -0xFFFF < WeightedDelta(x, y, high) < 0xFFFF && WeightedDelta(x, y, high) != 0
  {
    ByteValuesDiffer(x, y);
  }

  /** Shifting a total that folds to 0xFFFF by a small non-zero amount gives a total that does not. */
  lemma FoldsShifted(r: u16, total: nat, r': u16, total': nat, delta: int)
    requires Folds(r, total) && Folds(r', total') && r == 0xFFFF
    requires total' == total + delta && -0xFFFF < delta < 0xFFFF && delta != 0
    ensures r' != 0xFFFF
  {
    ResidueShift(total, delta);
  }

  /** A non-zero shift smaller than 0xFFFF moves a multiple of 0xFFFF off the multiples. */
  lemma ResidueShift(t: int, delta: int)
    requires t % 0xFFFF == 0 && -0xFFFF < delta < 0xFFFF && delta != 0
    ensures (t + delta) % 0xFFFF != 0
  {
    var q := t / 0xFFFF;
    assert t == 0xFFFF * q;
    if delta > 0 {
      assert (t + delta) / 0xFFFF == q;
    } else {
      assert (t + delta) / 0xFFFF == q - 1;
    }
  }

  /** The inner loop of `checksum::data`: adds the words of one even-length chunk to `accum`. */
  method SumChunk(accum: u32, d: seq<byte>) returns (r: u32)
    requires |d| % 2 == 0 && accum + WordSum(d) < 0x1_0000_0000
    ensures r == accum + WordSum(d)
  {
    r := accum;
    var rest := d;
    while |rest| >= 2
      invariant |rest| % 2 == 0
      invariant r + WordSum(rest) == accum + WordSum(d)
    {
      r := r + Word(rest[0], rest[1]);
      rest := rest[2..];
    }
  }

  /**
   * `checksum::data` with its 32-byte chunking and `u32` accumulator: the
   * chunking does not change the result, which is the RFC 1071 sum.
   */
  method Data(data: seq<byte>) returns (r: u16)
    requires |data| <= 0xFFFF
    ensures r == OnesSum(data)
    ensures Folds(r, WordSum(data))
  {
    WordSumFitsU32(data);
    var accum: u32 := 0;
    var rest := data;
    while |rest| >= CHUNK_SIZE
      invariant accum + WordSum(rest) == WordSum(data)
    {
      var d := rest[..CHUNK_SIZE];
      assert WordSum(rest) == WordSum(d) + WordSum(rest[CHUNK_SIZE..]) by {
        assert rest == d + rest[CHUNK_SIZE..];
        WordSumAppend(d, rest[CHUNK_SIZE..]);
      }
      accum := SumChunk(accum, d);
      rest := rest[CHUNK_SIZE..];
    }
    while |rest| >= 2
      invariant accum + WordSum(rest) == WordSum(data)
    {
      accum := accum + Word(rest[0], rest[1]);
      rest := rest[2..];
    }
    if |rest| == 1 {
      accum := accum + rest[0] as int * 256;   // (value as u32) << 8
    }
    r := PropagateCarries(accum);
  }

  /** The sum of a list of 16-bit partial sums. */
  function Sum(ws: seq<u16>): (t: nat)
    ensures t <= 0xFFFF * |ws|
    ensures t == 0 <==> forall i | 0 <= i < |ws| :: ws[i] == 0
  {
    if |ws| == 0 then 0 else ws[0] + Sum(ws[1..])
  }

  /**
   * `checksum::combine`: folds already-summed 16-bit checksums together. Up
   * to 65537 of them fit the `u32` accumulator.
   */
  function Combine(checksums: seq<u16>): (r: u16)
    requires |checksums| <= 0x1_0001
    ensures Folds(r, Sum(checksums))
  {
    PropagateCarries(Sum(checksums))
  }

  /**
   * Combining the sums of two pieces equals summing their concatenation
   * (the first piece must end on a word boundary).
   */
  lemma CombineConcat(a: seq<byte>, b: seq<byte>)
    requires |a| % 2 == 0 && |a| + |b| <= 0xFFFF
    ensures Combine([OnesSum(a), OnesSum(b)]) == OnesSum(a + b)
  {
    var x, y := OnesSum(a), OnesSum(b);
    WordSumAppend(a, b);
    SumPair(x, y);
    FoldsAdd(x, WordSum(a), y, WordSum(b));
    FoldsUnique(Combine([x, y]), OnesSum(a + b), WordSum(a + b));
  }

  lemma SumPair(x: u16, y: u16)
    ensures Sum([x, y]) == x + y
  {
    assert [x, y][1..] == [y];
  }

  /**
   * The `proto_len` bytes of `checksum::pseudo_header`: a zero byte, the
   * protocol number and `length as u16`, written into `[0u8; 4]`.
   */
  function ProtoLen(protocol: Protocol, length: u32): (r: seq<byte>)
    ensures r == [0, ToU8(protocol)] + U16Bytes(length % 0x1_0000)
  {
    WriteU16([0, 0, 0, 0][1 := ToU8(protocol)], 2, length % 0x1_0000)
  }

  /** The 12 bytes of the UDP pseudo-header of RFC 768: source, destination, zero, protocol, length. */
  function PseudoHeaderBytes(src: Ipv4Addr, dst: Ipv4Addr, protocol: Protocol, length: u32): seq<byte>
  {
    src.Octets() + dst.Octets() + ProtoLen(protocol, length)
  }

  /**
   * `checksum::pseudo_header`: combining the sums of the three pieces equals
   * the RFC 1071 sum of the 12-byte pseudo-header.
   */
  function PseudoHeader(src: Ipv4Addr, dst: Ipv4Addr, protocol: Protocol, length: u32): (r: u16)
    ensures r == OnesSum(PseudoHeaderBytes(src, dst, protocol, length))
  {
    var protoLen := ProtoLen(protocol, length);
    CombineThree(src.Octets(), dst.Octets(), protoLen);
    Combine([OnesSum(src.Octets()), OnesSum(dst.Octets()), OnesSum(protoLen)])
  }

  /** Combining two partial sums folds the sum of the two totals. */
  lemma CombinePairFolds(x: u16, total1: nat, y: u16, total2: nat)
    requires Folds(x, total1) && Folds(y, total2)
    ensures Folds(Combine([x, y]), total1 + total2)
  {
    FoldsAdd(x, total1, y, total2);
    SumPair(x, y);
    FoldsTrans(Combine([x, y]), x as nat + y, total1 + total2);
  }

  /** Combining the sums of three pieces equals summing their concatenation. */
  lemma CombineThree(a: seq<byte>, b: seq<byte>, c: seq<byte>)
    requires |a| % 2 == 0 && |b| % 2 == 0 && |a| + |b| + |c| <= 0xFFFF
    ensures Combine([OnesSum(a), OnesSum(b), OnesSum(c)]) == OnesSum(a + b + c)
  {
    WordSumAppend(a, b);
    WordSumAppend(a + b, c);
    CombineFolds(OnesSum(a), WordSum(a), OnesSum(b), WordSum(b), OnesSum(c), WordSum(c));
    FoldsUnique(Combine([OnesSum(a), OnesSum(b), OnesSum(c)]), OnesSum(a + b + c), WordSum(a + b + c));
  }

  /** Combining three partial sums folds the sum of the three totals. */
  lemma CombineFolds(x: u16, total1: nat, y: u16, total2: nat, z: u16, total3: nat)
    requires Folds(x, total1) && Folds(y, total2) && Folds(z, total3)
    ensures Folds(Combine([x, y, z]), total1 + total2 + total3)
  {
    FoldsAdd3(x, total1, y, total2, z, total3);
    SumTriple(x, y, z);
    FoldsTrans(Combine([x, y, z]), x as nat + y + z, total1 + total2 + total3);
  }

  lemma FoldsTrans(r: nat, m: nat, total: nat)
    requires Folds(r, m) && Folds(m, total)
    ensures Folds(r, total)
  {
  }

  lemma FoldsAdd3(x: nat, total1: nat, y: nat, total2: nat, z: nat, total3: nat)
    requires Folds(x, total1) && Folds(y, total2) && Folds(z, total3)
    ensures Folds(x + y + z, total1 + total2 + total3)
  {
    FoldsAdd(x, total1, y, total2);
    FoldsAdd(x + y, total1 + total2, z, total3);
  }

  lemma SumTriple(x: u16, y: u16, z: u16)
    ensures Sum([x, y, z]) == x + y + z
  {
    assert [x, y, z][1..] == [y, z];
    SumPair(y, z);
  }
}
