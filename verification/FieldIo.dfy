/**
 Bit spans and buffer fields: the byte-stepping bit copy and the whole-byte paths beside it, all against one
 specification of which bit goes where.
 */
module FieldIo {
  import opened Bits
  import opened Extrema

  /** struct bit_span: `length` bits of `data` from bit `index` on. */
  class BitSpan {
    var data: array<bv8>
    var index: nat
    var length: nat

    constructor (data: array<bv8>, index: nat, length: nat)
      ensures this.data == data && this.index == index && this.length == length
    {
      this.data, this.index, this.length := data, index, length;
    }

    ghost predicate InBounds()
      reads this
    {
      index + length <= 8 * data.Length
    }

    /** bit_span_offset */
    method Offset(bits: nat) returns (delta: nat)
      modifies this
      ensures delta == (if old(length) < bits then old(length) else bits)
      ensures data == old(data) && index == old(index) + delta && length == old(length) - delta
    {
      delta := if length < bits then length else bits;
      index := index + delta;
      length := length - delta;
    }
  }

  /** Bit r of a source of `length` bits at `index`, zero past its end. */
  predicate SourceBit(src: seq<bv8>, index: nat, length: nat, r: nat)
    requires index + length <= 8 * |src|
  {
    r < length && Bit(src, index + r)
  }

  /** `after` is `before` with bits [index, index + count) replaced by the source's first bits. */
  ghost predicate Copied(before: seq<bv8>, after: seq<bv8>, index: nat, count: nat, src: seq<bv8>, sIndex: nat,
          sLength: nat)
    requires index + count <= 8 * |before| && sIndex + sLength <= 8 * |src|
  {
    && |after| == |before|
    && forall i :: 0 <= i < 8 * |before| ==>
         Bit(after, i) == if index <= i < index + count then SourceBit(src, sIndex, sLength,
             i - index) else Bit(before, i)
  }

  /** The byte (and, if `two`, the next byte) a round of bit_copy writes at position p. */
  ghost predicate RoundStores(before: seq<bv8>, after: seq<bv8>, p: nat, bits: bv8, ds: nat, count: nat)
    requires p < |before| && ds < 8
  {
    var two := ds > 0 && count > 8 - ds;
    && |after| == |before|
    && after[p] == Low(before[p], bits, ds, count)
    && (two ==> p + 1 < |before| && after[p + 1] == High(before[p + 1], bits, ds, count))
    && (forall q :: 0 <= q < |before| && q != p && (q != p + 1 || !two) ==> after[q] == before[q])
  }

  /** What a round's stores mean bit by bit. */
  lemma RoundBit(before: seq<bv8>, after: seq<bv8>, p: nat, bits: bv8, ds: nat, count: nat, i: nat)
    requires p < |before| && ds < 8 && i < 8 * |before| && RoundStores(before, after, p, bits, ds, count)
    ensures var r := i - (8 * p + ds);
            Bit(after, i) == if 0 <= r < Min(count, 8) then TestBit(bits, r) else Bit(before, i)
  {
    hide TestBit, Low, High;
    var q, k := i / 8, i % 8;
    if q == p {
      LowBit(before[p], bits, ds, count, k);
    } else if q == p + 1 && ds > 0 && count > 8 - ds {
      HighBit(before[p + 1], bits, ds, count, k);
    }
  }

  /** The byte a round gathers holds the next eight source bits. */
  lemma GatherRound(src: seq<bv8>, sIndex: nat, sLength: nat, done: nat, hi: bv8, r: nat)
    requires sIndex + sLength <= 8 * |src| && done % 8 == 0 && r < 8 && done < sLength
    requires sIndex % 8 > 0 && sLength - done > 8 - sIndex % 8 ==>
               sIndex / 8 + done / 8 + 1 < |src| && hi == src[sIndex / 8 + done / 8 + 1]
    ensures sIndex / 8 + done / 8 < |src|
    ensures TestBit(Gathered(src[sIndex / 8 + done / 8], hi, sIndex % 8, sLength - done), r)
        <==> SourceBit(src, sIndex, sLength, done + r)
  {
    hide TestBit, Gathered;
    var q, ss := sIndex / 8 + done / 8, sIndex % 8;
    GatheredBit(src[q], hi, ss, sLength - done, r);
    if done + r < sLength {
      var i := sIndex + done + r;
      assert i == 8 * q + ss + r;
      assert Bit(src, i) == TestBit(src[i / 8], i % 8);
    }
  }

  lemma GatherCode(lo: bv8, hi: bv8, ss: nat, count: nat)
    requires ss < 8
    ensures ss == 0 ==> Gathered(lo, hi, ss, count) == Both(Shr(lo, 0), CountMask(count))
    ensures Gathered(lo, 0, ss, count) == Both(Shr(lo, ss), CountMask(count))
    ensures count >= 8 ==> forall b :: Both(b, CountMask(count)) == b
  {
    assert Shl(hi, 8) == 0;
    assert Shl(0, 8 - ss) == 0 by {
      if ss == 0 {} else if ss == 1 {} else if ss == 2 {} else if ss == 3 {}
      else if ss == 4 {} else if ss == 5 {} else if ss == 6 {} else {}
    }
  }

  lemma CopyRound(before: seq<bv8>, mid: seq<bv8>, after: seq<bv8>, index: nat, length: nat, done: nat,
                  src: seq<bv8>, sIndex: nat, sLength: nat, bits: bv8)
    requires index + length <= 8 * |before| && sIndex + sLength <= 8 * |src| && done % 8 == 0 && done < length
    requires Copied(before, mid, index, done, src, sIndex, sLength)
    requires RoundStores(mid, after, index / 8 + done / 8, bits, index % 8, length - done)
    requires forall r :: 0 <= r < 8 ==> (TestBit(bits, r) <==> SourceBit(src, sIndex, sLength, done + r))
    ensures Copied(before, after, index, Min(done + 8, length), src, sIndex, sLength)
  {
    hide TestBit, Bit, Low, High;
    assert 8 * (index / 8 + done / 8) + index % 8 == index + done;
    forall i | 0 <= i < 8 * |before|
      ensures Bit(after, i) == if index <= i < index + Min(done + 8, length)
                               then SourceBit(src, sIndex, sLength, i - index) else Bit(before, i)
    {
      RoundBit(mid, after, index / 8 + done / 8, bits, index % 8, length - done, i);
    }
  }

  /** The read half of a round: the next eight source bits, without touching a byte the source does not have. */
  method GatherByte(s: array<bv8>, sp: nat, shift: nat, count: nat, ghost sIndex: nat, ghost sLength: nat,
          ghost done: nat)
    returns (bits: bv8)
    requires sIndex + sLength <= 8 * s.Length && done % 8 == 0 && done < sLength
    requires sp == sIndex / 8 + done / 8 && shift == sIndex % 8 && count == sLength - done
    ensures forall r :: 0 <= r < 8 ==> (TestBit(bits, r) <==> SourceBit(s[..], sIndex, sLength, done + r))
  {
    hide Shl, Shr, Both, Either, LowMask, TestBit;
    bits := Shr(s[sp], shift);
    ghost var hi: bv8 := 0;
    if shift != 0 && count > 8 - shift {
      hi := s[sp + 1];
      bits := Either(bits, Shl(s[sp + 1], 8 - shift));
    }
    if count < 8 {
      bits := Both(bits, LowMask(count));
    }
    GatherCode(s[sp], hi, shift, count);
    forall r | 0 <= r < 8 ensures TestBit(bits, r) <==> SourceBit(s[..], sIndex, sLength, done + r) {
      GatherRound(s[..], sIndex, sLength, done, hi, r);
    }
  }

  /** The write half of a round, through the 16-bit mask. */
  method StoreByte(d: array<bv8>, dp: nat, bits: bv8, shift: nat, count: nat)
    requires dp < d.Length && shift < 8 && (shift > 0 && count > 8 - shift ==> dp + 1 < d.Length)
    modifies d
    ensures RoundStores(old(d[..]), d[..], dp, bits, shift, count)
  {
    hide Shl, Shr, Both, Either, CountMask, Merge;
    var mask: bv16 := (CountMask(count) as bv16) << shift;
    ShiftHalves(CountMask(count), shift);
    d[dp] := Merge(d[dp], Shl(bits, shift), (mask & 0xFF) as bv8);
    if shift != 0 && count > 8 - shift {
      mask := mask >> 8;
      MergeInTwo(d[dp + 1], Shr(bits, 8 - shift), mask as bv8);
      d[dp + 1] := Both(d[dp + 1], !(mask as bv8));
      d[dp + 1] := Either(d[dp + 1], Both(Shr(bits, 8 - shift), mask as bv8));
    }
  }

  lemma MergeInTwo(b: bv8, v: bv8, mask: bv8)
    ensures Either(Both(b, !mask), Both(v, mask)) == Merge(b, v, mask)
  {
  }

  method BitCopy(dst: BitSpan, src: BitSpan)
    requires dst.InBounds() && src.InBounds() && dst.data != src.data
    modifies dst.data
    ensures Copied(old(dst.data[..]), dst.data[..], dst.index, dst.length, src.data[..], src.index, src.length)
  {
    hide TestBit, Copied, RoundStores;
    var d, s := dst.data, src.data;
    var dp, sp := dst.index / 8, src.index / 8;
    var dstCount, dstShift := dst.length, dst.index % 8;
    var srcCount, srcShift := src.length, src.index % 8;
    ghost var before, bytes, done := d[..], s[..], 0;
    NothingCopied(before, dst.index, bytes, src.index, src.length);
    while dstCount != 0
      invariant done % 8 == 0 && dp == dst.index / 8 + done / 8
      invariant dstCount == if done < dst.length then dst.length - done else 0
      invariant srcCount == if done < src.length then src.length - done else 0
      invariant srcCount > 0 ==> sp == src.index / 8 + done / 8
      invariant s[..] == bytes
      invariant Copied(before, d[..], dst.index, Min(done, dst.length), bytes, src.index, src.length)
      decreases dstCount
    {
      ghost var mid := d[..];
      var bits: bv8 := 0;
      if srcCount != 0 {
        bits := GatherByte(s, sp, srcShift, srcCount, src.index, src.length, done);
        if srcCount < 8 {
          srcCount := 0;
        } else {
          srcCount := srcCount - 8;
          sp := sp + 1;
        }
      } else {
        ZeroBits();
      }
      StoreByte(d, dp, bits, dstShift, dstCount);
      CopyRound(before, mid, d[..], dst.index, dst.length, done, bytes, src.index, src.length, bits);
      dstCount := if dstCount > 8 then dstCount - 8 else 0;
      dp := dp + 1;
      done := done + 8;
    }
  }

  lemma ZeroBits()
    ensures forall r :: 0 <= r < 8 ==> !TestBit(0, r)
  {
  }

  lemma NothingCopied(before: seq<bv8>, index: nat, src: seq<bv8>, sIndex: nat, sLength: nat)
    requires index <= 8 * |before| && sIndex + sLength <= 8 * |src|
    ensures Copied(before, before, index, 0, src, sIndex, sLength)
  {
  }

  // ---------- byte moves ----------

  /** memcpy */
  method Memcpy(dst: array<bv8>, at: nat, src: array<bv8>, from: nat, count: nat)
    requires at + count <= dst.Length && from + count <= src.Length && dst != src
    modifies dst
    ensures forall q :: 0 <= q < dst.Length ==>
              dst[q] == if at <= q < at + count then src[from + q - at] else old(dst[q])
  {
    for i := 0 to count
      invariant forall q :: 0 <= q < dst.Length ==>
                  dst[q] == if at <= q < at + i then src[from + q - at] else old(dst[q])
    {
      dst[at + i] := src[from + i];
    }
  }

  /** memcpy_zerout: the source, cut or zero-padded to dstSize bytes. */
  method MemcpyZerout(dst: array<bv8>, at: nat, src: array<bv8>, dstSize: nat, srcSize: nat)
    requires at + dstSize <= dst.Length && srcSize <= src.Length && dst != src
    modifies dst
    ensures forall q :: 0 <= q < dst.Length ==>
              dst[q] == if !(at <= q < at + dstSize) then old(dst[q]) else if q - at < srcSize then src[q - at] else 0
  {
    var count := Min(srcSize, dstSize);
    Memcpy(dst, at, src, 0, count);
    for i := count to dstSize
      invariant forall q :: 0 <= q < dst.Length ==>
                  dst[q] == if at <= q < at + count then src[q - at]
                            else if at + count <= q < at + i then 0 else old(dst[q])
    {
      dst[at + i] := 0;
    }
  }

  function Bytes(bits: nat): nat {
    (bits + 7) / 8
  }

  /** cut_misaligned_tail */
  method CutTail(data: array<bv8>, offset: nat, bitLength: nat)
    requires offset < data.Length
    modifies data
    ensures forall q :: 0 <= q < data.Length && q != offset ==> data[q] == old(data[q])
    ensures forall k :: 0 <= k < 8 ==>
              (TestBit(data[offset], k) <==> TestBit(old(data[offset]), k) && (bitLength % 8 == 0 || k < bitLength % 8))
  {
    hide TestBit, Both, LowMask;
    var remainder := bitLength % 8;
    if remainder == 0 {
      return;
    }
    ghost var b := data[offset];
    data[offset] := Both(data[offset], LowMask(remainder));
    forall k | 0 <= k < 8 ensures TestBit(data[offset], k) <==> TestBit(b, k) && k < remainder {
      BitwiseBit(b, LowMask(remainder), k);
      LowMaskBit(remainder, k);
    }
  }

  // ---------- buffer fields ----------

  datatype BufferField = BufferField(bitIndex: nat, bitLength: nat)

  ghost predicate FieldIn(f: BufferField, backing: array<bv8>) {
    f.bitLength > 0 && f.bitIndex + f.bitLength <= 8 * backing.Length
  }

  /** uacpi_read_buffer_field: the field's bits, zero-extended to whole bytes; one contract for both paths. */
  method ReadBufferField(f: BufferField, backing: array<bv8>, dst: array<bv8>)
    requires FieldIn(f, backing) && Bytes(f.bitLength) <= dst.Length && dst != backing
    modifies dst
    ensures Copied(old(dst[..]), dst[..], 0, 8 * Bytes(f.bitLength), backing[..], f.bitIndex, f.bitLength)
  {
    hide TestBit;
    if f.bitIndex % 8 == 0 {
      var count := Bytes(f.bitLength);
      Memcpy(dst, 0, backing, f.bitIndex / 8, count);
      CutTail(dst, count - 1, f.bitLength);
      ghost var b0, b1, s := old(dst[..]), dst[..], backing[..];
      forall i | 0 <= i < 8 * |b0|
        ensures Bit(b1, i) == if i < 8 * count then SourceBit(s, f.bitIndex, f.bitLength, i) else Bit(b0, i)
      {
        AlignedBit(s, f.bitIndex, i);
      }
      return;
    }
    var srcSpan := new BitSpan(backing, f.bitIndex, f.bitLength);
    var dstSpan := new BitSpan(dst, 0, 8 * Bytes(f.bitLength));
    BitCopy(dstSpan, srcSpan);
  }

  lemma AlignedBit(s: seq<bv8>, index: nat, i: nat)
    requires index % 8 == 0
    ensures (index + i) / 8 == index / 8 + i / 8 && (index + i) % 8 == i % 8
    ensures index + i < 8 * |s| ==> Bit(s, index + i) == TestBit(s[index / 8 + i / 8], i % 8)
  {
  }

  /** `after` has the low `tail` bits (all of them for 0) of `low` and the other bits of `high`. */
  ghost predicate TailMerged(after: bv8, low: bv8, high: bv8, tail: nat) {
    forall k :: 0 <= k < 8 ==> TestBit(after, k) == if tail == 0 || k < tail then TestBit(low, k) else TestBit(high, k)
  }

  /** The last byte of an aligned write: new low bits under the old high bits. */
  method MergeTail(backing: array<bv8>, at: nat, lastByte: bv8, tailShift: nat)
    requires at < backing.Length && tailShift < 8
    modifies backing
    ensures forall q :: 0 <= q < backing.Length && q != at ==> backing[q] == old(backing[q])
    ensures TailMerged(backing[at], old(backing[at]), lastByte, tailShift)
  {
    hide TestBit, Shl, Shr, Either;
    if tailShift != 0 {
      var lastShift := 8 - tailShift;
      ghost var raw := backing[at];
      backing[at] := Shl(backing[at], lastShift);
      backing[at] := Shr(backing[at], lastShift);
      backing[at] := Either(backing[at], Shl(Shr(lastByte, tailShift), tailShift));
      forall k | 0 <= k < 8
        ensures TestBit(backing[at], k) == if k < tailShift then TestBit(raw, k) else TestBit(lastByte, k)
      {
        TailBit(raw, lastByte, tailShift, k);
      }
    }
  }

  /** The bytes an aligned write leaves are the bits a bit-wise one would. */
  lemma AlignedWriteBits(f: BufferField, b0: seq<bv8>, b1: seq<bv8>, s: seq<bv8>, size: nat)
    requires f.bitLength > 0 && f.bitIndex % 8 == 0 && f.bitIndex + f.bitLength <= 8 * |b0| && |b1| == |b0|
              && size <= |s|
    requires var at, count := f.bitIndex / 8, Bytes(f.bitLength);
             && (forall q :: 0 <= q < |b0| && !(at <= q < at + count) ==> b1[q] == b0[q])
             && (forall q :: at <= q < at + count - 1 ==> b1[q] == if q - at < size then s[q - at] else 0)
             && TailMerged(b1[at + count - 1], if count - 1 < size then s[count - 1] else 0, b0[at + count - 1],
                           f.bitLength % 8)
    ensures Copied(b0, b1, f.bitIndex, f.bitLength, s, 0, 8 * size)
  {
    hide TestBit;
    ZeroBits();
    forall i | 0 <= i < 8 * |b0|
      ensures Bit(b1, i) == if f.bitIndex <= i < f.bitIndex + f.bitLength
                            then SourceBit(s, 0, 8 * size, i - f.bitIndex) else Bit(b0, i)
    {
      if f.bitIndex <= i {
        AlignedBit(b1, f.bitIndex, i - f.bitIndex);
      }
    }
  }

  /**
   uacpi_write_buffer_field: the first bitLength bits of the source, zero past its end; one contract for both paths.
   */
  method WriteBufferField(f: BufferField, backing: array<bv8>, src: array<bv8>, size: nat)
    requires FieldIn(f, backing) && size <= src.Length && src != backing
    modifies backing
    ensures Copied(old(backing[..]), backing[..], f.bitIndex, f.bitLength, src[..], 0, 8 * size)
  {
    hide TestBit;
    if f.bitIndex % 8 == 0 {
      var at, count := f.bitIndex / 8, Bytes(f.bitLength);
      var lastByte, tailShift := backing[at + count - 1], f.bitLength % 8;
      MemcpyZerout(backing, at, src, count, size);
      MergeTail(backing, at + count - 1, lastByte, tailShift);
      AlignedWriteBits(f, old(backing[..]), backing[..], src[..], size);
      return;
    }
    var srcSpan := new BitSpan(src, 0, 8 * size);
    var dstSpan := new BitSpan(backing, f.bitIndex, f.bitLength);
    BitCopy(dstSpan, srcSpan);
  }

  /** Shifting the new tail up and down and or-ing in the old high bits. */
  lemma TailBit(raw: bv8, last: bv8, tail: nat, k: nat)
    requires 0 < tail < 8 && k < 8
    ensures TestBit(Either(Shr(Shl(raw, 8 - tail), 8 - tail), Shl(Shr(last, tail), tail)), k)
         <==> if k < tail then TestBit(raw, k) else TestBit(last, k)
  {
    hide TestBit, Shl, Shr, Either;
    var up, down := Shr(Shl(raw, 8 - tail), 8 - tail), Shl(Shr(last, tail), tail);
    BitwiseBit(up, down, k);
    ShiftRightBit(Shl(raw, 8 - tail), 8 - tail, k);
    if k < tail {
      ShiftLeftBit(raw, 8 - tail, k + 8 - tail);
    }
    ShiftLeftBit(Shr(last, tail), tail, k);
    if k >= tail {
      ShiftRightBit(last, tail, k - tail);
    }
  }

  /** Writing a buffer field and reading it back gives the source truncated or zero-extended to the field. */
  lemma BufferWriteThenRead(f: BufferField, b0: seq<bv8>, b1: seq<bv8>, src: seq<bv8>, size: nat, d0: seq<bv8>,
          d1: seq<bv8>, i: nat)
    requires f.bitIndex + f.bitLength <= 8 * |b0| && size <= |src| && Bytes(f.bitLength) <= |d0|
    requires Copied(b0, b1, f.bitIndex, f.bitLength, src, 0, 8 * size)
    requires Copied(d0, d1, 0, 8 * Bytes(f.bitLength), b1, f.bitIndex, f.bitLength)
    requires i < 8 * Bytes(f.bitLength)
    ensures Bit(d1, i) <==> i < f.bitLength && i < 8 * size && Bit(src, i)
  {
  }

  /** Writing back what was read leaves the buffer as it was. */
  lemma BufferReadThenWrite(f: BufferField, b0: seq<bv8>, b1: seq<bv8>, d0: seq<bv8>, d1: seq<bv8>)
    requires f.bitIndex + f.bitLength <= 8 * |b0| && Bytes(f.bitLength) <= |d0|
    requires Copied(d0, d1, 0, 8 * Bytes(f.bitLength), b0, f.bitIndex, f.bitLength)
    requires Copied(b0, b1, f.bitIndex, f.bitLength, d1, 0, 8 * |d1|)
    ensures b1 == b0
  {
    hide TestBit;
    forall i | 0 <= i < 8 * |b0| ensures Bit(b1, i) == Bit(b0, i) {
      if f.bitIndex <= i < f.bitIndex + f.bitLength {
        assert Bit(d1, i - f.bitIndex) == SourceBit(b0, f.bitIndex, f.bitLength, i - f.bitIndex);
      }
    }
    SameBitsSameBytes(b1, b0);
  }
}
