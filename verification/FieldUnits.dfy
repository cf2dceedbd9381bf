/**
 Field units: bit fields of an operation region that can only be accessed in whole units of 1, 2, 4 or 8
 bytes. The region is a byte array; an access outside it fails, as the region dispatcher makes it fail.
 */
module FieldUnits {
  import opened Bits
  import opened Extrema
  import opened FieldIo
  import opened Powers

  datatype UpdateRule = Preserve | WriteAsOnes | WriteAsZeroes

  datatype FieldUnit = FieldUnit(byteOffset: nat, bitOffset: nat, bitLength: nat, width: nat, rule: UpdateRule) {
    predicate WellFormed() {
      width in {1, 2, 4, 8} && bitLength > 0 && bitOffset < 8 * width
    }

    /** The field's first bit, counted from the start of the region. */
    function Base(): nat {
      8 * byteOffset + bitOffset
    }

    /** How many access units the field touches. */
    function Units(): nat
      requires width > 0
    {
      (bitOffset + bitLength + 8 * width - 1) / (8 * width)
    }

    predicate InRegion(length: nat)
      requires width > 0
    {
      byteOffset + Units() * width <= length
    }
  }

  /** Reads one access unit into the low bytes of `out`. */
  method AccessRead(f: FieldUnit, region: array<bv8>, offset: nat, out: array<bv8>) returns (ok: bool)
    requires f.width <= 8 && out.Length == 8 && out != region
    modifies out
    ensures ok <==> offset + f.width <= region.Length
    ensures !ok ==> out[..] == old(out[..])
    ensures ok ==> forall q :: 0 <= q < 8 ==> out[q] == if q < f.width then region[offset + q] else 0
  {
    ok := offset + f.width <= region.Length;
    if ok {
      for q := 0 to 8
        invariant forall r :: 0 <= r < q ==> out[r] == if r < f.width then region[offset + r] else 0
      {
        out[q] := if q < f.width then region[offset + q] else 0;
      }
    }
  }

  /** Writes the low bytes of `data` as one access unit. */
  method AccessWrite(f: FieldUnit, region: array<bv8>, offset: nat, data: array<bv8>) returns (ok: bool)
    requires f.width <= 8 && data.Length == 8 && data != region
    modifies region
    ensures ok <==> offset + f.width <= region.Length
    ensures !ok ==> region[..] == old(region[..])
    ensures ok ==> forall q :: 0 <= q < region.Length ==>
              region[q] == if offset <= q < offset + f.width then data[q - offset] else old(region[q])
  {
    ok := offset + f.width <= region.Length;
    if ok {
      Memcpy(region, offset, data, 0, f.width);
    }
  }

  // ---------- reading ----------

  /** How many of a field's bits lie in its first p bits of units. */
  function BitsBelow(f: FieldUnit, p: nat): nat {
    if p < f.bitOffset then 0 else Min(f.bitLength, p - f.bitOffset)
  }

  /** How many of the field's bits lie in its first n units. */
  function BitsIn(f: FieldUnit, n: nat): nat {
    BitsBelow(f, n * (8 * f.width))
  }

  /** Unit n exists exactly when it starts before the field's end. */
  lemma UnitExists(f: FieldUnit, n: nat)
    requires f.WellFormed()
    ensures n < f.Units() <==> n * (8 * f.width) < f.bitOffset + f.bitLength
  {
    var w, x := 8 * f.width, f.bitOffset + f.bitLength;
    var u := (x + w - 1) / w;
    assert u * w <= x + w - 1 < u * w + w;
    if n < u {
      assert (n + 1) * w == n * w + w;
      MulMonotone(n + 1, u, w);
    } else {
      MulMonotone(u, n, w);
    }
  }

  /** One more unit adds as many bits as the loops take from it. */
  lemma NextUnit(f: FieldUnit, n: nat)
    requires f.WellFormed() && n < f.Units()
    ensures var first := if n == 0 then f.bitOffset else 0;
            && BitsIn(f, n + 1) == BitsIn(f, n) + Min(f.bitLength - BitsIn(f, n), 8 * f.width - first)
            && 8 * (f.byteOffset + n * f.width) + first == f.Base() + BitsIn(f, n)
            && BitsIn(f, n) < f.bitLength
  {
    UnitExists(f, n);
    UnitProducts(f.width, n);
    hide FieldUnit.Units, BitsBelow;
    NextBits(f, n * (8 * f.width));
  }

  lemma UnitProducts(w: nat, n: nat)
    ensures n * (8 * w) == 8 * (n * w) && (n + 1) * (8 * w) == n * (8 * w) + 8 * w
    ensures n * (8 * w) == 0 || n * (8 * w) >= 8 * w
    ensures w > 0 ==> (n * (8 * w) == 0 <==> n == 0)
  {
    if n > 0 {
      MulMonotone(1, n, 8 * w);
    }
  }

  lemma NextBits(f: FieldUnit, p: nat)
    requires f.WellFormed() && p < f.bitOffset + f.bitLength && (p > 0 ==> p >= 8 * f.width)
    ensures var first := if p == 0 then f.bitOffset else 0;
            && BitsBelow(f, p + 8 * f.width)
            == BitsBelow(f, p) + Min(f.bitLength - BitsBelow(f, p), 8 * f.width - first)
            && p + first == f.bitOffset + BitsBelow(f, p) && BitsBelow(f, p) < f.bitLength
  {
  }

  lemma AllUnits(f: FieldUnit, n: nat)
    requires f.WellFormed() && n == f.Units()
    ensures BitsIn(f, n) == f.bitLength && n > 0
    ensures f.Base() + f.bitLength <= 8 * (f.byteOffset + n * f.width)
  {
    UnitExists(f, n);
    UnitExists(f, 0);
    assert n * (8 * f.width) == 8 * (n * f.width);
  }

  /** Progress of a read: the destination holds the field's bits so far, then zeroes. */
  ghost predicate ReadSoFar(before: seq<bv8>, now: seq<bv8>, size: nat, region: seq<bv8>, base: nat, done: nat)
    requires base + done <= 8 * |region| && size <= |before|
  {
    && |now| == |before|
    && forall i :: 0 <= i < 8 * |before| ==>
         Bit(now, i) == if i < 8 * size then i < done && Bit(region, base + i) else Bit(before, i)
  }

  /** `out` holds access unit `offset` of the region. */
  ghost predicate UnitIn(out: seq<bv8>, region: seq<bv8>, offset: nat, width: nat) {
    && |out| == 8 && width <= 8 && offset + width <= |region|
    && forall q :: 0 <= q < width ==> out[q] == region[offset + q]
  }

  lemma UnitBit(out: seq<bv8>, region: seq<bv8>, offset: nat, width: nat, i: nat)
    requires UnitIn(out, region, offset, width) && i < 8 * width
    ensures Bit(out, i) == Bit(region, 8 * offset + i)
  {
  }

  lemma ReadRound(before: seq<bv8>, mid: seq<bv8>, after: seq<bv8>, size: nat, region: seq<bv8>, base: nat, done: nat,
                  out: seq<bv8>, offset: nat, width: nat, first: nat, count: nat)
    requires size <= |before| && base + done <= 8 * |region|
              && ((done == 0 && mid == before) || ReadSoFar(before, mid, size, region, base, done))
    requires UnitIn(out, region, offset, width) && first + count <= 8 * width && 8 * offset + first == base + done
    requires |mid| == |before|
    requires Copied(mid, after, Min(8 * size, done), 8 * size - Min(8 * size, done), out, first, count)
    ensures base + done + count <= 8 * |region| && ReadSoFar(before, after, size, region, base, done + count)
  {
    hide Bit;
    forall i | 0 <= i < 8 * |before|
      ensures Bit(after, i) == if i < 8 * size then i < done + count && Bit(region, base + i) else Bit(before, i)
    {
      if done <= i < 8 * size && i - done < count {
        UnitBit(out, region, offset, width, first + i - done);
      }
    }
  }

  /** One round of do_read_misaligned_field_unit; `n` units have been read. */
  method ReadUnit(f: FieldUnit, region: array<bv8>, byteOffset: nat, bitsLeft: nat, dstSpan: BitSpan, srcSpan: BitSpan,
                  size: nat, ghost before: seq<bv8>, ghost n: nat)
    returns (ok: bool)
    requires f.WellFormed() && n < f.Units() && byteOffset == f.byteOffset + n * f.width
    requires bitsLeft == f.bitLength - BitsIn(f, n) && size <= dstSpan.data.Length && |before| == dstSpan.data.Length
    requires srcSpan.data.Length == 8 && srcSpan.index == if n == 0 then f.bitOffset else 0
    requires dstSpan.index == Min(8 * size, BitsIn(f, n)) && dstSpan.length == 8 * size - dstSpan.index
    requires srcSpan.data != dstSpan.data && region != srcSpan.data && region != dstSpan.data && srcSpan != dstSpan
    requires n == 0 ==> dstSpan.data[..] == before
    requires n > 0 ==> f.Base() + BitsIn(f, n) <= 8 * region.Length
    requires n > 0 ==> ReadSoFar(before, dstSpan.data[..], size, region[..], f.Base(), BitsIn(f, n))
    modifies srcSpan, srcSpan.data, dstSpan.data
    ensures srcSpan.data == old(srcSpan.data) && srcSpan.index == old(srcSpan.index)
    ensures ok <==> byteOffset + f.width <= region.Length
    ensures ok ==> BitsIn(f, n + 1) == BitsIn(f, n) + srcSpan.length && f.Base() + BitsIn(f, n + 1) <= 8 * region.Length
    ensures ok ==> ReadSoFar(before, dstSpan.data[..], size, region[..], f.Base(), BitsIn(f, n + 1))
  {
    hide Copied, ReadSoFar, Bit, BitsIn;
    NextUnit(f, n);
    NoBits(f);
    srcSpan.length := Min(bitsLeft, 8 * f.width - srcSpan.index);
    ok := AccessRead(f, region, byteOffset, srcSpan.data);
    if ok {
      ghost var mid := dstSpan.data[..];
      BitCopy(dstSpan, srcSpan);
      ReadRound(before, mid, dstSpan.data[..], size, region[..], f.Base(), BitsIn(f, n),
                srcSpan.data[..], byteOffset, f.width, srcSpan.index, srcSpan.length);
    }
  }

  lemma NoBits(f: FieldUnit)
    ensures BitsIn(f, 0) == 0
  {
  }

  /** do_read_misaligned_field_unit */
  method ReadMisaligned(f: FieldUnit, region: array<bv8>, dst: array<bv8>, size: nat) returns (ok: bool)
    requires f.WellFormed() && size <= dst.Length && dst != region
    modifies dst
    ensures ok <==> f.InRegion(region.Length)
    ensures ok ==> FieldRead(old(dst[..]), dst[..], size, region[..], f)
  {
    hide ReadSoFar, BitsIn;
    var byteOffset, accessBits := f.byteOffset, 8 * f.width;
    var bitsLeft: nat := f.bitLength;
    var out := new bv8[8](_ => 0);
    var srcSpan := new BitSpan(out, f.bitOffset, 0);
    var dstSpan := new BitSpan(dst, 0, 8 * size);
    var readsToDo: nat := (f.bitOffset + f.bitLength + accessBits - 1) / accessBits;
    ghost var before, bytes, n := dst[..], region[..], 0;
    NoBits(f);
    while readsToDo > 0
      invariant n + readsToDo == f.Units() && byteOffset == f.byteOffset + n * f.width
      invariant BitsIn(f, n) + bitsLeft == f.bitLength
      invariant srcSpan.data == out && srcSpan.index == if n == 0 then f.bitOffset else 0
      invariant dstSpan.data == dst && dstSpan.index == Min(8 * size, BitsIn(f, n))
                && dstSpan.length == 8 * size - dstSpan.index
      invariant region[..] == bytes
      invariant n == 0 ==> dst[..] == before
      invariant n > 0 ==> f.Base() + BitsIn(f, n) <= 8 * |bytes| && byteOffset <= region.Length
      invariant n > 0 ==> ReadSoFar(before, dst[..], size, bytes, f.Base(), BitsIn(f, n))
      decreases readsToDo
    {
      readsToDo := readsToDo - 1;
      ok := ReadUnit(f, region, byteOffset, bitsLeft, dstSpan, srcSpan, size, before, n);
      if !ok {
        UnitOutside(f, n, region.Length);
        return;
      }
      NextUnit(f, n);
      bitsLeft := bitsLeft - srcSpan.length;
      srcSpan.index := 0;
      var delta := dstSpan.Offset(srcSpan.length);
      byteOffset := byteOffset + f.width;
      n := n + 1;
      NextMultiple(n - 1, f.width);
    }
    AllUnits(f, n);
    ok := true;
    ReadDone(f, before, dst[..], size, bytes);
  }

  lemma NextMultiple(n: nat, w: nat)
    ensures (n + 1) * w == n * w + w
  {
  }

  /** The first 8 * size destination bits are the field's, zero past its length; the other bytes are untouched. */
  ghost predicate FieldRead(before: seq<bv8>, after: seq<bv8>, size: nat, region: seq<bv8>, f: FieldUnit) {
    && size <= |before| && f.Base() + f.bitLength <= 8 * |region|
    && Copied(before, after, 0, 8 * size, region, f.Base(), f.bitLength)
  }

  lemma UnitOutside(f: FieldUnit, n: nat, length: nat)
    requires f.WellFormed() && n < f.Units() && f.byteOffset + n * f.width + f.width > length
    ensures !f.InRegion(length)
  {
    assert (n + 1) * f.width == n * f.width + f.width;
    MulMonotone(n + 1, f.Units(), f.width);
  }

  lemma ReadDone(f: FieldUnit, before: seq<bv8>, now: seq<bv8>, size: nat, region: seq<bv8>)
    requires size <= |before| && f.Base() + f.bitLength <= 8 * |region|
    requires ReadSoFar(before, now, size, region, f.Base(), f.bitLength)
    ensures FieldRead(before, now, size, region, f)
  {
  }

  lemma SingleUnit(f: FieldUnit)
    requires f.WellFormed() && f.bitOffset == 0 && Bytes(f.bitLength) <= f.width
    ensures f.Units() == 1
  {
    DivUnique(f.bitLength + 8 * f.width - 1, 8 * f.width, 1, f.bitLength - 1);
  }

  /** The fast path's bytes are the general loop's bits. */
  lemma FastReadBits(f: FieldUnit, before: seq<bv8>, after: seq<bv8>, size: nat, region: seq<bv8>)
    requires f.WellFormed() && f.bitOffset == 0 && |after| == |before| && size <= |before|
    requires var n := Bytes(f.bitLength);
             && f.byteOffset + n <= |region|
             && (forall q :: size <= q < |before| ==> after[q] == before[q])
             && (forall q :: 0 <= q < size && q != n - 1 ==> after[q] == if q < n then region[f.byteOffset + q] else 0)
             && (n <= size ==> TailMerged(after[n - 1], region[f.byteOffset + n - 1], 0, f.bitLength % 8))
    ensures FieldRead(before, after, size, region, f)
  {
    hide TestBit;
    ZeroBits();
    forall i | 0 <= i < 8 * |before|
      ensures Bit(after, i) == if i < 8 * size then i < f.bitLength && Bit(region, f.Base() + i) else Bit(before, i)
    {
      if i < f.bitLength {
        AlignedBit(region, f.Base(), i);
      }
    }
  }

  /** uacpi_read_field_unit: one contract for the single-access path and the general loop. */
  method ReadFieldUnit(f: FieldUnit, region: array<bv8>, dst: array<bv8>, size: nat) returns (ok: bool)
    requires f.WellFormed() && size <= dst.Length && dst != region
    modifies dst
    ensures ok <==> f.InRegion(region.Length)
    ensures ok ==> FieldRead(old(dst[..]), dst[..], size, region[..], f)
  {
    var fieldBytes := Bytes(f.bitLength);
    if f.bitOffset == 0 && fieldBytes <= f.width {
      hide TestBit;
      SingleUnit(f);
      var out := new bv8[8](_ => 0);
      ok := AccessRead(f, region, f.byteOffset, out);
      if ok {
        MemcpyZerout(dst, 0, out, size, fieldBytes);
        if size >= fieldBytes {
          CutTail(dst, fieldBytes - 1, f.bitLength);
        }
        ZeroBits();
        FastReadBits(f, old(dst[..]), dst[..], size, region[..]);
      }
      return;
    }
    ok := ReadMisaligned(f, region, dst, size);
  }

  // ---------- writing ----------

  function RuleBit(rule: UpdateRule, was: bool): bool {
    match rule
    case Preserve => was
    case WriteAsOnes => true
    case WriteAsZeroes => false
  }

  /** Bit i of the region once the field's first n units have been written. */
  ghost predicate WrittenBit(before: seq<bv8>, src: seq<bv8>, size: nat, f: FieldUnit, n: nat, i: nat)
    requires size <= |src| && i < 8 * |before|
  {
    if f.Base() <= i < f.Base() + BitsIn(f, n) then SourceBit(src, 0, 8 * size, i - f.Base())
    else if 8 * f.byteOffset <= i < 8 * (f.byteOffset + n * f.width) then RuleBit(f.rule, Bit(before, i))
    else Bit(before, i)
  }

  ghost predicate FieldWritten(before: seq<bv8>, after: seq<bv8>, src: seq<bv8>, size: nat, f: FieldUnit, n: nat) {
    && |after| == |before| && size <= |src|
    && forall i :: 0 <= i < 8 * |before| ==> Bit(after, i) == WrittenBit(before, src, size, f, n, i)
  }

  /**
   The bits next to a written field: outside its access units as before, inside them as before, ones or zeros, as the
   update rule has it.
   */
  ghost predicate RestAsRuled(f: FieldUnit, before: seq<bv8>, after: seq<bv8>)
    requires f.WellFormed()
  {
    |after| == |before| &&
    forall i :: 0 <= i < 8 * |before| && !(f.Base() <= i < f.Base() + f.bitLength) ==>
      if f.rule == Preserve || !(8 * f.byteOffset <= i < 8 * (f.byteOffset + f.Units() * f.width))
      then Bit(after, i) == Bit(before, i)
      else Bit(after, i) == (f.rule == WriteAsOnes)
  }

  lemma WrittenAsRuled(f: FieldUnit, before: seq<bv8>, after: seq<bv8>, src: seq<bv8>, size: nat)
    requires f.WellFormed() && FieldWritten(before, after, src, size, f, f.Units())
    ensures RestAsRuled(f, before, after)
  {
    AllUnits(f, f.Units());
    hide Bit, FieldUnit.Units, BitsIn;
    forall i | 0 <= i < 8 * |before| && !(f.Base() <= i < f.Base() + f.bitLength)
      ensures if f.rule == Preserve || !(8 * f.byteOffset <= i < 8 * (f.byteOffset + f.Units() * f.width))
              then Bit(after, i) == Bit(before, i)
              else Bit(after, i) == (f.rule == WriteAsOnes)
    {
      assert Bit(after, i) == WrittenBit(before, src, size, f, f.Units(), i);
    }
  }

  /** The unit buffer before the field's bits go in: what the update rule prescribes, or nothing for a full unit. */
  ghost predicate Prepared(in_: seq<bv8>, region: seq<bv8>, offset: nat, f: FieldUnit, full: bool) {
    && |in_| == 8 && f.width <= 8
    && (!full ==> forall j :: 0 <= j < 8 * f.width ==>
          8 * offset + j < 8 * |region| && Bit(in_, j) == RuleBit(f.rule, Bit(region, 8 * offset + j)))
  }

  /** `after` is the region with access unit `offset` replaced by the low bytes of `unit`. */
  ghost predicate UnitStored(region: seq<bv8>, after: seq<bv8>, offset: nat, width: nat, unit: seq<bv8>) {
    && |after| == |region| && |unit| == 8 && width <= 8 && offset + width <= |region|
    && forall q :: 0 <= q < |region| ==>
         after[q] == if offset <= q < offset + width then unit[q - offset] else region[q]
  }

  lemma StoredBit(region: seq<bv8>, after: seq<bv8>, offset: nat, width: nat, unit: seq<bv8>, i: nat)
    requires UnitStored(region, after, offset, width, unit) && i < 8 * |region|
    ensures Bit(after, i) == if 8 * offset <= i < 8 * (offset + width) then Bit(unit, i - 8 * offset)
                            else Bit(region, i)
  {
    if 8 * offset <= i < 8 * (offset + width) {
      assert i / 8 - offset == (i - 8 * offset) / 8;
    }
  }

  lemma WriteRound(before: seq<bv8>, mid: seq<bv8>, after: seq<bv8>, src: seq<bv8>, size: nat, f: FieldUnit, n: nat,
                   in_: seq<bv8>, unit: seq<bv8>, offset: nat, first: nat, count: nat)
    requires f.WellFormed() && n < f.Units() && FieldWritten(before, mid, src, size, f, n)
    requires offset == f.byteOffset + n * f.width && first == (if n == 0 then f.bitOffset else 0)
    requires count == Min(8 * f.width - first, f.bitLength - BitsIn(f, n)) && offset + f.width <= |before|
    requires Prepared(in_, mid, offset, f, first == 0 && count == 8 * f.width)
    requires |unit| == 8 && Copied(in_, unit, first, count, src, Min(8 * size, BitsIn(f, n)),
              8 * size - Min(8 * size, BitsIn(f, n)))
    requires UnitStored(mid, after, offset, f.width, unit)
    ensures FieldWritten(before, after, src, size, f, n + 1)
  {
    hide Bit, BitsIn, FieldUnit.Units;
    NextUnit(f, n);
    NextMultiple(n, f.width);
    forall i | 0 <= i < 8 * |before| ensures Bit(after, i) == WrittenBit(before, src, size, f, n + 1, i) {
      StoredBit(mid, after, offset, f.width, unit, i);
      assert Bit(mid, i) == WrittenBit(before, src, size, f, n, i);
    }
  }

  /** Fills the unit buffer as the update rule says; a full unit needs no preparation. */
  method PrepareUnit(f: FieldUnit, region: array<bv8>, byteOffset: nat, in_: array<bv8>, full: bool) returns (ok: bool)
    requires f.WellFormed() && in_.Length == 8 && in_ != region
    modifies in_
    ensures ok <== byteOffset + f.width <= region.Length
    ensures !ok ==> byteOffset + f.width > region.Length
    ensures byteOffset + f.width <= region.Length ==> Prepared(in_[..], region[..], byteOffset, f, full)
  {
    hide TestBit;
    ok := true;
    for q := 0 to 8
      invariant forall r :: 0 <= r < q ==> in_[r] == 0
    {
      in_[q] := 0;
    }
    ZeroBits();
    if !full {
      match f.rule {
        case Preserve =>
          ok := AccessRead(f, region, byteOffset, in_);
          if ok {
            forall j | 0 <= j < 8 * f.width ensures Bit(in_[..], j) == Bit(region[..], 8 * byteOffset + j) {
              AlignedBit(region[..], 8 * byteOffset, j);
            }
          }
        case WriteAsOnes =>
          for q := 0 to 8
            invariant forall r :: 0 <= r < q ==> in_[r] == 0xFF
          {
            in_[q] := 0xFF;
          }
          OneBits();
        case WriteAsZeroes =>
      }
    }
  }

  lemma OneBits()
    ensures forall k :: 0 <= k < 8 ==> TestBit(0xFF, k)
  {
  }

  /** One round of write_generic_field_unit; `n` units have been written. */
  method WriteUnit(f: FieldUnit, region: array<bv8>, byteOffset: nat, bitsLeft: nat, dstSpan: BitSpan, srcSpan: BitSpan,
                   ghost size: nat, ghost before: seq<bv8>, ghost n: nat)
    returns (ok: bool)
    requires f.WellFormed() && n < f.Units() && byteOffset == f.byteOffset + n * f.width
    requires bitsLeft == f.bitLength - BitsIn(f, n) && size <= srcSpan.data.Length
    requires dstSpan.data.Length == 8 && dstSpan.index == if n == 0 then f.bitOffset else 0
    requires srcSpan.index == Min(8 * size, BitsIn(f, n)) && srcSpan.length == 8 * size - srcSpan.index
    requires srcSpan.data != dstSpan.data && region != srcSpan.data && region != dstSpan.data && srcSpan != dstSpan
    requires |before| == region.Length && FieldWritten(before, region[..], srcSpan.data[..], size, f, n)
    modifies srcSpan, dstSpan, dstSpan.data, region
    ensures dstSpan.data == old(dstSpan.data) && dstSpan.index == old(dstSpan.index)
    ensures srcSpan.data == old(srcSpan.data)
    ensures ok <==> byteOffset + f.width <= region.Length
    ensures ok ==> BitsIn(f, n + 1) == BitsIn(f, n) + dstSpan.length && 0 < dstSpan.length <= bitsLeft
    ensures ok ==> srcSpan.index == Min(8 * size, BitsIn(f, n + 1)) && srcSpan.length == 8 * size - srcSpan.index
    ensures FieldWritten(before, region[..], srcSpan.data[..], size, f, if ok then n + 1 else n)
  {
    hide Copied, FieldWritten, Prepared, Bit, BitsIn, FieldUnit.Units;
    NextUnit(f, n);
    var accessBits := 8 * f.width;
    dstSpan.length := Min(accessBits - dstSpan.index, bitsLeft);
    var full := !(dstSpan.index != 0 || dstSpan.length < accessBits);
    ok := PrepareUnit(f, region, byteOffset, dstSpan.data, full);
    if !ok {
      return;
    }
    ghost var in_, mid := dstSpan.data[..], region[..];
    BitCopy(dstSpan, srcSpan);
    var delta := srcSpan.Offset(dstSpan.length);
    ok := AccessWrite(f, region, byteOffset, dstSpan.data);
    if ok {
      WriteRound(before, mid, region[..], srcSpan.data[..], size, f, n, in_, dstSpan.data[..], byteOffset,
          dstSpan.index, dstSpan.length);
    }
  }

  /**
   write_generic_field_unit. `n` counts the units written; all of them unless one lies outside the region, and
   then every unit before that one has been written.
   */
  method WriteFieldUnit(f: FieldUnit, region: array<bv8>, src: array<bv8>, size: nat) returns (ok: bool, ghost n: nat)
    requires f.WellFormed() && size <= src.Length && src != region
    modifies region
    ensures ok <==> f.InRegion(region.Length)
    ensures ok ==> n == f.Units()
    ensures !ok ==> n < f.Units() && f.byteOffset + n * f.width + f.width > region.Length
    ensures FieldWritten(old(region[..]), region[..], src[..], size, f, n)
    ensures ok ==> RestAsRuled(f, old(region[..]), region[..])
  {
    hide FieldWritten, BitsIn, RestAsRuled;
    var bitsLeft: nat, byteOffset := f.bitLength, f.byteOffset;
    var in_ := new bv8[8](_ => 0);
    var srcSpan := new BitSpan(src, 0, 8 * size);
    var dstSpan := new BitSpan(in_, f.bitOffset, 0);
    ghost var before := region[..];
    n := 0;
    NoBits(f);
    NothingWritten(f, before, src[..], size);
    while bitsLeft > 0
      invariant byteOffset == f.byteOffset + n * f.width && n <= f.Units()
      invariant BitsIn(f, n) + bitsLeft == f.bitLength && (bitsLeft > 0 ==> n < f.Units())
      invariant dstSpan.data == in_ && dstSpan.index == if n == 0 then f.bitOffset else 0
      invariant srcSpan.data == src && srcSpan.index == Min(8 * size, BitsIn(f, n))
                && srcSpan.length == 8 * size - srcSpan.index
      invariant src[..] == old(src[..])
      invariant n > 0 ==> byteOffset <= region.Length
      invariant FieldWritten(before, region[..], src[..], size, f, n)
      decreases bitsLeft
    {
      ok := WriteUnit(f, region, byteOffset, bitsLeft, dstSpan, srcSpan, size, before, n);
      if !ok {
        UnitOutside(f, n, region.Length);
        return;
      }
      bitsLeft := bitsLeft - dstSpan.length;
      dstSpan.index := 0;
      byteOffset := byteOffset + f.width;
      n := n + 1;
      NextMultiple(n - 1, f.width);
      BitsLeftMeansUnit(f, n);
    }
    BitsLeftMeansUnit(f, n);
    AllUnits(f, f.Units());
    WrittenAsRuled(f, before, region[..], src[..], size);
    ok := true;
  }

  /** The loop on remaining bits makes exactly Units() rounds. */
  lemma BitsLeftMeansUnit(f: FieldUnit, n: nat)
    requires f.WellFormed() && n <= f.Units()
    ensures BitsIn(f, n) < f.bitLength <==> n < f.Units()
  {
    UnitExists(f, n);
  }

  lemma NothingWritten(f: FieldUnit, before: seq<bv8>, src: seq<bv8>, size: nat)
    requires f.WellFormed() && size <= |src|
    ensures FieldWritten(before, before, src, size, f, 0)
  {
  }

  // ---------- what reading and writing do to each other ----------

  /** Writing a field and reading it back gives the source truncated or zero-extended to the field's length. */
  lemma WriteThenRead(f: FieldUnit, r0: seq<bv8>, r1: seq<bv8>, src: seq<bv8>, size: nat, d0: seq<bv8>, d1: seq<bv8>,
          dsize: nat)
    requires f.WellFormed() && FieldWritten(r0, r1, src, size, f, f.Units()) && FieldRead(d0, d1, dsize, r1, f)
    ensures forall i :: 0 <= i < 8 * dsize ==> (Bit(d1, i) <==> i < f.bitLength && i < 8 * size && Bit(src, i))
  {
    hide Bit;
    AllUnits(f, f.Units());
    forall i | 0 <= i < 8 * dsize ensures Bit(d1, i) <==> i < f.bitLength && i < 8 * size && Bit(src, i) {
      if i < f.bitLength {
        assert Bit(r1, f.Base() + i) == WrittenBit(r0, src, size, f, f.Units(), f.Base() + i);
      }
    }
  }

  /** Under the preserve rule nothing but the field changes, and writing back what was read changes nothing. */
  lemma ReadThenWrite(f: FieldUnit, r0: seq<bv8>, r1: seq<bv8>, d0: seq<bv8>, d1: seq<bv8>, size: nat)
    requires f.WellFormed() && f.rule == Preserve && f.bitLength <= 8 * size
    requires FieldRead(d0, d1, size, r0, f) && FieldWritten(r0, r1, d1, size, f, f.Units())
    ensures r1 == r0
  {
    hide Bit;
    AllUnits(f, f.Units());
    forall i | 0 <= i < 8 * |r0| ensures Bit(r1, i) == Bit(r0, i) {
      if f.Base() <= i < f.Base() + f.bitLength {
        assert Bit(d1, i - f.Base()) == SourceBit(r0, f.Base(), f.bitLength, i - f.Base());
      }
    }
    SameBitsSameBytes(r1, r0);
  }
}
