/** Bytes as bit vectors, and buffers as bit sequences: bit i of a buffer is bit i % 8 of byte i / 8. */
module Bits {

  predicate TestBit(b: bv8, k: nat)
    requires k < 8
  {
    match k
    case 0 => b & 1 != 0
    case 1 => b & 2 != 0
    case 2 => b & 4 != 0
    case 3 => b & 8 != 0
    case 4 => b & 16 != 0
    case 5 => b & 32 != 0
    case 6 => b & 64 != 0
    case _ => b & 128 != 0
  }

  function Shr(b: bv8, s: nat): bv8
    requires s <= 8
  {
    b >> s
  }

  function Shl(b: bv8, s: nat): bv8
    requires s <= 8
  {
    b << s
  }

  /** The bits of v where mask is set, those of b elsewhere. */
  function Merge(b: bv8, v: bv8, mask: bv8): bv8 {
    (b & !mask) | (v & mask)
  }

  lemma MergeBit(b: bv8, v: bv8, mask: bv8, k: nat)
    requires k < 8
    ensures TestBit(Merge(b, v, mask), k) <==> if TestBit(mask, k) then TestBit(v, k) else TestBit(b, k)
  {
    if k == 0 {} else if k == 1 {} else if k == 2 {} else if k == 3 {}
    else if k == 4 {} else if k == 5 {} else if k == 6 {} else { assert k == 7; }
  }

  function Either(a: bv8, b: bv8): bv8 {
    a | b
  }

  function Both(a: bv8, b: bv8): bv8 {
    a & b
  }

  lemma BitwiseBit(a: bv8, b: bv8, k: nat)
    requires k < 8
    ensures TestBit(Either(a, b), k) <==> TestBit(a, k) || TestBit(b, k)
    ensures TestBit(Both(a, b), k) <==> TestBit(a, k) && TestBit(b, k)
  {
    if k == 0 {} else if k == 1 {} else if k == 2 {} else if k == 3 {}
    else if k == 4 {} else if k == 5 {} else if k == 6 {} else { assert k == 7; }
  }

  lemma ShiftRightBit(b: bv8, s: nat, k: nat)
    requires s <= 8 && k < 8
    ensures TestBit(Shr(b, s), k) <==> s + k < 8 && TestBit(b, s + k)
  {
    if s == 0 {} else if s == 1 {} else if s == 2 {} else if s == 3 {}
    else if s == 4 {} else if s == 5 {} else if s == 6 {} else if s == 7 {} else {}
  }

  lemma ShiftLeftBit(b: bv8, s: nat, k: nat)
    requires s <= 8 && k < 8
    ensures TestBit(Shl(b, s), k) <==> k >= s && TestBit(b, k - s)
  {
    if s == 0 {} else if s == 1 {} else if s == 2 {} else if s == 3 {}
    else if s == 4 {} else if s == 5 {} else if s == 6 {} else if s == 7 {} else {}
  }

  /** Shifting a byte within a 16-bit word: its two halves. */
  lemma ShiftHalves(m: bv8, s: nat)
    requires s < 8
    ensures (((m as bv16) << s) & 0xFF) as bv8 == Shl(m, s)
    ensures (((m as bv16) << s) >> 8) as bv8 == Shr(m, 8 - s)
  {
    if s == 0 {} else if s == 1 {} else if s == 2 {} else if s == 3 {}
    else if s == 4 {} else if s == 5 {} else if s == 6 {} else {}
  }

  /** (1 << c) - 1 */
  function LowMask(c: nat): bv8
    requires c < 8
  {
    (((1 as bv16) << c) - 1) as bv8
  }

  lemma LowMaskBit(c: nat, k: nat)
    requires c < 8 && k < 8
    ensures TestBit(LowMask(c), k) <==> k < c
  {
    if c == 0 {} else if c == 1 {} else if c == 2 {} else if c == 3 {}
    else if c == 4 {} else if c == 5 {} else if c == 6 {} else {}
  }

  lemma SameBitsSameByte(a: bv8, b: bv8)
    requires forall k :: 0 <= k < 8 ==> TestBit(a, k) == TestBit(b, k)
    ensures a == b
  {
    assert TestBit(a, 0) == TestBit(b, 0) && TestBit(a, 1) == TestBit(b, 1) && TestBit(a, 2) == TestBit(b, 2);
    assert TestBit(a, 3) == TestBit(b, 3) && TestBit(a, 4) == TestBit(b, 4) && TestBit(a, 5) == TestBit(b, 5);
    assert TestBit(a, 6) == TestBit(b, 6) && TestBit(a, 7) == TestBit(b, 7);
  }

  predicate Bit(s: seq<bv8>, i: nat)
    requires i < 8 * |s|
  {
    TestBit(s[i / 8], i % 8)
  }

  lemma SameBitsSameBytes(s: seq<bv8>, t: seq<bv8>)
    requires |s| == |t| && forall i :: 0 <= i < 8 * |s| ==> Bit(s, i) == Bit(t, i)
    ensures s == t
  {
    forall p | 0 <= p < |s| ensures s[p] == t[p] {
      forall k | 0 <= k < 8 ensures TestBit(s[p], k) == TestBit(t[p], k) {
        assert Bit(s, 8 * p + k) == Bit(t, 8 * p + k);
      }
      SameBitsSameByte(s[p], t[p]);
    }
  }

  // ---------- one round of bit_copy ----------

  /** (1 << count) - 1 for count below 8, else 0xFF. */
  function CountMask(count: nat): bv8 {
    if count < 8 then LowMask(count) else 0xFF
  }

  lemma CountMaskBit(count: nat, k: nat)
    requires k < 8
    ensures TestBit(CountMask(count), k) <==> k < count
  {
    if count < 8 {
      LowMaskBit(count, k);
    } else {
      if k == 0 {} else if k == 1 {} else if k == 2 {} else if k == 3 {}
      else if k == 4 {} else if k == 5 {} else if k == 6 {} else {}
    }
  }

  /** The eight source bits from shift `ss` of byte `lo` on; `hi` is the next byte. */
  function Gathered(lo: bv8, hi: bv8, ss: nat, count: nat): bv8
    requires ss < 8
  {
    Both(Either(Shr(lo, ss), Shl(hi, 8 - ss)), CountMask(count))
  }

  lemma GatheredBit(lo: bv8, hi: bv8, ss: nat, count: nat, r: nat)
    requires ss < 8 && r < 8
    ensures TestBit(Gathered(lo, hi, ss, count), r) <==>
            r < count && if ss + r < 8 then TestBit(lo, ss + r) else TestBit(hi, ss + r - 8)
  {
    hide TestBit, CountMask, Shl, Shr, Either, Both;
    BitwiseBit(Shr(lo, ss), Shl(hi, 8 - ss), r);
    BitwiseBit(Either(Shr(lo, ss), Shl(hi, 8 - ss)), CountMask(count), r);
    ShiftRightBit(lo, ss, r);
    ShiftLeftBit(hi, 8 - ss, r);
    CountMaskBit(count, r);
  }

  /** The store into the current destination byte. */
  function Low(b: bv8, bits: bv8, ds: nat, count: nat): bv8
    requires ds < 8
  {
    Merge(b, Shl(bits, ds), Shl(CountMask(count), ds))
  }

  lemma LowBit(b: bv8, bits: bv8, ds: nat, count: nat, k: nat)
    requires ds < 8 && k < 8
    ensures TestBit(Low(b, bits, ds, count), k) <==>
            if ds <= k < ds + count then TestBit(bits, k - ds) else TestBit(b, k)
  {
    hide TestBit, CountMask, Shl, Shr, Merge;
    ShiftLeftBit(CountMask(count), ds, k);
    ShiftLeftBit(bits, ds, k);
    MergeBit(b, Shl(bits, ds), Shl(CountMask(count), ds), k);
    if k >= ds {
      CountMaskBit(count, k - ds);
    }
  }

  /** The store into the following byte. */
  function High(b: bv8, bits: bv8, ds: nat, count: nat): bv8
    requires 0 < ds < 8
  {
    Merge(b, Shr(bits, 8 - ds), Shr(CountMask(count), 8 - ds))
  }

  lemma HighBit(b: bv8, bits: bv8, ds: nat, count: nat, k: nat)
    requires 0 < ds < 8 && k < 8
    ensures TestBit(High(b, bits, ds, count), k) <==>
            if k < ds && k + 8 - ds < count then TestBit(bits, k + 8 - ds) else TestBit(b, k)
  {
    hide TestBit, CountMask, Shl, Shr, Merge;
    ShiftRightBit(CountMask(count), 8 - ds, k);
    ShiftRightBit(bits, 8 - ds, k);
    MergeBit(b, Shr(bits, 8 - ds), Shr(CountMask(count), 8 - ds), k);
    if k < ds {
      CountMaskBit(count, k + 8 - ds);
    }
  }
}
