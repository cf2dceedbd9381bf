/**
 The four-level page-table walker. Physical memory is a map from the address of a page-table page to its 512
 entries; an entry is a 64-bit word. A virtual page number is bits 12 to 47 of an address.
 */
module Vmm {
  import opened Options
  import opened Powers

  const PAGE: nat := 0x1000
  const W64: nat := 0x1_0000_0000_0000_0000
  const VPNS: nat := 0x10_0000_0000
  const USER_END: nat := 0x8000_0000_0000
  const HIGH_HALF: nat := 0xFFFF_8000_0000_0000
  const FRAMES: nat := 0x100_0000_0000
  const PRESENT: nat := 1
  const WRITE: nat := 2
  const USER: nat := 4

  type Memory = map<nat, seq<nat>>

  // ---------- words ----------

  /** Bitwise or on naturals. */
  function Or(a: nat, b: nat): nat
    decreases a + b
  {
    if a == 0 && b == 0 then 0
    else (if a % 2 == 1 || b % 2 == 1 then 1 else 0) + 2 * Or(a / 2, b / 2)
  }

  predicate Present(e: nat) {
    e % 2 == 1
  }

  /** e & PAGE_ADDR_MASK: bits 12 to 51. */
  function AddrOf(e: nat): nat {
    e / PAGE % FRAMES * PAGE
  }

  function LeafEntry(pa: nat, flags: nat): nat {
    Or(Or(pa, flags), PRESENT)
  }

  function TableEntry(page: nat, flags: nat): nat {
    Or(Or(Or(page, PRESENT), WRITE), flags / USER % 2 * USER)
  }

  lemma OrHalves(a: nat, b: nat)
    ensures Or(a, b) / 2 == Or(a / 2, b / 2)
    ensures Or(a, b) % 2 == 1 <==> a % 2 == 1 || b % 2 == 1
  {
    var bit := if a % 2 == 1 || b % 2 == 1 then 1 else 0;
    if a > 0 || b > 0 {
      assert Or(a, b) == bit + 2 * Or(a / 2, b / 2);
    }
  }

  lemma {:induction false} OrZero(a: nat)
    ensures Or(a, 0) == a
    decreases a
  {
    if a > 0 {
      OrZero(a / 2);
    }
  }

  lemma QuotientNat(x: nat, d: nat)
    requires d > 0
    ensures x / d >= 0
  {
  }

  function Shr(x: nat, k: nat): nat {
    QuotientNat(x, Pow2(k));
    x / Pow2(k)
  }

  lemma {:induction false} OrShift(a: nat, b: nat, k: nat)
    ensures Shr(Or(a, b), k) == Or(Shr(a, k), Shr(b, k))
    decreases k
  {
    hide Or;
    if k == 0 {
      assert Pow2(k) == 1;
    } else {
      var d := Pow2(k - 1);
      HalveThenDivide(a, d);
      HalveThenDivide(b, d);
      HalveThenDivide(Or(a, b), d);
      OrHalves(a, b);
      OrShift(a / 2, b / 2, k - 1);
      assert Pow2(k) == 2 * d;
      assert Or(a, b) / (2 * d) == Or(a / 2, b / 2) / d;
    }
  }

  lemma {:induction false} OrTruncate(a: nat, b: nat, k: nat)
    ensures Or(a, b) % Pow2(k) == Or(a % Pow2(k), b % Pow2(k))
    decreases k
  {
    if k > 0 {
      var d := Pow2(k - 1);
      HalveThenDivide(a, d);
      HalveThenDivide(b, d);
      HalveThenDivide(Or(a, b), d);
      OrHalves(a, b);
      OrTruncate(a / 2, b / 2, k - 1);
      OrHalves(a % Pow2(k), b % Pow2(k));
    }
  }

  lemma Pow2Literals()
    ensures Pow2(12) == PAGE && Pow2(40) == FRAMES
  {
    assert Pow2(6) == 64;
    assert Pow2(12) == 64 * Pow2(6);
    assert Pow2(18) == 64 * Pow2(12);
    assert Pow2(24) == 64 * Pow2(18);
    assert Pow2(30) == 64 * Pow2(24);
    assert Pow2(36) == 64 * Pow2(30);
    assert Pow2(40) == 16 * Pow2(36);
  }

  /** Bits outside the address field do not disturb the address an entry holds. */
  lemma AddrOfOr(a: nat, b: nat)
    requires AddrOf(b) == 0
    ensures AddrOf(Or(a, b)) == AddrOf(a)
  {
    Pow2Literals();
    OrShift(a, b, 12);
    OrTruncate(a / PAGE, b / PAGE, 40);
    OrZero(a / PAGE % FRAMES);
  }

  lemma LeafEntryDecodes(pa: nat, flags: nat)
    ensures Present(LeafEntry(pa, flags))
    ensures AddrOf(flags) == 0 ==> AddrOf(LeafEntry(pa, flags)) == AddrOf(pa)
  {
    OrHalves(Or(pa, flags), PRESENT);
    AddrOfOr(Or(pa, flags), PRESENT);
    if AddrOf(flags) == 0 {
      AddrOfOr(pa, flags);
    }
  }

  lemma TableEntryDecodes(page: nat, flags: nat)
    ensures Present(TableEntry(page, flags)) && AddrOf(TableEntry(page, flags)) == AddrOf(page)
  {
    hide Or;
    OrHalves(page, PRESENT);
    OrHalves(Or(page, PRESENT), WRITE);
    OrHalves(Or(Or(page, PRESENT), WRITE), flags / USER % 2 * USER);
    AddrOfOr(Or(Or(page, PRESENT), WRITE), flags / USER % 2 * USER);
    AddrOfOr(Or(page, PRESENT), WRITE);
    AddrOfOr(page, PRESENT);
  }

  // ---------- the bits of an entry ----------

  /** Bit k of a word. */
  predicate Bit(w: nat, k: nat) {
    Shr(w, k) % 2 == 1
  }

  lemma OrBit(a: nat, b: nat, k: nat)
    ensures Bit(Or(a, b), k) <==> Bit(a, k) || Bit(b, k)
  {
    OrShift(a, b, k);
    OrHalves(Shr(a, k), Shr(b, k));
  }

  /** A word below 2^k has no bit from there on. */
  lemma {:induction false} NoBitAbove(w: nat, k: nat)
    requires w < Pow2(k)
    ensures !Bit(w, k)
  {
  }

  /** Bits are those of the halves, one place further down. */
  lemma BitHalf(w: nat, k: nat)
    requires k > 0
    ensures Bit(w, k) == Bit(w / 2, k - 1)
  {
    HalveThenDivide(w, Pow2(k - 1));
    assert Pow2(k) == 2 * Pow2(k - 1);
  }

  lemma BitZero(w: nat)
    ensures Bit(w, 0) == (w % 2 == 1)
  {
    assert Pow2(0) == 1;
    assert w / 1 == w;
  }

  lemma ZeroBit(k: nat)
    ensures !Bit(0, k)
  {
    NoBitAbove(0, k);
  }

  /** The single bits of the three constants. */
  lemma ConstantBits(k: nat)
    ensures (Bit(PRESENT, k) <==> k == 0) && (Bit(WRITE, k) <==> k == 1) && (Bit(USER, k) <==> k == 2)
  {
    BitZero(PRESENT);
    BitZero(WRITE);
    BitZero(USER);
    if k > 0 {
      BitHalf(PRESENT, k);
      BitHalf(WRITE, k);
      BitHalf(USER, k);
      BitZero(1);
      BitZero(2);
      ZeroBit(k - 1);
      if k > 1 {
        BitHalf(1, k - 1);
        BitHalf(2, k - 1);
        BitZero(1);
        ZeroBit(k - 2);
        if k > 2 {
          BitHalf(1, k - 2);
          ZeroBit(k - 3);
        }
      }
    }
    hide Bit;
  }

  lemma UserBit(flags: nat, k: nat)
    ensures Bit(flags / USER % 2 * USER, k) <==> k == 2 && Bit(flags, 2)
    ensures Bit(flags, 2) <==> flags / USER % 2 == 1
  {
    assert Pow2(1) == 2 && Pow2(2) == 4;
    ConstantBits(k);
    ZeroBit(k);
  }

  /** A leaf entry has the bits of the frame's address and of the flags, and the present bit. */
  lemma LeafBits(pa: nat, flags: nat, k: nat)
    ensures Bit(LeafEntry(pa, flags), k) <==> Bit(pa, k) || Bit(flags, k) || k == 0
  {
    ConstantBits(k);
    OrBit(Or(pa, flags), PRESENT, k);
    OrBit(pa, flags, k);
  }

  /**
   A table entry has the bits of the table's address, the present and the write bit, and the user bit if asked for.
   */
  lemma TableBits(page: nat, flags: nat, k: nat)
    ensures Bit(TableEntry(page, flags), k) <==> Bit(page, k) || k == 0 || k == 1 || (k == 2 && Bit(flags, 2))
  {
    ConstantBits(k);
    UserBit(flags, k);
    OrBit(Or(Or(page, PRESENT), WRITE), flags / USER % 2 * USER, k);
    OrBit(Or(page, PRESENT), WRITE, k);
    OrBit(page, PRESENT, k);
    hide Or, Bit;
  }

  // ---------- translation ----------

  function Vpn(va: nat): nat {
    va / PAGE % VPNS
  }

  /** PT_IDX, PD_IDX, PDPT_IDX and PML4_IDX for levels 1 to 4, of a virtual page number. */
  function Index(level: nat, vpn: nat): (i: nat)
    ensures i < 512
  {
    match level
    case 1 => vpn % 512
    case 2 => vpn / 0x200 % 512
    case 3 => vpn / 0x4_0000 % 512
    case _ => vpn / 0x800_0000 % 512
  }

  /** The bits of a virtual page number above those a table of this level looks at. */
  function Prefix(level: nat, vpn: nat): nat {
    match level
    case 0 => vpn
    case 1 => vpn / 0x200
    case 2 => vpn / 0x4_0000
    case 3 => vpn / 0x800_0000
    case _ => vpn / VPNS
  }

  lemma PrefixStep(level: nat, vpn: nat)
    requires 1 <= level <= 4
    ensures Prefix(level - 1, vpn) == Prefix(level, vpn) * 512 + Index(level, vpn)
  {
  }

  /** What the hardware walk finds from table `t` of the given level: the leaf entry, if every level is present. */
  ghost function Lookup(mem: Memory, t: nat, level: nat, vpn: nat): Option<nat>
    decreases level
  {
    if level == 0 || t !in mem || |mem[t]| != 512 then None
    else
      var e := mem[t][Index(level, vpn)];
      if !Present(e) then None
      else if level == 1 then Some(e)
      else Lookup(mem, AddrOf(e), level - 1, vpn)
  }

  // ---------- table structure ----------

  /** The one place in the tree a table occupies. */
  datatype Role = Role(level: nat, prefix: nat)

  ghost predicate TableOk(mem: Memory, role: map<nat, Role>, t: nat) {
    && t in mem && t in role && |mem[t]| == 512 && 1 <= role[t].level <= 4
    && (role[t].level > 1 ==> forall i {:trigger mem[t][i]} :: 0 <= i < 512 && Present(mem[t][i]) ==>
          var c := AddrOf(mem[t][i]);
          c in mem && c in role && role[c] == Role(role[t].level - 1, role[t].prefix * 512 + i))
  }

  /** Every table has one role, so no table is shared. */
  ghost predicate Tree(mem: Memory, role: map<nat, Role>, root: nat) {
    && root in mem && root in role && role[root] == Role(4, 0)
    && (forall t {:trigger TableOk(mem, role, t)} :: t in mem ==> TableOk(mem, role, t))
  }

  function Store(mem: Memory, t: nat, i: nat, e: nat): Memory
    requires t in mem && i < |mem[t]|
  {
    var words: seq<nat> := mem[t];
    mem[t := words[i := e]]
  }

  predicate FreshPage(page: nat) {
    page > 0 && AddrOf(page) == page
  }

  /** Overwriting entry i of table t changes only the pages that the entry maps. */
  lemma {:induction false} StoreFrame(mem: Memory, role: map<nat, Role>, t: nat, i: nat, e: nat, r: nat, level: nat,
          vpn: nat)
    requires forall a {:trigger TableOk(mem, role, a)} :: a in mem ==> TableOk(mem, role, a)
    requires t in mem && t in role && |mem[t]| == 512 && i < 512 && role[t].level > 0
    requires r in mem && r in role && role[r] == Role(level, Prefix(level, vpn)) && level <= 4
    requires Prefix(role[t].level - 1, vpn) != role[t].prefix * 512 + i || role[t].level > level
    ensures Lookup(Store(mem, t, i, e), r, level, vpn) == Lookup(mem, r, level, vpn)
    decreases level
  {
    assert TableOk(mem, role, r);
    assert TableOk(mem, role, t);
    PrefixStep(level, vpn);
    var j := Index(level, vpn);
    if level > 1 && Present(mem[r][j]) {
      StoreFrame(mem, role, t, i, e, AddrOf(mem[r][j]), level - 1, vpn);
    }
  }

  /** A fresh zeroed table hung under an absent entry maps nothing new. */
  lemma {:induction false} NewTableFrame(mem: Memory, role: map<nat, Role>, t: nat, i: nat, page: nat, flags: nat,
                                         r: nat, level: nat, vpn: nat)
    requires forall a {:trigger TableOk(mem, role, a)} :: a in mem ==> TableOk(mem, role, a)
    requires t in mem && t in role && |mem[t]| == 512 && i < 512 && !Present(mem[t][i]) && role[t].level > 1
    requires page !in mem && AddrOf(page) == page
    requires r in mem && r in role && role[r].level == level <= 4
    ensures Lookup(Store(mem[page := Zeros()], t, i, TableEntry(page, flags)), r, level, vpn)
         == Lookup(mem, r, level, vpn)
    decreases level
  {
    assert TableOk(mem, role, r);
    TableEntryDecodes(page, flags);
    var j := Index(level, vpn);
    if r == t && j == i {
      assert Zeros()[Index(level - 1, vpn)] == 0;
    } else if level > 1 && Present(mem[r][j]) {
      NewTableFrame(mem, role, t, i, page, flags, AddrOf(mem[r][j]), level - 1, vpn);
    }
  }

  function Zeros(): (z: seq<nat>)
    ensures |z| == 512 && forall i :: 0 <= i < 512 ==> z[i] == 0
  {
    seq(512, _ => 0)
  }

  lemma NewTableKeepsTree(mem: Memory, role: map<nat, Role>, root: nat, t: nat, i: nat, page: nat, flags: nat)
    requires Tree(mem, role, root) && t in mem && t in role && |mem[t]| == 512 && i < 512 && role[t].level > 1
    requires page !in mem && AddrOf(page) == page
    ensures Tree(Store(mem[page := Zeros()], t, i, TableEntry(page, flags)),
                 role[page := Role(role[t].level - 1, role[t].prefix * 512 + i)], root)
  {
    TableEntryDecodes(page, flags);
    var mem' := Store(mem[page := Zeros()], t, i, TableEntry(page, flags));
    var role' := role[page := Role(role[t].level - 1, role[t].prefix * 512 + i)];
    assert TableOk(mem, role, t);
    forall a | a in mem' ensures TableOk(mem', role', a) {
      if a != page {
        assert TableOk(mem, role, a);
      }
    }
  }

  lemma LeafStoreKeepsTree(mem: Memory, role: map<nat, Role>, root: nat, t: nat, i: nat, e: nat)
    requires Tree(mem, role, root) && t in mem && t in role && |mem[t]| == 512 && i < 512 && role[t].level == 1
    ensures Tree(Store(mem, t, i, e), role, root)
  {
    forall a | a in mem ensures TableOk(Store(mem, t, i, e), role, a) {
      assert TableOk(mem, role, a);
    }
  }

  /** An entry that leads to a table: its address, present and writable, and for users if so asked. */
  ghost predicate TableWord(e: nat, user: bool) {
    forall k: nat :: Bit(e, k) <==> Bit(AddrOf(e), k) || k == 0 || k == 1 || (k == 2 && user)
  }

  /** Above the last level, entries are as they were, or new ones for tables. */
  ghost predicate TablesGrown(m: Memory, m': Memory, role: map<nat, Role>, user: bool) {
    forall t, i {:trigger m'[t][i]} ::
      t in m' && t in role && role[t].level > 1 && 0 <= i < |m'[t]| && Present(m'[t][i]) ==>
        (t in m && i < |m[t]| && m'[t][i] == m[t][i]) || TableWord(m'[t][i], user)
  }

  lemma NewTableGrows(m: Memory, role: map<nat, Role>, t: nat, i: nat, page: nat, flags: nat)
    requires t in m && i < |m[t]| && page !in m && AddrOf(page) == page
    ensures TablesGrown(m, Store(m[page := Zeros()], t, i, TableEntry(page, flags)), role, Bit(flags, 2))
  {
    var e := TableEntry(page, flags);
    TableEntryDecodes(page, flags);
    forall k: nat ensures Bit(e, k) <==> Bit(AddrOf(e), k) || k == 0 || k == 1 || (k == 2 && Bit(flags, 2)) {
      TableBits(page, flags, k);
    }
    assert TableWord(e, Bit(flags, 2));
    hide TableWord, TableEntry, Bit, AddrOf;
  }

  lemma GrownNot(m: Memory, role: map<nat, Role>, user: bool)
    ensures TablesGrown(m, m, role, user)
  {
    hide TableWord;
  }

  lemma GrownTwice(m: Memory, m': Memory, m'': Memory, role': map<nat, Role>, role'': map<nat, Role>, user: bool)
    requires TablesGrown(m, m', role', user) && TablesGrown(m', m'', role'', user)
    requires forall t :: t in m' && t in role'' ==> t in role' && role''[t] == role'[t]
    ensures TablesGrown(m, m'', role'', user)
  {
    hide TableWord;
  }

  lemma LeafStoreGrows(m: Memory, role: map<nat, Role>, t: nat, i: nat, e: nat, user: bool)
    requires t in m && i < |m[t]| && t in role && role[t].level == 1
    ensures TablesGrown(m, Store(m, t, i, e), role, user)
  {
    hide TableWord;
  }

  /** An entry that maps a page: the frame's address, the flags, present, and for users if so asked. */
  ghost predicate LeafWord(e: nat, frame: nat, flags: nat, user: bool) {
    forall k: nat :: Bit(e, k) <==> Bit(frame, k) || Bit(flags, k) || k == 0 || (k == 2 && user)
  }

  /** The flags mmap ends up with, and what they make of an entry. */
  lemma MmapFlags(frame: nat, flags: nat, user: bool)
    ensures var f := if user then Or(flags, USER) else flags;
            LeafWord(LeafEntry(frame, f), frame, flags, user) && (Bit(f, 2) <==> Bit(flags, 2) || user)
  {
    var f := if user then Or(flags, USER) else flags;
    forall k: nat ensures Bit(f, k) <==> Bit(flags, k) || (k == 2 && user) {
      if user {
        OrBit(flags, USER, k);
        ConstantBits(k);
      }
    }
    forall k: nat
      ensures Bit(LeafEntry(frame, f), k) <==> Bit(frame, k) || Bit(flags, k) || k == 0 || (k == 2 && user)
    {
      LeafBits(frame, f, k);
    }
  }

  // ---------- the flat view ----------

  function PageVa(va: nat, i: nat): nat {
    (va + i * PAGE) % W64
  }

  /** What the first k steps of mmap have written at virtual page v; later steps win. */
  function Written(va: nat, pa: nat, flags: nat, k: nat, v: nat): Option<nat> {
    if k == 0 then None
    else if Vpn(PageVa(va, k - 1)) == v then Some(LeafEntry(PageVa(pa, k - 1), flags))
    else Written(va, pa, flags, k - 1, v)
  }

  function Over(new_: Option<nat>, old_: Option<nat>): Option<nat> {
    if new_ == None then old_ else new_
  }

  lemma NextPage(va: nat, i: nat)
    ensures (PageVa(va, i) + PAGE) % W64 == PageVa(va, i + 1)
  {
  }

  /** How many pages v lies above va, modulo the size of the 48-bit space. */
  function PagesAbove(va: nat, v: nat): nat {
    (v - va / PAGE) % VPNS
  }

  lemma DropHighBits(x: nat)
    ensures x % W64 / PAGE % VPNS == x / PAGE % VPNS
  {
    var q := x / W64;
    assert x == q * W64 + x % W64;
    assert x / PAGE == q * 0x10_0000_0000_0000 + x % W64 / PAGE;
    assert x / PAGE == q * 0x1_0000 * VPNS + x % W64 / PAGE;
  }

  /** Step j of a walk from va is the one that meets virtual page v exactly when v lies j pages above va. */
  lemma StepMeets(va: nat, j: nat, v: nat)
    requires j < VPNS && v < VPNS
    ensures Vpn(PageVa(va, j)) == v <==> PagesAbove(va, v) == j
  {
    DropHighBits(va + j * PAGE);
    var b := va / PAGE;
    assert (va + j * PAGE) / PAGE == b + j;
    ModDistance(b, j, v);
  }

  lemma ModDistance(b: nat, j: nat, v: nat)
    requires j < VPNS && v < VPNS
    ensures (b + j) % VPNS == v <==> (v - b) % VPNS == j
  {
    if (b + j) % VPNS == v {
      var q := (b + j) / VPNS;
      assert v - b == j - q * VPNS;
      DivUnique(v - b, VPNS, -q, j);
    }
    if (v - b) % VPNS == j {
      var q := (v - b) / VPNS;
      assert b + j == v - q * VPNS;
      DivUnique(b + j, VPNS, -q, v);
    }
  }

  /** mmap in closed form: page va + i maps to frame pa + i for i < k, and nothing else is written. */
  lemma {:induction false} WrittenExact(va: nat, pa: nat, flags: nat, k: nat, v: nat)
    requires k <= VPNS && v < VPNS
    ensures Written(va, pa, flags, k, v) ==
              if PagesAbove(va, v) < k then Some(LeafEntry(PageVa(pa, PagesAbove(va, v)), flags)) else None
    decreases k
  {
    hide PageVa, Vpn, PagesAbove, LeafEntry;
    if k > 0 {
      StepMeets(va, k - 1, v);
      WrittenExact(va, pa, flags, k - 1, v);
    }
  }

  /** The last of k steps to write virtual page v, if it is written at all. */
  function LastStep(va: nat, k: nat, v: nat): int {
    PagesAbove(va, v) + (k - 1 - PagesAbove(va, v)) / VPNS * VPNS
  }

  /** What stands at v after any number of steps, going round the 48-bit space or not. */
  lemma {:induction false} WrittenLast(va: nat, pa: nat, flags: nat, k: nat, v: nat)
    requires v < VPNS && PagesAbove(va, v) < k
    ensures 0 <= LastStep(va, k, v) < k
    ensures Written(va, pa, flags, k, v) == Some(LeafEntry(PageVa(pa, LastStep(va, k, v)), flags))
    decreases k
  {
    var a := PagesAbove(va, v);
    MeetsAgain(va, k - 1, v);
    LastStepIs(a, k);
    hide PageVa, Vpn, PagesAbove, LeafEntry;
    if (k - 1) % VPNS != a {
      WrittenLast(va, pa, flags, k - 1, v);
    }
  }

  /** What the first k steps of mmap have written, bit by bit. */
  lemma WrittenWords(va: nat, pa: nat, flags: nat, k: nat)
    ensures var f := if va < USER_END then Or(flags, USER) else flags;
            forall v: nat :: v < VPNS ==>
              var w := Written(va, pa, f, k, v);
              if PagesAbove(va, v) < k then
                w.Some? && LastStep(va, k, v) >= 0
                && LeafWord(w.value, PageVa(pa, LastStep(va, k, v)), flags, va < USER_END)
              else w == None
  {
    var f := if va < USER_END then Or(flags, USER) else flags;
    forall v: nat | v < VPNS
      ensures var w := Written(va, pa, f, k, v);
              if PagesAbove(va, v) < k then
                w.Some? && LastStep(va, k, v) >= 0
                && LeafWord(w.value, PageVa(pa, LastStep(va, k, v)), flags, va < USER_END)
              else w == None
    {
      WrittenSome(va, pa, f, k, v);
      if PagesAbove(va, v) < k {
        WrittenLast(va, pa, f, k, v);
        MmapFlags(PageVa(pa, LastStep(va, k, v)), flags, va < USER_END);
      }
      hide LeafWord, LeafEntry, Written, PagesAbove, PageVa, Or, Bit;
    }
  }

  lemma MeetsAgain(va: nat, j: nat, v: nat)
    requires v < VPNS
    ensures Vpn(PageVa(va, j)) == v <==> j % VPNS == PagesAbove(va, v)
  {
    DropHighBits(va + j * PAGE);
    assert (va + j * PAGE) / PAGE == va / PAGE + j;
    if (va / PAGE + j) % VPNS == v {
      NoFurther(va / PAGE, j, v);
    } else if j % VPNS == PagesAbove(va, v) {
      ModDistance(va / PAGE, j % VPNS, v);
      assert j == j / VPNS * VPNS + j % VPNS;
      var x := va / PAGE + j % VPNS;
      DivUnique(va / PAGE + j, VPNS, x / VPNS + j / VPNS, x % VPNS);
    }
  }

  lemma LastStepIs(a: nat, k: nat)
    requires a < VPNS && a < k
    ensures 0 <= a + (k - 1 - a) / VPNS * VPNS < k
    ensures if (k - 1) % VPNS == a then a + (k - 1 - a) / VPNS * VPNS == k - 1
            else a < k - 1 && (k - 1 - a) / VPNS == (k - 2 - a) / VPNS
  {
    var q, r := (k - 1) / VPNS, (k - 1) % VPNS;
    assert k - 1 == q * VPNS + r;
    if r >= a {
      DivUnique(k - 1 - a, VPNS, q, r - a);
      if r > a {
        DivUnique(k - 2 - a, VPNS, q, r - a - 1);
      }
    } else {
      DivUnique(k - 1 - a, VPNS, q - 1, VPNS + r - a);
      DivUnique(k - 2 - a, VPNS, q - 1, VPNS + r - a - 1);
    }
  }

  /** Page i of an mmap of aligned memory translates to frame pa + i and is present. */
  lemma MmapTranslates(va: nat, pa: nat, flags: nat, n: nat, i: nat)
    requires i < n <= VPNS && pa % PAGE == 0 && pa + n * PAGE <= FRAMES * PAGE && AddrOf(flags) == 0
    ensures var w := Written(va, pa, flags, n, Vpn(PageVa(va, i)));
            w.Some? && Present(w.value) && AddrOf(w.value) == pa + i * PAGE
  {
    assert PageVa(pa, i) == pa + i * PAGE && AddrOf(pa + i * PAGE) == pa + i * PAGE;
    hide PageVa, Vpn, LeafEntry, Or;
    StepMeets(va, i, Vpn(PageVa(va, i)));
    WrittenExact(va, pa, flags, n, Vpn(PageVa(va, i)));
    LeafEntryDecodes(pa + i * PAGE, flags);
  }

  // ---------- what munmap meets ----------

  /** Where munmap's walk ends: the end of the range in the 64 bits that hold it. */
  function End(va: nat, n: nat): nat {
    (va + n) % W64
  }

  /** The loop gets as far as round j: no address before it, nor its own, has reached the end. */
  ghost predicate Runs(va: nat, end: nat, j: nat) {
    forall i :: 0 <= i <= j ==> PageVa(va, i) < end
  }

  /** One of the first k rounds clears virtual page v; the address wraps round at 2^64. */
  ghost predicate MetWithin(va: nat, end: nat, k: nat, v: nat) {
    exists j :: 0 <= j < k && Runs(va, end, j) && Vpn(PageVa(va, j)) == v
  }

  /** Some round does. */
  ghost predicate Met(va: nat, end: nat, v: nat) {
    exists j :: 0 <= j && Runs(va, end, j) && Vpn(PageVa(va, j)) == v
  }

  /** Whether the last page below end leaves room for one more step below 2^64. */
  predicate LoopEnds(va: nat, end: nat) {
    va >= end || va + (end - va - 1) / PAGE * PAGE + PAGE < W64
  }

  /** munmap's loop comes to an end exactly then: a step past 2^64 starts again below the range and never leaves it. */
  lemma LoopEndsExact(va: nat, end: nat)
    requires va < W64 && end < W64
    ensures LoopEnds(va, end) <==> exists j :: PageVa(va, j) >= end
  {
    if va >= end {
      assert PageVa(va, 0) == va;
    } else {
      var k := (end - va - 1) / PAGE;
      var last := va + k * PAGE;
      if last + PAGE < W64 {
        assert PageVa(va, k + 1) == last + PAGE;
      } else {
        forall j: nat ensures PageVa(va, j) < end {
          SameOffset(va, j, last, k);
        }
      }
    }
  }

  /** Every round stands at the same offset in its page, so none stands above one that is in the last page. */
  lemma SameOffset(va: nat, j: nat, last: nat, k: nat)
    requires va < W64 && last == va + k * PAGE && W64 - PAGE <= last < W64
    ensures PageVa(va, j) <= last
  {
    var x, q := PageVa(va, j), (va + j * PAGE) / W64;
    assert va + j * PAGE == q * W64 + x;
    var m := j - k - q * 0x10_0000_0000_0000;
    assert x - last == m * PAGE;
  }

  /** A loop that ends runs as far as the range reaches. */
  lemma EndingRuns(va: nat, end: nat, j: nat)
    requires va < W64 && end < W64 && LoopEnds(va, end)
    ensures Runs(va, end, j) <==> va + j * PAGE < end
  {
    if va + j * PAGE < end {
      forall i | 0 <= i <= j ensures PageVa(va, i) < end {
        assert i * PAGE <= j * PAGE;
      }
    } else if va < end {
      var k := (end - va - 1) / PAGE;
      assert PageVa(va, k + 1) == va + k * PAGE + PAGE >= end;
    } else {
      assert PageVa(va, 0) == va;
    }
  }

  /** One that does not end runs on and on. */
  lemma EndlessRuns(va: nat, end: nat, j: nat)
    requires va < W64 && end < W64 && !LoopEnds(va, end)
    ensures Runs(va, end, j)
  {
    var k := (end - va - 1) / PAGE;
    forall i: nat ensures PageVa(va, i) < end {
      SameOffset(va, i, va + k * PAGE, k);
    }
  }

  /** The round that meets v for the first time is the one v lies that many pages above the start. */
  lemma FirstMeeting(va: nat, j: nat, v: nat)
    requires v < VPNS && Vpn(PageVa(va, j)) == v
    ensures PagesAbove(va, v) <= j
  {
    DropHighBits(va + j * PAGE);
    assert (va + j * PAGE) / PAGE == va / PAGE + j;
    NoFurther(va / PAGE, j, v);
  }

  lemma NoFurther(b: nat, d: nat, v: nat)
    requires v < VPNS && (b + d) % VPNS == v
    ensures (v - b) % VPNS == d % VPNS <= d
  {
    var q := (b + d) / VPNS;
    assert v - b == (d / VPNS - q) * VPNS + d % VPNS;
    DivUnique(v - b, VPNS, d / VPNS - q, d % VPNS);
  }

  /**
   munmap in closed form: a loop that ends meets as many pages as the range is long, counted in steps from its start;
   one that does not end meets every page there is.
   */
  lemma MetExact(va: nat, n: nat, v: nat)
    requires va < W64 && n < W64 && v < VPNS
    ensures Met(va, End(va, n), v) <==>
            n > 0 && va + n < W64 && (LoopEnds(va, End(va, n)) ==> PagesAbove(va, v) <= (n - 1) / PAGE)
  {
    var end, a := End(va, n), PagesAbove(va, v);
    EndIs(va, n);
    AboveBound(va, v);
    StepMeets(va, a, v);
    hide PageVa, Vpn, PagesAbove, End;
    if LoopEnds(va, end) {
      forall j: nat | Runs(va, end, j) && Vpn(PageVa(va, j)) == v ensures va + a * PAGE < end {
        EndingRuns(va, end, j);
        FirstMeeting(va, j, v);
        assert a * PAGE <= j * PAGE;
      }
      EndingRuns(va, end, a);
      hide Runs, LoopEnds;
      assert Met(va, end, v) <==> va + a * PAGE < end;
      WithinRange(a, n);
    } else {
      EndlessRuns(va, end, a);
    }
  }

  lemma EndIs(va: nat, n: nat)
    requires va < W64 && n < W64
    ensures End(va, n) == if va + n < W64 then va + n else va + n - W64
  {
  }

  lemma WithinRange(a: nat, n: nat)
    ensures a * PAGE < n <==> n > 0 && a <= (n - 1) / PAGE
  {
  }

  lemma AboveBound(va: nat, v: nat)
    ensures PagesAbove(va, v) < VPNS
  {
  }

  /** Virtual page v holds one of the n bytes from va on. */
  ghost predicate HoldsByte(va: nat, n: nat, v: nat) {
    exists b :: va <= b < va + n && Vpn(b) == v
  }

  lemma HoldsExact(va: nat, n: nat, v: nat)
    requires v < VPNS
    ensures HoldsByte(va, n, v) <==> n > 0 && PagesAbove(va, v) <= (va % PAGE + n - 1) / PAGE
  {
    var a, offset := PagesAbove(va, v), va % PAGE;
    assert va == va / PAGE * PAGE + offset;
    forall b: nat | va <= b < va + n && Vpn(b) == v ensures a <= (offset + n - 1) / PAGE {
      var d := (offset + (b - va)) / PAGE;
      assert b / PAGE == va / PAGE + d;
      NoFurther(va / PAGE, d, v);
      QuotientMonotone(offset + (b - va), offset + n - 1);
    }
    if n > 0 && a <= (offset + n - 1) / PAGE {
      var b := if a == 0 then va else (va / PAGE + a) * PAGE;
      AboveBound(va, v);
      ModDistance(va / PAGE, a, v);
      assert b / PAGE == va / PAGE + a;
      assert va <= b < va + n && Vpn(b) == v;
    }
  }

  lemma QuotientMonotone(x: nat, y: nat)
    requires x <= y
    ensures x / PAGE <= y / PAGE
  {
  }

  /** There is a page at every distance. */
  lemma PageAt(va: nat, d: nat) returns (v: nat)
    requires d < VPNS
    ensures v < VPNS && PagesAbove(va, v) == d
  {
    v := (va / PAGE + d) % VPNS;
    ModDistance(va / PAGE, d, v);
  }

  /** How many pages past its first one the range reaches, and how many steps munmap would take for its length. */
  function Spanned(va: nat, n: nat): int {
    (va % PAGE + n - 1) / PAGE
  }

  function Steps(n: nat): int {
    (n - 1) / PAGE
  }

  /** The offset of the start adds at most one page. */
  lemma OffsetAdds(va: nat, n: nat)
    requires n > 0
    ensures 0 <= Steps(n) <= Spanned(va, n) <= Steps(n) + 1
  {
  }

  /**
   munmap of n bytes removes every page that holds one of them exactly when there are none, or when the range ends
   below 2^64 and the loop does not end, or the offset of its start does not push the last byte onto a further page,
   or it goes all the way round the 48-bit space.
   */
  lemma MunmapCoversRange(va: nat, n: nat)
    requires va < W64 && n < W64
    ensures (forall v: nat :: v < VPNS && HoldsByte(va, n, v) ==> Met(va, End(va, n), v))
       <==> n == 0 || (va + n < W64 && (LoopEnds(va, End(va, n)) ==>
                                          Spanned(va, n) == Steps(n) || Steps(n) >= VPNS - 1))
  {
    forall v: nat | v < VPNS
      ensures HoldsByte(va, n, v) <==> n > 0 && PagesAbove(va, v) <= Spanned(va, n)
      ensures Met(va, End(va, n), v) <==>
              n > 0 && va + n < W64 && (LoopEnds(va, End(va, n)) ==> PagesAbove(va, v) <= Steps(n))
      ensures PagesAbove(va, v) < VPNS
    {
      HoldsExact(va, n, v);
      MetExact(va, n, v);
      AboveBound(va, v);
    }
    if n > 0 {
      OffsetAdds(va, n);
      hide *;
      var first := PageAt(va, 0);
      assert HoldsByte(va, n, first);
      if Spanned(va, n) < VPNS {
        var last := PageAt(va, Spanned(va, n));
        assert HoldsByte(va, n, last);
      }
    }
  }

  /**
   Everything it removes holds one of them exactly when the loop ends or the range holds a byte of every page: a loop
   that does not end goes on to remove every page there is.
   */
  lemma MunmapInsideRange(va: nat, n: nat)
    requires va < W64 && n < W64
    ensures (forall v: nat :: v < VPNS && Met(va, End(va, n), v) ==> HoldsByte(va, n, v))
       <==> LoopEnds(va, End(va, n)) || Spanned(va, n) >= VPNS - 1
  {
    forall v: nat | v < VPNS
      ensures HoldsByte(va, n, v) <==> n > 0 && PagesAbove(va, v) <= Spanned(va, n)
      ensures Met(va, End(va, n), v) <==>
              n > 0 && va + n < W64 && (LoopEnds(va, End(va, n)) ==> PagesAbove(va, v) <= Steps(n))
      ensures PagesAbove(va, v) < VPNS
    {
      HoldsExact(va, n, v);
      MetExact(va, n, v);
      AboveBound(va, v);
    }
    if !LoopEnds(va, End(va, n)) {
      EndIs(va, n);
    }
    if n > 0 {
      OffsetAdds(va, n);
    }
    hide *;
    var farthest := PageAt(va, VPNS - 1);
    assert !LoopEnds(va, End(va, n)) ==> Met(va, End(va, n), farthest);
  }

  /** So munmap removes exactly the pages of the range under this condition, and otherwise too few or too many. */
  lemma MunmapExact(va: nat, n: nat)
    requires va < W64 && n < W64
    ensures (forall v: nat :: v < VPNS ==> (Met(va, End(va, n), v) <==> HoldsByte(va, n, v)))
       <==> n == 0
            || (va + n < W64 && if LoopEnds(va, End(va, n)) then Spanned(va, n) == Steps(n) || Steps(n) >= VPNS - 1
                                else Spanned(va, n) >= VPNS - 1)
  {
    MunmapCoversRange(va, n);
    MunmapInsideRange(va, n);
    EndIs(va, n);
    hide Met, HoldsByte, Spanned, Steps, End;
  }

  /** Two bytes on either side of a page boundary: the second one's page is not removed. */
  lemma LastPageMissed()
    ensures HoldsByte(PAGE - 1, 2, 1) && !Met(PAGE - 1, End(PAGE - 1, 2), 1)
  {
    HoldsExact(PAGE - 1, 2, 1);
    MetExact(PAGE - 1, 2, 1);
  }

  /** One byte in the topmost page: the loop does not end, and goes on to remove every page, held by a byte or not. */
  lemma TopByteUnmapsAll(v: nat)
    requires v < VPNS
    ensures !LoopEnds(W64 - PAGE, End(W64 - PAGE, 1)) && Met(W64 - PAGE, End(W64 - PAGE, 1), v)
    ensures HoldsByte(W64 - PAGE, 1, v) <==> v == VPNS - 1
  {
    MetExact(W64 - PAGE, 1, v);
    HoldsExact(W64 - PAGE, 1, v);
    ModDistance((W64 - PAGE) / PAGE, 0, v);
  }

  /** At least one page is written however often the walk has gone round the 48-bit space. */
  lemma {:induction false} WrittenSome(va: nat, pa: nat, flags: nat, k: nat, v: nat)
    requires v < VPNS
    ensures Written(va, pa, flags, k, v).Some? <==> PagesAbove(va, v) < k
    decreases k
  {
    hide PageVa, Vpn, PagesAbove, LeafEntry;
    if k > VPNS {
      WrittenSome(va, pa, flags, k - 1, v);
      assert PagesAbove(va, v) < VPNS by {
        AboveBound(va, v);
      }
    } else {
      WrittenExact(va, pa, flags, k, v);
    }
  }

  /**
   munmap of n pages' worth of bytes removes exactly the pages an mmap of n pages wrote, if and only if there are
   none or they end below 2^64.
   */
  lemma MunmapUndoesMmap(va: nat, pa: nat, flags: nat, n: nat)
    requires va < W64 && n * PAGE < W64
    ensures (forall v: nat :: v < VPNS ==>
              (Met(va, End(va, n * PAGE), v) <==> Written(va, pa, flags, n, v) != None))
       <==> n == 0 || va + n * PAGE < W64
  {
    forall v: nat | v < VPNS
      ensures Written(va, pa, flags, n, v) != None <==> PagesAbove(va, v) < n
      ensures Met(va, End(va, n * PAGE), v) <==> n > 0 && va + n * PAGE < W64 && PagesAbove(va, v) < n
    {
      WrittenSome(va, pa, flags, n, v);
      MetExact(va, n * PAGE, v);
      WholePages(va, n);
    }
    hide *;
    var first := PageAt(va, 0);
    assert n > 0 ==> Written(va, pa, flags, n, first) != None;
  }

  lemma WholePages(va: nat, n: nat)
    requires va < W64
    ensures n > 0 ==> (n * PAGE - 1) / PAGE == n - 1
    ensures n > 0 && va + n * PAGE < W64 ==> LoopEnds(va, End(va, n * PAGE))
  {
    if n > 0 {
      DivUnique(n * PAGE - 1, PAGE, n - 1, PAGE - 1);
      if va + n * PAGE < W64 {
        assert End(va, n * PAGE) == va + n * PAGE;
      }
    }
  }

  /** The topmost page of the address space is written by an mmap and left alone by the munmap that should undo it. */
  lemma TopPageStays(pa: nat, flags: nat)
    ensures Written(W64 - PAGE, pa, flags, 1, VPNS - 1).Some?
    ensures !Met(W64 - PAGE, End(W64 - PAGE, PAGE), VPNS - 1)
  {
    WrittenSome(W64 - PAGE, pa, flags, 1, VPNS - 1);
    MetExact(W64 - PAGE, PAGE, VPNS - 1);
  }

  // ---------- the higher-half window ----------

  function PaToVa(pa: nat): nat {
    if pa >= HIGH_HALF then pa else (pa + HIGH_HALF) % W64
  }

  function VaToPa(va: nat): nat {
    if va <= USER_END then va else (va - HIGH_HALF) % W64
  }

  /** The window round-trips below 128 TiB; from there to 256 TiB, and from its own start on, it does not. */
  lemma WindowRoundTrip(pa: nat)
    requires pa < W64
    ensures VaToPa(PaToVa(pa)) == pa <==> pa < USER_END || 2 * USER_END < pa < HIGH_HALF
  {
  }

  /** One round that is not the last leaves the walk inside 64 bits, with as much left to do. */
  lemma NextRound(va: nat, end: nat)
    requires va < end < W64 && LoopEnds(va, end)
    ensures va + PAGE < W64 && LoopEnds(va + PAGE, end)
  {
    if va + PAGE < end {
      assert (end - va - 1) / PAGE == (end - (va + PAGE) - 1) / PAGE + 1;
    }
  }

  class AddressSpace {
    var cr3: nat
    var mem: Memory
    /** The pages pmm::alloc will hand out, in order; none left means it returns null. */
    var pool: seq<nat>
    ghost var role: map<nat, Role>

    ghost predicate Valid()
      reads this
    {
      && Tree(mem, role, cr3) && 0 !in mem
      && (forall i :: 0 <= i < |pool| ==> FreshPage(pool[i]) && pool[i] !in mem)
      && (forall i, j :: 0 <= i < j < |pool| ==> pool[i] != pool[j])
    }

    ghost function Flat(v: nat): Option<nat>
      reads this
    {
      Lookup(mem, cr3, 4, v)
    }

    /** A top table with nothing under it, and the pages still to be had. */
    constructor (top: nat, pages: seq<nat>)
      requires top > 0 && top !in pages
      requires (forall i :: 0 <= i < |pages| ==> FreshPage(pages[i]))
      requires (forall i, j :: 0 <= i < j < |pages| ==> pages[i] != pages[j])
      ensures Valid() && cr3 == top && pool == pages
      ensures forall v: nat :: Flat(v) == None
    {
      cr3 := top;
      mem := map[top := Zeros()];
      pool := pages;
      role := map[top := Role(4, 0)];
    }

    method PmmAlloc() returns (page: nat)
      modifies this`pool
      ensures old(pool) == [] ==> page == 0 && pool == []
      ensures old(pool) != [] ==> page == old(pool)[0] && pool == old(pool)[1..]
    {
      if pool == [] {
        page := 0;
      } else {
        page := pool[0];
        pool := pool[1..];
      }
    }

    /** Entries that were present stay as they are. */
    static ghost predicate Extends(m: Memory, m': Memory) {
      && (forall t :: t in m ==> t in m' && |m'[t]| == |m[t]|)
      && (forall t, i {:trigger m[t][i]} :: t in m && 0 <= i < |m[t]| && Present(m[t][i]) ==> m'[t][i] == m[t][i])
    }

    static ghost predicate Points(m: Memory, t: nat, i: nat, c: nat) {
      t in m && i < |m[t]| && Present(m[t][i]) && AddrOf(m[t][i]) == c
    }

    method GetOrCreateTable(parent: nat, idx: nat, flags: nat) returns (child: nat)
      requires Valid() && parent in mem && parent in role && role[parent].level > 1 && idx < 512
      modifies this`mem, this`pool, this`role
      ensures Valid() && Extends(old(mem), mem)
      ensures forall v: nat :: Flat(v) == old(Flat(v))
      ensures child == 0 ==> old(pool) == [] && pool == []
      ensures child != 0 ==>
                && Points(mem, parent, idx, child) && child in mem && child in role
                && role[child] == Role(old(role)[parent].level - 1, old(role)[parent].prefix * 512 + idx)
      ensures TablesGrown(old(mem), mem, role, Bit(flags, 2)) && SameRoles(old(mem), old(role), role)
    {
      hide TablesGrown, TableEntry, Bit, TableWord, Or;
      GrownNot(mem, role, Bit(flags, 2));
      assert TableOk(mem, role, parent);
      var words := mem[parent];
      if !Present(words[idx]) {
        var page := PmmAlloc();
        if page == 0 {
          return 0;
        }
        NewTableKeepsTree(mem, role, cr3, parent, idx, page, flags);
        ghost var mem' := Store(mem[page := Zeros()], parent, idx, TableEntry(page, flags));
        forall v: nat ensures Lookup(mem', cr3, 4, v) == Lookup(mem, cr3, 4, v) {
          NewTableFrame(mem, role, parent, idx, page, flags, cr3, 4, v);
        }
        TableEntryDecodes(page, flags);
        NewTableGrows(mem, role[page := Role(role[parent].level - 1, role[parent].prefix * 512 + idx)], parent, idx,
                      page, flags);
        mem := mem[page := Zeros()];
        mem := Store(mem, parent, idx, TableEntry(page, flags));
        role := role[page := Role(role[parent].level - 1, role[parent].prefix * 512 + idx)];
      }
      child := AddrOf(mem[parent][idx]);
    }

    /** Tables keep their place, and entries for tables are only added. */
    static ghost predicate Grown(m: Memory, role: map<nat, Role>, m': Memory, role': map<nat, Role>, user: bool) {
      m.Keys <= m'.Keys && SameRoles(m, role, role') && TablesGrown(m, m', role', user)
    }

    /** Tables keep their place. */
    static ghost predicate SameRoles(m: Memory, role: map<nat, Role>, role': map<nat, Role>) {
      forall t :: t in m && t in role' ==> t in role && role'[t] == role[t]
    }

    /** One round of mmap's loop. */
    method MapPage(va: nat, pa: nat, flags: nat) returns (ok: bool)
      requires Valid()
      modifies this`mem, this`pool, this`role
      ensures Valid()
      ensures !ok ==> pool == []
      ensures forall v: nat :: v < VPNS ==>
                Flat(v) == if ok && v == Vpn(va) then Some(LeafEntry(pa, flags)) else old(Flat(v))
      ensures Grown(old(mem), old(role), mem, role, Bit(flags, 2))
    {
      hide Tree, Lookup, AddressSpace.Points, AddressSpace.Extends, LeafEntry, TablesGrown, Grown, SameRoles, Bit;
      var vpn := Vpn(va);
      ok := false;
      RootRole(mem, role, cr3);
      var pdpt := GetOrCreateTable(cr3, Index(4, vpn), flags);
      GrownFrom(old(mem), old(role), mem, role, Bit(flags, 2));
      if pdpt == 0 {
        return;
      }
      ghost var m1, r1 := mem, role;
      var pd := GetOrCreateTable(pdpt, Index(3, vpn), flags);
      GrownFrom(m1, r1, mem, role, Bit(flags, 2));
      GrownAgain(old(mem), old(role), m1, r1, mem, role, Bit(flags, 2));
      if pd == 0 {
        return;
      }
      ghost var m2, r2 := mem, role;
      var pt := GetOrCreateTable(pd, Index(2, vpn), flags);
      GrownFrom(m2, r2, mem, role, Bit(flags, 2));
      GrownAgain(old(mem), old(role), m2, r2, mem, role, Bit(flags, 2));
      if pt == 0 {
        return;
      }
      StillPoints(m1, m2, cr3, Index(4, vpn), pdpt);
      StillPoints(m2, mem, cr3, Index(4, vpn), pdpt);
      StillPoints(m2, mem, pdpt, Index(3, vpn), pd);
      PrefixStep(4, vpn);
      PrefixStep(3, vpn);
      PrefixStep(2, vpn);
      LeafEntryDecodes(pa, flags);
      StoreLeaf(mem, role, cr3, pdpt, pd, pt, vpn, LeafEntry(pa, flags));
      ghost var m3 := mem;
      mem := Store(mem, pt, Index(1, vpn), LeafEntry(pa, flags));
      LeafGrown(m3, role, pt, Index(1, vpn), LeafEntry(pa, flags), Bit(flags, 2));
      GrownAgain(old(mem), old(role), m3, role, mem, role, Bit(flags, 2));
      ok := true;
    }

    /**
     Maps n pages. `done` counts the pages mapped before memory for tables ran out; the flat view is the old one
     overwritten by exactly those pages, in order. (The null result is ambiguous only for vaddr == 0.)
     */
    method Mmap(paddr: nat, vaddr: nat, n: nat, flags: nat) returns (ret: nat, ghost done: nat)
      requires Valid() && vaddr < W64 && paddr < W64
      modifies this`mem, this`pool, this`role
      ensures Valid() && done <= n
      ensures ret == if done == n then vaddr else 0
      ensures done < n ==> pool == []
      ensures var f := if vaddr < USER_END then Or(flags, USER) else flags;
              forall v: nat :: v < VPNS ==> Flat(v) == Over(Written(vaddr, paddr, f, done, v), old(Flat(v)))
      ensures forall v: nat :: v < VPNS ==>
                if PagesAbove(vaddr, v) < done then
                  Flat(v).Some? && LastStep(vaddr, done, v) >= 0
                  && LeafWord(Flat(v).value, PageVa(paddr, LastStep(vaddr, done, v)), flags, vaddr < USER_END)
                else Flat(v) == old(Flat(v))
      ensures Grown(old(mem), old(role), mem, role, Bit(flags, 2) || vaddr < USER_END)
    {
      hide Tree, Lookup, LeafEntry, Or, Grown, Bit, LeafWord;
      MmapFlags(0, flags, vaddr < USER_END);
      NothingGrown(mem, role, Bit(flags, 2) || vaddr < USER_END);
      var f := flags;
      if vaddr < USER_END {
        f := Or(f, USER);
      }
      var va, pa := vaddr, paddr;
      var i := 0;
      done := 0;
      while i < n
        invariant i <= n && Valid() && va == PageVa(vaddr, i) && pa == PageVa(paddr, i) && done == i
        invariant forall v: nat :: v < VPNS ==> Flat(v) == Over(Written(vaddr, paddr, f, i, v), old(Flat(v)))
        invariant Grown(old(mem), old(role), mem, role, Bit(f, 2))
      {
        ghost var m0, r0 := mem, role;
        var ok := MapPage(va, pa, f);
        GrownAgain(old(mem), old(role), m0, r0, mem, role, Bit(f, 2));
        if !ok {
          ret := 0;
          WrittenWords(vaddr, paddr, flags, done);
          return;
        }
        NextPage(vaddr, i);
        NextPage(paddr, i);
        va, pa := (va + PAGE) % W64, (pa + PAGE) % W64;
        i := i + 1;
        done := i;
      }
      WrittenWords(vaddr, paddr, flags, done);
      ret := vaddr;
    }

    /** One round of munmap's loop. */
    method UnmapPage(va: nat)
      requires Valid()
      modifies this`mem
      ensures Valid()
      ensures forall v: nat :: v < VPNS ==> Flat(v) == if v == Vpn(va) then None else old(Flat(v))
    {
      var vpn := Vpn(va);
      PrefixStep(4, vpn);
      PrefixStep(3, vpn);
      PrefixStep(2, vpn);
      assert TableOk(mem, role, cr3);
      var words := mem[cr3];
      var pml4e := words[Index(4, vpn)];
      if !Present(pml4e) {
        return;
      }
      var pdpt := AddrOf(pml4e);
      assert TableOk(mem, role, pdpt);
      words := mem[pdpt];
      var pdpte := words[Index(3, vpn)];
      if !Present(pdpte) {
        assert Lookup(mem, pdpt, 3, vpn) == None;
        return;
      }
      var pd := AddrOf(pdpte);
      assert TableOk(mem, role, pd);
      words := mem[pd];
      var pde := words[Index(2, vpn)];
      if !Present(pde) {
        assert Lookup(mem, pd, 2, vpn) == None && Lookup(mem, pdpt, 3, vpn) == None;
        return;
      }
      var pt := AddrOf(pde);
      StoreLeaf(mem, role, cr3, pdpt, pd, pt, vpn, 0);
      mem := Store(mem, pt, Index(1, vpn), 0);
    }

    /** munmap, where its loop ends. */
    method Munmap(vaddr: nat, n: nat)
      requires Valid() && vaddr < W64 && n < W64 && LoopEnds(vaddr, End(vaddr, n))
      modifies this`mem
      ensures Valid()
      ensures forall v: nat :: v < VPNS ==> Flat(v) == if Met(vaddr, End(vaddr, n), v) then None else old(Flat(v))
    {
      hide Tree, Lookup, Vpn, PageVa, Runs, LoopEnds;
      var va := vaddr;
      var end := (vaddr + n) % W64;
      ghost var i := 0;
      MetNothing(vaddr, end);
      while va < end
        invariant Valid() && va < W64 && LoopEnds(va, end) && va == PageVa(vaddr, i)
        invariant i > 0 ==> Runs(vaddr, end, i - 1)
        invariant forall v: nat :: v < VPNS ==> Flat(v) == if MetWithin(vaddr, end, i, v) then None else old(Flat(v))
        decreases end - va
      {
        UnmapPage(va);
        MetMore(vaddr, end, i);
        NextRound(va, end);
        NextPage(vaddr, i);
        va := (va + PAGE) % W64;
        i := i + 1;
      }
      MetAll(vaddr, end, i);
    }

    /** The first rounds of munmap's loop, whether it ends or not; `over` says that it has. */
    method MunmapRounds(vaddr: nat, n: nat, rounds: nat) returns (over: bool)
      requires Valid() && vaddr < W64 && n < W64
      modifies this`mem
      ensures Valid()
      ensures over <==> exists j :: 0 <= j <= rounds && PageVa(vaddr, j) >= End(vaddr, n)
      ensures forall v: nat :: v < VPNS ==>
                Flat(v) == if MetWithin(vaddr, End(vaddr, n), rounds, v) then None else old(Flat(v))
    {
      hide Tree, Lookup, Vpn, PageVa, Runs;
      var va := vaddr;
      var end := (vaddr + n) % W64;
      var i := 0;
      MetNothing(vaddr, end);
      while va < end && i < rounds
        invariant Valid() && va < W64 && va == PageVa(vaddr, i) && i <= rounds
        invariant i > 0 ==> Runs(vaddr, end, i - 1)
        invariant forall v: nat :: v < VPNS ==> Flat(v) == if MetWithin(vaddr, end, i, v) then None else old(Flat(v))
        decreases rounds - i
      {
        UnmapPage(va);
        MetMore(vaddr, end, i);
        NextPage(vaddr, i);
        va := (va + PAGE) % W64;
        i := i + 1;
      }
      over := va >= end;
      RunsBelow(vaddr, end, i);
      if over {
        MetAll(vaddr, end, i);
      }
    }
  }

  /** Before the first round no page has been met. */
  lemma MetNothing(va: nat, end: nat)
    requires va < W64
    ensures PageVa(va, 0) == va && forall v :: !MetWithin(va, end, 0, v)
  {
  }

  /** One more round meets one more page. */
  lemma MetMore(va: nat, end: nat, i: nat)
    requires PageVa(va, i) < end && (i > 0 ==> Runs(va, end, i - 1))
    ensures Runs(va, end, i)
    ensures forall v :: MetWithin(va, end, i + 1, v) <==> MetWithin(va, end, i, v) || Vpn(PageVa(va, i)) == v
  {
    hide PageVa, Vpn;
  }

  /** Once an address has reached the end, all rounds there are have been made. */
  lemma MetAll(va: nat, end: nat, i: nat)
    requires PageVa(va, i) >= end
    ensures forall v :: Met(va, end, v) <==> MetWithin(va, end, i, v)
    ensures forall k, v :: i <= k ==> (MetWithin(va, end, k, v) <==> MetWithin(va, end, i, v))
  {
    hide PageVa, Vpn;
    forall j: nat | Runs(va, end, j) ensures j < i {
    }
    hide Runs;
  }

  lemma RunsBelow(va: nat, end: nat, i: nat)
    requires i > 0 ==> Runs(va, end, i - 1)
    ensures forall j :: 0 <= j < i ==> PageVa(va, j) < end
  {
    hide PageVa;
  }

  /** A page mapped at the top of the address space cannot be unmapped again. */
  method MapThenUnmapTop(a: AddressSpace, pa: nat, flags: nat) returns (ghost done: nat)
    requires a.Valid() && pa < W64
    modifies a
    ensures a.Valid() && done <= 1 && (done < 1 ==> a.pool == [])
    ensures done == 1 ==> a.Flat(VPNS - 1).Some?
  {
    var _, mapped := a.Mmap(pa, W64 - PAGE, 1, flags);
    done := mapped;
    hide AddressSpace.Flat, AddressSpace.Valid;
    assert LoopEnds(W64 - PAGE, End(W64 - PAGE, PAGE));
    TopPageStays(pa, flags);
    a.Munmap(W64 - PAGE, PAGE);
  }

  /** Asked to unmap one byte of the topmost page, munmap has removed everything after 2^36 rounds, and goes on. */
  method UnmapTopByte(a: AddressSpace) returns (over: bool)
    requires a.Valid()
    modifies a
    ensures !over && forall v: nat :: v < VPNS ==> a.Flat(v) == None
  {
    over := a.MunmapRounds(W64 - PAGE, 1, VPNS);
    hide AddressSpace.Flat, AddressSpace.Valid;
    var va, end := W64 - PAGE, End(W64 - PAGE, 1);
    forall v: nat | v < VPNS ensures MetWithin(va, end, VPNS, v) {
      TopByteUnmapsAll(v);
      AboveBound(va, v);
      StepMeets(va, PagesAbove(va, v), v);
      EndlessRuns(va, end, PagesAbove(va, v));
    }
    TopByteUnmapsAll(0);
    LoopEndsExact(va, end);
  }

  lemma GrownFrom(m: Memory, role: map<nat, Role>, m': Memory, role': map<nat, Role>, user: bool)
    requires AddressSpace.Extends(m, m') && AddressSpace.SameRoles(m, role, role') && TablesGrown(m, m', role', user)
    ensures AddressSpace.Grown(m, role, m', role', user)
  {
    hide TablesGrown, AddressSpace.SameRoles;
  }

  lemma GrownAgain(m: Memory, role: map<nat, Role>, m': Memory, role': map<nat, Role>, m'': Memory,
                   role'': map<nat, Role>, user: bool)
    requires AddressSpace.Grown(m, role, m', role', user) && AddressSpace.Grown(m', role', m'', role'', user)
    ensures AddressSpace.Grown(m, role, m'', role'', user)
  {
    GrownTwice(m, m', m'', role', role'', user);
    hide TablesGrown;
  }

  lemma LeafGrown(m: Memory, role: map<nat, Role>, t: nat, i: nat, e: nat, user: bool)
    requires t in m && i < |m[t]| && t in role && role[t].level == 1
    ensures AddressSpace.Grown(m, role, Store(m, t, i, e), role, user)
  {
    LeafStoreGrows(m, role, t, i, e, user);
    hide TablesGrown;
  }

  lemma NothingGrown(m: Memory, role: map<nat, Role>, user: bool)
    ensures AddressSpace.Grown(m, role, m, role, user)
  {
    GrownNot(m, role, user);
    hide TablesGrown;
  }

  lemma StillPoints(m: Memory, m': Memory, t: nat, i: nat, c: nat)
    requires AddressSpace.Extends(m, m') && AddressSpace.Points(m, t, i, c)
    ensures AddressSpace.Points(m', t, i, c)
  {
  }

  lemma RootRole(mem: Memory, role: map<nat, Role>, root: nat)
    requires Tree(mem, role, root)
    ensures root in mem && root in role && role[root] == Role(4, 0)
  {
  }

  /** Writing the leaf entry at the end of a complete path to page vpn. */
  lemma StoreLeaf(mem: Memory, role: map<nat, Role>, root: nat, pdpt: nat, pd: nat, pt: nat, vpn: nat, e: nat)
    requires Tree(mem, role, root) && vpn < VPNS && pt in mem && pt in role && role[pt] == Role(1, Prefix(1, vpn))
    requires AddressSpace.Points(mem, root, Index(4, vpn), pdpt) && AddressSpace.Points(mem, pdpt, Index(3, vpn), pd)
    requires AddressSpace.Points(mem, pd, Index(2, vpn), pt) && (Present(e) || e == 0)
    ensures |mem[pt]| == 512 && Tree(Store(mem, pt, Index(1, vpn), e), role, root)
    ensures forall v: nat :: v < VPNS ==>
              Lookup(Store(mem, pt, Index(1, vpn), e), root, 4, v) ==
                (if v != vpn then Lookup(mem, root, 4, v) else if Present(e) then Some(e) else None)
  {
    assert TableOk(mem, role, pt);
    assert TableOk(mem, role, pd);
    assert TableOk(mem, role, pdpt);
    assert TableOk(mem, role, root);
    LeafStoreKeepsTree(mem, role, root, pt, Index(1, vpn), e);
    PrefixStep(1, vpn);
    forall v: nat | v < VPNS && v != vpn
      ensures Lookup(Store(mem, pt, Index(1, vpn), e), root, 4, v) == Lookup(mem, root, 4, v)
    {
      StoreFrame(mem, role, pt, Index(1, vpn), e, root, 4, v);
    }
    var m' := Store(mem, pt, Index(1, vpn), e);
    assert Lookup(m', pt, 1, vpn) == if Present(e) then Some(e) else None;
    assert Lookup(m', pd, 2, vpn) == Lookup(m', pt, 1, vpn);
    assert Lookup(m', pdpt, 3, vpn) == Lookup(m', pd, 2, vpn);
  }
}
