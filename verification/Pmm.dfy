/**
 The buddy allocator of physical pages. A block of order o and index i is the run of pages p with
 p / 2^o == i, counted from the base of its segment; block addresses are base + 4096 * 2^o * i.
 */
module Pmm {
  import opened Powers

  datatype Block = Block(order: nat, index: nat)

  const ORDERS: nat := 16
  const WORD: nat := 0x1_0000_0000_0000_0000

  // ---------- the tree of aligned blocks ----------

  /** p / 2^o: the index of the order-o block that holds page (or lower-order block) p. */
  function Anc(p: nat, o: nat): nat {
    if o == 0 then p else Anc(p / 2, o - 1)
  }

  function FirstPage(b: Block): nat
    decreases b.order
  {
    if b.order == 0 then b.index else FirstPage(Block(b.order - 1, 2 * b.index))
  }

  function Buddy(i: nat): (j: nat)
    ensures j != i && j / 2 == i / 2
  {
    if i % 2 == 0 then i + 1 else i - 1
  }

  ghost predicate Holds(b: Block, p: nat) {
    Anc(p, b.order) == b.index
  }

  lemma {:induction false} AncAdd(p: nat, a: nat, b: nat)
    ensures Anc(Anc(p, a), b) == Anc(p, a + b)
    decreases a
  {
    if a > 0 {
      AncAdd(p / 2, a - 1, b);
    }
  }

  lemma {:induction false} FirstPageHeld(b: Block)
    ensures Holds(b, FirstPage(b))
    decreases b.order
  {
    if b.order > 0 {
      var c := Block(b.order - 1, 2 * b.index);
      FirstPageHeld(c);
      AncAdd(FirstPage(c), c.order, 1);
      assert Anc(c.index, 1) == c.index / 2;
    }
  }

  lemma {:induction false} FirstPageProduct(b: Block)
    ensures FirstPage(b) == b.index * Pow2(b.order)
    decreases b.order
  {
    if b.order > 0 {
      FirstPageProduct(Block(b.order - 1, 2 * b.index));
      assert 2 * b.index * Pow2(b.order - 1) == b.index * (2 * Pow2(b.order - 1));
    }
  }

  /** Inside(b, max): b lies within the segment's 2^max pages. */
  ghost predicate Inside(b: Block, max: nat) {
    b.order <= max && Anc(b.index, max - b.order) == 0
  }

  // ---------- partitions ----------

  /** `blocks` partition the pages: page p lies in exactly one of them, of order cov(p). */
  ghost predicate Partition(blocks: set<Block>, cov: nat -> nat, max: nat) {
    && (forall b :: b in blocks ==> Inside(b, max))
    && (forall p, o {:trigger Block(o, Anc(p, o)) in blocks} :: Anc(p, max) == 0 ==>
          (Block(o, Anc(p, o)) in blocks <==> o == cov(p)))
  }

  lemma PageInside(b: Block, p: nat, max: nat)
    requires Inside(b, max) && Holds(b, p)
    ensures Anc(p, max) == 0
  {
    AncAdd(p, b.order, max - b.order);
  }

  /** Two blocks of a partition that share a page are the same block. */
  lemma Disjoint(blocks: set<Block>, cov: nat -> nat, max: nat, b: Block, c: Block, p: nat)
    requires Partition(blocks, cov, max) && b in blocks && c in blocks && Holds(b, p) && Holds(c, p)
    ensures b == c
  {
    PageInside(b, p, max);
    assert Block(b.order, Anc(p, b.order)) in blocks && Block(c.order, Anc(p, c.order)) in blocks;
  }

  function SplitCov(cov: nat -> nat, b: Block): nat -> nat
    requires b.order > 0
  {
    p => if Anc(p, b.order) == b.index then b.order - 1 else cov(p)
  }

  lemma SplitKeepsPartition(blocks: set<Block>, cov: nat -> nat, max: nat, b: Block)
    requires Partition(blocks, cov, max) && b in blocks && b.order > 0
    ensures var l, r := Block(b.order - 1, 2 * b.index), Block(b.order - 1, 2 * b.index + 1);
            l !in blocks && r !in blocks && Partition(blocks - {b} + {l, r}, SplitCov(cov, b), max)
  {
    var l, r := Block(b.order - 1, 2 * b.index), Block(b.order - 1, 2 * b.index + 1);
    var cov' := SplitCov(cov, b);
    var blocks' := blocks - {b} + {l, r};
    forall c | c == l || c == r ensures Inside(c, max) && c !in blocks {
      assert Anc(c.index, max - c.order) == Anc(c.index / 2, max - b.order);
      FirstPageHeld(c);
      HeldByParent(c, FirstPage(c));
      if c in blocks {
        Disjoint(blocks, cov, max, b, c, FirstPage(c));
      }
    }
    forall p, o | Anc(p, max) == 0 ensures Block(o, Anc(p, o)) in blocks' <==> o == cov'(p) {
      assert Block(o, Anc(p, o)) in blocks <==> o == cov(p);
      AncAdd(p, b.order - 1, 1);
      assert Anc(Anc(p, b.order - 1), 1) == Anc(p, b.order - 1) / 2;
      assert Block(b.order, Anc(p, b.order)) in blocks <==> b.order == cov(p);
    }
  }

  lemma HeldByParent(c: Block, p: nat)
    requires Holds(c, p)
    ensures Holds(Block(c.order + 1, c.index / 2), p)
  {
    AncAdd(p, c.order, 1);
    assert Anc(c.index, 1) == c.index / 2;
  }

  function MergeCov(cov: nat -> nat, b: Block): nat -> nat {
    p => if Anc(p, b.order + 1) == b.index / 2 then b.order + 1 else cov(p)
  }

  lemma MergeKeepsPartition(blocks: set<Block>, cov: nat -> nat, max: nat, b: Block)
    requires Partition(blocks, cov, max) && b in blocks && b.order < max
    requires Block(b.order, Buddy(b.index)) in blocks
    ensures var c, up := Block(b.order, Buddy(b.index)), Block(b.order + 1, b.index / 2);
            up !in blocks && Partition(blocks - {b, c} + {up}, MergeCov(cov, b), max)
  {
    var c, up := Block(b.order, Buddy(b.index)), Block(b.order + 1, b.index / 2);
    var cov' := MergeCov(cov, b);
    var blocks' := blocks - {b, c} + {up};
    assert Anc(b.index, max - b.order) == Anc(b.index / 2, max - up.order);
    FirstPageHeld(b);
    HeldByParent(b, FirstPage(b));
    if up in blocks {
      Disjoint(blocks, cov, max, b, up, FirstPage(b));
    }
    forall p, o | Anc(p, max) == 0 ensures Block(o, Anc(p, o)) in blocks' <==> o == cov'(p) {
      assert Block(o, Anc(p, o)) in blocks <==> o == cov(p);
      assert Block(b.order, Anc(p, b.order)) in blocks <==> b.order == cov(p);
      AncAdd(p, b.order, 1);
      assert Anc(Anc(p, b.order), 1) == Anc(p, b.order) / 2;
    }
  }

  // ---------- addresses and free lists ----------

  function Addr(base: nat, b: Block): nat {
    base + 4096 * FirstPage(b)
  }

  lemma AddrInjective(blocks: set<Block>, cov: nat -> nat, max: nat, base: nat, b: Block, c: Block)
    requires Partition(blocks, cov, max) && b in blocks && c in blocks && Addr(base, b) == Addr(base, c)
    ensures b == c
  {
    FirstPageHeld(b);
    FirstPageHeld(c);
    Disjoint(blocks, cov, max, b, c, FirstPage(b));
  }

  /** The address of position j of a free list of order o, null past its end. */
  function Node(base: nat, o: nat, s: seq<nat>, j: nat): nat {
    if j < |s| then Addr(base, Block(o, s[j])) else 0
  }

  ghost predicate NodeOk(next: map<nat, nat>, base: nat, o: nat, s: seq<nat>, j: nat) {
    j < |s| ==> Node(base, o, s, j) in next && next[Node(base, o, s, j)] == Node(base, o, s, j + 1)
  }

  /** Starting at `head`, the next pointers in memory visit exactly the blocks of `s`, in order. */
  ghost predicate Threaded(next: map<nat, nat>, head: nat, base: nat, o: nat, s: seq<nat>) {
    head == Node(base, o, s, 0) && forall j {:trigger NodeOk(next, base, o, s, j)} :: 0 <= j < |s| ==>
        NodeOk(next, base, o, s, j)
  }

  ghost predicate NoRepeats(s: seq<nat>) {
    forall j, k :: 0 <= j < k < |s| ==> s[j] != s[k]
  }

  /** List o threads exactly the free blocks of order o, for every o. */
  ghost predicate Lists(next: map<nat, nat>, freeList: seq<nat>, lists: seq<seq<nat>>, base: nat, free: set<Block>) {
    && base > 0 && |freeList| == |lists| == ORDERS
    && (forall o :: 0 <= o < ORDERS ==> Threaded(next, freeList[o], base, o, lists[o]) && NoRepeats(lists[o]))
    && (forall o, i :: 0 <= o < ORDERS ==> (i in lists[o] <==> Block(o, i) in free))
  }

  ghost predicate DistinctAddrs(base: nat, free: set<Block>) {
    forall b, c {:trigger Addr(base, b), Addr(base, c)} ::
      b in free && c in free && Addr(base, b) == Addr(base, c) ==> b == c
  }

  lemma ThreadedFrame(next: map<nat, nat>, head: nat, base: nat, o: nat, s: seq<nat>, a: nat, v: nat)
    requires Threaded(next, head, base, o, s)
    requires forall j :: 0 <= j < |s| ==> Addr(base, Block(o, s[j])) != a
    ensures Threaded(next[a := v], head, base, o, s)
  {
    var next' := next[a := v];
    forall j | 0 <= j < |s| ensures NodeOk(next', base, o, s, j) {
      assert NodeOk(next, base, o, s, j);
    }
  }

  /** add_block. */
  lemma PushKeepsLists(next: map<nat, nat>, freeList: seq<nat>, lists: seq<seq<nat>>, base: nat, free: set<Block>,
          b: Block)
    requires Lists(next, freeList, lists, base, free) && b.order < ORDERS && b !in free
    requires DistinctAddrs(base, free + {b})
    ensures var o, a := b.order, Addr(base, b);
            Lists(next[a := freeList[o]], freeList[o := a], lists[o := [b.index] + lists[o]], base, free + {b})
  {
    var o, a := b.order, Addr(base, b);
    var next', s' := next[a := freeList[o]], [b.index] + lists[o];
    forall q | 0 <= q < ORDERS ensures Threaded(next', freeList[q], base, q, lists[q]) {
      assert forall j :: 0 <= j < |lists[q]| ==> lists[q][j] in lists[q];
      ThreadedFrame(next, freeList[q], base, q, lists[q], a, freeList[o]);
    }
    forall j | 0 <= j < |s'| ensures NodeOk(next', base, o, s', j) {
      if j > 0 {
        assert NodeOk(next', base, o, lists[o], j - 1);
        assert Node(base, o, s', j) == Node(base, o, lists[o], j - 1);
        assert Node(base, o, s', j + 1) == Node(base, o, lists[o], j);
      } else {
        assert Node(base, o, s', 1) == Node(base, o, lists[o], 0);
      }
    }
  }

  lemma DropIndex(s: seq<nat>, j: nat)
    requires j < |s| && NoRepeats(s)
    ensures var s' := s[..j] + s[j + 1..];
            NoRepeats(s') && forall i :: i in s' <==> i in s && i != s[j]
  {
    var s' := s[..j] + s[j + 1..];
    forall i | i in s && i != s[j] ensures i in s' {
      var k :| 0 <= k < |s| && s[k] == i;
      assert s'[if k < j then k else k - 1] == i;
    }
  }

  /** Unlinking position j: the store goes to the list head for j == 0, else into the predecessor. */
  lemma RemoveKeepsThread(next: map<nat, nat>, head: nat, base: nat, o: nat, s: seq<nat>, j: nat)
    requires base > 0 && Threaded(next, head, base, o, s) && j < |s|
    requires forall i, k :: 0 <= i < k < |s| ==> Addr(base, Block(o, s[i])) != Addr(base, Block(o, s[k]))
    ensures var follow := Node(base, o, s, j + 1);
            Threaded(if j == 0 then next else next[Node(base, o, s, j - 1) := follow],
                     if j == 0 then follow else head, base, o, s[..j] + s[j + 1..])
  {
    var follow, s' := Node(base, o, s, j + 1), s[..j] + s[j + 1..];
    var next' := if j == 0 then next else next[Node(base, o, s, j - 1) := follow];
    forall k | 0 <= k < |s'| ensures NodeOk(next', base, o, s', k) {
      var k' := if k < j then k else k + 1;
      assert NodeOk(next, base, o, s, k');
      assert Node(base, o, s', k) == Node(base, o, s, k');
      assert Node(base, o, s', k + 1) == Node(base, o, s, if k + 1 < j then k + 1 else k + 2);
    }
  }

  lemma RemoveKeepsLists(next: map<nat, nat>, freeList: seq<nat>, lists: seq<seq<nat>>, base: nat, free: set<Block>,
          o: nat, j: nat)
    requires Lists(next, freeList, lists, base, free) && DistinctAddrs(base, free) && o < ORDERS && j < |lists[o]|
    ensures var s, b := lists[o], Block(o, lists[o][j]);
            var follow := Node(base, o, s, j + 1);
            && b in free && Addr(base, b) in next && next[Addr(base, b)] == follow
            && Lists(if j == 0 then next else next[Node(base, o, s, j - 1) := follow],
                     if j == 0 then freeList[o := follow] else freeList,
                     lists[o := s[..j] + s[j + 1..]], base, free - {b})
  {
    var s, b := lists[o], Block(o, lists[o][j]);
    assert s[j] in s;
    assert NodeOk(next, base, o, s, j);
    forall i, k | 0 <= i < k < |s| ensures Addr(base, Block(o, s[i])) != Addr(base, Block(o, s[k])) {
      assert s[i] in s && s[k] in s;
    }
    RemoveKeepsThread(next, freeList[o], base, o, s, j);
    DropIndex(s, j);
    forall q | 0 <= q < ORDERS && q != o
      ensures Threaded(if j == 0 then next else next[Node(base, o, s, j - 1) := Node(base, o, s, j + 1)],
                       freeList[q], base, q, lists[q])
    {
      RemoveKeepsOther(next, freeList, lists, base, free, o, j, q);
    }
    hide Threaded, NoRepeats, Node, Addr;
  }

  lemma RemoveKeepsOther(next: map<nat, nat>, freeList: seq<nat>, lists: seq<seq<nat>>, base: nat, free: set<Block>,
          o: nat, j: nat, q: nat)
    requires Lists(next, freeList, lists, base, free) && DistinctAddrs(base, free) && o < ORDERS && j < |lists[o]|
    requires q < ORDERS && q != o
    ensures var s := lists[o];
            Threaded(if j == 0 then next else next[Node(base, o, s, j - 1) := Node(base, o, s, j + 1)],
                     freeList[q], base, q, lists[q])
  {
    var s := lists[o];
    hide Threaded;
    if j > 0 {
      assert forall k :: 0 <= k < |lists[q]| ==> lists[q][k] in lists[q];
      assert s[j - 1] in s;
      ThreadedFrame(next, freeList[q], base, q, lists[q], Node(base, o, s, j - 1), Node(base, o, s, j + 1));
    }
  }

  // ---------- address arithmetic ----------

  /** x ^ (1 << k) on naturals: the single bit k is flipped. */
  function XorBit(x: nat, k: nat): nat {
    if x / Pow2(k) % 2 == 1 && x >= Pow2(k) then x - Pow2(k) else x + Pow2(k)
  }

  lemma MulDiv(i: nat, p: nat)
    requires p > 0
    ensures i * p / p == i
  {
    DivUnique(i * p, p, i, 0);
  }

  lemma Pow2Four(o: nat)
    ensures Pow2(o + 4) == 16 * Pow2(o)
  {
    assert Pow2(o + 4) == 2 * Pow2(o + 3) && Pow2(o + 3) == 2 * Pow2(o + 2) && Pow2(o + 2) == 2 * Pow2(o + 1);
  }

  lemma Pow2Shift(o: nat)
    ensures Pow2(o + 12) == 4096 * Pow2(o)
  {
    Pow2Four(o);
    Pow2Four(o + 4);
    Pow2Four(o + 8);
  }

  /** A block lies at the multiple of its size in bytes that its index says. */
  lemma AddrProduct(base: nat, b: Block)
    ensures Addr(base, b) == base + b.index * Pow2(b.order + 12)
  {
    FirstPageProduct(b);
    Pow2Shift(b.order);
    assert 4096 * (b.index * Pow2(b.order)) == b.index * (4096 * Pow2(b.order));
  }

  lemma XorMultiple(i: nat, k: nat)
    ensures XorBit(i * Pow2(k), k) == Buddy(i) * Pow2(k)
    ensures Buddy(i) * Pow2(k) < i * Pow2(k) <==> i % 2 == 1
  {
    var q := Pow2(k);
    MulDiv(i, q);
    assert (i + 1) * q == i * q + q;
    if i % 2 == 1 {
      MulMonotone(1, i, q);
      assert (i - 1) * q == i * q - q;
    }
  }

  lemma BuddyAddr(base: nat, b: Block)
    ensures Addr(base, b) >= base
    ensures base + XorBit(Addr(base, b) - base, b.order + 12) == Addr(base, Block(b.order, Buddy(b.index)))
    ensures Addr(base, Block(b.order, Buddy(b.index))) < Addr(base, b) <==> b.index % 2 == 1
  {
    AddrProduct(base, b);
    AddrProduct(base, Block(b.order, Buddy(b.index)));
    XorMultiple(b.index, b.order + 12);
  }

  lemma ChildAddrs(base: nat, b: Block)
    requires b.order > 0
    ensures Addr(base, Block(b.order - 1, 2 * b.index)) == Addr(base, b)
    ensures Addr(base, Block(b.order - 1, 2 * b.index + 1)) == Addr(base, b) + Pow2(b.order - 1 + 12)
  {
    AddrProduct(base, Block(b.order - 1, 2 * b.index));
    AddrProduct(base, Block(b.order - 1, 2 * b.index + 1));
    var q := Pow2(b.order - 1 + 12);
    assert (2 * b.index + 1) * q == 2 * b.index * q + q;
  }

  // ---------- free space ----------

  ghost predicate NoFreeBuddies(free: set<Block>, max: nat) {
    forall b {:trigger Buddy(b.index)} {:trigger b in free} :: b in free && b.order < max ==>
        Block(b.order, Buddy(b.index)) !in free
  }

  /** The aligned run of 2^k pages with index i lies in the segment and none of its pages is allocated. */
  ghost predicate FreeRun(live: set<Block>, cov: nat -> nat, max: nat, k: nat, i: nat) {
    Inside(Block(k, i), max)
    && forall p {:trigger Anc(p, k)} :: Anc(p, k) == i ==> Block(cov(p), Anc(p, cov(p))) !in live
  }

  ghost predicate NoRun(live: set<Block>, cov: nat -> nat, max: nat, k: nat) {
    forall i :: !FreeRun(live, cov, max, k, i)
  }

  /** The order-o block around the run of order k and index i is free. */
  ghost predicate FreeAbove(free: set<Block>, max: nat, k: nat, i: nat, o: nat) {
    k <= o <= max && Block(o, Anc(i, o - k)) in free
  }

  /** Maximal coalescing: a wholly free aligned run lies inside one free block. */
  lemma {:induction false} FreeRunInOneBlock(blocks: set<Block>, live: set<Block>, cov: nat -> nat, max: nat, k: nat,
          i: nat)
    requires Partition(blocks, cov, max) && NoFreeBuddies(blocks - live, max) && FreeRun(live, cov, max, k, i)
    ensures exists o :: FreeAbove(blocks - live, max, k, i, o)
    decreases k
  {
    if k == 0 {
      PageInside(Block(0, i), i, max);
      assert Anc(i, 0) == i;
      assert Block(cov(i), Anc(i, cov(i))) in blocks;
      assert FreeAbove(blocks - live, max, k, i, cov(i));
    } else {
      var l, r := 2 * i, 2 * i + 1;
      HalfRunFree(live, cov, max, k, i, l);
      HalfRunFree(live, cov, max, k, i, r);
      FreeRunInOneBlock(blocks, live, cov, max, k - 1, l);
      FreeRunInOneBlock(blocks, live, cov, max, k - 1, r);
      var o1: nat :| FreeAbove(blocks - live, max, k - 1, l, o1);
      var o2: nat :| FreeAbove(blocks - live, max, k - 1, r, o2);
      if o1 >= k {
        assert FreeAbove(blocks - live, max, k, i, o1);
      } else if o2 >= k {
        assert FreeAbove(blocks - live, max, k, i, o2);
      } else {
        assert false;
      }
    }
  }

  lemma HalfRunFree(live: set<Block>, cov: nat -> nat, max: nat, k: nat, i: nat, c: nat)
    requires k > 0 && FreeRun(live, cov, max, k, i) && c / 2 == i
    ensures FreeRun(live, cov, max, k - 1, c)
  {
    assert Anc(c, max - (k - 1)) == Anc(i, max - k);
    forall p | Anc(p, k - 1) == c ensures Block(cov(p), Anc(p, cov(p))) !in live {
      AncAdd(p, k - 1, 1);
      assert Anc(c, 1) == c / 2;
      assert Anc(p, k) == i;
    }
  }

  /** Conversely every aligned run inside a free block is wholly free. */
  lemma RunInFreeBlock(blocks: set<Block>, live: set<Block>, cov: nat -> nat, max: nat, b: Block, k: nat, i: nat)
    requires Partition(blocks, cov, max) && b in blocks - live && k <= b.order && Anc(i, b.order - k) == b.index
    ensures FreeRun(live, cov, max, k, i)
  {
    AncAdd(i, b.order - k, max - b.order);
    forall p | Anc(p, k) == i ensures Block(cov(p), Anc(p, cov(p))) !in live {
      AncAdd(p, k, b.order - k);
      PageInside(b, p, max);
      assert Block(b.order, Anc(p, b.order)) in blocks;
    }
  }

  lemma PushKeepsNoBuddies(free: set<Block>, max: nat, b: Block)
    requires NoFreeBuddies(free, max)
    requires b.order < max ==> Block(b.order, Buddy(b.index)) !in free
    ensures NoFreeBuddies(free + {b}, max)
  {
    assert forall c :: c in free && c.order == b.order && Buddy(c.index) == b.index ==> c.index == Buddy(b.index);
  }

  lemma BlocksHaveDistinctAddrs(blocks: set<Block>, cov: nat -> nat, max: nat, base: nat, free: set<Block>)
    requires Partition(blocks, cov, max) && free <= blocks
    ensures DistinctAddrs(base, free)
  {
    forall b, c | b in free && c in free && Addr(base, b) == Addr(base, c) ensures b == c {
      AddrInjective(blocks, cov, max, base, b, c);
    }
  }

  /** With nothing allocated, the segment is the single block it started as. */
  lemma AllFreeIsOneBlock(blocks: set<Block>, cov: nat -> nat, max: nat)
    requires Partition(blocks, cov, max) && NoFreeBuddies(blocks, max)
    ensures blocks == {Block(max, 0)}
  {
    var top := Block(max, 0);
    assert FreeRun({}, cov, max, max, 0);
    assert blocks - {} == blocks;
    FreeRunInOneBlock(blocks, {}, cov, max, max, 0);
    assert top in blocks;
    forall b | b in blocks ensures b == top {
      var p := FirstPage(b);
      FirstPageHeld(b);
      PageInside(b, p, max);
      Disjoint(blocks, cov, max, b, top, p);
    }
  }

  /** A segment that is one free block. */
  lemma OneBlockLists(start: nat, order: nat, heads: seq<nat>, none: seq<seq<nat>>)
    requires start > 0 && order < ORDERS
    requires heads == seq(ORDERS, _ => 0) && none == seq(ORDERS, _ => [])
    ensures var top := Block(order, 0);
            && Partition({top}, _ => order, order) && NoFreeBuddies({top}, order)
            && Lists(map[][start := heads[order]], heads[order := start], none[order := [0] + none[order]], start,
                {top})
  {
    var top := Block(order, 0);
    OneBlockPartition(order);
    EmptyLists(start);
    FirstPageProduct(top);
    assert Addr(start, top) == start;
    PushKeepsLists(map[], heads, none, start, {}, top);
    assert {} + {top} == {top};
    hide Lists, Partition;
  }

  // ---------- one segment ----------

  class Segment {
    var base: nat
    var size: nat
    var maxOrder: nat
    var pagesUsed: nat
    var freeList: seq<nat>
    /** The block headers: the next pointer stored in each free block. */
    var next: map<nat, nat>

    ghost var lists: seq<seq<nat>>
    ghost var blocks: set<Block>
    ghost var live: set<Block>
    ghost var cov: nat -> nat

    /** The invariant while `held` is in transit between a list and a caller. */
    ghost predicate Holding(held: set<Block>)
      reads this
    {
      && maxOrder < ORDERS
      && Partition(blocks, cov, maxOrder) && live + held <= blocks && live !! held
      && Lists(next, freeList, lists, base, blocks - live - held)
      && NoFreeBuddies(blocks - live - held, maxOrder)
    }

    ghost predicate Valid()
      reads this
    {
      Holding({}) && Pow2(maxOrder + 12) <= size && pagesUsed < WORD
    }

    /** The largest order whose block fits in `pages` pages. */
    static method FloorOrder(pages: nat) returns (order: nat)
      requires 1 <= pages < 0x1_0000
      ensures Pow2(order) <= pages < Pow2(order + 1) && order < ORDERS
    {
      order := 0;
      assert Pow2(0) == 1;
      while Pow2(order + 1) <= pages
        invariant Pow2(order) <= pages
        decreases pages - Pow2(order)
      {
        order := order + 1;
      }
      Pow2Four(0);
      Pow2Four(4);
      Pow2Four(8);
      Pow2Four(12);
      if order >= 16 {
        Pow2Monotone(16, order);
      }
    }

    constructor (start: nat, length: nat)
      requires start > 0 && 1 <= length / 4096 < 0x1_0000
      ensures Valid() && live == {} && pagesUsed == 0
      ensures base == start && size == length
      ensures Pow2(maxOrder) <= length / 4096 < Pow2(maxOrder + 1)
    {
      hide Lists, Partition;
      var order := FloorOrder(length / 4096);
      Pow2Shift(order);
      base, size, maxOrder, pagesUsed := start, length, order, 0;
      var top := Block(order, 0);
      next, freeList := map[], seq(ORDERS, _ => 0);
      lists, blocks, live, cov := seq(ORDERS, _ => []), {top}, {}, _ => order;
      new;
      ghost var heads, none := freeList, lists;
      OneBlockLists(start, order, heads, none);
      assert {top} == blocks - live - {};
      hide *;
      next, freeList := next[start := freeList[order]], freeList[order := start];
      lists := lists[order := [0] + lists[order]];
    }

    /** alloc's search for the first non-empty list from `order` up. */
    method FindOrder(order: nat) returns (current: nat)
      requires Valid()
      ensures |freeList| == |lists| == ORDERS && order <= current
      ensures current <= maxOrder ==> lists[current] != []
      ensures current > maxOrder ==> NoRun(live, cov, maxOrder, order)
    {
      hide Lists, Partition, NoFreeBuddies;
      assert blocks - live - {} == blocks - live;
      ListsShape(next, freeList, lists, base, blocks - live);
      current := order;
      while current <= maxOrder && freeList[current] == 0
        invariant order <= current
        invariant forall o :: order <= o < current && o <= maxOrder ==> freeList[o] == 0
        decreases maxOrder + 1 - current
      {
        current := current + 1;
      }
      if current > maxOrder {
        NoListNoRun(next, freeList, lists, base, blocks, live, cov, maxOrder, order);
      }
    }

    /** alloc's splitting loop. */
    method SplitDown(ghost b0: Block, start: nat, order: nat, addr: nat) returns (ghost b: Block)
      requires Holding({b0}) && b0 in blocks && b0.order == start >= order && addr == Addr(base, b0)
      modifies this`freeList, this`lists, this`next, this`blocks, this`cov
      ensures Holding({b}) && b in blocks && b.order == order && addr == Addr(base, b)
      ensures Anc(b.index, start - order) == b0.index
    {
      hide Lists, Partition, NoFreeBuddies;
      var current := start;
      b := b0;
      while current > order
        invariant order <= current <= start && addr == Addr(base, b) && b.order == current
        invariant Anc(b.index, start - current) == b0.index
        invariant Holding({b}) && b in blocks
      {
        current := current - 1;
        b := SplitHeld(b, current, addr);
      }
    }

    /** What alloc does in one segment: `addr` is null exactly when no aligned run of 2^order pages is free. */
    method AllocOrder(order: nat) returns (addr: nat, ghost b: Block)
      requires Valid()
      modifies this
      ensures Valid() && base == old(base) && size == old(size) && maxOrder == old(maxOrder)
      ensures addr == 0 <==> NoRun(old(live), old(cov), maxOrder, order)
      ensures addr == 0 ==> unchanged(this)
      ensures addr != 0 ==>
                && b.order == order && addr == Addr(base, b) && FreeRun(old(live), old(cov), maxOrder, order, b.index)
                && b !in old(live) && live == old(live) + {b}
                && pagesUsed == (old(pagesUsed) + Pow2(order)) % WORD
    {
      hide Lists, Partition, NoFreeBuddies, FreeRun;
      addr, b := 0, Block(0, 0);
      var current := FindOrder(order);
      if current > maxOrder {
        return;
      }
      ghost var b0 := Block(current, lists[current][0]);
      addr := TakeHead(current);
      b := SplitDown(b0, current, order, addr);
      RunInFreeBlock(old(blocks), old(live), old(cov), maxOrder, b0, order, b.index);
      live := live + {b};
      assert blocks - live - {} == blocks - old(live) - {b};
      pagesUsed := (pagesUsed + Pow2(order)) % WORD;
    }

    /** remove_block on a non-empty list. */
    method TakeHead(o: nat) returns (addr: nat)
      requires Holding({}) && o < ORDERS && |lists| == ORDERS && |freeList| == ORDERS && lists[o] != []
      modifies this`freeList, this`lists
      ensures addr == old(freeList)[o] == Addr(base, Block(o, old(lists)[o][0])) && addr != 0
      ensures Holding({Block(o, old(lists)[o][0])}) && Block(o, old(lists)[o][0]) in blocks - live
    {
      hide Lists, Partition;
      ghost var free := blocks - live - {};
      BlocksHaveDistinctAddrs(blocks, cov, maxOrder, base, free);
      ListsShape(next, freeList, lists, base, free);
      RemoveKeepsLists(next, freeList, lists, base, free, o, 0);
      ghost var b := Block(o, lists[o][0]);
      addr := freeList[o];
      freeList := freeList[o := next[addr]];
      lists := lists[o := lists[o][..0] + lists[o][1..]];
      assert free - {b} == blocks - live - {b};
    }

    /** One halving step of alloc: the upper half goes onto its list, the lower half stays in hand. */
    method SplitHeld(ghost b: Block, current: nat, addr: nat) returns (ghost half: Block)
      requires Holding({b}) && b.order == current + 1 && addr == Addr(base, b)
      modifies this`freeList, this`lists, this`next, this`blocks, this`cov
      ensures half == Block(current, 2 * b.index) && addr == Addr(base, half)
      ensures Holding({half}) && half in blocks
    {
      hide Lists, Partition, NoFreeBuddies;
      half := Block(current, 2 * b.index);
      ghost var upper := Block(current, 2 * b.index + 1);
      ghost var free := blocks - live - {b};
      InPartition(blocks, cov, maxOrder, b);
      ListsShape(next, freeList, lists, base, free);
      ChildAddrs(base, b);
      SplitKeepsPartition(blocks, cov, maxOrder, b);
      blocks, cov := blocks - {b} + {half, upper}, SplitCov(cov, b);
      assert free + {upper} == blocks - live - {half};
      BlocksHaveDistinctAddrs(blocks, cov, maxOrder, base, free + {upper});
      PushKeepsLists(next, freeList, lists, base, free, upper);
      PushKeepsNoBuddies(free, maxOrder, upper);
      var buddyAddr := addr + Pow2(current + 12);
      AddBlock(current, buddyAddr);
      lists := lists[current := [upper.index] + lists[current]];
    }

    /** free's search of list `o` for the block `c` at address `target`; found, it is unlinked. */
    method RemoveFree(o: nat, target: nat, ghost c: Block, ghost free: set<Block>) returns (found: bool)
      requires Lists(next, freeList, lists, base, free) && DistinctAddrs(base, free)
      requires o < ORDERS && c.order == o && target == Addr(base, c)
      modifies this`next, this`freeList, this`lists
      ensures found <==> c in free
      ensures Lists(next, freeList, lists, base, free - {c})
    {
      hide Lists, DistinctAddrs, Node;
      ListedByAddr(next, freeList, lists, base, free, c);
      var curr: nat, prev: nat := freeList[o], 0;
      ghost var j := 0;
      found := false;
      WalkStep(next, freeList, lists, base, free, o, 0);
      while curr != 0
        invariant next == old(next) && freeList == old(freeList) && lists == old(lists) && !found
        invariant j <= |lists[o]| && curr == Node(base, o, lists[o], j) && c.index !in lists[o][..j]
        invariant prev == if j == 0 then 0 else Node(base, o, lists[o], j - 1)
        invariant curr != 0 <==> j < |lists[o]|
        invariant curr != 0 ==> curr in next
        decreases |lists[o]| - j
      {
        WalkStep(next, freeList, lists, base, free, o, j);
        if curr == target {
          RemoveKeepsLists(next, freeList, lists, base, free, o, j);
          if j > 0 {
            WalkStep(next, freeList, lists, base, free, o, j - 1);
          }
          if prev != 0 {
            next := next[prev := next[curr]];
          } else {
            freeList := freeList[o := next[curr]];
          }
          lists := lists[o := lists[o][..j] + lists[o][j + 1..]];
          found := true;
          return;
        }
        prev := curr;
        curr := next[curr];
        j := j + 1;
        WalkStep(next, freeList, lists, base, free, o, j);
      }
      assert lists[o][..j] == lists[o];
      assert free - {c} == free;
    }

    /** free's coalescing loop: `b`, in hand, grows while its buddy is free. */
    method Coalesce(ghost b: Block, addr0: nat, order0: nat) returns (addr: nat, order: nat, ghost h: Block)
      requires Holding({b}) && b in blocks && b.order == order0 && addr0 == Addr(base, b)
      modifies this`next, this`freeList, this`lists, this`blocks, this`cov
      ensures Holding({h}) && h in blocks && h.order == order >= order0 && addr == Addr(base, h)
      ensures Anc(b.index, order - order0) == h.index
      ensures order < maxOrder ==> Block(order, Buddy(h.index)) !in blocks - live - {h}
      ensures order == order0 <==> order0 == maxOrder || Block(order0, Buddy(b.index)) !in old(blocks) - live
    {
      hide Lists, Partition, NoFreeBuddies, FirstPage, Addr, DistinctAddrs;
      addr, order, h := addr0, order0, b;
      InPartition(blocks, cov, maxOrder, b);
      while order < maxOrder
        invariant Holding({h}) && h in blocks && h.order == order && order0 <= order <= maxOrder
                  && addr == Addr(base, h)
        invariant Anc(b.index, order - order0) == h.index
        invariant order == order0 ==> h == b && blocks == old(blocks)
        invariant order > order0 ==> order0 < maxOrder && Block(order0, Buddy(b.index)) in old(blocks) - live
        decreases maxOrder - order
      {
        ghost var c := Block(order, Buddy(h.index));
        ghost var free := blocks - live - {h};
        BuddyAddr(base, h);
        var rel := addr - base;
        var buddyRel := XorBit(rel, order + 12);
        var buddyAddr := base + buddyRel;
        BlocksHaveDistinctAddrs(blocks, cov, maxOrder, base, free);
        var found := RemoveFree(order, buddyAddr, c, free);
        if !found {
          assert free - {c} == free;
          break;
        }
        ghost var up := Block(order + 1, h.index / 2);
        MergeKeepsPartition(blocks, cov, maxOrder, h);
        MergedBlock(base, h, b.index, order - order0);
        if buddyAddr < addr {
          addr := buddyAddr;
        }
        order := order + 1;
        blocks, cov := blocks - {h, c} + {up}, MergeCov(cov, h);
        assert free - {c} == blocks - live - {up};
        TakeKeepsNoBuddies(free, maxOrder, c);
        h := up;
      }
    }

    /**
     What free does in the segment that owns `addr0`; `b` is the allocation given back. The usage counter drops
     by the size of the block that results, which is the size of `b` exactly when nothing was coalesced.
     */
    method FreeOrder(addr0: nat, order0: nat, ghost b: Block) returns (merged: nat)
      requires Valid() && b in live && b.order == order0 && addr0 == Addr(base, b)
      modifies this
      ensures Valid() && base == old(base) && size == old(size) && maxOrder == old(maxOrder)
      ensures live == old(live) - {b}
      ensures order0 <= merged <= maxOrder
      ensures merged == cov(FirstPage(b)) && pagesUsed == (old(pagesUsed) - Pow2(merged)) % WORD
      ensures merged == order0 <==> order0 == maxOrder || Block(order0, Buddy(b.index)) !in old(blocks) - old(live)
    {
      hide Lists, Partition, NoFreeBuddies, Addr, FirstPage, Pow2;
      live := live - {b};
      assert old(blocks) - old(live) - {} == blocks - live - {b};
      var addr;
      ghost var h;
      addr, merged, h := Coalesce(b, addr0, order0);
      assert Block(order0, Buddy(b.index)) != b;
      CovOf(blocks, cov, maxOrder, h, b);
      InPartition(blocks, cov, maxOrder, h);
      PushHeld(h, addr, merged);
      pagesUsed := (pagesUsed - Pow2(merged)) % WORD;
    }

    /** free's last step: the block in hand goes onto its list. */
    method PushHeld(ghost h: Block, addr: nat, order: nat)
      requires Holding({h}) && h in blocks && h.order == order && addr == Addr(base, h)
      requires order < maxOrder ==> Block(order, Buddy(h.index)) !in blocks - live - {h}
      modifies this`next, this`freeList, this`lists
      ensures Holding({})
    {
      hide Lists, Partition, NoFreeBuddies, Addr, DistinctAddrs;
      ghost var free := blocks - live - {h};
      InPartition(blocks, cov, maxOrder, h);
      BlocksHaveDistinctAddrs(blocks, cov, maxOrder, base, free + {h});
      PushKeepsLists(next, freeList, lists, base, free, h);
      PushKeepsNoBuddies(free, maxOrder, h);
      ListsShape(next, freeList, lists, base, free);
      AddBlock(order, addr);
      lists := lists[order := [h.index] + lists[order]];
      assert free + {h} == blocks - live - {};
    }

    /** With nothing allocated every list is empty but the top one, which holds the whole segment. */
    lemma FullyFreed()
      requires Valid() && live == {}
      ensures blocks == {Block(maxOrder, 0)} && |freeList| == ORDERS
      ensures forall o :: 0 <= o < ORDERS ==> freeList[o] == if o == maxOrder then base else 0
    {
      assert blocks - live - {} == blocks;
      AllFreeIsOneBlock(blocks, cov, maxOrder);
      ListsShape(next, freeList, lists, base, blocks);
      FirstPageProduct(Block(maxOrder, 0));
      forall o | 0 <= o < ORDERS && o != maxOrder ensures forall i :: i !in lists[o] {
      }
      assert 0 in lists[maxOrder];
      assert lists[maxOrder][0] in lists[maxOrder];
    }

    /** A block in use starts and ends inside the segment. */
    lemma BlockInRange(b: Block)
      requires Valid() && b in blocks
      ensures base <= Addr(base, b) && Addr(base, b) + Pow2(b.order + 12) <= base + size
    {
      BlockEnd(b, maxOrder);
      AddrProduct(base, b);
      Pow2Shift(b.order);
      Pow2Shift(maxOrder);
    }

    /** add_block: the store into the block and the new head. */
    method AddBlock(o: nat, addr: nat)
      requires o < |freeList|
      modifies this`freeList, this`next
      ensures next == old(next)[addr := old(freeList)[o]] && freeList == old(freeList)[o := addr]
    {
      next := next[addr := freeList[o]];
      freeList := freeList[o := addr];
    }
  }

  lemma SameOrderAddr(base: nat, o: nat, i: nat, k: nat)
    ensures Addr(base, Block(o, i)) == Addr(base, Block(o, k)) <==> i == k
  {
    FirstPageHeld(Block(o, i));
    FirstPageHeld(Block(o, k));
  }

  /** A walk that compares addresses decides membership in the list. */
  lemma ListedByAddr(next: map<nat, nat>, freeList: seq<nat>, lists: seq<seq<nat>>, base: nat, free: set<Block>,
          c: Block)
    requires Lists(next, freeList, lists, base, free) && c.order < ORDERS
    ensures |lists| == |freeList| == ORDERS && base > 0 && freeList[c.order] == Node(base, c.order, lists[c.order], 0)
    ensures forall j :: 0 <= j < |lists[c.order]| ==>
              (Node(base, c.order, lists[c.order], j) == Addr(base, c) <==> lists[c.order][j] == c.index)
    ensures c in free <==> c.index in lists[c.order]
  {
    forall j | 0 <= j < |lists[c.order]|
      ensures Node(base, c.order, lists[c.order], j) == Addr(base, c) <==> lists[c.order][j] == c.index
    {
      SameOrderAddr(base, c.order, lists[c.order][j], c.index);
    }
  }

  /** One step of a walk over list o. */
  lemma WalkStep(next: map<nat, nat>, freeList: seq<nat>, lists: seq<seq<nat>>, base: nat, free: set<Block>, o: nat,
          j: nat)
    requires Lists(next, freeList, lists, base, free) && o < ORDERS
    ensures |lists| == ORDERS && base > 0 && (j < |lists[o]| <==> Node(base, o, lists[o], j) != 0)
    ensures j < |lists[o]| ==>
              Node(base, o, lists[o], j) in next && next[Node(base, o, lists[o], j)] == Node(base, o, lists[o], j + 1)
  {
    assert j < |lists[o]| ==> NodeOk(next, base, o, lists[o], j);
  }

  lemma OddProduct(i: nat, q: nat)
    ensures (2 * i + 1) * q == i * (2 * q) + q
  {
  }

  lemma {:induction false} BlockEnd(b: Block, max: nat)
    requires Inside(b, max)
    ensures FirstPage(b) + Pow2(b.order) <= Pow2(max)
    decreases max - b.order
  {
    if b.order < max {
      var up := Block(b.order + 1, b.index / 2);
      assert Anc(b.index, max - b.order) == Anc(up.index, max - up.order);
      BlockEnd(up, max);
      if b.index % 2 == 0 {
        assert FirstPage(up) == FirstPage(b);
      } else {
        FirstPageProduct(b);
        FirstPageProduct(up);
        OddProduct(up.index, Pow2(b.order));
      }
    } else {
      assert b.index == 0;
      FirstPageProduct(b);
    }
  }

  lemma MergedBlock(base: nat, h: Block, i: nat, k: nat)
    requires Anc(i, k) == h.index
    ensures Anc(i, k + 1) == h.index / 2
    ensures Addr(base, Block(h.order + 1, h.index / 2))
         == if h.index % 2 == 1 then Addr(base, Block(h.order, Buddy(h.index))) else Addr(base, h)
  {
    AncAdd(i, k, 1);
    assert Anc(h.index, 1) == h.index / 2;
  }

  lemma TakeKeepsNoBuddies(free: set<Block>, max: nat, c: Block)
    requires NoFreeBuddies(free, max)
    ensures NoFreeBuddies(free - {c}, max)
  {
  }

  lemma CovOf(blocks: set<Block>, cov: nat -> nat, max: nat, h: Block, b: Block)
    requires Partition(blocks, cov, max) && h in blocks && b.order <= h.order
              && Anc(b.index, h.order - b.order) == h.index
    ensures cov(FirstPage(b)) == h.order
  {
    FirstPageHeld(b);
    AncAdd(FirstPage(b), b.order, h.order - b.order);
    PageInside(h, FirstPage(b), max);
    assert Block(h.order, Anc(FirstPage(b), h.order)) in blocks;
  }

  lemma InPartition(blocks: set<Block>, cov: nat -> nat, max: nat, b: Block)
    requires Partition(blocks, cov, max)
    ensures b in blocks ==> Inside(b, max)
  {
  }

  lemma EmptyLists(base: nat)
    requires base > 0
    ensures Lists(map[], seq(ORDERS, _ => 0), seq(ORDERS, _ => []), base, {})
  {
  }

  lemma ListsShape(next: map<nat, nat>, freeList: seq<nat>, lists: seq<seq<nat>>, base: nat, free: set<Block>)
    requires Lists(next, freeList, lists, base, free)
    ensures base > 0 && |freeList| == |lists| == ORDERS
    ensures forall o :: 0 <= o < ORDERS ==> (freeList[o] == 0 <==> lists[o] == [])
    ensures forall o :: 0 <= o < ORDERS && lists[o] != [] ==>
              freeList[o] == Addr(base, Block(o, lists[o][0])) && Block(o, lists[o][0]) in free
  {
    assert forall o :: 0 <= o < ORDERS && lists[o] != [] ==> lists[o][0] in lists[o];
  }

  lemma NoListNoRun(next: map<nat, nat>, freeList: seq<nat>, lists: seq<seq<nat>>, base: nat,
                    blocks: set<Block>, live: set<Block>, cov: nat -> nat, max: nat, order: nat)
    requires Lists(next, freeList, lists, base, blocks - live) && max < ORDERS
    requires Partition(blocks, cov, max) && NoFreeBuddies(blocks - live, max)
    requires |freeList| == ORDERS && forall o :: order <= o <= max ==> freeList[o] == 0
    ensures forall i :: !FreeRun(live, cov, max, order, i)
  {
    ListsShape(next, freeList, lists, base, blocks - live);
    forall i, o: nat | order <= o ensures !FreeAbove(blocks - live, max, order, i, o) {
      assert o <= max ==> lists[o] == [];
    }
    forall i ensures !FreeRun(live, cov, max, order, i) {
      if FreeRun(live, cov, max, order, i) {
        FreeRunInOneBlock(blocks, live, cov, max, order, i);
      }
    }
  }

  lemma OneBlockPartition(max: nat)
    ensures Partition({Block(max, 0)}, _ => max, max)
  {
  }

  // ---------- the segment table ----------

  const MAX_SEGTAB: nat := 128
  const LOW: nat := 0x10_0000

  datatype Kind = Usable | AcpiReclaimable | BootloaderReclaimable | Other

  datatype Entry = Entry(kind: Kind, base: nat, length: nat)

  /** The part of a memory-map entry that becomes a segment, if any. */
  function Trimmed(e: Entry): seq<Entry> {
    if e.kind == Other || e.base + e.length <= LOW then []
    else if e.base < LOW then [e.(base := LOW, length := e.length - (LOW - e.base))]
    else [e]
  }

  function Wanted(entries: seq<Entry>): seq<Entry> {
    if entries == [] then [] else Wanted(entries[..|entries| - 1]) + Trimmed(entries[|entries| - 1])
  }

  ghost predicate Apart(b1: nat, s1: nat, b2: nat, s2: nat) {
    b1 + s1 <= b2 || b2 + s2 <= b1
  }

  /** The least order whose block holds `pages` pages. */
  function CeilLog2(pages: nat): nat {
    if pages <= 1 then 0 else 1 + CeilLog2((pages + 1) / 2)
  }

  lemma {:induction false} CeilLog2Bounds(pages: nat, o: nat)
    ensures Pow2(o) >= pages && (o > 0 ==> Pow2(o - 1) < pages) <==> o == CeilLog2(pages)
    decreases pages
  {
    if pages > 1 {
      if o > 0 {
        CeilLog2Bounds((pages + 1) / 2, o - 1);
      } else {
        assert Pow2(0) == 1;
      }
    } else if o > 0 {
      assert Pow2(o - 1) >= 1;
    }
  }

  /** The order alloc and free settle on for n bytes; rounding up to pages wraps round in the top page. */
  function OrderFor(n: nat): nat {
    CeilLog2((n + 0xFFF) % WORD / 4096)
  }

  /**
   A block of that order holds n bytes, and one of half the size would not, exactly when the rounding does not wrap;
   a request that makes it wrap gets the order of a single page.
   */
  lemma OrderHolds(n: nat)
    requires n < WORD
    ensures n <= Pow2(OrderFor(n) + 12) <==> n <= WORD - 0x1000
    ensures n <= WORD - 0x1000 && OrderFor(n) > 0 ==> Pow2(OrderFor(n) + 11) < n
    ensures n > WORD - 0x1000 ==> OrderFor(n) == 0
  {
    var pages, order := (n + 0xFFF) % WORD / 4096, OrderFor(n);
    CeilLog2Bounds(pages, order);
    Pow2Shift(order);
    if n <= WORD - 0x1000 {
      assert pages == (n + 0xFFF) / 4096;
      if order > 0 {
        Pow2Shift(order - 1);
        assert Pow2(order - 1) + 1 <= pages;
      }
    } else {
      assert pages == 0;
    }
  }

  lemma WantedNone(entries: seq<Entry>)
    ensures Wanted(entries[..0]) == []
  {
  }

  lemma WantedStep(entries: seq<Entry>, i: nat)
    requires i < |entries|
    ensures Wanted(entries[..i + 1]) == Wanted(entries[..i]) + Trimmed(entries[i])
  {
    assert entries[..i + 1][..i] == entries[..i];
  }

  lemma {:induction false} WantedPrefix(entries: seq<Entry>, i: nat)
    requires i <= |entries|
    ensures Wanted(entries[..i]) <= Wanted(entries)
    decreases |entries| - i
  {
    if i < |entries| {
      assert entries[..i + 1][..i] == entries[..i];
      WantedPrefix(entries, i + 1);
    } else {
      assert entries[..i] == entries;
    }
  }

  class Pmm {
    var segtab: seq<Segment>
    var numUsed: nat
    var numErrors: nat

    ghost predicate Valid()
      reads this, segtab
    {
      && |segtab| <= MAX_SEGTAB && numUsed < WORD && numErrors < WORD
      && (forall i :: 0 <= i < |segtab| ==> segtab[i].Valid())
      && (forall i, j :: 0 <= i < j < |segtab| ==>
            segtab[i] != segtab[j] && Apart(segtab[i].base, segtab[i].size, segtab[j].base, segtab[j].size))
    }

    /**
     initialise: one segment per usable memory-map entry, clipped below 1 MiB, until the table is full. The
     memory map's ranges must not overlap, and each segment must have between 1 and 65535 pages.
     */
    constructor (entries: seq<Entry>)
      requires forall i :: 0 <= i < |entries| && Trimmed(entries[i]) != [] ==>
                1 <= Trimmed(entries[i])[0].length / 4096 < 0x1_0000
      requires forall i, j :: 0 <= i < j < |entries| ==>
                 Apart(entries[i].base, entries[i].length, entries[j].base, entries[j].length)
      ensures Valid() && numUsed == 0 && numErrors == 0
      ensures |segtab| == if |Wanted(entries)| < MAX_SEGTAB then |Wanted(entries)| else MAX_SEGTAB
      ensures forall i :: 0 <= i < |segtab| ==>
                segtab[i].base == Wanted(entries)[i].base && segtab[i].size == Wanted(entries)[i].length
                    && segtab[i].live == {}
    {
      hide Segment.Valid, Wanted, Trimmed;
      segtab, numUsed, numErrors := [], 0, 0;
      new;
      WantedNone(entries);
      var i := 0;
      while i < |entries| && |segtab| < MAX_SEGTAB
        invariant i <= |entries| && numUsed == 0 && numErrors == 0
        invariant Valid() && forall k :: 0 <= k < |segtab| ==> fresh(segtab[k])
        invariant |segtab| == |Wanted(entries[..i])| <= MAX_SEGTAB
        invariant forall k :: 0 <= k < |segtab| ==> SegmentIs(segtab[k], Wanted(entries[..i])[k])
        invariant forall k, j :: 0 <= k < |segtab| && i <= j < |entries| ==>
                    Apart(segtab[k].base, segtab[k].size, entries[j].base, entries[j].length)
        decreases |entries| - i
      {
        var e := entries[i];
        WantedStep(entries, i);
        var ok, base, length := Clip(e);
        if ok {
          var seg := AddSegment(base, length);
        }
        i := i + 1;
      }
      WantedPrefix(entries, i);
      assert i == |entries| ==> entries[..i] == entries;
    }

    /** Fills the next table entry. */
    method AddSegment(base: nat, length: nat) returns (seg: Segment)
      requires Valid() && |segtab| < MAX_SEGTAB && base > 0 && 1 <= length / 4096 < 0x1_0000
      requires forall k :: 0 <= k < |segtab| ==> Apart(segtab[k].base, segtab[k].size, base, length)
      modifies this`segtab
      ensures Valid() && segtab == old(segtab) + [seg]
      ensures fresh(seg) && seg.base == base && seg.size == length && seg.live == {}
    {
      hide Segment.Valid;
      seg := new Segment(base, length);
      segtab := segtab + [seg];
    }

    /** The memory-map entries initialise skips, and the part of the others it keeps. */
    static method Clip(e: Entry) returns (ok: bool, base: nat, length: nat)
      ensures Trimmed(e) == if ok then [Entry(e.kind, base, length)] else []
      ensures ok ==> base > 0
      ensures ok ==> forall b, s :: Apart(b, s, e.base, e.length) ==> Apart(b, s, base, length)
      ensures ok ==> forall b, s :: Apart(e.base, e.length, b, s) ==> Apart(base, length, b, s)
    {
      ok, base, length := false, e.base, e.length;
      if e.kind == Other {
        return;
      }
      if base + length <= LOW {
        return;
      }
      if base < LOW {
        var delta := LOW - base;
        base := base + delta;
        length := length - delta;
      }
      ok := true;
    }

    static ghost predicate SegmentIs(s: Segment, e: Entry)
      reads s
    {
      s.base == e.base && s.size == e.length && s.live == {}
    }

    /** The loop both alloc and free start with. */
    static method GetOrder(n: nat) returns (order: nat)
      requires n < WORD
      ensures order == OrderFor(n)
    {
      var pages := (n + 0xFFF) % WORD / 4096;
      order := 0;
      assert Pow2(0) == 1;
      while Pow2(order) < pages
        invariant order > 0 ==> Pow2(order - 1) < pages
        decreases pages - Pow2(order)
      {
        order := order + 1;
      }
      CeilLog2Bounds(pages, order);
    }

    /** `who` and `b` say which block of which segment was handed out. */
    method Alloc(n: nat) returns (p: nat, ghost who: nat, ghost b: Block)
      requires Valid() && n < WORD
      modifies this, segtab
      ensures Valid() && segtab == old(segtab)
      ensures p == 0 <==>
              forall k :: 0 <= k < |segtab| ==>
                NoRun(old(segtab[k].live), old(segtab[k].cov), old(segtab[k].maxOrder), OrderFor(n))
      ensures p == 0 ==> numErrors == (old(numErrors) + 1) % WORD && numUsed == old(numUsed)
      ensures p == 0 ==> forall k :: 0 <= k < |segtab| ==> unchanged(segtab[k])
      ensures p != 0 ==>
                && who < |segtab| && b.order == OrderFor(n) && p == Addr(segtab[who].base, b)
                && b !in old(segtab[who].live) && segtab[who].live == old(segtab[who].live) + {b}
                && numUsed == (old(numUsed) + Pow2(OrderFor(n))) % WORD && numErrors == old(numErrors)
                && (forall k :: 0 <= k < |segtab| && k != who ==> unchanged(segtab[k]))
    {
      hide Segment.Valid, NoRun, Addr;
      var order := GetOrder(n);
      who, b := 0, Block(0, 0);
      for i := 0 to |segtab|
        invariant Valid() && segtab == old(segtab) && numUsed == old(numUsed) && numErrors == old(numErrors)
        invariant forall k :: 0 <= k < |segtab| ==> unchanged(segtab[k])
        invariant forall k :: 0 <= k < i ==>
                    NoRun(old(segtab[k].live), old(segtab[k].cov), old(segtab[k].maxOrder), order)
      {
        p, b := segtab[i].AllocOrder(order);
        if p != 0 {
          who := i;
          numUsed := (numUsed + Pow2(order)) % WORD;
          return;
        }
      }
      p := 0;
      numErrors := (numErrors + 1) % WORD;
    }

    /** Whether no segment's range holds p. */
    ghost predicate Outside(p: nat)
      reads this, segtab
    {
      forall k :: 0 <= k < |segtab| ==> !(segtab[k].base <= p < segtab[k].base + segtab[k].size)
    }

    /** Block b of segment `who` is in use and starts at p. */
    ghost predicate HandedOut(p: nat, who: nat, b: Block)
      reads this, segtab
    {
      who < |segtab| && b in segtab[who].live && p == Addr(segtab[who].base, b)
    }

    /** free's search for the segment whose range holds `p`. */
    method FindOwner(p: nat, ghost who: nat, ghost b: Block) returns (i: nat)
      requires Valid() && (Outside(p) || HandedOut(p, who, b))
      ensures i == if Outside(p) then |segtab| else who
    {
      if !Outside(p) {
        assert segtab[who].Holding({});
        segtab[who].BlockInRange(b);
      }
      hide Segment.Holding, Addr;
      i := 0;
      while i < |segtab|
        invariant i <= |segtab| && (!Outside(p) ==> i <= who)
        decreases |segtab| - i
      {
        if segtab[i].base <= p < segtab[i].base + segtab[i].size {
          return;
        }
        i := i + 1;
      }
    }

    /**
     A pointer outside every segment is ignored. Else `who` and `b` name the live block at `p`, and `n` is the size it
     was asked for with.
     */
    method Free(p: nat, n: nat, ghost who: nat, ghost b: Block) returns (merged: nat)
      requires Valid() && n < WORD
      requires Outside(p) || (HandedOut(p, who, b) && b.order == OrderFor(n))
      modifies this, segtab
      ensures Valid() && segtab == old(segtab) && numErrors == old(numErrors)
      ensures old(Outside(p)) ==> numUsed == old(numUsed) && forall k :: 0 <= k < |segtab| ==> unchanged(segtab[k])
      ensures !old(Outside(p)) ==>
                && segtab[who].live == old(segtab[who].live) - {b}
                && merged == segtab[who].cov(FirstPage(b)) && numUsed == (old(numUsed) - Pow2(merged)) % WORD
                && (forall k :: 0 <= k < |segtab| && k != who ==> unchanged(segtab[k]))
    {
      hide Segment.Valid, Addr, FirstPage, Pow2, OrderFor, NoFreeBuddies;
      merged := GetOrder(n);
      var i := FindOwner(p, who, b);
      if i < |segtab| {
        merged := segtab[i].FreeOrder(p, merged, b);
        numUsed := (numUsed - Pow2(merged)) % WORD;
      }
    }
  }

  /** In a two-page segment the other half of an allocated page is a block too. */
  lemma OtherHalf(blocks: set<Block>, cov: nat -> nat, b: Block)
    requires Partition(blocks, cov, 1) && b in blocks && b.order == 0
    ensures Block(0, Buddy(b.index)) in blocks
  {
    var q := Buddy(b.index);
    assert Anc(b.index, 1) == Anc(b.index / 2, 0) == b.index / 2 && Anc(q, 1) == Anc(q / 2, 0) == q / 2;
    assert Anc(b.index, 0) == b.index && Anc(q, 0) == q;
    assert Block(cov(q), Anc(q, cov(q))) in blocks;
    assert Block(0, Anc(b.index, 0)) in blocks && Block(1, Anc(b.index, 1)) !in blocks;
  }

  /** The usage counter is not conserved: one page allocated from two and freed leaves it at 2^64 - 1. */
  method UsageDrift() returns (used: nat)
    ensures used == WORD - 1
  {
    hide Segment.Holding, FreeRun, NoRun, FirstPage, Addr;
    var s := new Segment(LOW, 8192);
    assert s.maxOrder == 1 by {
      Log2Unique(2, s.maxOrder);
      assert Log2(2) == 1;
    }
    s.FullyFreed();
    RunInTopBlock(s);
    var addr, b := s.AllocOrder(0);
    PagesCovered(s, b);
    var merged := s.FreeOrder(addr, 0, b);
    assert Pow2(0) == 1 && Pow2(1) == 2;
    used := s.pagesUsed;
  }

  lemma RunInTopBlock(s: Segment)
    requires s.Valid() && s.live == {} && s.maxOrder == 1 && s.blocks == {Block(1, 0)}
    ensures !NoRun(s.live, s.cov, 1, 0)
  {
    RunInFreeBlock(s.blocks, s.live, s.cov, 1, Block(1, 0), 0, 0);
  }

  lemma PagesCovered(s: Segment, b: Block)
    requires s.Valid() && s.live == {b} && s.maxOrder == 1 && b.order == 0
    ensures Block(0, Buddy(b.index)) in s.blocks - s.live
  {
    OtherHalf(s.blocks, s.cov, b);
  }
}
