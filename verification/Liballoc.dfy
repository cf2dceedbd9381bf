/**
 The boundary-tag heap. A region from the page provider is cut into tags, each a header and its payload; a tag is
 linked to its neighbours in address order (the split chain) and, while free, into the list of its size's bin. Tag
 addresses are numbers and 0 is the null pointer. Blocks says how the chains tile the regions, Links how the bins
 are linked, and Meaning what the counters and the caller's live pointers stand for.
 */
module Liballoc {
  import opened Powers

  const HDR: nat := 48
  const PAGE: nat := 4096
  const MIN_PAGES: nat := 16
  const MAXEXP: nat := 32
  const MINEXP: nat := 8
  const MAXCOMPLETE: nat := 5
  const MAGIC: nat := 0xc001c0de
  const MAX_REQUEST: nat := 0x7FFF_0000

  datatype Tag = Tag(magic: nat, size: nat, realSize: nat, index: int,
                     splitLeft: nat, splitRight: nat, next: nat, prev: nat)

  type Memory = map<nat, Tag>

  // getexp's value.
  function Exponent(size: nat): int {
    if size < 256 then -1 else if Log2(size) < 31 then Log2(size) else 31
  }

  function BinOf(payload: nat): (i: nat)
    ensures MINEXP <= i < MAXEXP
  {
    Log2BoundsAlways(payload);
    if Exponent(payload) < MINEXP then MINEXP else Exponent(payload)
  }

  lemma Log2BoundsAlways(n: nat)
    ensures n >= 256 ==> Log2(n) >= 8
  {
    if n >= 256 {
      Log2Bounds(n);
      assert Pow2(8) == 256;
      if Log2(n) < 8 {
        Pow2Monotone(Log2(n) + 1, 8);
      }
    }
  }

  // A payload's bin brackets it between powers of two, but for the first bin, which takes everything below as well,
  // and the last, which takes everything above.
  lemma BinBrackets(payload: nat)
    ensures BinOf(payload) > MINEXP ==> Pow2(BinOf(payload)) <= payload
    ensures BinOf(payload) < MAXEXP - 1 ==> payload < Pow2(BinOf(payload) + 1)
  {
    if payload >= 256 {
      Log2Bounds(payload);
      if Log2(payload) >= 31 {
        Pow2Monotone(31, Log2(payload));
      }
    } else {
      assert Pow2(8) == 256;
      assert Pow2(9) == 512;
    }
  }

  // The fewest pages, MIN_PAGES at least, with room for the header and the payload.
  function PagesFor(size: nat): (pages: nat)
    ensures pages >= MIN_PAGES && pages * PAGE >= size + HDR
    ensures pages > MIN_PAGES ==> (pages - 1) * PAGE < size + HDR
  {
    var usage := size + HDR;
    var pages := usage / PAGE + if usage % PAGE != 0 then 1 else 0;
    if pages < MIN_PAGES then MIN_PAGES else pages
  }

  // ---------- block structure ----------

  ghost function End(regions: map<nat, nat>, base: nat): nat
    requires base in regions
  {
    base + regions[base] * PAGE
  }

  ghost predicate RegionsOk(regions: map<nat, nat>) {
    && (forall b :: b in regions ==> b > 0 && regions[b] >= MIN_PAGES && regions[b] * PAGE <= 0x7FFF_FFFF)
    && (forall b, c :: b in regions && c in regions && b < c ==> End(regions, b) <= c)
  }

  ghost predicate BlockOk(mem: Memory, tags: set<nat>, owner: map<nat, nat>, regions: map<nat, nat>, t: nat) {
    && t in mem && t in owner && owner[t] in regions
    && var base := owner[t];
       var end := End(regions, base);
       var tag := mem[t];
    && tag.magic == MAGIC && HDR <= tag.realSize
    && base <= t && t + tag.realSize <= end
    && (tag.splitLeft == 0 <==> t == base)
    && (tag.splitLeft != 0 ==>
          var l := tag.splitLeft;
          l in tags && l in mem && l in owner && owner[l] == base && mem[l].splitRight == t && l + mem[l].realSize == t)
    && (tag.splitRight == 0 <==> t + tag.realSize == end)
    && (tag.splitRight != 0 ==>
          var r := tag.splitRight;
          r in tags && r in mem && r in owner && owner[r] == base && mem[r].splitLeft == t && r == t + tag.realSize)
  }

  ghost predicate Blocks(mem: Memory, tags: set<nat>, owner: map<nat, nat>, regions: map<nat, nat>) {
    && RegionsOk(regions)
    && (forall b :: b in regions ==> b in tags && b in owner && owner[b] == b)
    && (forall t {:trigger BlockOk(mem, tags, owner, regions, t)} :: t in tags ==>
        BlockOk(mem, tags, owner, regions, t))
  }

  // ---------- free lists ----------

  ghost predicate LinkOk(mem: Memory, tags: set<nat>, heads: seq<nat>, rank: map<nat, nat>, log: seq<nat>, t: nat)
    requires |heads| == MAXEXP
  {
    && t in mem && t > 0
    && var tag := mem[t];
       if tag.index < 0 then
         tag.index == -1 && tag.next == 0 && tag.prev == 0
       else
         && MINEXP <= tag.index < MAXEXP
         && t in rank && rank[t] < |log| && log[rank[t]] == t
         && (tag.prev == 0 <==> heads[tag.index] == t)
         && (tag.next != 0 ==>
               var n := tag.next;
               n in tags && n in mem && mem[n].index == tag.index && mem[n].prev == t && n in rank && rank[n] < rank[t])
         && (tag.prev != 0 ==>
               var p := tag.prev;
               p in tags && p in mem && mem[p].index == tag.index && mem[p].next == t && p in rank && rank[t] < rank[p])
  }

  ghost predicate Links(mem: Memory, tags: set<nat>, heads: seq<nat>, rank: map<nat, nat>, log: seq<nat>) {
    && |heads| == MAXEXP && 0 !in mem && tags <= mem.Keys
    && (forall t {:trigger LinkOk(mem, tags, heads, rank, log, t)} :: t in tags ==>
        LinkOk(mem, tags, heads, rank, log, t))
    && (forall i :: 0 <= i < MAXEXP && heads[i] != 0 ==>
        heads[i] in tags && heads[i] in mem && mem[heads[i]].index == i)
  }

  // Unlinking and linking change only list fields.
  ghost predicate SameBlocks(m: Memory, m': Memory) {
    && m'.Keys == m.Keys
    && forall a :: a in m ==>
         m'[a].magic == m[a].magic && m'[a].size == m[a].size && m'[a].realSize == m[a].realSize
         && m'[a].splitLeft == m[a].splitLeft && m'[a].splitRight == m[a].splitRight
  }

  // Splitting and melting change only block fields.
  ghost predicate SameLinksOn(m: Memory, m': Memory, tags: set<nat>) {
    forall a :: a in tags ==>
         a in m && a in m' && m'[a].index == m[a].index && m'[a].next == m[a].next && m'[a].prev == m[a].prev
  }

  lemma SameBlocksAt(m: Memory, m': Memory, a: nat)
    requires SameBlocks(m, m') && a in m
    ensures a in m' && m'[a].size == m[a].size && m'[a].realSize == m[a].realSize
    ensures m'[a].splitLeft == m[a].splitLeft && m'[a].splitRight == m[a].splitRight
    ensures m'.Keys == m.Keys
  {
  }

  lemma BlocksFrame(m: Memory, m': Memory, tags: set<nat>, owner: map<nat, nat>, regions: map<nat, nat>)
    requires Blocks(m, tags, owner, regions) && SameBlocks(m, m')
    ensures Blocks(m', tags, owner, regions)
  {
    forall t | t in tags ensures BlockOk(m', tags, owner, regions, t) {
      assert BlockOk(m, tags, owner, regions, t);
    }
  }

  // The memory after `t` is unlinked from the doubly linked list it is on.
  ghost predicate Unlinked(m: Memory, m': Memory, t: nat)
    requires t in m
  {
    && SameBlocks(m, m')
    && m'[t].index == -1 && m'[t].next == 0 && m'[t].prev == 0
    && (forall a :: a in m && a != t ==>
          && m'[a].index == m[a].index
          && m'[a].next == (if a == m[t].prev then m[t].next else m[a].next)
          && m'[a].prev == (if a == m[t].next then m[t].prev else m[a].prev))
  }

  lemma UnlinkedKeepsLink(m: Memory, m': Memory, tags: set<nat>, heads: seq<nat>, heads': seq<nat>,
                          rank: map<nat, nat>, log: seq<nat>, t: nat, a: nat)
    requires Links(m, tags, heads, rank, log) && t in tags && a in tags && t in m && m[t].index >= 0
    requires m[t].index < MAXEXP
    requires Unlinked(m, m', t)
    requires heads' == if heads[m[t].index] == t then heads[m[t].index := m[t].next] else heads
    ensures LinkOk(m', tags, heads', rank, log, a)
  {
    assert LinkOk(m, tags, heads, rank, log, t);
    assert LinkOk(m, tags, heads, rank, log, a);
  }

  lemma LinkEnds(m: Memory, tags: set<nat>, heads: seq<nat>, rank: map<nat, nat>, log: seq<nat>, t: nat)
    requires Links(m, tags, heads, rank, log) && t in tags && t in m && m[t].index >= 0
    ensures MINEXP <= m[t].index < MAXEXP && t != 0
    ensures var p := m[t].prev; p != 0 ==> p in m && p != t && p != m[t].next
    ensures var n := m[t].next; n != 0 ==> n in m && n != t && n in tags && m[n].index == m[t].index
  {
    assert LinkOk(m, tags, heads, rank, log, t);
  }

  lemma UnlinkedKeepsLinks(m: Memory, m': Memory, tags: set<nat>, heads: seq<nat>, rank: map<nat, nat>, log: seq<nat>,
          t: nat)
    requires Links(m, tags, heads, rank, log) && t in tags && t in m && 0 <= m[t].index < MAXEXP
    requires Unlinked(m, m', t)
    ensures Links(m', tags, if heads[m[t].index] == t then heads[m[t].index := m[t].next] else heads, rank, log)
    ensures SameBlocks(m, m') && m'[t].index == -1 && m'[t].next == 0 && m'[t].prev == 0
    ensures forall a :: a in m && a != t ==> m'[a].index == m[a].index
  {
    var heads' := if heads[m[t].index] == t then heads[m[t].index := m[t].next] else heads;
    forall a | a in tags ensures LinkOk(m', tags, heads', rank, log, a) {
      UnlinkedKeepsLink(m, m', tags, heads, heads', rank, log, t, a);
    }
    LinkEnds(m, tags, heads, rank, log, t);
  }

  // The memory after `t` is pushed in front of list `i`.
  ghost predicate Pushed(m: Memory, m': Memory, t: nat, i: int, h: nat)
    requires t in m
  {
    && SameBlocks(m, m')
    && m'[t].index == i && m'[t].prev == m[t].prev && m'[t].next == (if h != 0 then h else m[t].next)
    && (forall a :: a in m && a != t ==>
          && m'[a].index == m[a].index && m'[a].next == m[a].next
          && m'[a].prev == (if a == h then t else m[a].prev))
  }

  lemma PushedKeepsLink(m: Memory, m': Memory, tags: set<nat>, heads: seq<nat>, rank: map<nat, nat>, log: seq<nat>,
                        t: nat, i: int, a: nat)
    requires Links(m, tags - {t}, heads, rank, log) && t in tags && a in tags
    requires t in m && m[t].next == 0 && m[t].prev == 0
    requires MINEXP <= i < MAXEXP && Pushed(m, m', t, i, heads[i])
    ensures LinkOk(m', tags, heads[i := t], rank[t := |log|], log + [t], a)
  {
    if a != t {
      assert LinkOk(m, tags - {t}, heads, rank, log, a);
    }
    if heads[i] != 0 {
      assert LinkOk(m, tags - {t}, heads, rank, log, heads[i]);
    }
  }

  // A block of the same length, in use or free as before.
  predicate SameBlock(a: Tag, b: Tag) {
    b.realSize == a.realSize && b.size == a.size && (b.index < 0 <==> a.index < 0)
  }

  ghost predicate Kept(m: Memory, m': Memory, s: set<nat>) {
    forall a :: a in s && a in m ==> a in m' && SameBlock(m[a], m'[a])
  }

  // The blocks of the live allocations stay as they are.
  ghost predicate UsedKept(m: Memory, m': Memory, live: map<nat, nat>) {
    forall p :: p in live && p >= HDR && p - HDR in m ==> p - HDR in m' && SameBlock(m[p - HDR], m'[p - HDR])
  }

  lemma RelinkedKept(m: Memory, m': Memory, s: set<nat>, t: nat)
    requires SameBlocks(m, m') && forall a :: a in m && a in m' && a != t ==> m'[a].index == m[a].index
    ensures Kept(m, m', s - {t})
  {
  }

  lemma KeptTwice(m: Memory, m': Memory, m'': Memory, s: set<nat>, s': set<nat>)
    requires Kept(m, m', s) && Kept(m', m'', s')
    ensures Kept(m, m'', s * s')
  {
  }

  lemma UsedTwice(m: Memory, m': Memory, m'': Memory, live: map<nat, nat>)
    requires UsedKept(m, m', live) && UsedKept(m', m'', live)
    ensures UsedKept(m, m'', live)
  {
  }

  // The stores remove_tag makes, in order.
  function UnlinkStores(m: Memory, t: nat): Memory
    requires t in m && (m[t].prev != 0 ==> m[t].prev in m) && (m[t].next != 0 ==> m[t].next in m)
  {
    var p, n := m[t].prev, m[t].next;
    var m1 := if p != 0 then m[p := m[p].(next := n)] else m;
    var m2 := if n != 0 then m1[n := m1[n].(prev := p)] else m1;
    m2[t := m2[t].(next := 0, prev := 0, index := -1)]
  }

  lemma UnlinkStoresUnlink(m: Memory, t: nat)
    requires t in m && t != 0 && 0 !in m && m[t].prev != t && m[t].next != t
    requires (m[t].prev != 0 ==> m[t].prev in m) && (m[t].next != 0 ==> m[t].next in m)
    ensures Unlinked(m, UnlinkStores(m, t), t)
  {
  }

  lemma PushedIndices(m: Memory, m': Memory, t: nat, i: int, h: nat)
    requires t in m && Pushed(m, m', t, i, h)
    ensures SameBlocks(m, m') && m'[t].index == i
    ensures forall a :: a in m && a != t ==> m'[a].index == m[a].index
  {
  }

  // The stores insert_tag makes for a tag going to list `i` whose head is `h`, in order.
  function PushStores(m: Memory, t: nat, i: int, h: nat): Memory
    requires t in m && (h != 0 ==> h in m)
  {
    var m1 := m[t := m[t].(index := i)];
    if h != 0 then
      var m2 := m1[h := m1[h].(prev := t)];
      m2[t := m2[t].(next := h)]
    else m1
  }

  lemma PushStoresPush(m: Memory, t: nat, i: int, h: nat)
    requires t in m && (h != 0 ==> h in m) && h != t && 0 !in m
    ensures Pushed(m, PushStores(m, t, i, h), t, i, h)
  {
  }

  // A non-free tag can be forgotten without disturbing the free lists.
  lemma ForgetKeepsLinks(m: Memory, tags: set<nat>, heads: seq<nat>, rank: map<nat, nat>, log: seq<nat>, t: nat)
    requires Links(m, tags, heads, rank, log) && t in tags && t in m && m[t].index < 0
    ensures Links(m, tags - {t}, heads, rank, log)
  {
    forall a | a in tags - {t} ensures LinkOk(m, tags - {t}, heads, rank, log, a) {
      assert LinkOk(m, tags, heads, rank, log, a);
    }
  }

  // Block-field writes leave the free lists alone.
  lemma LinksFrame(m: Memory, m': Memory, tags: set<nat>, heads: seq<nat>, rank: map<nat, nat>, log: seq<nat>)
    requires Links(m, tags, heads, rank, log) && SameLinksOn(m, m', tags) && 0 !in m'
    ensures Links(m', tags, heads, rank, log)
  {
    forall a | a in tags ensures LinkOk(m', tags, heads, rank, log, a) {
      assert LinkOk(m, tags, heads, rank, log, a);
    }
  }

  // `l` has swallowed its right neighbour `t`.
  ghost predicate Merged(m: Memory, m': Memory, l: nat, t: nat)
    requires l in m && t in m
  {
    && m'.Keys == m.Keys
    && m'[l] == m[l].(realSize := m[l].realSize + m[t].realSize, splitRight := m[t].splitRight)
    && (forall a :: a in m && a != l ==>
          m'[a] == if a == m[t].splitRight then m[a].(splitLeft := l) else m[a])
  }

  lemma MergeKeepsBlocks(m: Memory, m': Memory, tags: set<nat>, owner: map<nat, nat>, regions: map<nat, nat>, l: nat,
          t: nat)
    requires Blocks(m, tags, owner, regions) && l in tags && t in tags && l in m && t in m
    requires m[t].splitLeft == l && l != 0 && Merged(m, m', l, t)
    ensures Blocks(m', tags - {t}, owner, regions)
  {
    assert BlockOk(m, tags, owner, regions, l);
    assert BlockOk(m, tags, owner, regions, t);
    forall a | a in tags - {t} ensures BlockOk(m', tags - {t}, owner, regions, a) {
      assert BlockOk(m, tags, owner, regions, a);
    }
  }

  // `t` has given everything from `u` on to a new tag there.
  ghost predicate Split(m: Memory, m': Memory, t: nat, u: nat)
    requires t in m && t < u
  {
    && m'.Keys == m.Keys + {u}
    && m'[t] == m[t].(realSize := u - t, splitRight := u)
    && m'[u].magic == MAGIC && m'[u].realSize == m[t].realSize - (u - t)
    && m'[u].splitLeft == t && m'[u].splitRight == m[t].splitRight
    && m'[u].next == 0 && m'[u].prev == 0
    && (forall a :: a in m && a != t && a != u ==>
          m'[a] == if a == m[t].splitRight then m[a].(splitLeft := u) else m[a])
  }

  lemma SplitKeepsBlocks(m: Memory, m': Memory, tags: set<nat>, owner: map<nat, nat>, regions: map<nat, nat>, t: nat,
          u: nat)
    requires Blocks(m, tags, owner, regions) && t in tags && t in m && t in owner
    requires t + HDR <= u && u + HDR <= t + m[t].realSize && u !in tags
    requires Split(m, m', t, u)
    ensures Blocks(m', tags + {u}, owner[u := owner[t]], regions)
  {
    assert BlockOk(m, tags, owner, regions, t);
    forall a | a in tags + {u} ensures BlockOk(m', tags + {u}, owner[u := owner[t]], regions, a) {
      if a != u {
        assert BlockOk(m, tags, owner, regions, a);
      }
    }
  }

  // No tag lies strictly inside another tag's block.
  lemma {:induction false} NoTagInside(m: Memory, tags: set<nat>, owner: map<nat, nat>, regions: map<nat, nat>,
          t: nat, u: nat)
    requires Blocks(m, tags, owner, regions) && t in tags && u in tags && t in m
    requires t < u
    ensures t + m[t].realSize <= u
    decreases u + t
  {
    assert BlockOk(m, tags, owner, regions, t);
    assert BlockOk(m, tags, owner, regions, u);
    if u < t + m[t].realSize && owner[t] == owner[u] {
      var l := m[u].splitLeft;
      assert BlockOk(m, tags, owner, regions, l);
      if t < l {
        NoTagInside(m, tags, owner, regions, t, l);
      } else if l < t {
        NoTagInside(m, tags, owner, regions, l, t);
      }
    }
  }

  // A fresh region holds one tag that covers it.
  lemma NewRegionKeepsBlocks(m: Memory, tag: Tag, tags: set<nat>, owner: map<nat, nat>, regions: map<nat, nat>,
                             b: nat, pages: nat)
    requires Blocks(m, tags, owner, regions) && b > 0 && pages >= MIN_PAGES && pages * PAGE <= 0x7FFF_FFFF
    requires forall c :: c in regions ==> b + pages * PAGE <= c || End(regions, c) <= b
    requires tag.magic == MAGIC && tag.realSize == pages * PAGE && tag.splitLeft == 0 && tag.splitRight == 0
    ensures b !in tags
    ensures Blocks(m[b := tag], tags + {b}, owner[b := b], regions[b := pages])
  {
    assert b in tags ==> BlockOk(m, tags, owner, regions, b);
    var regions' := regions[b := pages];
    forall a | a in tags + {b} ensures BlockOk(m[b := tag], tags + {b}, owner[b := b], regions', a) {
      if a != b {
        assert BlockOk(m, tags, owner, regions, a);
        assert End(regions', owner[a]) == End(regions, owner[a]);
      }
    }
    forall c, d | c in regions' && d in regions' && c < d ensures End(regions', c) <= d {
      if c != b {
        assert End(regions', c) == End(regions, c);
      }
    }
  }

  lemma NewRegionKeepsRest(m: Memory, tag: Tag, tags: set<nat>, heads: seq<nat>, rank: map<nat, nat>, log: seq<nat>,
                           live: map<nat, nat>, complete: seq<set<nat>>, completePages: seq<int>, b: nat)
    requires Links(m, tags, heads, rank, log) && Meaning(m, tags, live, complete, completePages, {})
    requires b > 0 && b !in tags && tag.index == -1 && tag.next == 0 && tag.prev == 0
    ensures Links(m[b := tag], tags + {b}, heads, rank, log)
    ensures Meaning(m[b := tag], tags + {b}, live, complete, completePages, {b})
  {
    forall a | a in tags + {b} ensures LinkOk(m[b := tag], tags + {b}, heads, rank, log, a) {
      if a != b {
        assert LinkOk(m, tags, heads, rank, log, a);
      }
    }
  }

  // A region whose only tag is `b` can be given back.
  lemma DropRegionKeepsBlocks(m: Memory, tags: set<nat>, owner: map<nat, nat>, regions: map<nat, nat>, b: nat)
    requires Blocks(m, tags, owner, regions) && b in tags && b in m
    requires m[b].splitLeft == 0 && m[b].splitRight == 0
    ensures b in regions && m[b].realSize == regions[b] * PAGE && regions[b] >= MIN_PAGES
    ensures Blocks(m, tags - {b}, owner, regions - {b})
  {
    assert BlockOk(m, tags, owner, regions, b);
    var regions' := regions - {b};
    forall a | a in tags - {b} ensures BlockOk(m, tags - {b}, owner, regions', a) {
      assert BlockOk(m, tags, owner, regions, a);
      if owner[a] == b {
        NoTagInside(m, tags, owner, regions, b, a);
        assert false;
      }
      assert End(regions', owner[a]) == End(regions, owner[a]);
    }
    forall c, d | c in regions' && d in regions' && c < d ensures End(regions', c) <= d {
      assert End(regions', c) == End(regions, c);
    }
  }

  // ---------- what the heap means ----------
  // `held` are the tags in hand: on no list, their blocks still being changed.

  // Every free tag sits in the bin of its payload's exponent.
  ghost predicate Binned(m: Memory, tags: set<nat>, held: set<nat>) {
    forall t :: t in tags && t !in held && t in m && m[t].index >= 0 ==>
      m[t].realSize >= HDR && m[t].index == BinOf(m[t].realSize - HDR)
  }

  // No two neighbours are both free.
  ghost predicate Coalesced(m: Memory, tags: set<nat>, held: set<nat>) {
    forall t :: t in tags && t !in held && t in m && m[t].index >= 0 ==>
      var r := m[t].splitRight;
      r != 0 && r !in held && r in m ==> m[r].index < 0
  }

  // The non-free tags are exactly the live allocations.
  ghost predicate Tracks(m: Memory, tags: set<nat>, live: map<nat, nat>, held: set<nat>) {
    && (forall t :: t in tags && t !in held && t in m && m[t].index < 0 ==>
          t + HDR in live && live[t + HDR] == m[t].size && m[t].size + HDR <= m[t].realSize)
    && (forall p :: p in live ==>
          p >= HDR && p - HDR in tags && p - HDR !in held && p - HDR in m && m[p - HDR].index < 0)
  }

  ghost predicate Whole(tag: Tag) {
    tag.splitLeft == 0 && tag.splitRight == 0
  }

  // The bin of a whole region of so many bytes already keeps as many as it may.
  predicate BinFull(completePages: seq<int>, bytes: int) {
    |completePages| == MAXEXP && bytes >= HDR && completePages[BinOf(bytes - HDR)] == MAXCOMPLETE
  }

  // The header of the allocation at p lies in the region at b.
  ghost predicate LiesIn(regions: map<nat, nat>, p: nat, b: nat)
    requires b in regions
  {
    b <= p - HDR < End(regions, b)
  }

  // completePages[i] counts the neighbour-less free tags of bin i.
  ghost predicate Counted(m: Memory, tags: set<nat>, complete: seq<set<nat>>, completePages: seq<int>, held: set<nat>) {
    && |complete| == MAXEXP && |completePages| == MAXEXP
    && (forall i :: 0 <= i < MAXEXP ==> completePages[i] == |complete[i]| <= MAXCOMPLETE)
    && (forall i, t :: 0 <= i < MAXEXP ==>
          (t in complete[i] <==> t in tags && t !in held && t in m && m[t].index == i && Whole(m[t])))
  }

  ghost predicate Meaning(m: Memory, tags: set<nat>, live: map<nat, nat>, complete: seq<set<nat>>,
          completePages: seq<int>,
                          held: set<nat>)
  {
    && Binned(m, tags, held) && Coalesced(m, tags, held) && Tracks(m, tags, live, held)
    && Counted(m, tags, complete, completePages, held)
  }

  // Merging a tag in hand into its free (or held) left neighbour, which is then in hand instead.
  lemma MergeKeepsMeaning(m: Memory, m': Memory, tags: set<nat>, owner: map<nat, nat>, regions: map<nat, nat>,
                          live: map<nat, nat>, complete: seq<set<nat>>, completePages: seq<int>,
                          held: set<nat>, l: nat, t: nat)
    requires Blocks(m, tags, owner, regions) && Meaning(m, tags, live, complete, completePages, held)
    requires t in held && t in tags && l in tags && l in m && t in m && 0 !in m
    requires m[t].splitLeft == l && l != 0 && (l in held || m[l].index >= 0) && Merged(m, m', l, t)
    ensures Meaning(m', tags - {t}, live, complete, completePages, held - {t} + {l})
  {
    hide Counted;
    assert BlockOk(m, tags, owner, regions, t);
    forall a | a in tags && a in m && a != l ensures m[a].splitRight != t {
      assert BlockOk(m, tags, owner, regions, a);
    }
    MergeKeepsTracks(m, m', tags, live, held, l, t);
    MergeKeepsCounted(m, m', tags, complete, completePages, held, l, t);
    hide Tracks;
  }

  lemma MergeKeepsTracks(m: Memory, m': Memory, tags: set<nat>, live: map<nat, nat>, held: set<nat>, l: nat, t: nat)
    requires Tracks(m, tags, live, held)
    requires t in held && l in m && t in m && (l in held || m[l].index >= 0) && Merged(m, m', l, t)
    ensures Tracks(m', tags - {t}, live, held - {t} + {l})
  {
  }

  lemma MergeKeepsCounted(m: Memory, m': Memory, tags: set<nat>, complete: seq<set<nat>>, completePages: seq<int>,
                          held: set<nat>, l: nat, t: nat)
    requires Counted(m, tags, complete, completePages, held)
    requires t in held && t in m && l in m && l != 0 && 0 !in m && m[l].splitRight == t && t != 0 && m[t].splitLeft == l
    requires m[t].splitRight != 0 && m[t].splitRight in m ==> m[m[t].splitRight].splitLeft == t
    requires Merged(m, m', l, t)
    ensures Counted(m', tags - {t}, complete, completePages, held - {t} + {l})
  {
  }

  // A free tag is taken off its list and into the hand.
  lemma TakeKeepsMeaning(m: Memory, m': Memory, tags: set<nat>, live: map<nat, nat>,
                         complete: seq<set<nat>>, completePages: seq<int>, held: set<nat>, t: nat)
    requires Meaning(m, tags, live, complete, completePages, held)
    requires t in tags && t in m && MINEXP <= m[t].index < MAXEXP
    requires SameBlocks(m, m') && m'[t].index == -1 && (forall a :: a in m && a != t ==> m'[a].index == m[a].index)
    ensures var i := m[t].index;
            if t !in held && Whole(m[t])
            then Meaning(m', tags, live, complete[i := complete[i] - {t}], completePages[i := completePages[i] - 1],
                held + {t})
            else Meaning(m', tags, live, complete, completePages, held + {t})
  {
    TakeKeepsTracks(m, m', tags, live, held, t);
    TakeKeepsCounted(m, m', tags, complete, completePages, held, t);
    hide Tracks, Counted;
  }

  lemma TakeKeepsTracks(m: Memory, m': Memory, tags: set<nat>, live: map<nat, nat>, held: set<nat>, t: nat)
    requires Tracks(m, tags, live, held) && t in m && m[t].index >= 0
    requires SameBlocks(m, m') && (forall a :: a in m && a != t ==> m'[a].index == m[a].index)
    ensures Tracks(m', tags, live, held + {t})
  {
  }

  lemma TakeKeepsCounted(m: Memory, m': Memory, tags: set<nat>, complete: seq<set<nat>>, completePages: seq<int>,
                         held: set<nat>, t: nat)
    requires Counted(m, tags, complete, completePages, held)
    requires t in tags && t in m && MINEXP <= m[t].index < MAXEXP
    requires SameBlocks(m, m') && (forall a :: a in m && a != t ==> m'[a].index == m[a].index)
    ensures var i := m[t].index;
            if t !in held && Whole(m[t])
            then Counted(m', tags, complete[i := complete[i] - {t}], completePages[i := completePages[i] - 1],
                held + {t})
            else Counted(m', tags, complete, completePages, held + {t})
  {
  }

  // The stores melt_left and absorb_right make to merge `t` into its left neighbour `l`, in order.
  function MergeStores(m: Memory, l: nat, t: nat): Memory
    requires l in m && t in m && l != t && (m[t].splitRight != 0 ==> m[t].splitRight in m)
  {
    var r := m[t].splitRight;
    var m1 := m[l := m[l].(realSize := m[l].realSize + m[t].realSize)];
    var m2 := m1[l := m1[l].(splitRight := r)];
    if r != 0 then m2[r := m2[r].(splitLeft := l)] else m2
  }

  lemma NullUnmapped(m: Memory, tags: set<nat>, heads: seq<nat>, rank: map<nat, nat>, log: seq<nat>)
    requires Links(m, tags, heads, rank, log)
    ensures 0 !in m && tags <= m.Keys && |heads| == MAXEXP
  {
  }

  lemma HeadOnList(m: Memory, tags: set<nat>, heads: seq<nat>, rank: map<nat, nat>, log: seq<nat>, i: nat)
    requires Links(m, tags, heads, rank, log) && MINEXP <= i < MAXEXP
    ensures var h := heads[i];
            h != 0 ==> h in tags && h in m && m[h].index == i && m[h].prev == 0
  {
    assert heads[i] != 0 ==> LinkOk(m, tags, heads, rank, log, heads[i]);
  }

  lemma PushedKeepsLinks(m: Memory, m': Memory, tags: set<nat>, heads: seq<nat>, rank: map<nat, nat>, log: seq<nat>,
                         t: nat, i: int)
    requires Links(m, tags - {t}, heads, rank, log) && t in tags
    requires t in m && m[t].next == 0 && m[t].prev == 0
    requires MINEXP <= i < MAXEXP && Pushed(m, m', t, i, heads[i])
    ensures Links(m', tags, heads[i := t], rank[t := |log|], log + [t])
  {
    forall a | a in tags ensures LinkOk(m', tags, heads[i := t], rank[t := |log|], log + [t], a) {
      PushedKeepsLink(m, m', tags, heads, rank, log, t, i, a);
    }
  }

  lemma TagMagic(m: Memory, tags: set<nat>, owner: map<nat, nat>, regions: map<nat, nat>, t: nat)
    requires Blocks(m, tags, owner, regions)
    ensures t in tags ==> t in m && m[t].magic == MAGIC
  {
    assert t in tags ==> BlockOk(m, tags, owner, regions, t);
  }

  lemma Neighbours(m: Memory, tags: set<nat>, owner: map<nat, nat>, regions: map<nat, nat>, t: nat)
    requires Blocks(m, tags, owner, regions) && t in tags && t in m
    ensures var l := m[t].splitLeft;
            l != 0 ==> l in tags && l in m && l < t && m[l].splitRight == t
    ensures var r := m[t].splitRight;
            r != 0 ==> r in tags && r in m && t < r && m[r].splitLeft == t
    ensures t > 0 && HDR <= m[t].realSize <= 0x7FFF_FFFF && m[t].magic == MAGIC
  {
    assert BlockOk(m, tags, owner, regions, t);
  }

  // A tag's left neighbour belongs to the same region.
  lemma SameOwner(m: Memory, tags: set<nat>, owner: map<nat, nat>, regions: map<nat, nat>, t: nat)
    requires Blocks(m, tags, owner, regions) && t in tags && t in m
    ensures t in owner && owner[t] in regions && owner[t] <= t < End(regions, owner[t])
    ensures m[t].splitLeft != 0 ==> m[t].splitLeft in owner && owner[m[t].splitLeft] == owner[t]
  {
    assert BlockOk(m, tags, owner, regions, t);
  }

  // And the one region its header lies in is its owner.
  lemma OneRegion(m: Memory, tags: set<nat>, owner: map<nat, nat>, regions: map<nat, nat>, t: nat)
    requires Blocks(m, tags, owner, regions) && t in tags && t in m
    ensures t in owner && forall b :: b in regions ==> (LiesIn(regions, t + HDR, b) <==> b == owner[t])
  {
    SameOwner(m, tags, owner, regions, t);
  }

  // The melted tag spans its region exactly when no other allocation lies in it.
  lemma WholeMeansAlone(m: Memory, tags: set<nat>, owner: map<nat, nat>, regions: map<nat, nat>,
                        live: map<nat, nat>, complete: seq<set<nat>>, completePages: seq<int>, t: nat)
    requires Blocks(m, tags, owner, regions) && Meaning(m, tags, live, complete, completePages, {t})
    requires t in tags && t in m && t in owner && owner[t] in regions
    requires m[t].splitLeft != 0 && m[t].splitLeft in m ==> m[m[t].splitLeft].index < 0
    requires m[t].splitRight != 0 && m[t].splitRight in m ==> m[m[t].splitRight].index < 0
    ensures Whole(m[t]) <==> forall q :: q in live ==> !LiesIn(regions, q, owner[t])
    ensures Whole(m[t]) ==> t == owner[t] && m[t].realSize == regions[t] * PAGE
  {
    var b := owner[t];
    assert BlockOk(m, tags, owner, regions, t);
    if Whole(m[t]) {
      forall q | q in live && LiesIn(regions, q, b) ensures false {
        assert q - HDR in tags && q - HDR != t;
        NoTagInside(m, tags, owner, regions, t, q - HDR);
      }
    } else {
      var n := if m[t].splitLeft != 0 then m[t].splitLeft else m[t].splitRight;
      assert BlockOk(m, tags, owner, regions, n);
      assert n + HDR in live && n + HDR - HDR == n && LiesIn(regions, n + HDR, b);
    }
  }

  // The stores split_tag makes to cut tag `u` off tag `t`; `junk` is what the new header's memory held before.
  function SplitStores(m: Memory, t: nat, u: nat, junk: Tag): Memory
    requires t in m && t < u && t + m[t].realSize >= u
    requires m[t].splitRight != 0 ==> m[t].splitRight in m && m[t].splitRight != t && m[t].splitRight != u
  {
    var r := m[t].splitRight;
    var remainder := m[t].realSize - (u - t);
    var m1 := m[u := junk.(magic := MAGIC, realSize := remainder, next := 0, prev := 0, splitLeft := t,
        splitRight := r)];
    var m2 := if r != 0 then m1[r := m1[r].(splitLeft := u)] else m1;
    var m3 := m2[t := m2[t].(splitRight := u)];
    m3[t := m3[t].(realSize := m3[t].realSize - remainder)]
  }

  lemma SplitStoresSplit(m: Memory, t: nat, u: nat, junk: Tag)
    requires t in m && t < u && t + m[t].realSize >= u && 0 !in m
    requires m[t].splitRight != 0 ==> m[t].splitRight in m && m[t].splitRight != t && m[t].splitRight != u
    ensures Split(m, SplitStores(m, t, u, junk), t, u)
  {
  }

  lemma MergeStoresMerge(m: Memory, l: nat, t: nat)
    requires l in m && t in m && l != t && 0 !in m
    requires m[t].splitRight != 0 ==> m[t].splitRight in m && m[t].splitRight != l
    ensures Merged(m, MergeStores(m, l, t), l, t)
  {
  }

  lemma MergeKeepsAll(m: Memory, m': Memory, tags: set<nat>, owner: map<nat, nat>, regions: map<nat, nat>,
                      heads: seq<nat>, rank: map<nat, nat>, log: seq<nat>,
                      live: map<nat, nat>, complete: seq<set<nat>>, completePages: seq<int>,
                      held: set<nat>, l: nat, t: nat)
    requires Blocks(m, tags, owner, regions) && Links(m, tags, heads, rank, log)
    requires Meaning(m, tags, live, complete, completePages, held)
    requires t in held && t in tags && l in tags && l in m && t in m && m[t].index < 0
    requires m[t].splitLeft == l && l != 0 && (l in held || m[l].index >= 0) && Merged(m, m', l, t)
    ensures Blocks(m', tags - {t}, owner, regions) && Links(m', tags - {t}, heads, rank, log)
    ensures Meaning(m', tags - {t}, live, complete, completePages, held - {t} + {l})
  {
    ForgetKeepsLinks(m, tags, heads, rank, log, t);
    MergeKeepsBlocks(m, m', tags, owner, regions, l, t);
    LinksFrame(m, m', tags - {t}, heads, rank, log);
    MergeKeepsMeaning(m, m', tags, owner, regions, live, complete, completePages, held, l, t);
  }

  // A tag in hand goes (back) onto list i; neither neighbour is free.
  lemma PutKeepsMeaning(m: Memory, m': Memory, tags: set<nat>, owner: map<nat, nat>, regions: map<nat, nat>,
                        live: map<nat, nat>, complete: seq<set<nat>>, completePages: seq<int>, held: set<nat>, t: nat)
    requires Blocks(m, tags, owner, regions) && Meaning(m, tags, live, complete, completePages, held)
    requires t in held && t in tags && t in m && t != 0 && m[t].realSize >= HDR
    requires SameBlocks(m, m') && m'[t].index == BinOf(m[t].realSize - HDR)
    requires forall a :: a in m && a != t ==> m'[a].index == m[a].index
    requires m[t].splitLeft != 0 && m[t].splitLeft in m ==> m[m[t].splitLeft].index < 0
    requires m[t].splitRight != 0 && m[t].splitRight in m ==> m[m[t].splitRight].index < 0
    requires Whole(m[t]) ==> completePages[BinOf(m[t].realSize - HDR)] < MAXCOMPLETE
    ensures var i := BinOf(m[t].realSize - HDR);
            if Whole(m[t])
            then Meaning(m', tags, live, complete[i := complete[i] + {t}], completePages[i := completePages[i] + 1],
                held - {t})
            else Meaning(m', tags, live, complete, completePages, held - {t})
  {
    hide Counted;
    forall a | a in tags && a in m && m[a].splitRight == t ensures m[t].splitLeft == a && a != 0 {
      assert BlockOk(m, tags, owner, regions, a);
    }
    assert BlockOk(m, tags, owner, regions, t);
    PutKeepsCounted(m, m', tags, complete, completePages, held, t);
  }

  lemma PutKeepsCounted(m: Memory, m': Memory, tags: set<nat>, complete: seq<set<nat>>, completePages: seq<int>,
                        held: set<nat>, t: nat)
    requires Counted(m, tags, complete, completePages, held)
    requires t in held && t in tags && t in m && t in m' && MINEXP <= m'[t].index < MAXEXP
    requires SameBlocks(m, m') && forall a :: a in m && a != t ==> m'[a].index == m[a].index
    requires Whole(m[t]) ==> completePages[m'[t].index] < MAXCOMPLETE
    ensures var i := m'[t].index;
            if Whole(m[t])
            then Counted(m', tags, complete[i := complete[i] + {t}], completePages[i := completePages[i] + 1],
                held - {t})
            else Counted(m', tags, complete, completePages, held - {t})
  {
    assert t !in complete[m'[t].index];
  }

  // A new tag cut off a tag in hand is in hand too.
  lemma SplitKeepsMeaning(m: Memory, m': Memory, tags: set<nat>, owner: map<nat, nat>, regions: map<nat, nat>,
                          live: map<nat, nat>, complete: seq<set<nat>>, completePages: seq<int>, t: nat, u: nat)
    requires Blocks(m, tags, owner, regions) && Meaning(m, tags, live, complete, completePages, {t})
    requires t in tags && t in m && t < u && u !in tags && Split(m, m', t, u) && 0 !in m
    ensures Meaning(m', tags + {u}, live, complete, completePages, {t, u})
  {
    hide Counted;
    forall a | a in tags && a in m ensures m[a].splitRight != u {
      assert BlockOk(m, tags, owner, regions, a);
    }
    assert BlockOk(m, tags, owner, regions, t);
    SplitKeepsTracks(m, m', tags, live, t, u);
    SplitKeepsCounted(m, m', tags, complete, completePages, t, u);
    hide Tracks;
  }

  lemma SplitKeepsTracks(m: Memory, m': Memory, tags: set<nat>, live: map<nat, nat>, t: nat, u: nat)
    requires Tracks(m, tags, live, {t})
    requires t in m && t < u && u !in tags && Split(m, m', t, u)
    ensures Tracks(m', tags + {u}, live, {t, u})
  {
  }

  lemma SplitKeepsCounted(m: Memory, m': Memory, tags: set<nat>, complete: seq<set<nat>>, completePages: seq<int>,
          t: nat, u: nat)
    requires Counted(m, tags, complete, completePages, {t})
    requires t in m && 0 < t < u && u !in tags && Split(m, m', t, u) && 0 !in m
    requires m[t].splitRight in m ==> m[m[t].splitRight].splitLeft == t
    ensures Counted(m', tags + {u}, complete, completePages, {t, u})
  {
    forall i, a | 0 <= i < MAXEXP
      ensures a in complete[i] <==>
              a in tags + {u} && a !in {t, u} && a in m' && m'[a].index == i && Whole(m'[a])
    {
    }
  }

  // The cut point of a split is not a tag yet.
  lemma SplitPointFresh(m: Memory, tags: set<nat>, owner: map<nat, nat>, regions: map<nat, nat>, t: nat, u: nat)
    requires Blocks(m, tags, owner, regions) && t in tags && t in m && t < u < t + m[t].realSize
    ensures u !in tags && t in owner && (m[t].splitRight != 0 ==> m[t].splitRight != u)
  {
    assert BlockOk(m, tags, owner, regions, t);
    if u in tags {
      NoTagInside(m, tags, owner, regions, t, u);
    }
  }

  lemma AddedTagKeepsLinks(m: Memory, m': Memory, tags: set<nat>, heads: seq<nat>, rank: map<nat, nat>, log: seq<nat>,
          t: nat, u: nat)
    requires Links(m, tags, heads, rank, log) && t in tags && t in m && t < u && u !in tags
    requires Split(m, m', t, u)
    ensures Links(m', tags + {u} - {u}, heads, rank, log)
  {
    assert tags + {u} - {u} == tags;
    LinksFrame(m, m', tags, heads, rank, log);
  }

  // A tag in hand becomes the live allocation at its payload.
  lemma ReleaseKeepsMeaning(m: Memory, tags: set<nat>, live: map<nat, nat>, complete: seq<set<nat>>,
          completePages: seq<int>, t: nat)
    requires Meaning(m, tags, live, complete, completePages, {t})
    requires t in tags && t in m && m[t].index < 0 && m[t].size + HDR <= m[t].realSize
    ensures t + HDR !in live
    ensures Meaning(m, tags, live[t + HDR := m[t].size], complete, completePages, {})
  {
    ReleaseKeepsTracks(m, tags, live, t);
    ReleaseKeepsRest(m, tags, complete, completePages, t);
    hide Binned, Coalesced, Tracks, Counted;
  }

  lemma ReleaseKeepsTracks(m: Memory, tags: set<nat>, live: map<nat, nat>, t: nat)
    requires Tracks(m, tags, live, {t})
    requires t in tags && t in m && m[t].index < 0 && m[t].size + HDR <= m[t].realSize
    ensures t + HDR !in live && Tracks(m, tags, live[t + HDR := m[t].size], {})
  {
    assert t + HDR - HDR == t;
  }

  lemma ReleaseKeepsRest(m: Memory, tags: set<nat>, complete: seq<set<nat>>, completePages: seq<int>, t: nat)
    requires Binned(m, tags, {t}) && Coalesced(m, tags, {t}) && Counted(m, tags, complete, completePages, {t})
    requires t in m && m[t].index < 0
    ensures Binned(m, tags, {}) && Coalesced(m, tags, {}) && Counted(m, tags, complete, completePages, {})
  {
    hide BinOf;
  }

  // The live allocation at `t`'s payload comes back into the hand.
  lemma ReclaimKeepsMeaning(m: Memory, tags: set<nat>, live: map<nat, nat>, complete: seq<set<nat>>,
          completePages: seq<int>, t: nat)
    requires Meaning(m, tags, live, complete, completePages, {})
    requires t + HDR in live
    ensures t in tags && t in m && m[t].index < 0
    ensures Meaning(m, tags, live - {t + HDR}, complete, completePages, {t})
  {
    assert t + HDR - HDR == t;
  }

  // A tag in hand is given away altogether.
  lemma DropKeepsMeaning(m: Memory, tags: set<nat>, owner: map<nat, nat>, regions: map<nat, nat>,
                         live: map<nat, nat>, complete: seq<set<nat>>, completePages: seq<int>, t: nat)
    requires Blocks(m, tags, owner, regions) && Meaning(m, tags, live, complete, completePages, {t})
    requires t in tags && t in m && t != 0 && m[t].splitLeft == 0
    ensures Meaning(m, tags - {t}, live, complete, completePages, {})
  {
    forall a | a in tags && a in m ensures m[a].splitRight != t {
      assert BlockOk(m, tags, owner, regions, a);
    }
    assert Counted(m, tags - {t}, complete, completePages, {});
  }

  lemma CompleteBounds(m: Memory, tags: set<nat>, live: map<nat, nat>, complete: seq<set<nat>>, completePages: seq<int>,
                       held: set<nat>, i: nat)
    requires Meaning(m, tags, live, complete, completePages, held) && i < MAXEXP
    ensures |complete| == |completePages| == MAXEXP && 0 <= completePages[i] <= MAXCOMPLETE
  {
  }

  lemma HeldUnlinked(m: Memory, tags: set<nat>, heads: seq<nat>, rank: map<nat, nat>, log: seq<nat>, t: nat)
    requires Links(m, tags, heads, rank, log) && t in tags && t in m && m[t].index < 0
    ensures m[t].index == -1 && m[t].next == 0 && m[t].prev == 0
  {
    assert LinkOk(m, tags, heads, rank, log, t);
  }

  lemma LivePtr(m: Memory, tags: set<nat>, live: map<nat, nat>, complete: seq<set<nat>>, completePages: seq<int>,
          p: nat)
    requires Meaning(m, tags, live, complete, completePages, {})
    ensures p in live ==> p >= HDR && p - HDR in tags && p - HDR in m && m[p - HDR].index < 0
  {
  }

  // What keeps every tag but one in hand and free ones keeps the live blocks.
  lemma LiveKept(m: Memory, m': Memory, tags: set<nat>, live: map<nat, nat>, complete: seq<set<nat>>,
                 completePages: seq<int>, t: nat, u: nat)
    requires Meaning(m, tags, live, complete, completePages, {t}) && Kept(m, m', tags - {t, u})
    requires u in m && (m[u].index >= 0 || u == t)
    ensures UsedKept(m, m', live)
  {
    forall p | p in live ensures p >= HDR && p - HDR in tags - {t, u} {
      assert p - HDR in m && m[p - HDR].index < 0;
    }
    hide Binned, Coalesced, Counted;
  }

  lemma OneChanged(m: Memory, m': Memory, tags: set<nat>, t: nat)
    requires forall a :: a in m && a != t ==> a in m' && m'[a] == m[a]
    ensures Kept(m, m', tags - {t})
  {
  }

  lemma SplitKept(m: Memory, m': Memory, tags: set<nat>, t: nat, u: nat)
    requires t in m && t < u && u !in tags && Split(m, m', t, u)
    ensures Kept(m, m', tags - {t})
  {
  }

  lemma MergedKept(m: Memory, m': Memory, tags: set<nat>, l: nat, t: nat)
    requires l in m && t in m && Merged(m, m', l, t)
    ensures Kept(m, m', tags - {l, t})
  {
  }

  // Recording the requested size of a tag in hand.
  lemma ResizeKeepsMeaning(m: Memory, m': Memory, tags: set<nat>, live: map<nat, nat>,
                           complete: seq<set<nat>>, completePages: seq<int>, t: nat)
    requires Meaning(m, tags, live, complete, completePages, {t}) && m'.Keys == m.Keys
    requires forall a :: a in m ==> (a != t ==> m'[a] == m[a]) && m'[a].index == m[a].index
    requires forall a :: a in m ==> m'[a].splitLeft == m[a].splitLeft && m'[a].splitRight == m[a].splitRight
    ensures Meaning(m', tags, live, complete, completePages, {t})
  {
    assert Counted(m', tags, complete, completePages, {t});
  }

  lemma ResizeKeepsBlocks(m: Memory, m': Memory, tags: set<nat>, owner: map<nat, nat>, regions: map<nat, nat>)
    requires Blocks(m, tags, owner, regions) && m'.Keys == m.Keys
    requires forall a :: a in m ==> m'[a].magic == m[a].magic && m'[a].realSize == m[a].realSize
    requires forall a :: a in m ==> m'[a].splitLeft == m[a].splitLeft && m'[a].splitRight == m[a].splitRight
    ensures Blocks(m', tags, owner, regions)
  {
    forall a | a in tags ensures BlockOk(m', tags, owner, regions, a) {
      assert BlockOk(m, tags, owner, regions, a);
    }
  }

  lemma ResizeKeepsAll(m: Memory, m': Memory, tags: set<nat>, owner: map<nat, nat>, regions: map<nat, nat>,
                       heads: seq<nat>, rank: map<nat, nat>, log: seq<nat>,
                       live: map<nat, nat>, complete: seq<set<nat>>, completePages: seq<int>, t: nat, size: nat)
    requires Blocks(m, tags, owner, regions) && Links(m, tags, heads, rank, log)
    requires Meaning(m, tags, live, complete, completePages, {t}) && t in m
    requires m' == m[t := m[t].(size := size)]
    ensures Blocks(m', tags, owner, regions)
    ensures Links(m', tags, heads, rank, log)
    ensures Meaning(m', tags, live, complete, completePages, {t})
  {
    hide Blocks, Links, Meaning;
    NullUnmapped(m, tags, heads, rank, log);
    assert m'.Keys == m.Keys;
    LinksFrame(m, m', tags, heads, rank, log);
    ResizeKeepsBlocks(m, m', tags, owner, regions);
    ResizeKeepsMeaning(m, m', tags, live, complete, completePages, t);
  }

  // The head of a list is its most recent insertion.
  lemma {:induction false} HeadRank(m: Memory, tags: set<nat>, heads: seq<nat>, rank: map<nat, nat>, log: seq<nat>,
          t: nat)
    requires Links(m, tags, heads, rank, log) && t in tags && t in m && m[t].index >= 0
    ensures MINEXP <= m[t].index < MAXEXP && t in rank && rank[t] < |log|
    ensures var h := heads[m[t].index];
            h != 0 && h in rank && rank[t] <= rank[h]
    decreases if t in rank then |log| - rank[t] else 0
  {
    assert LinkOk(m, tags, heads, rank, log, t);
    if m[t].prev != 0 {
      assert LinkOk(m, tags, heads, rank, log, m[t].prev);
      HeadRank(m, tags, heads, rank, log, m[t].prev);
    }
  }

  // On a list, nothing is ranked strictly between a tag and its successor.
  lemma {:induction false} NextRank(m: Memory, tags: set<nat>, heads: seq<nat>, rank: map<nat, nat>, log: seq<nat>,
          t: nat, a: nat)
    requires Links(m, tags, heads, rank, log) && t in tags && a in tags && t in m && a in m
    requires m[t].index == m[a].index >= 0 && t in rank && a in rank && rank[a] < rank[t] < |log|
    ensures var n := m[t].next;
            n != 0 && n in rank && rank[a] <= rank[n]
    decreases 2 * |log| - rank[t] - rank[a]
  {
    assert LinkOk(m, tags, heads, rank, log, t);
    assert LinkOk(m, tags, heads, rank, log, a);
    var p := m[a].prev;
    if p == 0 {
      HeadRank(m, tags, heads, rank, log, t);
    } else {
      assert LinkOk(m, tags, heads, rank, log, p);
      if rank[p] < rank[t] {
        NextRank(m, tags, heads, rank, log, t, p);
      } else if rank[p] > rank[t] {
        NextRank(m, tags, heads, rank, log, p, t);
      }
    }
  }

  // malloc takes a tag of the request's bin only if it can also carry a header for the rest.
  predicate Fits(tag: Tag, size: nat) {
    tag.realSize - HDR >= size + HDR
  }

  ghost predicate NoneFits(m: Memory, tags: set<nat>, size: nat) {
    forall a :: a in tags && a in m && m[a].index == BinOf(size) ==> !Fits(m[a], size)
  }

  lemma NoneFitsMeans(m: Memory, tags: set<nat>, size: nat)
    ensures NoneFits(m, tags, size) <==>
            forall a :: a in tags && a in m && m[a].index == BinOf(size) ==> m[a].realSize < size + 2 * HDR
  {
  }

  // Every tag of size's bin ranked above `tag` (all of them when tag is 0) is too small.
  ghost predicate Searched(m: Memory, tags: set<nat>, rank: map<nat, nat>, size: nat, tag: nat) {
    forall a :: a in tags && a in m && m[a].index == BinOf(size) && a in rank
        && (tag in rank && tag != 0 ==> rank[tag] < rank[a])
      ==> !Fits(m[a], size)
  }

  lemma SearchStep(m: Memory, tags: set<nat>, heads: seq<nat>, rank: map<nat, nat>, log: seq<nat>, size: nat, tag: nat)
    requires Links(m, tags, heads, rank, log) && Searched(m, tags, rank, size, tag)
    requires tag in tags && tag in m && m[tag].index == BinOf(size) && !Fits(m[tag], size)
    ensures var n := m[tag].next;
            Searched(m, tags, rank, size, n)
                && (n != 0 ==> n in tags && n in m && m[n].index == BinOf(size) && n in rank)
    ensures tag in rank && (m[tag].next in rank && m[tag].next != 0 ==> rank[m[tag].next] < rank[tag])
  {
    assert LinkOk(m, tags, heads, rank, log, tag);
    var n := m[tag].next;
    forall a | a in tags && a in m && m[a].index == BinOf(size) && a in rank
        && (n in rank && n != 0 ==> rank[n] < rank[a])
      ensures !Fits(m[a], size)
    {
      if rank[a] < rank[tag] {
        NextRank(m, tags, heads, rank, log, tag, a);
      } else if rank[a] == rank[tag] {
        assert LinkOk(m, tags, heads, rank, log, a);
      }
    }
  }

  lemma SearchStart(m: Memory, tags: set<nat>, heads: seq<nat>, rank: map<nat, nat>, log: seq<nat>, size: nat)
    requires Links(m, tags, heads, rank, log)
    ensures var h := heads[BinOf(size)];
            Searched(m, tags, rank, size, h)
                && (h != 0 ==> h in tags && h in m && m[h].index == BinOf(size) && h in rank)
  {
    var h := heads[BinOf(size)];
    assert h != 0 ==> LinkOk(m, tags, heads, rank, log, h);
    forall a | a in tags && a in m && m[a].index == BinOf(size) && a in rank
      ensures h != 0 && h in rank && rank[a] <= rank[h]
    {
      HeadRank(m, tags, heads, rank, log, a);
    }
  }

  lemma SearchEnd(m: Memory, tags: set<nat>, heads: seq<nat>, rank: map<nat, nat>, log: seq<nat>, size: nat)
    requires Links(m, tags, heads, rank, log) && Searched(m, tags, rank, size, 0)
    ensures NoneFits(m, tags, size)
  {
    forall a | a in tags && a in m && m[a].index == BinOf(size) ensures !Fits(m[a], size) {
      HeadRank(m, tags, heads, rank, log, a);
    }
  }

  lemma FitRefutes(m: Memory, tags: set<nat>, size: nat, tag: nat)
    requires tag in tags && tag in m && m[tag].index == BinOf(size) && Fits(m[tag], size)
    ensures !NoneFits(m, tags, size)
  {
  }

  // ---------- what a valid heap looks like from outside ----------

  // The tags from `t` to the end of its region, by following split_right.
  ghost function Chain(m: Memory, tags: set<nat>, owner: map<nat, nat>, regions: map<nat, nat>, t: nat): seq<nat>
    requires Blocks(m, tags, owner, regions) && t in tags
    decreases assert BlockOk(m, tags, owner, regions, t); End(regions, owner[t]) - t
  {
    assert BlockOk(m, tags, owner, regions, t);
    var r := m[t].splitRight;
    if r == 0 then [t] else assert BlockOk(m, tags, owner, regions, r); [t] + Chain(m, tags, owner, regions, r)
  }

  // The chain is gap-free and overlap-free from its first tag to the end of the region.
  lemma {:induction false} ChainTiles(m: Memory, tags: set<nat>, owner: map<nat, nat>, regions: map<nat, nat>, t: nat,
          k: nat)
    requires Blocks(m, tags, owner, regions) && t in tags
    requires k < |Chain(m, tags, owner, regions, t)|
    ensures var c: seq<nat> := Chain(m, tags, owner, regions, t);
            && c[0] == t && c[k] in tags && c[k] in m && t in owner && owner[t] in regions
            && c[k] in owner && owner[c[k]] == owner[t]
            && c[k] + m[c[k]].realSize == (if k + 1 < |c| then c[k + 1] else End(regions, owner[t]))
            && (k + 1 < |c| ==> m[c[k]].splitRight == c[k + 1])
    decreases k
  {
    assert BlockOk(m, tags, owner, regions, t);
    var r := m[t].splitRight;
    if r != 0 {
      var c: seq<nat>, d: seq<nat> := Chain(m, tags, owner, regions, t), Chain(m, tags, owner, regions, r);
      assert BlockOk(m, tags, owner, regions, r);
      assert c == [t] + d;
      if k == 0 {
        assert c[1] == d[0] == r;
      } else {
        ChainTiles(m, tags, owner, regions, r, k - 1);
        assert c[k] == d[k - 1];
      }
    }
  }

  // Every tag of the region at or after `t` is on the chain.
  lemma {:induction false} ChainComplete(m: Memory, tags: set<nat>, owner: map<nat, nat>, regions: map<nat, nat>,
          t: nat, u: nat)
    requires Blocks(m, tags, owner, regions) && t in tags && u in tags && t in owner && u in owner
    requires owner[t] == owner[u] && t <= u
    ensures u in Chain(m, tags, owner, regions, t)
    decreases u - t
  {
    assert BlockOk(m, tags, owner, regions, t);
    assert BlockOk(m, tags, owner, regions, u);
    if t < u {
      NoTagInside(m, tags, owner, regions, t, u);
      var r := m[t].splitRight;
      assert r != 0;
      assert BlockOk(m, tags, owner, regions, r);
      ChainComplete(m, tags, owner, regions, r, u);
      assert Chain(m, tags, owner, regions, t) == [t] + Chain(m, tags, owner, regions, r);
    }
  }

  ghost predicate TileAt(m: Memory, c: seq<nat>, k: nat, end: nat)
    requires k < |c|
  {
    && c[k] in m
    && c[k] + m[c[k]].realSize == (if k + 1 < |c| then c[k + 1] else end)
    && (k + 1 < |c| ==> c[k + 1] in m && !(m[c[k]].index >= 0 && m[c[k + 1]].index >= 0))
  }

  // `c` starts at `b`, ends at `end`, leaves no gap, overlaps nowhere, and has no two free neighbours.
  ghost predicate IsTiling(m: Memory, c: seq<nat>, b: nat, end: nat) {
    && |c| > 0 && c[0] == b
    && forall k :: 0 <= k < |c| ==> TileAt(m, c, k, end)
  }

  lemma ChainIsTiling(m: Memory, tags: set<nat>, owner: map<nat, nat>, regions: map<nat, nat>, b: nat)
    requires Blocks(m, tags, owner, regions) && b in regions && Coalesced(m, tags, {}) && tags <= m.Keys
    ensures b in tags && IsTiling(m, Chain(m, tags, owner, regions, b), b, End(regions, b))
    ensures forall t :: t in Chain(m, tags, owner, regions, b) <==> t in tags && t in owner && owner[t] == b
  {
    var c: seq<nat> := Chain(m, tags, owner, regions, b);
    forall k | 0 <= k < |c| ensures TileAt(m, c, k, End(regions, b)) {
      ChainTiles(m, tags, owner, regions, b, k);
      if k + 1 < |c| {
        ChainTiles(m, tags, owner, regions, b, k + 1);
        Neighbours(m, tags, owner, regions, c[k + 1]);
      }
    }
    forall k | 0 <= k < |c| ensures c[k] in tags && c[k] in owner && owner[c[k]] == b {
      ChainTiles(m, tags, owner, regions, b, k);
    }
    forall t | t in tags && t in owner && owner[t] == b ensures t in c {
      assert BlockOk(m, tags, owner, regions, t);
      ChainComplete(m, tags, owner, regions, b, t);
    }
  }

  // The tags on a list from `t` on, by following next.
  ghost function FreeList(m: Memory, tags: set<nat>, heads: seq<nat>, rank: map<nat, nat>, log: seq<nat>,
          t: nat): seq<nat>
    requires Links(m, tags, heads, rank, log) && t in tags && m[t].index >= 0
    decreases assert LinkOk(m, tags, heads, rank, log, t); rank[t]
  {
    assert LinkOk(m, tags, heads, rank, log, t);
    var n := m[t].next;
    if n == 0 then [t] else [t] + FreeList(m, tags, heads, rank, log, n)
  }

  lemma {:induction false} FreeListOrder(m: Memory, tags: set<nat>, heads: seq<nat>, rank: map<nat, nat>,
          log: seq<nat>, t: nat, k: nat)
    requires Links(m, tags, heads, rank, log) && t in tags && m[t].index >= 0
    requires k < |FreeList(m, tags, heads, rank, log, t)|
    ensures var s: seq<nat> := FreeList(m, tags, heads, rank, log, t);
            && s[0] == t && s[k] in tags && m[s[k]].index == m[t].index && s[k] in rank
            && m[s[k]].next == (if k + 1 < |s| then s[k + 1] else 0)
            && (k + 1 < |s| ==> s[k + 1] in tags && m[s[k + 1]].prev == s[k])
            && (k + 1 < |s| ==> s[k + 1] in rank && rank[s[k + 1]] < rank[s[k]])
    decreases k
  {
    assert LinkOk(m, tags, heads, rank, log, t);
    var n := m[t].next;
    if n != 0 {
      var s: seq<nat>, d: seq<nat> := FreeList(m, tags, heads, rank, log, t), FreeList(m, tags, heads, rank, log, n);
      assert LinkOk(m, tags, heads, rank, log, n);
      assert s == [t] + d;
      if k == 0 {
        assert s[1] == d[0] == n;
      } else {
        FreeListOrder(m, tags, heads, rank, log, n, k - 1);
        assert s[k] == d[k - 1];
      }
    }
  }

  lemma {:induction false} FreeListComplete(m: Memory, tags: set<nat>, heads: seq<nat>, rank: map<nat, nat>,
          log: seq<nat>, t: nat, a: nat)
    requires Links(m, tags, heads, rank, log) && t in tags && a in tags
    requires m[t].index == m[a].index >= 0 && t in rank && a in rank && rank[a] <= rank[t] < |log|
    ensures a in FreeList(m, tags, heads, rank, log, t)
    decreases rank[t]
  {
    assert LinkOk(m, tags, heads, rank, log, t);
    assert LinkOk(m, tags, heads, rank, log, a);
    if a != t {
      NextRank(m, tags, heads, rank, log, t, a);
      FreeListComplete(m, tags, heads, rank, log, m[t].next, a);
    }
  }

  // Positions k of a list agree with the links in memory, both ways.
  ghost predicate LinkedAt(m: Memory, s: seq<nat>, k: nat)
    requires k < |s|
  {
    && s[k] in m
    && m[s[k]].next == (if k + 1 < |s| then s[k + 1] else 0)
    && m[s[k]].prev == (if k > 0 then s[k - 1] else 0)
  }

  // `s` is list `i`: properly linked, without repetition, and exactly the free tags whose bin is `i`.
  ghost predicate IsBin(m: Memory, tags: set<nat>, s: seq<nat>, i: nat) {
    && (forall k :: 0 <= k < |s| ==> LinkedAt(m, s, k))
    && (forall j, k :: 0 <= j < k < |s| ==> s[j] != s[k])
    && (forall t :: t in s ==>
        t in tags && t in m && m[t].realSize >= HDR && m[t].index == i == BinOf(m[t].realSize - HDR))
    && (forall t :: t in tags && t in m && m[t].index == i ==> t in s)
  }

  ghost function Bin(m: Memory, tags: set<nat>, heads: seq<nat>, rank: map<nat, nat>, log: seq<nat>, i: nat): seq<nat>
    requires Links(m, tags, heads, rank, log) && MINEXP <= i < MAXEXP
  {
    HeadOnList(m, tags, heads, rank, log, i);
    if heads[i] == 0 then [] else FreeList(m, tags, heads, rank, log, heads[i])
  }

  lemma BinIsBin(m: Memory, tags: set<nat>, heads: seq<nat>, rank: map<nat, nat>, log: seq<nat>, i: nat)
    requires Links(m, tags, heads, rank, log) && MINEXP <= i < MAXEXP && Binned(m, tags, {})
    ensures IsBin(m, tags, Bin(m, tags, heads, rank, log, i), i)
  {
    HeadOnList(m, tags, heads, rank, log, i);
    var h := heads[i];
    var s: seq<nat> := Bin(m, tags, heads, rank, log, i);
    forall k | 0 <= k < |s| ensures LinkedAt(m, s, k) {
      FreeListOrder(m, tags, heads, rank, log, h, k);
      if k > 0 {
        FreeListOrder(m, tags, heads, rank, log, h, k - 1);
      }
    }
    forall k | 0 <= k < |s| ensures s[k] in tags && s[k] in m && m[s[k]].index == i && s[k] in rank {
      FreeListOrder(m, tags, heads, rank, log, h, k);
    }
    forall j, k | 0 <= j < k < |s| ensures s[j] != s[k] {
      FreeListDescends(m, tags, heads, rank, log, h, j, k);
    }
    forall t | t in tags && t in m && m[t].index == i ensures t in s {
      HeadRank(m, tags, heads, rank, log, t);
      HeadRank(m, tags, heads, rank, log, h);
      FreeListComplete(m, tags, heads, rank, log, h, t);
    }
  }

  lemma {:induction false} FreeListDescends(m: Memory, tags: set<nat>, heads: seq<nat>, rank: map<nat, nat>,
          log: seq<nat>,
                                            t: nat, j: nat, k: nat)
    requires Links(m, tags, heads, rank, log) && t in tags && m[t].index >= 0
    requires j < k < |FreeList(m, tags, heads, rank, log, t)|
    ensures var s: seq<nat> := FreeList(m, tags, heads, rank, log, t);
            s[j] in rank && s[k] in rank && rank[s[k]] < rank[s[j]]
    decreases k
  {
    FreeListOrder(m, tags, heads, rank, log, t, k - 1);
    if j < k - 1 {
      FreeListDescends(m, tags, heads, rank, log, t, j, k - 1);
    }
  }

  class Heap {
    var mem: Memory
    var freePages: seq<nat>
    var completePages: seq<int>

    ghost var tags: set<nat>
    ghost var owner: map<nat, nat>
    ghost var regions: map<nat, nat>
    ghost var rank: map<nat, nat>
    ghost var log: seq<nat>
    ghost var complete: seq<set<nat>>
    ghost var live: map<nat, nat>

    ghost predicate Holding(held: set<nat>)
      reads this
    {
      && Blocks(mem, tags, owner, regions)
      && Links(mem, tags, freePages, rank, log)
      && Meaning(mem, tags, live, complete, completePages, held)
    }

    ghost predicate Valid()
      reads this
    {
      Holding({})
    }

    // l_initialized's branch of malloc: every bin empty.
    constructor ()
      ensures Valid()
      ensures live == map[] && regions == map[]
    {
      mem, freePages, completePages := map[], seq(MAXEXP, _ => 0), seq(MAXEXP, _ => 0);
      tags, owner, regions, rank, log, live := {}, map[], map[], map[], [], map[];
      complete := seq(MAXEXP, _ => {});
    }

    // Returns -1 below 2^MINEXP, else the exponent that brackets size, 31 at most.
    static method GetExp(size: nat) returns (exp: int)
      requires size < 0x1_0000_0000
      ensures exp == Exponent(size)
    {
      if size < 256 {
        return -1;
      }
      var shift: nat := MINEXP;
      assert Pow2(3) == 8 && Pow2(6) == 8 * Pow2(3) && Pow2(8) == 4 * Pow2(6);
      while shift < MAXEXP
        invariant MINEXP <= shift <= MAXEXP && Pow2(shift - 1) <= size
      {
        if Pow2(shift) > size {
          break;
        }
        shift := shift + 1;
      }
      if shift == MAXEXP {
        Log2Bounds(size);
        if Log2(size) < 31 {
          Pow2Monotone(Log2(size) + 1, 31);
        }
      } else {
        Log2Unique(size, shift - 1);
      }
      return shift - 1;
    }

    // Pushes `t`, which is on no list, in front of list `idx`, or of its own size's list when idx is negative.
    method InsertTag(t: nat, idx: int)
      requires Links(mem, tags - {t}, freePages, rank, log)
      requires t in tags && t in mem && mem[t].next == 0 && mem[t].prev == 0
      requires idx < 0 ==> HDR <= mem[t].realSize <= 0x7FFF_FFFF
      requires idx >= 0 ==> MINEXP <= idx < MAXEXP
      modifies this`mem, this`freePages, this`rank, this`log
      ensures Links(mem, tags, freePages, rank, log)
      ensures SameBlocks(old(mem), mem)
      ensures mem[t].index == if idx < 0 then BinOf(old(mem)[t].realSize - HDR) else idx
      ensures forall a :: a in mem && a != t ==> mem[a].index == old(mem)[a].index
    {
      hide Links, Pushed, SameBlocks;
      NullUnmapped(mem, tags - {t}, freePages, rank, log);
      var realIndex := idx;
      if idx < 0 {
        realIndex := GetExp(mem[t].realSize - HDR);
        if realIndex < MINEXP {
          realIndex := MINEXP;
        }
      }
      mem := mem[t := mem[t].(index := realIndex)];
      var h := freePages[realIndex];
      HeadOnList(old(mem), tags - {t}, freePages, rank, log, realIndex);
      if h != 0 {
        mem := mem[h := mem[h].(prev := t)];
        mem := mem[t := mem[t].(next := h)];
      }
      assert mem == PushStores(old(mem), t, realIndex, h);
      PushStoresPush(old(mem), t, realIndex, h);
      PushedKeepsLinks(old(mem), mem, tags, freePages, rank, log, t, realIndex);
      PushedIndices(old(mem), mem, t, realIndex, h);
      freePages := freePages[realIndex := t];
      rank := rank[t := |log|];
      log := log + [t];
    }

    // Takes free tag `t` off its list.
    method RemoveTag(t: nat)
      requires Links(mem, tags, freePages, rank, log)
      requires t in tags && t in mem && mem[t].index >= 0
      modifies this`mem, this`freePages
      ensures Links(mem, tags, freePages, rank, log)
      ensures SameBlocks(old(mem), mem)
      ensures mem[t].index == -1 && mem[t].next == 0 && mem[t].prev == 0
      ensures forall a :: a in mem && a != t ==> mem[a].index == old(mem)[a].index
    {
      hide Links, Unlinked, SameBlocks;
      var idx, p, n := mem[t].index, mem[t].prev, mem[t].next;
      NullUnmapped(mem, tags, freePages, rank, log);
      LinkEnds(mem, tags, freePages, rank, log, t);
      if freePages[idx] == t {
        freePages := freePages[idx := n];
      }
      if p != 0 {
        mem := mem[p := mem[p].(next := n)];
      }
      if n != 0 {
        mem := mem[n := mem[n].(prev := p)];
      }
      mem := mem[t := mem[t].(next := 0, prev := 0, index := -1)];
      assert mem == UnlinkStores(old(mem), t);
      UnlinkStoresUnlink(old(mem), t);
      UnlinkedKeepsLinks(old(mem), mem, tags, old(freePages), rank, log, t);
    }

    // Hands tag `t`'s block to its left neighbour.
    method MeltLeft(t: nat) returns (left: nat)
      requires Holding({t}) && t in tags && t in mem && mem[t].splitLeft != 0
      requires mem[t].splitLeft in mem && mem[mem[t].splitLeft].index >= 0 && mem[t].index < 0
      modifies this`mem, this`tags
      ensures left == old(mem)[t].splitLeft && left in old(tags) && left in mem && mem[left].index >= 0
      ensures t in old(mem) && left in old(mem) && Merged(old(mem), mem, left, t) && tags == old(tags) - {t}
      ensures Holding({left})
    {
      hide Blocks, Links, Meaning, Merged;
      left := mem[t].splitLeft;
      Neighbours(mem, tags, owner, regions, t);
      NullUnmapped(mem, tags, freePages, rank, log);
      var r := mem[t].splitRight;
      mem := mem[left := mem[left].(realSize := mem[left].realSize + mem[t].realSize)];
      mem := mem[left := mem[left].(splitRight := r)];
      if r != 0 {
        mem := mem[r := mem[r].(splitLeft := left)];
      }
      assert mem == MergeStores(old(mem), left, t);
      MergeStoresMerge(old(mem), left, t);
      MergeKeepsAll(old(mem), mem, tags, owner, regions, freePages, rank, log, live, complete, completePages, {t},
          left, t);
      assert {t} - {t} + {left} == {left};
      tags := tags - {t};
    }

    // Takes `t`'s free right neighbour into `t`.
    method AbsorbRight(t: nat)
      requires Holding({t}) && t in tags && t in mem && mem[t].splitRight != 0 && mem[t].index < 0
      requires mem[t].splitRight in mem && mem[mem[t].splitRight].index >= 0
      modifies this`mem, this`tags, this`freePages
      ensures t in mem && mem[t].index < 0 && mem[t].splitLeft == old(mem)[t].splitLeft
      ensures t in old(mem) && tags == old(tags) - {old(mem)[t].splitRight}
      ensures mem.Keys == old(mem).Keys && (mem[t].splitLeft in mem ==>
                mem[mem[t].splitLeft].index == old(mem)[mem[t].splitLeft].index)
      ensures Holding({t}) && Kept(old(mem), mem, old(tags) - {t, old(mem)[t].splitRight})
    {
      hide Blocks, Links, Meaning, Merged, SameBlocks;
      var right := mem[t].splitRight;
      Neighbours(mem, tags, owner, regions, t);
      Neighbours(mem, tags, owner, regions, right);
      NullUnmapped(mem, tags, freePages, rank, log);
      LinkEnds(mem, tags, freePages, rank, log, right);
      RemoveTag(right);
      label removed:
      SameBlocksAt(old(mem), mem, t);
      SameBlocksAt(old(mem), mem, right);
      TakeKeepsMeaning(old(mem), mem, tags, live, complete, completePages, {t}, right);
      BlocksFrame(old(mem), mem, tags, owner, regions);
      NullUnmapped(mem, tags, freePages, rank, log);
      var r := mem[right].splitRight;
      mem := mem[t := mem[t].(realSize := mem[t].realSize + mem[right].realSize)];
      mem := mem[t := mem[t].(splitRight := r)];
      if r != 0 {
        mem := mem[r := mem[r].(splitLeft := t)];
      }
      assert mem == MergeStores(old@removed(mem), t, right);
      MergeStoresMerge(old@removed(mem), t, right);
      RelinkedKept(old(mem), old@removed(mem), tags, right);
      MergedKept(old@removed(mem), mem, tags, t, right);
      KeptTwice(old(mem), old@removed(mem), mem, tags - {right}, tags - {t, right});
      assert (tags - {right}) * (tags - {t, right}) == tags - {t, right};
      MergeKeepsAll(old@removed(mem), mem, tags, owner, regions, freePages, rank, log, live, complete, completePages,
          {t} + {right}, t, right);
      assert {t} + {right} - {right} + {t} == {t};
      tags := tags - {right};
    }

    // Cuts what `t` does not need into a new tag, which is on no list yet.
    method CutTag(t: nat) returns (u: nat)
      requires Holding({t}) && t in tags && t in mem && mem[t].index < 0
      requires mem[t].size + 2 * HDR <= mem[t].realSize
      requires mem[t].splitRight != 0 && mem[t].splitRight in mem ==> mem[mem[t].splitRight].index < 0
      modifies this`mem, this`tags, this`owner
      ensures Blocks(mem, tags, owner, regions) && Links(mem, tags - {u}, freePages, rank, log)
      ensures Meaning(mem, tags, live, complete, completePages, {t, u})
      ensures u == t + HDR + old(mem)[t].size && u !in old(tags) && tags == old(tags) + {u}
      ensures t in mem && mem[t].index < 0 && mem[t].size == old(mem)[t].size && mem[t].realSize == HDR + mem[t].size
      ensures u in mem && u != 0 && mem[u].next == 0 && mem[u].prev == 0 && mem[u].splitLeft == t && t != 0 && t != u
      ensures HDR <= mem[u].realSize <= 0x7FFF_FFFF && mem[u].realSize == old(mem)[t].realSize - HDR - old(mem)[t].size
      ensures Kept(old(mem), mem, old(tags) - {t})
      ensures mem[u].splitRight != 0 && mem[u].splitRight in mem ==> mem[mem[u].splitRight].index < 0
    {
      hide Blocks, Links, Meaning, Split, SameBlocks;
      var junk: Tag := *;
      u := t + HDR + mem[t].size;
      var remainder, r := mem[t].realSize - HDR - mem[t].size, mem[t].splitRight;
      Neighbours(mem, tags, owner, regions, t);
      NullUnmapped(mem, tags, freePages, rank, log);
      SplitPointFresh(mem, tags, owner, regions, t, u);
      mem := mem[u := junk.(magic := MAGIC, realSize := remainder, next := 0, prev := 0, splitLeft := t,
          splitRight := r)];
      if r != 0 {
        mem := mem[r := mem[r].(splitLeft := u)];
      }
      mem := mem[t := mem[t].(splitRight := u)];
      mem := mem[t := mem[t].(realSize := mem[t].realSize - remainder)];
      assert mem == SplitStores(old(mem), t, u, junk);
      SplitStoresSplit(old(mem), t, u, junk);
      SplitKept(old(mem), mem, tags, t, u);
      SplitKeepsBlocks(old(mem), mem, tags, owner, regions, t, u);
      SplitKeepsMeaning(old(mem), mem, tags, owner, regions, live, complete, completePages, t, u);
      AddedTagKeepsLinks(old(mem), mem, tags, freePages, rank, log, t, u);
      owner := owner[u := owner[t]];
      tags := tags + {u};
    }

    // Cuts what `t` does not need into a new free tag.
    method SplitTag(t: nat) returns (newTag: nat)
      requires Holding({t}) && t in tags && t in mem && mem[t].index < 0
      requires mem[t].size + 2 * HDR <= mem[t].realSize
      requires mem[t].splitRight != 0 && mem[t].splitRight in mem ==> mem[mem[t].splitRight].index < 0
      modifies this`mem, this`tags, this`owner, this`freePages, this`rank, this`log
      ensures Holding({t})
      ensures newTag == t + HDR + old(mem)[t].size && newTag !in old(tags) && tags == old(tags) + {newTag}
      ensures t in mem && mem[t].index < 0 && mem[t].size == old(mem)[t].size && mem[t].realSize == HDR + mem[t].size
      ensures newTag in mem && mem[newTag].index >= 0
      ensures mem[newTag].realSize == old(mem)[t].realSize - HDR - old(mem)[t].size
      ensures Kept(old(mem), mem, old(tags) - {t})
    {
      hide Blocks, Links, Meaning, SameBlocks, Kept;
      newTag := CutTag(t);
      label cut:
      InsertTag(newTag, -1);
      RelinkedKept(old@cut(mem), mem, tags, newTag);
      KeptTwice(old(mem), old@cut(mem), mem, old(tags) - {t}, tags - {newTag});
      assert (old(tags) - {t}) * (tags - {newTag}) == old(tags) - {t};
      SameBlocksAt(old@cut(mem), mem, t);
      SameBlocksAt(old@cut(mem), mem, newTag);
      BlocksFrame(old@cut(mem), mem, tags, owner, regions);
      PutKeepsMeaning(old@cut(mem), mem, tags, owner, regions, live, complete, completePages, {t, newTag}, newTag);
      assert {t, newTag} - {newTag} == {t};
    }

    // Asks the provider for a region; `offer` is what it answers, 0 when it has no memory.
    method AllocateNewTag(size: nat, offer: nat) returns (tag: nat)
      requires Valid() && size <= MAX_REQUEST
      requires offer != 0 ==> Grantable(offer, PagesFor(size))
      modifies this`mem, this`tags, this`owner, this`regions
      ensures tag == offer
      ensures tag == 0 ==> Valid() && unchanged(this)
      ensures tag != 0 ==>
                && Holding({tag}) && tag !in old(tags) && tags == old(tags) + {tag}
                && regions == old(regions)[offer := PagesFor(size)]
                && mem == old(mem)[tag := mem[tag]] && mem[tag].index == -1
                && mem[tag].realSize == PagesFor(size) * PAGE && Whole(mem[tag])
    {
      var usage := size + HDR;
      var pages := usage / PAGE;
      if usage % PAGE != 0 {
        pages := pages + 1;
      }
      if pages < MIN_PAGES {
        pages := MIN_PAGES;
      }
      assert pages == PagesFor(size) && pages * PAGE <= 0x7FFF_FFFF;
      hide Blocks, Links, Meaning, PagesFor;
      tag := offer;
      if tag == 0 {
        return;
      }
      var header := Tag(MAGIC, size, pages * PAGE, -1, 0, 0, 0, 0);
      NewRegionKeepsBlocks(mem, header, tags, owner, regions, tag, pages);
      NewRegionKeepsRest(mem, header, tags, freePages, rank, log, live, complete, completePages, tag);
      mem := mem[tag := header];
      tags, owner, regions := tags + {tag}, owner[tag := tag], regions[tag := pages];
    }

    // What liballoc_alloc promises: memory overlapping nothing it granted before and has not got back.
    ghost predicate Grantable(offer: nat, pages: nat)
      reads this
    {
      forall b :: b in regions ==> offer + pages * PAGE <= b || End(regions, b) <= offer
    }

    // malloc's search: the first tag of size's bin that fits, 0 if there is none.
    method FindTag(size: nat) returns (index: nat, tag: nat)
      requires Valid() && size <= MAX_REQUEST
      ensures index == BinOf(size)
      ensures tag == 0 <==> NoneFits(mem, tags, size)
      ensures tag != 0 ==> tag in tags && tag in mem && mem[tag].index == index && Fits(mem[tag], size)
      ensures tag != 0 ==> Searched(mem, tags, rank, size, tag)
    {
      hide Blocks, Links, Meaning, Searched, NoneFits;
      var exp := GetExp(size);
      index := if exp < MINEXP then MINEXP else exp;
      NullUnmapped(mem, tags, freePages, rank, log);
      tag := freePages[index];
      SearchStart(mem, tags, freePages, rank, log, size);
      while tag != 0
        invariant Searched(mem, tags, rank, size, tag)
        invariant tag != 0 ==> tag in tags && tag in mem && mem[tag].index == index && tag in rank
        decreases if tag in rank && tag != 0 then rank[tag] + 1 else 0
      {
        if mem[tag].realSize - HDR >= size + HDR {
          FitRefutes(mem, tags, size, tag);
          return;
        }
        SearchStep(mem, tags, freePages, rank, log, size, tag);
        tag := mem[tag].next;
      }
      SearchEnd(mem, tags, freePages, rank, log, size);
    }

    // The block malloc has got is given its size, and what it has left over is cut off if it is worth a tag.
    method Carve(tag: nat, size: nat)
      requires Holding({tag}) && tag in tags && tag in mem && mem[tag].index < 0 && size <= MAX_REQUEST
      requires mem[tag].realSize >= size + HDR
      requires mem[tag].splitRight != 0 && mem[tag].splitRight in mem ==> mem[mem[tag].splitRight].index < 0
      modifies this`mem, this`tags, this`owner, this`freePages, this`rank, this`log
      ensures Holding({tag}) && tag in mem && mem[tag].index < 0 && mem[tag].size == size
      ensures mem[tag].size + HDR <= mem[tag].realSize
      ensures var block := old(mem)[tag].realSize;
              var cut := block >= size + 2 * HDR + 256;
              && tags == old(tags) + (if cut then {tag + HDR + size} else {})
              && mem[tag].realSize == (if cut then HDR + size else block)
              && (cut ==> tag + HDR + size in mem && mem[tag + HDR + size].index >= 0
                          && mem[tag + HDR + size].realSize == block - HDR - size)
      ensures Kept(old(mem), mem, old(tags) - {tag})
    {
      hide Blocks, Links, Meaning, Kept;
      mem := mem[tag := mem[tag].(size := size)];
      ResizeKeepsAll(old(mem), mem, tags, owner, regions, freePages, rank, log, live, complete, completePages,
          tag, size);
      OneChanged(old(mem), mem, tags, tag);
      label sized:
      Neighbours(mem, tags, owner, regions, tag);
      var remainder := (mem[tag].realSize - size - 2 * HDR) % 0x1_0000_0000;
      if 0 < remainder < 0x8000_0000 {
        var childIndex := GetExp(remainder);
        if childIndex >= 0 {
          var newTag := SplitTag(tag);
          KeptTwice(old(mem), old@sized(mem), mem, old(tags) - {tag}, old(tags) - {tag});
          assert (old(tags) - {tag}) * (old(tags) - {tag}) == old(tags) - {tag};
        }
      }
    }

    // `offer` is what the page provider answers if asked. Returns 0 when out of memory. The block taken keeps what is
    // asked for and no more, unless what is left over is too little for a header and 256 bytes; every other
    // block stays.
    method Malloc(size: nat, offer: nat) returns (ptr: nat, asked: bool)
      requires Valid() && size <= MAX_REQUEST
      requires offer != 0 ==> Grantable(offer, PagesFor(size))
      modifies this
      ensures Valid()
      ensures asked <==> forall a :: a in old(tags) && a in old(mem) && old(mem)[a].index == BinOf(size) ==>
                           old(mem)[a].realSize < size + 2 * HDR
      ensures asked && offer == 0 ==>
                ptr == 0 && live == old(live) && regions == old(regions) && tags == old(tags) && mem == old(mem)
      ensures !(asked && offer == 0) ==>
                && ptr > HDR && ptr !in old(live) && live == old(live)[ptr := size]
                && regions == if asked then old(regions)[offer := PagesFor(size)] else old(regions)
      ensures !(asked && offer == 0) ==>
                if asked then ptr - HDR == offer
                else && ptr - HDR in old(tags) && ptr - HDR in old(mem)
                     && old(mem)[ptr - HDR].index == BinOf(size) && old(mem)[ptr - HDR].realSize >= size + 2 * HDR
                     && Searched(old(mem), old(tags), old(rank), size, ptr - HDR)
      ensures !(asked && offer == 0) ==>
                var block := if asked then PagesFor(size) * PAGE else old(mem)[ptr - HDR].realSize;
                var cut := block >= size + 2 * HDR + 256;
                && tags == old(tags) + {ptr - HDR} + (if cut then {ptr + size} else {})
                && ptr - HDR in mem && mem[ptr - HDR].realSize == (if cut then HDR + size else block)
                && (cut ==> ptr + size in mem && mem[ptr + size].index >= 0
                            && mem[ptr + size].realSize == block - HDR - size)
                && Kept(old(mem), mem, old(tags) - {ptr - HDR})
    {
      hide Blocks, Links, Meaning, PagesFor, Grantable, NoneFits, Searched, Kept;
      NoneFitsMeans(mem, tags, size);
      NullUnmapped(mem, tags, freePages, rank, log);
      var index, tag := FindTag(size);
      asked := tag == 0;
      if tag == 0 {
        tag := AllocateNewTag(size, offer);
        if tag == 0 {
          ptr := 0;
          return;
        }
        OneChanged(old(mem), mem, old(tags), tag);
      } else {
        TakeFound(tag, index);
      }
      label held:
      Carve(tag, size);
      KeptTwice(old(mem), old@held(mem), mem, old(tags) - {tag}, old@held(tags) - {tag});
      assert (old(tags) - {tag}) * (old@held(tags) - {tag}) == old(tags) - {tag};
      ptr := tag + HDR;
      ReleaseKeepsMeaning(mem, tags, live, complete, completePages, tag);
      live := live[ptr := size];
    }

    // The branch of malloc that takes a tag its search found.
    method TakeFound(tag: nat, index: int)
      requires Valid() && tag in tags && tag in mem && mem[tag].index == index >= 0
      modifies this`mem, this`freePages, this`completePages, this`complete
      ensures Holding({tag}) && tag in mem && mem[tag].index == -1
      ensures mem.Keys == old(mem).Keys && mem[tag].realSize == old(mem)[tag].realSize
      ensures Kept(old(mem), mem, tags - {tag})
      ensures mem[tag].splitRight != 0 && mem[tag].splitRight in mem ==> mem[mem[tag].splitRight].index < 0
    {
      hide Blocks, Links, SameBlocks;
      NullUnmapped(mem, tags, freePages, rank, log);
      LinkEnds(mem, tags, freePages, rank, log, tag);
      RemoveTag(tag);
      RelinkedKept(old(mem), mem, tags, tag);
      SameBlocksAt(old(mem), mem, tag);
      TakeKeepsMeaning(old(mem), mem, tags, live, complete, completePages, {}, tag);
      BlocksFrame(old(mem), mem, tags, owner, regions);
      assert {} + {tag} == {tag};
      if mem[tag].splitLeft == 0 && mem[tag].splitRight == 0 {
        completePages := completePages[index := completePages[index] - 1];
        complete := complete[index := complete[index] - {tag}];
      }
    }

    // free's two melting loops: `start` swallows every free neighbour.
    method Melt(start: nat) returns (tag: nat)
      requires Holding({start}) && start in tags && start in mem && mem[start].index < 0
      modifies this`mem, this`tags, this`freePages
      ensures Holding({tag}) && tag in tags && tag in mem && mem[tag].index < 0
      ensures mem[tag].splitLeft != 0 && mem[tag].splitLeft in mem ==> mem[mem[tag].splitLeft].index < 0
      ensures mem[tag].splitRight != 0 && mem[tag].splitRight in mem ==> mem[mem[tag].splitRight].index < 0
      ensures start in owner && tag in owner && owner[tag] == owner[start]
      ensures UsedKept(old(mem), mem, live)
    {
      hide Blocks, Links, Meaning, SameBlocks, Merged, Kept;
      tag := start;
      assert UsedKept(old(mem), mem, live);
      hide UsedKept;
      SameOwner(mem, tags, owner, regions, tag);
      Neighbours(mem, tags, owner, regions, tag);
      while mem[tag].splitLeft != 0 && mem[mem[tag].splitLeft].index >= 0
        invariant Holding({tag}) && tag in tags && tag in mem && mem[tag].index < 0
        invariant mem[tag].splitLeft != 0 ==> mem[tag].splitLeft in mem
        invariant start in owner && tag in owner && owner[tag] == owner[start]
        invariant UsedKept(old(mem), mem, live)
        decreases |tags|
      {
        Neighbours(mem, tags, owner, regions, tag);
        SameOwner(mem, tags, owner, regions, tag);
        ghost var m0, tags0 := mem, tags;
        ghost var t0 := tag;
        tag := MeltLeft(tag);
        MergedKept(m0, mem, tags0, tag, t0);
        assert {tag, t0} == {t0, tag};
        LiveKept(m0, mem, tags0, live, complete, completePages, t0, tag);
        UsedTwice(old(mem), m0, mem, live);
        ghost var m1 := mem;
        DropHeld(tag);
        LiveKept(m1, mem, tags, live, complete, completePages, tag, tag);
        UsedTwice(old(mem), m1, mem, live);
        Neighbours(mem, tags, owner, regions, tag);
      }
      Neighbours(mem, tags, owner, regions, tag);
      while mem[tag].splitRight != 0 && mem[mem[tag].splitRight].index >= 0
        invariant Holding({tag}) && tag in tags && tag in mem && mem[tag].index < 0
        invariant mem[tag].splitRight != 0 ==> mem[tag].splitRight in mem && mem[tag].splitRight in tags
        invariant mem[tag].splitLeft != 0 && mem[tag].splitLeft in mem ==> mem[mem[tag].splitLeft].index < 0
        invariant start in owner && tag in owner && owner[tag] == owner[start]
        invariant UsedKept(old(mem), mem, live)
        decreases |tags|
      {
        ghost var m0, tags0 := mem, tags;
        AbsorbRight(tag);
        LiveKept(m0, mem, tags0, live, complete, completePages, tag, m0[tag].splitRight);
        UsedTwice(old(mem), m0, mem, live);
        Neighbours(mem, tags, owner, regions, tag);
      }
    }

    // remove_tag on the tag melt_left returned.
    method DropHeld(tag: nat)
      requires Holding({tag}) && tag in tags && tag in mem && mem[tag].index >= 0
      modifies this`mem, this`freePages
      ensures Holding({tag}) && tag in mem && mem[tag].index == -1
      ensures Kept(old(mem), mem, tags - {tag, tag})
    {
      hide Blocks, Links, Meaning, SameBlocks, Kept;
      LinkEnds(mem, tags, freePages, rank, log, tag);
      RemoveTag(tag);
      RelinkedKept(old(mem), mem, tags, tag);
      assert {tag, tag} == {tag};
      SameBlocksAt(old(mem), mem, tag);
      TakeKeepsMeaning(old(mem), mem, tags, live, complete, completePages, {tag}, tag);
      BlocksFrame(old(mem), mem, tags, owner, regions);
      assert {tag} + {tag} == {tag};
    }

    // Returns the region handed back to the page provider, (0, 0) if none is.
    method Free(ptr: nat) returns (released: (nat, nat))
      requires Valid()
      requires ptr == 0 || ptr in live || (ptr >= HDR && ptr - HDR in mem && mem[ptr - HDR].magic != MAGIC)
      modifies this
      ensures Valid()
      ensures live == old(live) - {ptr}
      ensures released == (0, 0) ==> regions == old(regions)
      ensures released != (0, 0) ==>
                && released.0 in old(regions) && released.1 == old(regions)[released.0]
                && regions == old(regions) - {released.0}
                && completePages == old(completePages) && BinFull(completePages, released.1 * PAGE)
      ensures ptr !in old(live) ==> released == (0, 0)
      ensures forall b :: ptr in old(live) && b in old(regions) && LiesIn(old(regions), ptr, b) ==>
                && (released != (0, 0) <==>
                      && (forall q :: q in live ==> !LiesIn(old(regions), q, b))
                      && BinFull(old(completePages), old(regions)[b] * PAGE))
                && (released != (0, 0) ==> released.0 == b)
      ensures UsedKept(old(mem), mem, live)
    {
      hide Blocks, Links, Meaning, SameBlocks, BinFull, LiesIn;
      released := (0, 0);
      LivePtr(mem, tags, live, complete, completePages, ptr);
      if ptr == 0 {
        return;
      }
      var tag: nat := ptr - HDR;
      TagMagic(mem, tags, owner, regions, tag);
      if mem[tag].magic != MAGIC {
        return;
      }
      ReclaimKeepsMeaning(mem, tags, live, complete, completePages, tag);
      live := live - {ptr};
      OneRegion(mem, tags, owner, regions, tag);
      tag := Melt(tag);
      label melted:
      SameOwner(mem, tags, owner, regions, tag);
      WholeMeansAlone(mem, tags, owner, regions, live, complete, completePages, tag);
      released := PutBack(tag);
      UsedTwice(old(mem), old@melted(mem), mem, live);
    }

    // The end of free: a wholly free region goes back when its bin already keeps MAXCOMPLETE of them.
    method PutBack(tag: nat) returns (released: (nat, nat))
      requires Holding({tag}) && tag in tags && tag in mem && mem[tag].index < 0
      requires mem[tag].splitLeft != 0 && mem[tag].splitLeft in mem ==> mem[mem[tag].splitLeft].index < 0
      requires mem[tag].splitRight != 0 && mem[tag].splitRight in mem ==> mem[mem[tag].splitRight].index < 0
      modifies this`mem, this`tags, this`freePages, this`regions, this`rank, this`log, this`complete, this`completePages
      ensures Valid()
      ensures released == (0, 0) ==> regions == old(regions)
      ensures released != (0, 0) ==>
                && released.0 in old(regions) && released.1 == old(regions)[released.0]
                && regions == old(regions) - {released.0}
                && released.0 == tag && released.1 * PAGE == old(mem)[tag].realSize
                && completePages == old(completePages)
      ensures released != (0, 0) <==> Whole(old(mem)[tag]) && BinFull(old(completePages), old(mem)[tag].realSize)
      ensures UsedKept(old(mem), mem, live)
    {
      hide Blocks, Links, Meaning, SameBlocks, Kept;
      released := (0, 0);
      Neighbours(mem, tags, owner, regions, tag);
      HeldUnlinked(mem, tags, freePages, rank, log, tag);
      ForgetKeepsLinks(mem, tags, freePages, rank, log, tag);
      var exp := GetExp(mem[tag].realSize - HDR);
      var index := if exp < MINEXP then MINEXP else exp;
      CompleteBounds(mem, tags, live, complete, completePages, {tag}, index);
      label before:
      if mem[tag].splitLeft == 0 && mem[tag].splitRight == 0 {
        if completePages[index] == MAXCOMPLETE {
          DropRegionKeepsBlocks(mem, tags, owner, regions, tag);
          var pages := mem[tag].realSize / PAGE;
          if mem[tag].realSize % PAGE != 0 {
            pages := pages + 1;
          }
          if pages < MIN_PAGES {
            pages := MIN_PAGES;
          }
          released := (tag, pages);
          DropKeepsMeaning(mem, tags, owner, regions, live, complete, completePages, tag);
          tags, regions := tags - {tag}, regions - {tag};
          return;
        }
        completePages := completePages[index := completePages[index] + 1];
        complete := complete[index := complete[index] + {tag}];
      }
      InsertTag(tag, index);
      RelinkedKept(old(mem), mem, tags, tag);
      assert {tag, tag} == {tag};
      LiveKept(old(mem), mem, tags, live, old(complete), old(completePages), tag, tag);
      BlocksFrame(old@before(mem), mem, tags, owner, regions);
      SameBlocksAt(old@before(mem), mem, tag);
      PutKeepsMeaning(old@before(mem), mem, tags, owner, regions, live,
                      old@before(complete), old@before(completePages), {tag}, tag);
      assert {tag} - {tag} == {};
    }

    // Each granted region is exactly tiled by the chain of tags that starts at its base, and no two
    // neighbours on the chain are both free.
    lemma RegionTiled(b: nat)
      requires Valid() && b in regions
      ensures b in tags && IsTiling(mem, Chain(mem, tags, owner, regions, b), b, End(regions, b))
      ensures forall t :: t in Chain(mem, tags, owner, regions, b) <==> t in tags && t in owner && owner[t] == b
    {
      NullUnmapped(mem, tags, freePages, rank, log);
      hide Links, Counted, Tracks, Binned;
      ChainIsTiling(mem, tags, owner, regions, b);
    }

    // Every live payload lies inside one granted region, behind the header at its start.
    lemma PayloadInRegion(p: nat)
      requires Valid() && p in live
      ensures exists b :: b in regions && b + HDR <= p && p + live[p] <= End(regions, b)
    {
      hide Links;
      assert p - HDR in tags && p - HDR + HDR == p;
      assert BlockOk(mem, tags, owner, regions, p - HDR);
      assert owner[p - HDR] in regions;
    }

    // No header lies inside a live payload, be it of a tag in use, of a free one or of the payload's own.
    lemma PayloadClear(p: nat, u: nat)
      requires Valid() && p in live && u in tags
      ensures u + HDR <= p || p + live[p] <= u
    {
      hide Links;
      assert p - HDR in tags && p - HDR + HDR == p;
      assert BlockOk(mem, tags, owner, regions, u);
      if u < p - HDR {
        NoTagInside(mem, tags, owner, regions, u, p - HDR);
      } else if p - HDR < u {
        NoTagInside(mem, tags, owner, regions, p - HDR, u);
      }
    }

    // Two live payloads never overlap, and there is room for a header between them.
    lemma PayloadsDisjoint(p: nat, q: nat)
      requires Valid() && p in live && q in live && p < q
      ensures p + live[p] + HDR <= q
    {
      hide Links;
      assert q - HDR + HDR == q;
      PayloadClear(p, q - HDR);
    }

    // Bin i's list, walked from its head, is doubly linked and holds each free tag of that bin once.
    lemma BinExact(i: nat)
      requires Valid() && MINEXP <= i < MAXEXP
      ensures IsBin(mem, tags, Bin(mem, tags, freePages, rank, log, i), i)
    {
      hide Blocks, Links, Counted, Tracks, Coalesced;
      BinIsBin(mem, tags, freePages, rank, log, i);
    }

    // Once every allocation has been freed, each region still held is one free tag that spans it.
    lemma EverythingFreed(b: nat)
      requires Valid() && live == map[] && b in regions
      ensures b in mem && mem[b].index >= 0 && Whole(mem[b]) && mem[b].realSize == regions[b] * PAGE
    {
      hide Links;
      assert BlockOk(mem, tags, owner, regions, b);
      var r := mem[b].splitRight;
      assert r != 0 ==> BlockOk(mem, tags, owner, regions, r);
    }
  }
}
