/**
 Which address space handler serves an operation region. Installing a handler pushes it down to the regions below;
 creating a region pulls the handler from above. Both always leave every region with the handler of its nearest
 ancestor that has one for its space, and every handler with exactly its regions in its list.
 */
module Opregion {
  import opened NamespaceTree
  import opened NamespaceWalk
  import opened WalkLoop
  import opened RegionLists

  const MAX_DEPTH_ANY: nat := 0xFFFF_FFFF
  const OBJECT_TYPES: nat := 32

  // ---------- the handlers of a device, and the one a region should have ----------

  /** The first handler for a space in a device's list, or null. */
  function HandlerIn(handlers: Handlers, list: seq<nat>, space: nat): (h: nat)
    ensures h != 0 ==> h in list && h in handlers && handlers[h].space == space
  {
    if list == [] then 0
    else if list[0] in handlers && handlers[list[0]].space == space then list[0]
    else HandlerIn(handlers, list[1..], space)
  }

  function HandlerOf(handlers: Handlers, held: map<nat, seq<nat>>, n: nat, space: nat): nat {
    if n in held then HandlerIn(handlers, held[n], space) else 0
  }

  /** The handler for a space at n or its nearest ancestor that has one, or null. */
  ghost function Nearest(t: Tree, handlers: Handlers, held: map<nat, seq<nat>>, n: nat, space: nat): nat
    requires IsTree(t) && n in t.sh.kids
    decreases if n in t.sh.level then t.sh.level[n] else 0
  {
    var h := HandlerOf(handlers, held, n, space);
    if h != 0 || n == t.root then h else Nearest(t, handlers, held, ParentOf(t, n), space)
  }

  ghost predicate Served(t: Tree, handlers: Handlers, held: map<nat, seq<nat>>, regions: Regions, r: nat)
    requires IsTree(t)
  {
    && r in regions && r in t.sh.kids && r != t.root
    && regions[r].handler == Nearest(t, handlers, held, ParentOf(t, r), regions[r].space)
  }

  /** Only the spaces of the handlers matter. */
  predicate SameSpaces(a: Handlers, b: Handlers) {
    a.Keys == b.Keys && forall h :: h in a ==> a[h].space == b[h].space
  }

  lemma {:induction false} SpacesDecide(a: Handlers, b: Handlers, list: seq<nat>, space: nat)
    requires SameSpaces(a, b)
    ensures HandlerIn(a, list, space) == HandlerIn(b, list, space)
  {
    if list != [] {
      SpacesDecide(a, b, list[1..], space);
    }
  }

  lemma {:induction false} SpacesNearest(t: Tree, a: Handlers, b: Handlers, held: map<nat, seq<nat>>, n: nat, s: nat)
    requires IsTree(t) && n in t.sh.kids && SameSpaces(a, b)
    ensures Nearest(t, a, held, n, s) == Nearest(t, b, held, n, s)
    decreases if n in t.sh.level then t.sh.level[n] else 0
  {
    if n in held {
      SpacesDecide(a, b, held[n], s);
    }
    if n != t.root {
      SpacesNearest(t, a, b, held, ParentOf(t, n), s);
    }
    hide IsTree;
  }

  // ---------- what a new handler reaches ----------

  /** Going up from n one meets d before any other node with a handler for the space. */
  ghost predicate Reaches(t: Tree, handlers: Handlers, held: map<nat, seq<nat>>, d: nat, n: nat, space: nat)
    requires IsTree(t) && n in t.sh.kids
    decreases if n in t.sh.level then t.sh.level[n] else 0
  {
    n == d ||
    (HandlerOf(handlers, held, n, space) == 0 && n != t.root &&
     Reaches(t, handlers, held, d, ParentOf(t, n), space))
  }

  /** A handler put in front of those of a device that had none for the space. */
  lemma {:induction false} NewNearest(t: Tree, handlers: Handlers, handlers': Handlers, held: map<nat, seq<nat>>,
                                      d: nat, h: nat, n: nat, s: nat)
    requires IsTree(t) && n in t.sh.kids && d in held
    requires h != 0 && h !in handlers && h in handlers' && handlers'.Keys == handlers.Keys + {h}
    requires forall g :: g in handlers ==> handlers'[g] == handlers[g]
    requires forall x, i :: x in held && 0 <= i < |held[x]| ==> held[x][i] in handlers
    requires HandlerOf(handlers, held, d, handlers'[h].space) == 0
    ensures var held' := held[d := [h] + held[d]];
            Nearest(t, handlers', held', n, s) ==
            if s == handlers'[h].space && Reaches(t, handlers', held', d, n, s) then h
            else Nearest(t, handlers, held, n, s)
    decreases if n in t.sh.level then t.sh.level[n] else 0
  {
    var held' := held[d := [h] + held[d]];
    if n in held {
      OldHandlers(handlers, handlers', held[n], h, s);
      if n == d {
        assert held'[d][1..] == held[d];
      }
    }
    if n != t.root {
      NewNearest(t, handlers, handlers', held, d, h, ParentOf(t, n), s);
    }
    hide IsTree;
  }

  lemma {:induction false} OldHandlers(handlers: Handlers, handlers': Handlers, list: seq<nat>, h: nat, s: nat)
    requires h !in handlers && forall i :: 0 <= i < |list| ==> list[i] in handlers
    requires forall g :: g in handlers ==> g in handlers' && handlers'[g] == handlers[g]
    ensures HandlerIn(handlers', list, s) == HandlerIn(handlers, list, s)
  {
    if list != [] {
      OldHandlers(handlers, handlers', list[1..], h, s);
    }
  }

  // ---------- what the walk reaches ----------

  /** The walk's answer to a node: stop at one with a handler of its own. */
  function Answer(handlers: Handlers, held: map<nat, seq<nat>>, space: nat, e: Event): Decision {
    if HandlerOf(handlers, held, e.node, space) != 0 then NextPeer else Continue
  }

  ghost predicate AnswersBy(t: Tour, handlers: Handlers, held: map<nat, seq<nat>>, space: nat) {
    forall tr: seq<Event> :: tr != [] ==> t.decide(tr) == Answer(handlers, held, space, tr[|tr| - 1])
  }

  /** Every installed node is permanent and has an object of a known type; the query wants them all, going down. */
  ghost predicate AllWanted(t: Tour) {
    && t.q == Query(true, false, AnyType(), MAX_DEPTH_ANY, true)
    && Everyday(t.tree)
  }

  predicate IsObjectType(k: nat) {
    k < OBJECT_TYPES
  }

  function AnyType(): set<nat> {
    set k: nat {:trigger IsObjectType(k)} | k < OBJECT_TYPES && IsObjectType(k)
  }

  ghost predicate Everyday(t: Tree) {
    && t.sh.height < MAX_DEPTH_ANY
    && forall n {:trigger Plain(t, n)} :: n in t.sh.kids ==> Plain(t, n)
  }

  predicate Plain(t: Tree, n: nat) {
    n in t.nodes && !t.nodes[n].temporary && t.nodes[n].kind.Some? && IsObjectType(t.nodes[n].kind.value)
  }

  /** The nodes visited, children of p from the i-th on, in order. */
  ghost function Visited(t: Tree, handlers: Handlers, held: map<nat, seq<nat>>, space: nat, p: nat, i: nat): seq<nat>
    requires IsTree(t) && InList(t, p, i)
    decreases Below(t, p), |t.sh.kids[p]| - i
  {
    if i == |t.sh.kids[p]| then []
    else
      ChildPlaced(t, p, i);
      var n := t.sh.kids[p][i];
      [n] + (if HandlerOf(handlers, held, n, space) == 0 then Visited(t, handlers, held, space, n, 0) else [])
      + Visited(t, handlers, held, space, p, i + 1)
  }

  function NodesOf(trace: seq<Event>): (r: seq<nat>)
    ensures |r| == |trace| && forall i :: 0 <= i < |r| ==> r[i] == trace[i].node
  {
    if trace == [] then [] else NodesOf(trace[..|trace| - 1]) + [trace[|trace| - 1].node]
  }

  lemma NodesOfMore(trace: seq<Event>, e: Event)
    ensures NodesOf(trace + [e]) == NodesOf(trace) + [e.node]
  {
    assert (trace + [e])[..|trace|] == trace;
  }

  /** One child's share of the walk. */
  lemma WalkOne(t: Tour, handlers: Handlers, held: map<nat, seq<nat>>, space: nat, p: nat, i: nat, d: nat, w: Walk)
    returns (w1: Walk, w2: Walk)
    requires IsTree(t.tree) && p in t.tree.sh.kids && i < |t.tree.sh.kids[p]|
    requires AllWanted(t) && AnswersBy(t, handlers, held, space)
    requires p in t.tree.sh.level && d <= t.tree.sh.level[p] + 1
    ensures var n := t.tree.sh.kids[p][i];
            var down := HandlerOf(handlers, held, n, space) == 0;
            && n in t.tree.sh.kids && n in t.tree.sh.level && d <= t.tree.sh.level[n]
            && Below(t.tree, n) < Below(t.tree, p)
            && NodesOf(w1.trace) == NodesOf(w.trace) + [n]
            && var o := if down then VisitList(t, n, 0, d + 1, w1) else Going(w1);
               o.Going? ==>
                 && w2.trace == o.w.trace
                 && VisitList(t, p, i, d, w) == VisitList(t, p, i + 1, d, w2)
  {
    ChildPlaced(t.tree, p, i);
    var n := t.tree.sh.kids[p][i];
    assert Plain(t.tree, n);
    var r := DownStep(t.tree.nodes, t.q, t.decide, n, d, w);
    w1, w2 := r.0, w;
    assert w1.trace == w.trace + [Down(n, d)];
    NodesOfMore(w.trace, Down(n, d));
    assert w1.trace[|w1.trace| - 1] == Down(n, d);
    assert r.1 == Answer(handlers, held, space, Down(n, d));
    assert d != t.q.maxDepth;
    hide IsTree, AllWanted, AnswersBy, Plain, AnyType, HandlerOf;
    var down := HandlerOf(handlers, held, n, space) == 0;
    var o := if down then VisitList(t, n, 0, d + 1, w1) else Going(w1);
    if o.Going? {
      w2 := UpStep(t.tree.nodes, t.q, t.decide, n, d, o.w).w;
    }
  }

  lemma VisitedParts(t: Tree, handlers: Handlers, held: map<nat, seq<nat>>, space: nat, p: nat, i: nat)
    returns (y: seq<nat>, z: seq<nat>)
    requires IsTree(t) && p in t.sh.kids && i < |t.sh.kids[p]|
    ensures var n := t.sh.kids[p][i];
            && n in t.sh.kids
            && y == (if HandlerOf(handlers, held, n, space) == 0 then Visited(t, handlers, held, space, n, 0) else [])
            && z == Visited(t, handlers, held, space, p, i + 1)
            && Visited(t, handlers, held, space, p, i) == [n] + y + z
  {
    ChildPlaced(t, p, i);
    var n := t.sh.kids[p][i];
    y := if HandlerOf(handlers, held, n, space) == 0 then Visited(t, handlers, held, space, n, 0) else [];
    z := Visited(t, handlers, held, space, p, i + 1);
    hide IsTree, HandlerOf;
  }

  lemma ThreeMore(a0: seq<nat>, a1: seq<nat>, a2: seq<nat>, a3: seq<nat>, x: seq<nat>, y: seq<nat>, z: seq<nat>)
    requires a1 == a0 + x && a2 == a1 + y && a3 == a2 + z
    ensures a3 == a0 + (x + y + z)
  {
  }

  /** The walk goes through exactly those nodes. */
  lemma {:induction false} WalkVisits(t: Tour, handlers: Handlers, held: map<nat, seq<nat>>, space: nat,
                                      p: nat, i: nat, d: nat, w: Walk)
    requires IsTree(t.tree) && InList(t.tree, p, i) && AllWanted(t) && AnswersBy(t, handlers, held, space)
    requires p in t.tree.sh.level && d <= t.tree.sh.level[p] + 1
    ensures var o := VisitList(t, p, i, d, w);
            o.Going? && NodesOf(o.w.trace) == NodesOf(w.trace) + Visited(t.tree, handlers, held, space, p, i)
    decreases Below(t.tree, p), |t.tree.sh.kids[p]| - i
  {
    if i == |t.tree.sh.kids[p]| {
    } else {
      var n := t.tree.sh.kids[p][i];
      var w1, w2 := WalkOne(t, handlers, held, space, p, i, d, w);
      var y, z := VisitedParts(t.tree, handlers, held, space, p, i);
      hide *;
      var down := HandlerOf(handlers, held, n, space) == 0;
      var o := Going(w1);
      if down {
        WalkVisits(t, handlers, held, space, n, 0, d + 1, w1);
        o := VisitList(t, n, 0, d + 1, w1);
      }
      WalkVisits(t, handlers, held, space, p, i + 1, d, w2);
      ThreeMore(NodesOf(w.trace), NodesOf(w1.trace), NodesOf(o.w.trace),
                NodesOf(VisitList(t, p, i + 1, d, w2).w.trace), [n], y, z);
    }
  }

  // ---------- which nodes those are ----------

  /** Below d with no handler for the space on the way. */
  ghost predicate Under(t: Tree, handlers: Handlers, held: map<nat, seq<nat>>, d: nat, n: nat, space: nat)
    requires IsTree(t) && n in t.sh.kids
  {
    n != t.root && Reaches(t, handlers, held, d, ParentOf(t, n), space)
  }

  lemma {:induction false} ReachesFurther(t: Tree, handlers: Handlers, held: map<nat, seq<nat>>, d: nat, k: nat,
                                          n: nat, space: nat)
    requires IsTree(t) && n in t.sh.kids && k in t.sh.kids && k != t.root && ParentOf(t, k) == d
    requires HandlerOf(handlers, held, k, space) == 0 && Reaches(t, handlers, held, k, n, space)
    ensures Reaches(t, handlers, held, d, n, space)
    decreases if n in t.sh.level then t.sh.level[n] else 0
  {
    if n != k {
      ReachesFurther(t, handlers, held, d, k, ParentOf(t, n), space);
    }
    hide IsTree;
  }

  lemma {:induction false} VisitedUnder(t: Tree, handlers: Handlers, held: map<nat, seq<nat>>, space: nat,
                                        p: nat, i: nat, n: nat)
    requires IsTree(t) && InList(t, p, i) && n in Visited(t, handlers, held, space, p, i)
    ensures n in t.sh.kids && Under(t, handlers, held, p, n, space)
    decreases Below(t, p), |t.sh.kids[p]| - i
  {
    ChildPlaced(t, p, i);
    var k := t.sh.kids[p][i];
    KidsParent(t, p, i);
    if n in Visited(t, handlers, held, space, p, i + 1) {
      VisitedUnder(t, handlers, held, space, p, i + 1, n);
    } else if n != k {
      VisitedUnder(t, handlers, held, space, k, 0, n);
      ReachesFurther(t, handlers, held, p, k, ParentOf(t, n), space);
    }
    hide IsTree;
  }

  lemma KidsParent(t: Tree, p: nat, i: nat)
    requires IsTree(t) && p in t.sh.kids && i < |t.sh.kids[p]|
    ensures var k := t.sh.kids[p][i]; k in t.sh.kids && k != t.root && ParentOf(t, k) == p
  {
    ChildPlaced(t, p, i);
    assert Owned(t.nodes, t.sh, t.root, t.root);
    hide IsTree;
  }

  /** The first child is visited, and what the later ones' walk visits. */
  lemma VisitedFirst(t: Tree, handlers: Handlers, held: map<nat, seq<nat>>, space: nat, p: nat, i: nat)
    requires IsTree(t) && p in t.sh.kids && i < |t.sh.kids[p]|
    ensures InList(t, p, i + 1) && t.sh.kids[p][i] in Visited(t, handlers, held, space, p, i)
    ensures forall x :: x in Visited(t, handlers, held, space, p, i + 1) ==>
              x in Visited(t, handlers, held, space, p, i)
  {
    ChildPlaced(t, p, i);
    hide IsTree, Family, HandlerOf;
  }

  lemma {:induction false} ChildVisited(t: Tree, handlers: Handlers, held: map<nat, seq<nat>>, space: nat,
                                        p: nat, i: nat, j: nat)
    requires IsTree(t) && InList(t, p, i) && i <= j < |t.sh.kids[p]|
    ensures t.sh.kids[p][j] in Visited(t, handlers, held, space, p, i)
    decreases j - i
  {
    hide IsTree, Visited;
    VisitedFirst(t, handlers, held, space, p, i);
    if i < j {
      ChildVisited(t, handlers, held, space, p, i + 1, j);
    }
  }

  /** Where a node without a handler is visited, so are its children. */
  lemma {:induction false} ChildrenVisited(t: Tree, handlers: Handlers, held: map<nat, seq<nat>>, space: nat,
                                           p: nat, i: nat, q: nat, j: nat)
    requires IsTree(t) && InList(t, p, i) && q in Visited(t, handlers, held, space, p, i)
    requires q in t.sh.kids && j < |t.sh.kids[q]| && HandlerOf(handlers, held, q, space) == 0
    ensures t.sh.kids[q][j] in Visited(t, handlers, held, space, p, i)
    decreases Below(t, p), |t.sh.kids[p]| - i
  {
    ChildPlaced(t, p, i);
    var k := t.sh.kids[p][i];
    if q in Visited(t, handlers, held, space, p, i + 1) {
      ChildrenVisited(t, handlers, held, space, p, i + 1, q, j);
    } else if q == k {
      ChildVisited(t, handlers, held, space, q, 0, j);
    } else {
      ChildrenVisited(t, handlers, held, space, k, 0, q, j);
    }
    hide IsTree;
  }

  lemma {:induction false} UnderVisited(t: Tree, handlers: Handlers, held: map<nat, seq<nat>>, space: nat, p: nat,
                                        n: nat)
    requires IsTree(t) && p in t.sh.kids && n in t.sh.kids && Under(t, handlers, held, p, n, space)
    ensures n in Visited(t, handlers, held, space, p, 0)
    decreases if n in t.sh.level then t.sh.level[n] else 0
  {
    var q := ParentOf(t, n);
    var j :| 0 <= j < |t.sh.kids[q]| && t.sh.kids[q][j] == n;
    if q == p {
      ChildVisited(t, handlers, held, space, p, 0, j);
    } else {
      UnderVisited(t, handlers, held, space, p, q);
      ChildrenVisited(t, handlers, held, space, p, 0, q, j);
    }
    hide IsTree;
  }

  // ---------- the operations ----------

  ghost predicate Consistent(t: Tree, regions: Regions, handlers: Handlers, held: map<nat, seq<nat>>,
                             lists: map<nat, seq<nat>>) {
    && IsTree(t) && Everyday(t)
    && Attached(regions, handlers, lists) && 0 !in handlers
    && held.Keys <= t.sh.kids.Keys && regions.Keys !! held.Keys
    && (forall d, i :: d in held && 0 <= i < |held[d]| ==> held[d][i] in handlers)
    && (forall r {:trigger Served(t, handlers, held, regions, r)} ::
          r in regions ==> Served(t, handlers, held, regions, r) && r != 0)
  }

  /** The regions of the list, found by its links. */
  lemma NextInList(regions: Regions, handlers: Handlers, lists: map<nat, seq<nat>>, h: nat, i: nat)
    requires ListOk(regions, handlers, lists, h) && i < |lists[h]|
    ensures lists[h][i] in regions && lists[h][i] != 0
    ensures i + 1 < |lists[h]| ==> regions[lists[h][i]].next == lists[h][i + 1]
    ensures handlers[h].regions == lists[h][0]
  {
    assert RegionAt(regions, handlers, h, lists[h], i);
  }

  lemma UnlinkedIs(regions: Regions, handlers: Handlers, list: seq<nat>, h: nat, i: nat)
    requires h in handlers && i < |list| && forall j :: 0 <= j < |list| ==> list[j] in regions
    ensures var r := list[i];
            var regions' := if i == 0 then regions
                            else regions[list[i - 1] := regions[list[i - 1]].(next := regions[r].next)];
            var handler' := if i == 0 then handlers[h].(regions := regions[r].next) else handlers[h];
            && Unlinked(regions, handlers, list, h, i).0 == regions'[r := regions'[r].(handler := 0)]
            && Unlinked(regions, handlers, list, h, i).1 == handlers[h := handler'.(refs := handler'.refs - 1)]
  {
  }

  /** The parent link leads to the parent, and is null at the root. */
  lemma Climbing(t: Tree, n: nat)
    requires IsTree(t) && n in t.sh.kids
    ensures n in t.nodes && n != 0 && n in t.sh.level
    ensures if n == t.root then t.nodes[n].parent == 0 else t.nodes[n].parent == ParentOf(t, n) != 0
  {
    assert Family(t.nodes, t.sh, n) && Owned(t.nodes, t.sh, t.root, n);
    if n != t.root {
      assert Family(t.nodes, t.sh, ParentOf(t, n));
    }
    hide IsTree;
  }

  /** A region just created is in no list. */
  lemma NewRegion(t: Tree, regions: Regions, handlers: Handlers, held: map<nat, seq<nat>>, lists: map<nat, seq<nat>>,
                  r: nat, space: nat)
    requires Consistent(t, regions, handlers, held, lists) && r !in regions
    ensures Attached(regions[r := Region(space, 0, 0)], handlers, lists)
  {
    var regions' := regions[r := Region(space, 0, 0)];
    forall h | h in handlers ensures ListOk(regions', handlers, lists, h) {
      assert ListOk(regions, handlers, lists, h);
      forall i: nat | i < |lists[h]| ensures RegionAt(regions', handlers, h, lists[h], i) {
        assert RegionAt(regions, handlers, h, lists[h], i);
      }
    }
    forall x | x in regions' ensures Listed(regions', lists, x) {
      assert x != r ==> Listed(regions, lists, x);
    }
  }

  /** The other regions are served as before while the handlers keep their spaces. */
  lemma StillServed(t: Tree, regions: Regions, handlers: Handlers, regions': Regions, handlers': Handlers,
                    held: map<nat, seq<nat>>, r: nat)
    requires IsTree(t) && Served(t, handlers, held, regions, r) && SameSpaces(handlers, handlers')
    requires r in regions' && regions'[r].space == regions[r].space && regions'[r].handler == regions[r].handler
    ensures Served(t, handlers', held, regions', r)
  {
    SpacesNearest(t, handlers, handlers', held, ParentOf(t, r), regions[r].space);
    hide IsTree;
  }

  /** A handler just allocated serves nobody. */
  lemma NewHandler(regions: Regions, handlers: Handlers, lists: map<nat, seq<nat>>, h: nat, space: nat)
    requires Attached(regions, handlers, lists) && h != 0 && h !in handlers
    ensures Attached(regions, handlers[h := Handler(space, 0, 1)], lists[h := []])
  {
    var handlers', lists' := handlers[h := Handler(space, 0, 1)], lists[h := []];
    forall g | g in handlers' ensures ListOk(regions, handlers', lists', g) {
      if g != h {
        assert ListOk(regions, handlers, lists, g);
        forall i: nat | i < |lists[g]| ensures RegionAt(regions, handlers', g, lists'[g], i) {
          assert RegionAt(regions, handlers, g, lists[g], i);
        }
      }
    }
    forall x | x in regions ensures Listed(regions, lists', x) {
      assert Listed(regions, lists, x);
    }
  }

  /** Exactly the regions the walk visits get a new nearest handler. */
  lemma PushedDown(t: Tree, regions: Regions, handlers: Handlers, handlers': Handlers, held: map<nat, seq<nat>>,
                   lists: map<nat, seq<nat>>, d: nat, h: nat, space: nat, r: nat)
    requires Consistent(t, regions, handlers, held, lists) && d in held && h != 0 && h !in handlers
    requires handlers' == handlers[h := Handler(space, 0, 1)]
    requires HandlerOf(handlers, held, d, space) == 0 && r in regions
    ensures var held' := held[d := [h] + held[d]];
            && r in t.sh.kids && r != t.root && d in t.sh.kids
            && Nearest(t, handlers', held', ParentOf(t, r), regions[r].space) ==
               if regions[r].space == space && r in Visited(t, handlers', held', space, d, 0) then h
               else regions[r].handler
  {
    var held' := held[d := [h] + held[d]];
    assert Served(t, handlers, held, regions, r);
    NewNearest(t, handlers, handlers', held, d, h, ParentOf(t, r), regions[r].space);
    if r in Visited(t, handlers', held', space, d, 0) {
      VisitedUnder(t, handlers', held', space, d, 0, r);
    }
    if Under(t, handlers', held', d, r, space) {
      UnderVisited(t, handlers', held', space, d, r);
    }
    hide IsTree;
  }

  /** Growing the tree by a leaf moves nobody's ancestors. */
  lemma {:induction false} GrownNearest(t: Tree, t': Tree, handlers: Handlers, held: map<nat, seq<nat>>,
                                        held': map<nat, seq<nat>>, n: nat, s: nat)
    requires IsTree(t) && IsTree(t') && n in t.sh.kids && t'.root == t.root
    requires forall x :: x in t.sh.kids ==> x in t'.sh.kids
    requires forall x :: x in t.sh.kids && x in t.nodes && x in t'.nodes ==> t'.nodes[x].parent == t.nodes[x].parent
    requires forall x :: x in t.sh.kids ==> HandlerOf(handlers, held', x, s) == HandlerOf(handlers, held, x, s)
    ensures Nearest(t', handlers, held', n, s) == Nearest(t, handlers, held, n, s)
    decreases if n in t.sh.level then t.sh.level[n] else 0
  {
    if n != t.root {
      assert ParentOf(t', n) == ParentOf(t, n);
      GrownNearest(t, t', handlers, held, held', ParentOf(t, n), s);
    }
    hide IsTree;
  }

  lemma GrownServed(t: Tree, t': Tree, regions: Regions, handlers: Handlers, held: map<nat, seq<nat>>,
                    held': map<nat, seq<nat>>, n: nat, r: nat)
    requires IsTree(t) && IsTree(t') && t'.root == t.root && Served(t, handlers, held, regions, r)
    requires forall x :: x in t.sh.kids ==> x in t'.sh.kids
    requires forall x :: x in t.sh.kids && x in t.nodes && x in t'.nodes ==> t'.nodes[x].parent == t.nodes[x].parent
    requires n !in t.sh.kids && n !in held && (held' == held || held' == held[n := []])
    ensures Served(t', handlers, held', regions, r)
  {
    assert ParentOf(t', r) == ParentOf(t, r);
    GrownNearest(t, t', handlers, held, held', ParentOf(t, r), regions[r].space);
    hide IsTree;
  }

  /** A node that is not installed is no region. */
  lemma NotYetRegion(t: Tree, regions: Regions, handlers: Handlers, held: map<nat, seq<nat>>, lists: map<nat, seq<nat>>,
                     n: nat)
    requires Consistent(t, regions, handlers, held, lists) && n !in t.sh.kids
    ensures n !in regions
  {
    assert n in regions ==> Served(t, handlers, held, regions, n);
    hide IsTree, Attached, Everyday;
  }

  /** What a tree keeps of itself when it grows by a leaf. */
  lemma GrownTree(t: Tree, p: nat, n: nat)
    requires IsTree(t) && Everyday(t) && p in t.sh.kids && p in t.sh.level && p in t.nodes
    requires n in t.nodes && n !in t.sh.kids && !t.nodes[n].dangling
    requires Plain(t, n) && t.sh.level[p] + 1 < MAX_DEPTH_ANY
    ensures Loose(t.nodes, n)
    ensures var t' := Tree(Hung(t, p, n), Added(t.sh, p, n), t.root);
            && IsTree(t') && Everyday(t') && t'.sh.kids.Keys == t.sh.kids.Keys + {n}
            && forall x :: x in t.sh.kids && x in t.nodes ==> x in t'.nodes && t'.nodes[x].parent == t.nodes[x].parent
  {
    AddedIsTree(t, p, n);
    var t' := Tree(Hung(t, p, n), Added(t.sh, p, n), t.root);
    if t.sh.kids[p] != [] {
      ChildPlaced(t, p, |t.sh.kids[p]| - 1);
    }
    hide IsTree;
    forall x | x in t'.sh.kids ensures Plain(t', x) {
      assert Plain(t, x);
    }
  }

  /** Hanging a permanent, typed node into the tree leaves every region served. */
  lemma GrownConsistent(t: Tree, p: nat, n: nat, regions: Regions, handlers: Handlers, held: map<nat, seq<nat>>,
                        held': map<nat, seq<nat>>, lists: map<nat, seq<nat>>)
    requires Consistent(t, regions, handlers, held, lists)
    requires p in t.sh.kids && p in t.sh.level && p in t.nodes && n in t.nodes && n !in t.sh.kids
    requires !t.nodes[n].dangling && Plain(t, n) && t.sh.level[p] + 1 < MAX_DEPTH_ANY
    requires held' == held || held' == held[n := []]
    ensures Loose(t.nodes, n)
    ensures Consistent(Tree(Hung(t, p, n), Added(t.sh, p, n), t.root), regions, handlers, held', lists)
  {
    GrownTree(t, p, n);
    var t' := Tree(Hung(t, p, n), Added(t.sh, p, n), t.root);
    hide IsTree, Everyday, Hung, Added, Attached, Nearest;
    forall r | r in regions ensures Served(t', handlers, held', regions, r) && r != 0 {
      assert Served(t, handlers, held, regions, r);
      GrownServed(t, t', regions, handlers, held, held', n, r);
    }
    NotYetRegion(t, regions, handlers, held, lists, n);
    hide Served;
  }

  /** A region without a handler is in no list, so it can go. */
  lemma GoneRegion(regions: Regions, handlers: Handlers, lists: map<nat, seq<nat>>, r: nat)
    requires Attached(regions, handlers, lists) && r in regions && regions[r].handler == 0 && 0 !in handlers
    ensures Attached(regions - {r}, handlers, lists)
  {
    var regions' := regions - {r};
    forall h | h in handlers ensures ListOk(regions', handlers, lists, h) {
      assert ListOk(regions, handlers, lists, h);
      forall i: nat | i < |lists[h]| ensures RegionAt(regions', handlers, h, lists[h], i) {
        assert RegionAt(regions, handlers, h, lists[h], i);
      }
    }
    forall x | x in regions' ensures Listed(regions', lists, x) {
      assert Listed(regions, lists, x);
    }
  }

  class Opregions {
    const ns: Namespace
    var regions: Regions
    var handlers: Handlers
    var held: map<nat, seq<nat>>
    ghost var lists: map<nat, seq<nat>>

    constructor (ns: Namespace)
      requires ns.Valid() && Everyday(ns.View())
      ensures Valid() && this.ns == ns && regions == map[] && handlers == map[] && held == map[ns.root := []]
    {
      this.ns := ns;
      regions, handlers, held, lists := map[], map[], map[ns.root := []], map[];
    }

    ghost predicate Valid()
      reads this, ns
    {
      Consistent(ns.View(), regions, handlers, held, lists)
    }

    method FindHandler(d: nat, space: nat) returns (h: nat)
      requires d in held && forall i :: 0 <= i < |held[d]| ==> held[d][i] in handlers
      ensures h == HandlerOf(handlers, held, d, space)
    {
      var i := 0;
      while i < |held[d]|
        invariant i <= |held[d]|
        invariant HandlerIn(handlers, held[d], space) == HandlerIn(handlers, held[d][i..], space)
      {
        assert held[d][i..][1..] == held[d][i + 1..];
        if handlers[held[d][i]].space == space {
          return held[d][i];
        }
        i := i + 1;
      }
      return 0;
    }

    /** region_install_handler. */
    method Attach(r: nat, h: nat)
      requires Attached(regions, handlers, lists) && r in regions && r != 0 && regions[r].handler == 0
      requires h in handlers && h in lists && handlers[h].space == regions[r].space
      modifies this`regions, this`handlers, this`lists
      ensures Attached(regions, handlers, lists)
      ensures regions == old(regions)[r := Region(old(regions)[r].space, h, old(handlers)[h].regions)]
      ensures SameSpaces(old(handlers), handlers) && lists == old(lists)[h := [r] + old(lists)[h]]
    {
      AttachKeeps(regions, handlers, lists, r, h);
      ghost var regions' := regions[r := Region(regions[r].space, h, handlers[h].regions)];
      ghost var handlers' := handlers[h := handlers[h].(regions := r, refs := handlers[h].refs + 1)];
      lists := lists[h := [r] + lists[h]];
      regions := regions[r := regions[r].(handler := h)];
      handlers := handlers[h := handlers[h].(refs := handlers[h].refs + 1)];
      regions := regions[r := regions[r].(next := handlers[h].regions)];
      handlers := handlers[h := handlers[h].(regions := r)];
      assert regions == regions' && handlers == handlers';
    }

    /** find_previous_region_link: the region in front of r in its list, or r itself when it is the first. */
    method FindPrevious(r: nat) returns (link: nat, ghost i: nat)
      requires Attached(regions, handlers, lists) && r in regions && 0 !in handlers
      requires regions[r].handler != 0
      ensures var h := regions[r].handler;
              h in lists && h in handlers && i < |lists[h]| && lists[h][i] == r
              && (forall j :: 0 <= j < |lists[h]| ==> lists[h][j] in regions)
              && if i == 0 then link == r else link == lists[h][i - 1] && link != r
    {
      var h := regions[r].handler;
      assert Listed(regions, lists, r) && ListOk(regions, handlers, lists, h);
      ghost var list := lists[h];
      ListMembers(regions, handlers, lists, h);
      link := handlers[h].regions;
      NextInList(regions, handlers, lists, h, 0);
      if link == r {
        return r, 0;
      }
      ghost var at := 0;
      while regions[link].next != r
        invariant 0 <= at < |list| && link == list[at] && link in regions && link != r
        invariant r in list[at..]
        decreases |list| - at
      {
        NextInList(regions, handlers, lists, h, at);
        ghost var k :| at <= k < |list| && list[k] == r;
        link := regions[link].next;
        at := at + 1;
        NextInList(regions, handlers, lists, h, at);
        assert list[at..][k - at] == r;
      }
      ghost var k :| at <= k < |list| && list[k] == r;
      NextInList(regions, handlers, lists, h, at);
      return link, at + 1;
    }

    /** region_uninstall_handler: afterwards the region has no handler and is in no list. */
    method Detach(r: nat)
      requires Attached(regions, handlers, lists) && r in regions && r != 0 && 0 !in handlers
      modifies this`regions, this`handlers, this`lists
      ensures Attached(regions, handlers, lists)
      ensures regions.Keys == old(regions).Keys && SameSpaces(old(handlers), handlers)
      ensures regions[r].handler == 0
      ensures forall x :: x in regions ==>
                regions[x].space == old(regions)[x].space
                && (x != r ==> regions[x].handler == old(regions)[x].handler)
    {
      var h := regions[r].handler;
      if h == 0 {
        return;
      }
      var link, i := FindPrevious(r);
      DetachKeeps(regions, handlers, lists, h, i);
      ghost var after := Unlinked(regions, handlers, lists[h], h, i);
      UnlinkedIs(regions, handlers, lists[h], h, i);
      hide Attached, ListOk, Listed;
      if link == r {
        handlers := handlers[h := handlers[h].(regions := regions[r].next)];
      } else {
        regions := regions[link := regions[link].(next := regions[r].next)];
      }
      handlers := handlers[h := handlers[h].(refs := handlers[h].refs - 1)];
      regions := regions[r := regions[r].(handler := 0)];
      lists := lists[h := Removed(lists[h], i)];
      assert regions == after.0 && handlers == after.1;
    }

    /** The climb of uacpi_initialize_opregion_node from a region's parent. */
    method FindNearest(r: nat, space: nat) returns (h: nat)
      requires IsTree(ns.View()) && r in ns.shape.kids && r != ns.root && 0 !in handlers
      requires forall d, i :: d in held && 0 <= i < |held[d]| ==> held[d][i] in handlers
      ensures h == Nearest(ns.View(), handlers, held, ParentOf(ns.View(), r), space)
      ensures h != 0 ==> h in handlers && handlers[h].space == space
    {
      ghost var t := ns.View();
      Climbing(t, r);
      var parent := ns.nodes[r].parent;
      ghost var p := ParentOf(t, r);
      h := 0;
      while parent != 0
        invariant h == 0
        invariant parent != 0 ==>
            parent in t.sh.kids && Nearest(t, handlers, held, p, space) == Nearest(t, handlers, held, parent, space)
        invariant parent == 0 ==> Nearest(t, handlers, held, p, space) == 0
        decreases if parent != 0 && parent in t.sh.level then t.sh.level[parent] + 1 else 0
      {
        Climbing(t, parent);
        if parent in held {
          h := FindHandler(parent, space);
          if h != 0 {
            return;
          }
        }
        parent := ns.nodes[parent].parent;
      }
    }

    /** uacpi_initialize_opregion_node: a new region takes the handler of its nearest ancestor that has one. */
    method InitializeRegion(r: nat, space: nat) returns (status: Status)
      requires Valid() && r in ns.shape.kids && r != ns.root && r !in regions && r !in held
      modifies this`regions, this`handlers, this`lists
      ensures Valid() && regions.Keys == old(regions).Keys + {r} && regions[r].space == space
      ensures SameSpaces(old(handlers), handlers)
      ensures forall x :: x in old(regions) ==>
                regions[x].space == old(regions)[x].space && regions[x].handler == old(regions)[x].handler
      ensures status == if regions[r].handler == 0 then NotFound else Ok
    {
      ghost var t := ns.View();
      Climbing(t, r);
      NewRegion(t, regions, handlers, held, lists, r, space);
      var h := FindNearest(r, space);
      regions := regions[r := Region(space, 0, 0)];
      if h != 0 {
        Attach(r, h);
        status := Ok;
      } else {
        status := NotFound;
      }
      SpacesNearest(t, old(handlers), handlers, held, ParentOf(t, r), space);
      forall x | x in old(regions) ensures Served(t, handlers, held, regions, x) && x != 0 {
        assert Served(t, old(handlers), held, old(regions), x);
        StillServed(t, old(regions), old(handlers), regions, handlers, held, x);
      }
    }

    /** What the walk's callback does to a region of the new handler's space: off its old list, onto the new one. */
    method Reattach(r: nat, h: nat)
      requires Attached(regions, handlers, lists) && r in regions && r != 0 && 0 !in handlers
      requires h in handlers && handlers[h].space == regions[r].space
      modifies this`regions, this`handlers, this`lists
      ensures Attached(regions, handlers, lists)
      ensures regions.Keys == old(regions).Keys && SameSpaces(old(handlers), handlers)
      ensures regions[r].handler == h
      ensures forall x :: x in regions ==>
                regions[x].space == old(regions)[x].space
                && (x != r ==> regions[x].handler == old(regions)[x].handler)
    {
      if regions[r].handler != 0 {
        Detach(r);
      }
      hide ListOk, Listed;
      Attach(r, h);
    }

    /**
     uacpi_install_address_space_handler: the new handler takes over every region below the device that does not have
     a nearer one, so that again each region has its nearest.
     */
    method InstallHandler(device: nat, space: nat, h: nat) returns (status: Status)
      requires Valid() && (h != 0 ==> h !in handlers)
      modifies this
      ensures Valid()
      ensures status == if device !in old(held) then InvalidArgument
                        else if HandlerOf(old(handlers), old(held), device, space) != 0 then AlreadyExists
                        else if h == 0 then OutOfMemory else Ok
      ensures status != Ok ==> regions == old(regions) && handlers == old(handlers) && held == old(held)
      ensures status == Ok ==>
                && held == old(held)[device := [h] + old(held)[device]]
                && handlers.Keys == old(handlers).Keys + {h} && handlers[h].space == space
                && (forall g :: g in old(handlers) ==> handlers[g].space == old(handlers)[g].space)
      ensures regions.Keys == old(regions).Keys
      ensures forall r :: r in regions ==> regions[r].space == old(regions)[r].space
    {
      if device !in held {
        return InvalidArgument;
      }
      var this_ := FindHandler(device, space);
      if this_ != 0 {
        return AlreadyExists;
      }
      if h == 0 {
        return OutOfMemory;
      }
      TakeOver(device, space, h);
      return Ok;
    }

    /** The new handler enters the device's list and takes over what the walk comes to. */
    method TakeOver(device: nat, space: nat, h: nat)
      requires Valid() && device in held && h != 0 && h !in handlers
      requires HandlerOf(handlers, held, device, space) == 0
      modifies this`regions, this`handlers, this`held, this`lists
      ensures Valid() && held == old(held)[device := [h] + old(held)[device]]
      ensures SameSpaces(old(handlers)[h := Handler(space, 0, 1)], handlers)
      ensures regions.Keys == old(regions).Keys
      ensures forall r :: r in regions ==> regions[r].space == old(regions)[r].space
    {
      ghost var t, regions0, handlers0, held0, lists0 := ns.View(), regions, handlers, held, lists;
      NewHandler(regions, handlers, lists, h, space);
      forall r | r in regions ensures r != 0 {
        assert Served(t, handlers, held, regions, r);
      }
      handlers := handlers[h := Handler(space, 0, 1)];
      held := held[device := [h] + held[device]];
      lists := lists[h := []];
      ghost var handlers1 := handlers;
      var nodes := WalkRegions(device, space);
      PushDown(nodes, h, space);
      forall r | r in regions ensures Served(t, handlers, held, regions, r) && r != 0 {
        PushedDown(t, regions0, handlers0, handlers1, held0, lists0, device, h, space, r);
        SpacesNearest(t, handlers1, handlers, held, ParentOf(t, r), regions[r].space);
      }
    }

    /** The callback's work on the nodes the walk comes to. */
    method PushDown(nodes: seq<nat>, h: nat, space: nat)
      requires Attached(regions, handlers, lists) && 0 !in regions && 0 !in handlers
      requires h in handlers && handlers[h].space == space
      modifies this`regions, this`handlers, this`lists
      ensures Attached(regions, handlers, lists) && SameSpaces(old(handlers), handlers)
      ensures regions.Keys == old(regions).Keys
      ensures forall r :: r in regions ==>
                && regions[r].space == old(regions)[r].space
                && regions[r].handler == if regions[r].space == space && r in nodes then h else old(regions)[r].handler
    {
      var i := 0;
      while i < |nodes|
        invariant i <= |nodes| && Attached(regions, handlers, lists) && SameSpaces(old(handlers), handlers)
        invariant regions.Keys == old(regions).Keys
        invariant forall r :: r in regions ==>
            && regions[r].space == old(regions)[r].space
            && regions[r].handler ==
               if regions[r].space == space && r in nodes[..i] then h else old(regions)[r].handler
      {
        var n := nodes[i];
        assert nodes[..i + 1] == nodes[..i] + [n];
        if n in regions && regions[n].space == space {
          Reattach(n, h);
        }
        i := i + 1;
      }
      assert nodes[..i] == nodes;
    }

    /** The walk below a device; the callback's answers do not depend on what it does to the regions. */
    method WalkRegions(device: nat, space: nat) returns (nodes: seq<nat>)
      requires ns.Valid() && Everyday(ns.View()) && device in ns.shape.kids
      ensures nodes == Visited(ns.View(), handlers, held, space, device, 0)
    {
      var handlers0, held0 := handlers, held;
      var decide := (tr: seq<Event>) =>
        if tr == [] then Continue else Answer(handlers0, held0, space, tr[|tr| - 1]);
      var q := Query(true, false, AnyType(), MAX_DEPTH_ANY, true);
      ghost var t := Tour(ns.View(), q, decide);
      assert Family(ns.nodes, ns.shape, device);
      WalkVisits(t, handlers, held, space, device, 0, 1, Walk([], false));
      var trace, _ := ForEachChild(ns, device, q, decide);
      nodes := NodesOf(trace);
    }

    /** A new node enters the tree; a device comes with an empty list of handlers. */
    method AddNode(parent: nat, node: nat, device: bool)
      requires Valid() && parent in ns.shape.kids && node in ns.nodes && node !in ns.shape.kids
      requires !ns.nodes[node].dangling && Plain(ns.View(), node)
      requires parent in ns.shape.level ==> ns.shape.level[parent] + 1 < MAX_DEPTH_ANY
      modifies this`held, ns
      ensures Valid() && ns.shape.kids.Keys == old(ns.shape.kids).Keys + {node}
      ensures held == if device then old(held)[node := []] else old(held)
    {
      ghost var t := ns.View();
      Climbing(t, parent);
      GrownConsistent(t, parent, node, regions, handlers, held, if device then held[node := []] else held, lists);
      var status := ns.Install(parent, node);
      if device {
        held := held[node := []];
      }
    }

    /** uacpi_opregion_uninstall_handler, for a region whose node is going away. */
    method RemoveRegion(r: nat)
      requires Valid() && r in regions
      modifies this`regions, this`handlers, this`lists
      ensures Valid() && regions.Keys == old(regions).Keys - {r} && SameSpaces(old(handlers), handlers)
      ensures forall x :: x in regions ==>
                regions[x].space == old(regions)[x].space && regions[x].handler == old(regions)[x].handler
    {
      ghost var t := ns.View();
      assert Served(t, handlers, held, regions, r);
      Detach(r);
      GoneRegion(regions, handlers, lists, r);
      regions := regions - {r};
      forall x | x in regions ensures Served(t, handlers, held, regions, x) && x != 0 {
        assert Served(t, old(handlers), held, old(regions), x);
        StillServed(t, old(regions), old(handlers), regions, handlers, held, x);
      }
    }
  }
}
