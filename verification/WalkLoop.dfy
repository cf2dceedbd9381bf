/**
 The walk over the namespace that needs no stack, against the recursive traversal it stands for and the answers of its
 callbacks.
 */
module WalkLoop {
  import opened NamespaceTree
  import opened NamespaceWalk
  import opened Options
  import opened WalkAnswers

  // ---------- what is left to do at each point of the walk without a stack ----------

  /** Where the walk stands, as child numbers from the start down; the code reads it off the parent links. */
  datatype Position = Start | At(above: Position, i: nat)

  function Depth(pos: Position): nat {
    if pos.Start? then 0 else Depth(pos.above) + 1
  }

  /** The node at a position, if there is one. */
  ghost function Find(t: Tree, start: nat, pos: Position): (n: Option<nat>)
    requires IsTree(t)
    ensures n.Some? ==> n.value in t.sh.kids
  {
    match pos
    case Start => if start in t.sh.kids then Some(start) else None
    case At(above, i) =>
      var p := Find(t, start, above);
      if p.Some? && i < |t.sh.kids[p.value]| then
        ChildPlaced(t, p.value, i);
        Some(t.sh.kids[p.value][i])
      else None
  }

  ghost predicate Stands(t: Tree, start: nat, pos: Position) {
    IsTree(t) && Find(t, start, pos).Some?
  }

  /** Finish the node at a position on the way up, its later siblings, and then everything above. */
  ghost function Ascend(t: Tour, start: nat, pos: Position, w: Walk): Outcome
    requires Stands(t.tree, start, pos)
    decreases pos
  {
    match pos
    case Start => Going(w)
    case At(above, i) =>
      var p, n := Find(t.tree, start, above).value, Find(t.tree, start, pos).value;
      assert Family(t.tree.nodes, t.tree.sh, n);
      var after := UpStep(t.tree.nodes, t.q, t.decide, n, Depth(pos), w);
      if after.Stopped? then after
      else
        var o := VisitList(t, p, i + 1, Depth(pos), after.w);
        if o.Stopped? then o else Ascend(t, start, above, o.w)
  }

  /** Everything still to come when the walk stands at a position, going down or coming up. */
  ghost function Remaining(t: Tour, start: nat, pos: Position, up: bool, w: Walk): Outcome
    requires Stands(t.tree, start, pos) && (!up ==> pos.At?)
  {
    if up then Ascend(t, start, pos, w)
    else
      var o := VisitList(t, Find(t.tree, start, pos.above).value, pos.i, Depth(pos), w);
      if o.Stopped? then o else Ascend(t, start, pos.above, o.w)
  }

  // ---------- the walk ends ----------

  /** More than the visits that list can take. */
  ghost function ListCost(t: Tree, p: nat, i: nat): nat
    requires IsTree(t) && InList(t, p, i)
    decreases Below(t, p), |t.sh.kids[p]| - i
  {
    if i == |t.sh.kids[p]| then 0
    else
      ChildPlaced(t, p, i);
      2 + ListCost(t, t.sh.kids[p][i], 0) + ListCost(t, p, i + 1)
  }

  ghost function UpCost(t: Tree, start: nat, pos: Position): nat
    requires Stands(t, start, pos)
    decreases pos
  {
    if pos.Start? then 0
    else 1 + ListCost(t, Find(t, start, pos.above).value, pos.i + 1) + UpCost(t, start, pos.above)
  }

  ghost function Cost(t: Tree, start: nat, pos: Position, up: bool): nat
    requires Stands(t, start, pos) && (!up ==> pos.At?)
  {
    if up then UpCost(t, start, pos)
    else ListCost(t, Find(t, start, pos.above).value, pos.i) + UpCost(t, start, pos.above)
  }

  // ---------- one step of the loop ----------

  /** Stepping to the first child. */
  lemma Descend(t: Tour, start: nat, pos: Position, w: Walk, w1: Walk)
    requires Stands(t.tree, start, pos) && pos.At?
    requires var n := Find(t.tree, start, pos).value;
             && n in t.tree.nodes && t.tree.sh.kids[n] != [] && Depth(pos) != t.q.maxDepth
             && DownStep(t.tree.nodes, t.q, t.decide, n, Depth(pos), w) == (w1, Continue)
    ensures var pos' := At(pos, 0);
            && Stands(t.tree, start, pos')
            && Remaining(t, start, pos', false, w1) == Remaining(t, start, pos, false, w)
            && Cost(t.tree, start, pos', false) < Cost(t.tree, start, pos, false)
  {
    hide DownStep, UpStep, IsTree;
  }

  /** Turning round at a node: cut off, or without children. */
  lemma Turn(t: Tour, start: nat, pos: Position, w: Walk, w1: Walk, decision: Decision)
    requires Stands(t.tree, start, pos) && pos.At?
    requires decision == Continue || decision == NextPeer
    requires var n := Find(t.tree, start, pos).value;
             && n in t.tree.nodes && (decision == Continue && Depth(pos) != t.q.maxDepth ==> t.tree.sh.kids[n] == [])
             && DownStep(t.tree.nodes, t.q, t.decide, n, Depth(pos), w) == (w1, decision)
    ensures Remaining(t, start, pos, true, w1) == Remaining(t, start, pos, false, w)
    ensures Cost(t.tree, start, pos, true) < Cost(t.tree, start, pos, false)
  {
    var n := Find(t.tree, start, pos).value;
    assert t.tree.sh.kids[n] == [] ==> VisitList(t, n, 0, Depth(pos) + 1, w1) == Going(w1);
    hide DownStep, UpStep, IsTree;
  }

  /** Coming up past a node to its next sibling. */
  lemma Across(t: Tour, start: nat, pos: Position, w: Walk, w1: Walk)
    requires Stands(t.tree, start, pos) && pos.At?
    requires Find(t.tree, start, pos).value in t.tree.nodes
    requires UpStep(t.tree.nodes, t.q, t.decide, Find(t.tree, start, pos).value, Depth(pos), w) == Going(w1)
    requires pos.i + 1 < |t.tree.sh.kids[Find(t.tree, start, pos.above).value]|
    ensures var pos' := At(pos.above, pos.i + 1);
            && Stands(t.tree, start, pos')
            && Remaining(t, start, pos', false, w1) == Remaining(t, start, pos, true, w)
            && Cost(t.tree, start, pos', false) < Cost(t.tree, start, pos, true)
  {
    hide DownStep, UpStep, IsTree;
  }

  /** Coming up past a last child to its parent. */
  lemma Climb(t: Tour, start: nat, pos: Position, w: Walk, w1: Walk)
    requires Stands(t.tree, start, pos) && pos.At?
    requires Find(t.tree, start, pos).value in t.tree.nodes
    requires UpStep(t.tree.nodes, t.q, t.decide, Find(t.tree, start, pos).value, Depth(pos), w) == Going(w1)
    requires pos.i + 1 == |t.tree.sh.kids[Find(t.tree, start, pos.above).value]|
    ensures Stands(t.tree, start, pos.above)
    ensures Remaining(t, start, pos.above, true, w1) == Remaining(t, start, pos, true, w)
    ensures Cost(t.tree, start, pos.above, true) < Cost(t.tree, start, pos, true)
  {
    hide DownStep, UpStep, IsTree;
  }

  /** An answer on the way down that ends the walk. */
  lemma StopsDown(t: Tour, start: nat, pos: Position, w: Walk, w1: Walk, decision: Decision)
    requires Stands(t.tree, start, pos) && pos.At? && Find(t.tree, start, pos).value in t.tree.nodes
    requires DownStep(t.tree.nodes, t.q, t.decide, Find(t.tree, start, pos).value, Depth(pos), w) == (w1, decision)
    ensures decision == Break ==> Remaining(t, start, pos, false, w) == Stopped(w1.trace, Ok)
    ensures decision == Unknown ==> Remaining(t, start, pos, false, w) == Stopped(w1.trace, InvalidArgument)
  {
    hide DownStep, UpStep, IsTree;
  }

  /** And on the way up. */
  lemma StopsUp(t: Tour, start: nat, pos: Position, w: Walk, o: Outcome)
    requires Stands(t.tree, start, pos) && pos.At? && Find(t.tree, start, pos).value in t.tree.nodes
    requires UpStep(t.tree.nodes, t.q, t.decide, Find(t.tree, start, pos).value, Depth(pos), w) == o && o.Stopped?
    ensures Remaining(t, start, pos, true, w) == o
  {
    hide DownStep, UpStep, IsTree;
  }

  /** The walk starts at the first child. */
  lemma Begins(t: Tour, start: nat, w: Walk)
    requires IsTree(t.tree) && start in t.tree.sh.kids
    ensures t.tree.sh.kids[start] != [] ==>
              && Stands(t.tree, start, At(Start, 0))
              && Find(t.tree, start, At(Start, 0)) == Some(t.tree.sh.kids[start][0])
              && Remaining(t, start, At(Start, 0), false, w) == VisitList(t, start, 0, 1, w)
    ensures t.tree.sh.kids[start] == [] ==> VisitList(t, start, 0, 1, w) == Going(w)
  {
    assert Find(t.tree, start, Start) == Some(start);
    if t.tree.sh.kids[start] != [] {
      ChildPlaced(t.tree, start, 0);
      assert Find(t.tree, start, At(Start, 0)) == Some(t.tree.sh.kids[start][0]);
      var o := VisitList(t, start, 0, 1, w);
      hide VisitList, IsTree;
      if o.Going? {
        BackAtStart(t, start, o.w);
      }
    }
  }

  /** And it is done when it is back. */
  lemma BackAtStart(t: Tour, start: nat, w: Walk)
    requires Stands(t.tree, start, Start)
    ensures Ascend(t, start, Start, w) == Remaining(t, start, Start, true, w) == Going(w)
  {
    hide IsTree;
  }

  // ---------- the loop ----------

  /**
   The calls and the status agree with what the callbacks answered: every call but the last was answered so that the
   walk goes on, which Break never lets it and no answer at all only on the way up; the status is an error only for
   such a last call; and nothing is called below a node that was passed over. A node is called before or after all
   below it, and siblings in their order.
   */
  ghost predicate AnswersHeeded(t: Tour, trace: seq<Event>, status: Status)
    requires IsTree(t.tree)
  {
    && (forall k :: 0 < k < |trace| ==>
          t.decide(trace[..k]) != Break && (t.decide(trace[..k]) == Unknown ==> trace[k - 1].Up?))
    && status == (if trace != [] && t.decide(trace) == Unknown && trace[|trace| - 1].Down? then InvalidArgument else Ok)
    && (forall k, j :: 0 < k <= j < |trace| && trace[k - 1].Down? && t.decide(trace[..k]) == NextPeer ==>
          !Under(t.tree, trace[k - 1].node, trace[k - 1].depth, trace[j]))
    && (forall k, j :: 0 <= k < j < |trace| ==> InOrder(t.tree, trace[k], trace[j]))
  }

  /** What a whole traversal makes of the answers it gets. */
  lemma AnswersTaken(t: Tour, start: nat)
    requires IsTree(t.tree) && start in t.tree.sh.kids
    ensures var o := VisitList(t, start, 0, 1, Walk([], false));
            AnswersHeeded(t, TraceOf(o), if o.Going? then Ok else o.status)
  {
    var o := VisitList(t, start, 0, 1, Walk([], false));
    VisitHeeds(t, start, 0, 1, Walk([], false));
    VisitRespects(t, start, 0, 1, Walk([], false));
    VisitInOrder(t, start, 0, 1, Walk([], false));
    hide IsTree, VisitList, Under, InOrder;
    var trace := TraceOf(o);
    assert trace[..|trace|] == trace;
    forall k | 0 < k < |trace|
      ensures t.decide(trace[..k]) != Break && (t.decide(trace[..k]) == Unknown ==> trace[k - 1].Up?)
    {
      assert GoesOn(t, trace, k);
    }
    assert o.Going? && trace != [] ==> GoesOn(t, trace, |trace|);
    forall k, j | 0 < k <= j < |trace| && trace[k - 1].Down? && t.decide(trace[..k]) == NextPeer
      ensures !Under(t.tree, trace[k - 1].node, trace[k - 1].depth, trace[j])
    {
      assert PassedOver(t, trace, k);
    }
  }

  /** The loop itself, for a node that has children. */
  method WalkBelow(ns: Namespace, start: nat, q: Query, decide: Callback) returns (trace: seq<Event>, status: Status)
    requires ns.Valid() && start in ns.shape.kids && ns.shape.kids[start] != []
    ensures var o := VisitList(Tour(ns.View(), q, decide), start, 0, 1, Walk([], false));
            trace == TraceOf(o) && status == if o.Going? then Ok else o.status
  {
    ghost var t := Tour(ns.View(), q, decide);
    Links(t.tree, start, 0);
    Begins(t, start, Walk([], false));
    assert Family(ns.nodes, ns.shape, start);
    hide IsTree, VisitList, Cost, Remaining, Ascend, Family, Owned;
    var node, depth, up, matches := ns.nodes[start].child, 1, false, false;
    trace := [];
    ghost var pos := At(Start, 0);
    ghost var total := VisitList(t, start, 0, 1, Walk([], false));
    while depth != 0
      invariant Stands(t.tree, start, pos) && depth == Depth(pos) && node == Find(t.tree, start, pos).value
      invariant !up ==> pos.At?
      invariant total == Remaining(t, start, pos, up, Walk(trace, matches))
      decreases Cost(t.tree, start, pos, up)
    {
      ghost var w := Walk(trace, matches);
      ghost var p := Find(t.tree, start, pos.above).value;
      Links(t.tree, p, pos.i);
      matches := Compare(ns.nodes[node], q, matches);
      var decision;
      if !matches {
        decision := Continue;
      } else if q.permanentOnly && ns.nodes[node].temporary {
        decision := NextPeer;
      } else if if up then q.up else q.down {
        trace := trace + [if up then Up(node, depth) else Down(node, depth)];
        decision := decide(trace);
        if decision == Break {
          if up {
            StopsUp(t, start, pos, w, Stopped(trace, Ok));
          } else {
            StopsDown(t, start, pos, w, Walk(trace, matches), decision);
          }
          return trace, Ok;
        }
      } else {
        decision := Continue;
      }
      if up {
        if ns.nodes[node].next != 0 {
          Across(t, start, pos, w, Walk(trace, matches));
          pos := At(pos.above, pos.i + 1);
          node := ns.nodes[node].next;
          up := false;
          continue;
        }
        Climb(t, start, pos, w, Walk(trace, matches));
        pos := pos.above;
        depth := depth - 1;
        node := ns.nodes[node].parent;
        continue;
      }
      if decision == Unknown {
        StopsDown(t, start, pos, w, Walk(trace, matches), decision);
        return trace, InvalidArgument;
      }
      if decision == Continue && depth != q.maxDepth && ns.nodes[node].child != 0 {
        Descend(t, start, pos, w, Walk(trace, matches));
        pos := At(pos, 0);
        node := ns.nodes[node].child;
        depth := depth + 1;
        continue;
      }
      Turn(t, start, pos, w, Walk(trace, matches), decision);
      up := true;
    }
    BackAtStart(t, start, Walk(trace, matches));
    status := Ok;
  }

  /**
   The walk below `start`: it never needs a stack, and it makes exactly the calls of the recursive traversal, in
   the same order, and ends when that does; and it takes the callbacks' answers as they are meant.
   */
  method ForEachChild(ns: Namespace, start: nat, q: Query, decide: Callback) returns (trace: seq<Event>, status: Status)
    requires ns.Valid() && (start != 0 ==> start in ns.shape.kids)
    ensures (!q.down && !q.up) || start == 0 || q.maxDepth == 0 ==> trace == [] && status == InvalidArgument
    ensures (q.down || q.up) && start != 0 && q.maxDepth != 0 ==>
              var o := VisitList(Tour(ns.View(), q, decide), start, 0, 1, Walk([], false));
              trace == TraceOf(o) && status == if o.Going? then Ok else o.status
    ensures (q.down || q.up) && start != 0 && q.maxDepth != 0 ==>
              AnswersHeeded(Tour(ns.View(), q, decide), trace, status)
  {
    if !q.down && !q.up {
      return [], InvalidArgument;
    }
    if start == 0 || q.maxDepth == 0 {
      return [], InvalidArgument;
    }
    ghost var t := Tour(ns.View(), q, decide);
    AnswersTaken(t, start);
    Begins(t, start, Walk([], false));
    assert Family(ns.nodes, ns.shape, start);
    hide AnswersHeeded, VisitList;
    if ns.nodes[start].child == 0 {
      return [], Ok;
    }
    trace, status := WalkBelow(ns, start, q, decide);
  }
}
