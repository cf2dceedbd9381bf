/**
 What a walk over the namespace makes of its callbacks' answers, whatever they are: where it stops and with which
 status, what it passes over, and that it leaves out nothing else.
 */
module WalkAnswers {
  import opened NamespaceTree
  import opened NamespaceWalk

  function TraceOf(o: Outcome): seq<Event> {
    if o.Going? then o.w.trace else o.trace
  }

  // ---------- one child ----------

  /** Everything the walk does with child number i, and what is left. */
  lemma VisitUnfold(t: Tour, p: nat, i: nat, d: nat, w: Walk)
    returns (n: nat, w1: Walk, answer: Decision, inner: Outcome, after: Outcome)
    requires IsTree(t.tree) && p in t.tree.sh.kids && i < |t.tree.sh.kids[p]|
    ensures n == t.tree.sh.kids[p][i] && n in t.tree.sh.kids && n in t.tree.nodes && InList(t.tree, n, 0)
    ensures InList(t.tree, p, i + 1) && Below(t.tree, n) < Below(t.tree, p)
    ensures DownStep(t.tree.nodes, t.q, t.decide, n, d, w) == (w1, answer)
    ensures inner == if answer == Continue && d != t.q.maxDepth then VisitList(t, n, 0, d + 1, w1) else Going(w1)
    ensures inner.Going? ==> after == UpStep(t.tree.nodes, t.q, t.decide, n, d, inner.w)
    ensures VisitList(t, p, i, d, w) ==
            if answer == Break then Stopped(w1.trace, Ok)
            else if answer == Unknown then Stopped(w1.trace, InvalidArgument)
            else if inner.Stopped? then inner
            else if after.Stopped? then after
            else VisitList(t, p, i + 1, d, after.w)
  {
    ChildPlaced(t.tree, p, i);
    n := t.tree.sh.kids[p][i];
    var r := DownStep(t.tree.nodes, t.q, t.decide, n, d, w);
    w1, answer := r.0, r.1;
    assert Below(t.tree, n) < Below(t.tree, p);
    hide IsTree, DownStep, UpStep;
    inner := if answer == Continue && d != t.q.maxDepth then VisitList(t, n, 0, d + 1, w1) else Going(w1);
    after := if inner.Going? then UpStep(t.tree.nodes, t.q, t.decide, n, d, inner.w) else inner;
  }

  /** On the way down either nothing is called or one call is made and its answer taken. */
  lemma DownCalls(t: Tour, n: nat, d: nat, w: Walk)
    requires n in t.tree.nodes
    ensures var r := DownStep(t.tree.nodes, t.q, t.decide, n, d, w);
            if r.0.trace == w.trace then r.1 == Continue || r.1 == NextPeer
            else r.0.trace == w.trace + [Down(n, d)] && r.1 == t.decide(r.0.trace)
  {
  }

  /** On the way up as well; only Break is listened to. */
  lemma UpCalls(t: Tour, n: nat, d: nat, w: Walk)
    requires n in t.tree.nodes
    ensures var o := UpStep(t.tree.nodes, t.q, t.decide, n, d, w);
            if TraceOf(o) == w.trace then o.Going?
            else && TraceOf(o) == w.trace + [Up(n, d)]
                 && if t.decide(TraceOf(o)) == Break then o == Stopped(TraceOf(o), Ok) else o.Going?
  {
  }

  // ---------- where the walk stops ----------

  /** An answer after which the walk goes on. */
  predicate GoesOn(t: Tour, tr: seq<Event>, k: nat)
    requires 0 < k <= |tr|
  {
    t.decide(tr[..k]) != Break && (t.decide(tr[..k]) == Unknown ==> tr[k - 1].Up?)
  }

  /** All calls past the first lo were answered so, but for the last one if the walk was stopped. */
  ghost predicate Heeded(t: Tour, lo: nat, o: Outcome) {
    var tr := TraceOf(o);
    && lo <= |tr|
    && (forall k :: lo < k <= |tr| && (o.Going? || k < |tr|) ==> GoesOn(t, tr, k))
    && (o.Stopped? ==> lo < |tr| && !GoesOn(t, tr, |tr|)
                       && o.status == if t.decide(tr) == Break then Ok else InvalidArgument)
  }

  lemma HeededJoin(t: Tour, lo: nat, w: Walk, o: Outcome)
    requires Heeded(t, lo, Going(w)) && w.trace <= TraceOf(o) && Heeded(t, |w.trace|, o)
    ensures Heeded(t, lo, o)
  {
    var tr := TraceOf(o);
    forall k | lo < k <= |w.trace| ensures GoesOn(t, tr, k) {
      assert tr[..k] == w.trace[..k] && tr[k - 1] == w.trace[k - 1];
      assert GoesOn(t, w.trace, k);
    }
  }

  lemma NothingHeeded(t: Tour, w: Walk)
    ensures Heeded(t, |w.trace|, Going(w))
  {
  }

  /** One more call. */
  lemma OneHeeded(t: Tour, w: Walk, e: Event, o: Outcome)
    requires TraceOf(o) == w.trace || TraceOf(o) == w.trace + [e]
    requires o.Stopped? ==>
               && TraceOf(o) == w.trace + [e]
               && o.status == (if t.decide(o.trace) == Break then Ok else InvalidArgument)
    requires var tr := w.trace + [e];
             TraceOf(o) == tr ==>
               (o.Going? <==> t.decide(tr) != Break && (t.decide(tr) == Unknown ==> e.Up?))
    ensures Heeded(t, |w.trace|, o) && w.trace <= TraceOf(o)
  {
    var tr := TraceOf(o);
    assert tr[..|tr|] == tr;
  }

  lemma {:induction false} VisitHeeds(t: Tour, p: nat, i: nat, d: nat, w: Walk)
    requires IsTree(t.tree) && InList(t.tree, p, i)
    ensures var o := VisitList(t, p, i, d, w); w.trace <= TraceOf(o) && Heeded(t, |w.trace|, o)
    decreases Below(t.tree, p), |t.tree.sh.kids[p]| - i
  {
    if i == |t.tree.sh.kids[p]| {
      NothingHeeded(t, w);
    } else {
      var n, w1, answer, inner, after := VisitUnfold(t, p, i, d, w);
      DownCalls(t, n, d, w);
      hide IsTree, Heeded, DownStep, UpStep, VisitList, InList;
      if answer == Break || answer == Unknown {
        OneHeeded(t, w, Down(n, d), VisitList(t, p, i, d, w));
      } else {
        OneHeeded(t, w, Down(n, d), Going(w1));
        if answer == Continue && d != t.q.maxDepth {
          VisitHeeds(t, n, 0, d + 1, w1);
        } else {
          NothingHeeded(t, w1);
        }
        HeededJoin(t, |w.trace|, w1, inner);
        if inner.Going? {
          UpCalls(t, n, d, inner.w);
          OneHeeded(t, inner.w, Up(n, d), after);
          HeededJoin(t, |w.trace|, inner.w, after);
          if after.Going? {
            VisitHeeds(t, p, i + 1, d, after.w);
            HeededJoin(t, |w.trace|, after.w, VisitList(t, p, i + 1, d, after.w));
          }
        }
      }
    }
  }

  // ---------- where the calls are made ----------

  /** All calls from number lo on are for nodes below a child of p, from the i-th on. */
  ghost predicate AllLie(t: Tour, p: nat, i: nat, d: nat, tr: seq<Event>, lo: nat) {
    forall j :: lo <= j < |tr| ==> Lies(t, p, i, d, tr[j])
  }

  lemma AllLieJoin(t: Tour, p: nat, i: nat, d: nat, a: seq<Event>, lo: nat, tr: seq<Event>)
    requires a <= tr && AllLie(t, p, i, d, a, lo) && AllLie(t, p, i, d, tr, |a|)
    ensures AllLie(t, p, i, d, tr, lo)
  {
    hide Lies;
    forall j | lo <= j < |tr| ensures Lies(t, p, i, d, tr[j]) {
      if j < |a| {
        assert tr[j] == a[j];
      }
    }
  }

  /** At most one more call, for child number i itself. */
  lemma OneLies(t: Tour, p: nat, i: nat, d: nat, a: seq<Event>, e: Event, tr: seq<Event>)
    requires IsTree(t.tree) && p in t.tree.sh.kids && i < |t.tree.sh.kids[p]|
    requires e.node == t.tree.sh.kids[p][i] && e.depth == d && (tr == a || tr == a + [e])
    ensures a <= tr && AllLie(t, p, i, d, tr, |a|)
  {
    hide IsTree;
    LiesItself(t, p, i, d, e);
  }

  lemma InnerLie(t: Tour, p: nat, i: nat, d: nat, tr: seq<Event>, lo: nat)
    requires IsTree(t.tree) && p in t.tree.sh.kids && i < |t.tree.sh.kids[p]|
    requires AllLie(t, t.tree.sh.kids[p][i], 0, d + 1, tr, lo)
    ensures AllLie(t, p, i, d, tr, lo)
  {
    hide IsTree, Lies;
    forall j | lo <= j < |tr| ensures Lies(t, p, i, d, tr[j]) {
      LiesDeeper(t, p, i, d, tr[j]);
    }
  }

  lemma LaterLie(t: Tour, p: nat, i: nat, d: nat, tr: seq<Event>, lo: nat)
    requires AllLie(t, p, i + 1, d, tr, lo)
    ensures AllLie(t, p, i, d, tr, lo)
  {
    hide Lies;
    forall j | lo <= j < |tr| ensures Lies(t, p, i, d, tr[j]) {
      LiesEarlier(t, p, i, d, tr[j]);
    }
  }

  lemma {:induction false} VisitLies(t: Tour, p: nat, i: nat, d: nat, w: Walk)
    requires IsTree(t.tree) && InList(t.tree, p, i)
    ensures var tr := TraceOf(VisitList(t, p, i, d, w)); w.trace <= tr && AllLie(t, p, i, d, tr, |w.trace|)
    decreases Below(t.tree, p), |t.tree.sh.kids[p]| - i
  {
    if i < |t.tree.sh.kids[p]| {
      var n, w1, answer, inner, after := VisitUnfold(t, p, i, d, w);
      DownCalls(t, n, d, w);
      hide IsTree, AllLie, DownStep, UpStep, VisitList, InList;
      OneLies(t, p, i, d, w.trace, Down(n, d), w1.trace);
      if answer == Continue && d != t.q.maxDepth {
        VisitLies(t, n, 0, d + 1, w1);
        InnerLie(t, p, i, d, TraceOf(inner), |w1.trace|);
        AllLieJoin(t, p, i, d, w1.trace, |w.trace|, TraceOf(inner));
      }
      if answer != Break && answer != Unknown && inner.Going? {
        UpCalls(t, n, d, inner.w);
        OneLies(t, p, i, d, inner.w.trace, Up(n, d), TraceOf(after));
        AllLieJoin(t, p, i, d, inner.w.trace, |w.trace|, TraceOf(after));
        if after.Going? {
          VisitLies(t, p, i + 1, d, after.w);
          var tr := TraceOf(VisitList(t, p, i + 1, d, after.w));
          LaterLie(t, p, i, d, tr, |after.w.trace|);
          AllLieJoin(t, p, i, d, after.w.trace, |w.trace|, tr);
        }
      }
    }
  }

  // ---------- what a callback has passed over ----------

  /** The call is for a node below n, which is reported at this depth. */
  ghost predicate Under(t: Tree, n: nat, d: nat, e: Event)
    requires IsTree(t)
  {
    e.node in t.sh.kids && d < e.depth && Ancestor(t, e.node, e.depth - d) == n
  }

  /** The call was for a node on the way down, and its answer was to go on with the next one beside it. */
  predicate PassedOver(t: Tour, tr: seq<Event>, k: nat)
    requires 0 < k <= |tr|
  {
    tr[k - 1].Down? && t.decide(tr[..k]) == NextPeer
  }

  /** No call past the first lo is for a node below one that was passed over, past the first lo as well. */
  ghost predicate Respects(t: Tour, lo: nat, tr: seq<Event>)
    requires IsTree(t.tree)
  {
    forall k, j :: lo < k <= j < |tr| && PassedOver(t, tr, k) ==>
      !Under(t.tree, tr[k - 1].node, tr[k - 1].depth, tr[j])
  }

  /** Going up in two stretches. */
  lemma {:induction false} AncestorAdd(t: Tree, n: nat, a: nat, b: nat)
    requires IsTree(t) && n in t.sh.kids
    ensures Ancestor(t, n, a) in t.sh.kids && Ancestor(t, Ancestor(t, n, a), b) == Ancestor(t, n, a + b)
    decreases a
  {
    if a > 0 && n != t.root {
      AncestorStep(t, n, 0);
      AncestorAdd(t, ParentOf(t, n), a - 1, b);
    } else {
      assert n == t.root ==> Ancestor(t, n, a + b) == n && Ancestor(t, n, b) == n;
    }
    hide IsTree;
  }

  lemma UnderAgain(t: Tree, n: nat, d: nat, e: Event, f: Event)
    requires IsTree(t) && Under(t, n, d, e) && Under(t, e.node, e.depth, f)
    ensures Under(t, n, d, f)
  {
    AncestorAdd(t, f.node, f.depth - e.depth, e.depth - d);
  }

  /** What lies below a child's children is under that child. */
  lemma LiesUnder(t: Tour, p: nat, i: nat, d: nat, e: Event)
    requires IsTree(t.tree) && p in t.tree.sh.kids && i < |t.tree.sh.kids[p]|
    requires t.tree.sh.kids[p][i] in t.tree.sh.kids && Lies(t, t.tree.sh.kids[p][i], 0, d + 1, e)
    ensures Under(t.tree, t.tree.sh.kids[p][i], d, e)
  {
    var n := t.tree.sh.kids[p][i];
    var j :| 0 <= j < |t.tree.sh.kids[n]| && t.tree.sh.kids[n][j] == Ancestor(t.tree, e.node, e.depth - d - 1);
    ChildPlaced(t.tree, p, i);
    ChildPlaced(t.tree, n, j);
    assert Owned(t.tree.nodes, t.tree.sh, t.tree.root, t.tree.root);
    AncestorStep(t.tree, e.node, e.depth - d - 1);
    hide IsTree;
  }

  /** And not with the later children. */
  lemma UnderApart(t: Tour, p: nat, i: nat, d: nat, e: Event)
    requires IsTree(t.tree) && p in t.tree.sh.kids && i < |t.tree.sh.kids[p]|
    requires Under(t.tree, t.tree.sh.kids[p][i], d, e)
    ensures !Lies(t, p, i + 1, d, e)
  {
    ChildPlaced(t.tree, p, i);
  }

  lemma RespectsJoin(t: Tour, lo: nat, a: seq<Event>, tr: seq<Event>)
    requires IsTree(t.tree) && Respects(t, lo, a) && a <= tr && Respects(t, |a|, tr)
    requires forall k, j :: lo < k <= |a| <= j < |tr| && PassedOver(t, a, k) ==>
               !Under(t.tree, a[k - 1].node, a[k - 1].depth, tr[j])
    ensures Respects(t, lo, tr)
  {
    hide IsTree, Under;
    forall k, j | lo < k <= j < |tr| && PassedOver(t, tr, k)
      ensures !Under(t.tree, tr[k - 1].node, tr[k - 1].depth, tr[j])
    {
      if k <= |a| {
        assert tr[..k] == a[..k] && tr[k - 1] == a[k - 1];
        assert PassedOver(t, a, k);
        if j < |a| {
          assert tr[j] == a[j];
        }
      }
    }
  }

  /** All calls from number lo on are for n at this depth, or for nodes below it. */
  ghost predicate AllWithin(t: Tree, n: nat, d: nat, tr: seq<Event>, lo: nat)
    requires IsTree(t)
  {
    forall j :: lo <= j < |tr| ==> (tr[j].node == n && tr[j].depth == d) || Under(t, n, d, tr[j])
  }

  lemma AllWithinInner(t: Tour, p: nat, i: nat, d: nat, a: seq<Event>, lo: nat, tr: seq<Event>)
    requires IsTree(t.tree) && p in t.tree.sh.kids && i < |t.tree.sh.kids[p]|
    requires t.tree.sh.kids[p][i] in t.tree.sh.kids && a <= tr
    requires AllWithin(t.tree, t.tree.sh.kids[p][i], d, a, lo) && AllLie(t, t.tree.sh.kids[p][i], 0, d + 1, tr, |a|)
    ensures AllWithin(t.tree, t.tree.sh.kids[p][i], d, tr, lo)
  {
    hide IsTree, Lies, Under;
    forall j | lo <= j < |tr|
      ensures (tr[j].node == t.tree.sh.kids[p][i] && tr[j].depth == d) || Under(t.tree, t.tree.sh.kids[p][i], d, tr[j])
    {
      if j < |a| {
        assert tr[j] == a[j];
      } else {
        LiesUnder(t, p, i, d, tr[j]);
      }
    }
  }

  /** Coming up past n breaks nothing: it is under none of these nodes. */
  lemma RespectsUp(t: Tour, n: nat, d: nat, lo: nat, a: seq<Event>, tr: seq<Event>)
    requires IsTree(t.tree) && Respects(t, lo, a) && AllWithin(t.tree, n, d, a, lo)
    requires tr == a || tr == a + [Up(n, d)]
    ensures Respects(t, lo, tr) && AllWithin(t.tree, n, d, tr, lo)
  {
    hide IsTree;
    if tr != a {
      RespectsJoin(t, lo, a, tr);
    }
  }

  /** Nor do the calls for later children. */
  lemma RespectsLater(t: Tour, p: nat, i: nat, d: nat, lo: nat, a: seq<Event>, tr: seq<Event>)
    requires IsTree(t.tree) && p in t.tree.sh.kids && i < |t.tree.sh.kids[p]|
    requires Respects(t, lo, a) && AllWithin(t.tree, t.tree.sh.kids[p][i], d, a, lo)
    requires a <= tr && Respects(t, |a|, tr) && AllLie(t, p, i + 1, d, tr, |a|)
    ensures Respects(t, lo, tr)
  {
    hide IsTree, Lies, Under, Respects;
    var n := t.tree.sh.kids[p][i];
    forall k, j | lo < k <= |a| <= j < |tr| && PassedOver(t, a, k)
      ensures !Under(t.tree, a[k - 1].node, a[k - 1].depth, tr[j])
    {
      assert Lies(t, p, i + 1, d, tr[j]);
      if Under(t.tree, a[k - 1].node, a[k - 1].depth, tr[j]) {
        if a[k - 1].node != n || a[k - 1].depth != d {
          UnderAgain(t.tree, n, d, a[k - 1], tr[j]);
        }
        UnderApart(t, p, i, d, tr[j]);
        assert false;
      }
    }
    RespectsJoin(t, lo, a, tr);
  }

  /** The call on the way down breaks nothing, and when it passes its node over nothing below follows. */
  lemma RespectsDown(t: Tour, p: nat, i: nat, d: nat, a: seq<Event>, b: seq<Event>, tr: seq<Event>)
    requires IsTree(t.tree) && p in t.tree.sh.kids && i < |t.tree.sh.kids[p]|
    requires t.tree.sh.kids[p][i] in t.tree.sh.kids
    requires b == a || b == a + [Down(t.tree.sh.kids[p][i], d)]
    requires b <= tr && Respects(t, |b|, tr) && AllLie(t, t.tree.sh.kids[p][i], 0, d + 1, tr, |b|)
    requires b != a && t.decide(b) == NextPeer ==> tr == b
    ensures Respects(t, |a|, tr) && AllWithin(t.tree, t.tree.sh.kids[p][i], d, tr, |a|)
  {
    AllWithinInner(t, p, i, d, b, |a|, tr);
    hide IsTree, Lies, Under;
    assert b[..|b|] == b;
    RespectsJoin(t, |a|, b, tr);
  }

  lemma {:induction false} VisitRespects(t: Tour, p: nat, i: nat, d: nat, w: Walk)
    requires IsTree(t.tree) && InList(t.tree, p, i)
    ensures Respects(t, |w.trace|, TraceOf(VisitList(t, p, i, d, w)))
    decreases Below(t.tree, p), |t.tree.sh.kids[p]| - i
  {
    if i < |t.tree.sh.kids[p]| {
      var n, w1, answer, inner, after := VisitUnfold(t, p, i, d, w);
      DownCalls(t, n, d, w);
      hide IsTree, AllLie, DownStep, UpStep, VisitList, InList, AllWithin, Respects;
      if answer == Continue && d != t.q.maxDepth {
        VisitLies(t, n, 0, d + 1, w1);
        VisitRespects(t, n, 0, d + 1, w1);
      } else {
        NoneAfter(t, n, d + 1, w1.trace);
      }
      var a := if answer == Break || answer == Unknown then w1.trace else TraceOf(inner);
      RespectsDown(t, p, i, d, w.trace, w1.trace, a);
      if answer != Break && answer != Unknown && inner.Going? {
        UpCalls(t, n, d, inner.w);
        RespectsUp(t, n, d, |w.trace|, a, TraceOf(after));
        if after.Going? {
          VisitLies(t, p, i + 1, d, after.w);
          VisitRespects(t, p, i + 1, d, after.w);
          RespectsLater(t, p, i, d, |w.trace|, after.w.trace, TraceOf(VisitList(t, p, i + 1, d, after.w)));
        }
      }
    } else {
      NoneAfter(t, p, d, w.trace);
    }
  }

  lemma NoneAfter(t: Tour, p: nat, d: nat, tr: seq<Event>)
    requires IsTree(t.tree)
    ensures Respects(t, |tr|, tr) && AllLie(t, p, 0, d, tr, |tr|)
  {
    hide IsTree;
  }

  // ---------- a walk that is stopped, against one that is not ----------

  /** The same callbacks, going on where these would stop the walk. */
  function Unbroken(t: Tour): Tour {
    t.(decide := tr => if t.decide(tr) == Break || t.decide(tr) == Unknown then Continue else t.decide(tr))
  }

  lemma SameDown(t: Tour, n: nat, d: nat, w: Walk)
    requires n in t.tree.nodes
    ensures var r := DownStep(t.tree.nodes, t.q, t.decide, n, d, w);
            DownStep(t.tree.nodes, t.q, Unbroken(t).decide, n, d, w) ==
            (r.0, if r.1 == Break || r.1 == Unknown then Continue else r.1)
  {
  }

  lemma SameUp(t: Tour, n: nat, d: nat, w: Walk)
    requires n in t.tree.nodes
    ensures var o, u := UpStep(t.tree.nodes, t.q, t.decide, n, d, w),
                        UpStep(t.tree.nodes, t.q, Unbroken(t).decide, n, d, w);
            u.Going? && TraceOf(u) == TraceOf(o) && (o.Going? ==> o == u)
  {
  }

  /** A walk makes the calls of the one that is never stopped, as far as it gets. */
  lemma {:induction false} StoppedEarly(t: Tour, p: nat, i: nat, d: nat, w: Walk)
    requires IsTree(t.tree) && InList(t.tree, p, i)
    ensures var o, u := VisitList(t, p, i, d, w), VisitList(Unbroken(t), p, i, d, w);
            u.Going? && TraceOf(o) <= u.w.trace && (o.Going? ==> o == u)
    decreases Below(t.tree, p), |t.tree.sh.kids[p]| - i
  {
    if i < |t.tree.sh.kids[p]| {
      var n, w1, answer, inner, after := VisitUnfold(t, p, i, d, w);
      var n', v1, reply, inside, past := VisitUnfold(Unbroken(t), p, i, d, w);
      SameDown(t, n, d, w);
      hide IsTree, DownStep, UpStep, VisitList, InList, AllLie;
      if answer != NextPeer && d != t.q.maxDepth {
        StoppedEarly(t, n, 0, d + 1, w1);
        VisitLies(Unbroken(t), n, 0, d + 1, w1);
      }
      assert inside.Going? && w1.trace <= inside.w.trace;
      SameUp(t, n, d, inside.w);
      UpCalls(Unbroken(t), n, d, inside.w);
      StoppedEarly(t, p, i + 1, d, past.w);
      VisitLies(Unbroken(t), p, i + 1, d, past.w);
    }
  }

  // ---------- which calls are made ----------

  /** The call is among those past the first lo, or below a node passed over past the first lo. */
  ghost predicate Accounted(t: Tour, lo: nat, tr: seq<Event>, e: Event)
    requires IsTree(t.tree)
  {
    || (exists j :: lo <= j < |tr| && tr[j] == e)
    || (exists k :: lo < k <= |tr| && PassedOver(t, tr, k) && Under(t.tree, tr[k - 1].node, tr[k - 1].depth, e))
  }

  lemma StillAccounted(t: Tour, lo: nat, a: seq<Event>, from_: nat, tr: seq<Event>, e: Event)
    requires IsTree(t.tree) && lo <= from_ && a <= tr && Accounted(t, from_, a, e)
    ensures Accounted(t, lo, tr, e)
  {
    hide IsTree, Under;
    if j :| from_ <= j < |a| && a[j] == e {
      assert tr[j] == e;
    } else {
      var k :| from_ < k <= |a| && PassedOver(t, a, k) && Under(t.tree, a[k - 1].node, a[k - 1].depth, e);
      assert tr[..k] == a[..k] && PassedOver(t, tr, k);
    }
  }

  /** Every call past the first lo is listed. */
  ghost predicate AllListed(tr: seq<Event>, lo: nat, listed: seq<Event>) {
    forall j :: lo <= j < |tr| ==> tr[j] in listed
  }

  /** Every listed call is accounted for. */
  ghost predicate AllAccounted(t: Tour, lo: nat, tr: seq<Event>, listed: seq<Event>)
    requires IsTree(t.tree)
  {
    forall e :: e in listed ==> Accounted(t, lo, tr, e)
  }

  /** With an object at the node the call made for it is the listed one, on the way down and up. */
  lemma TypedCalls(t: Tour, n: nat, d: nat, w: Walk)
    requires n in t.tree.nodes && t.tree.nodes[n].kind.Some?
    ensures var node, r := t.tree.nodes[n], DownStep(t.tree.nodes, t.q, t.decide, n, d, w);
            && r.0.trace == w.trace + Calls(t.q.down, node, t.q, Down(n, d))
            && (CutOff(node, t.q, d) ==> r.1 == NextPeer || d == t.q.maxDepth)
            && (r.0.trace == w.trace && !CutOff(node, t.q, d) ==> r.1 == Continue)
    ensures TraceOf(UpStep(t.tree.nodes, t.q, t.decide, n, d, w)) ==
            w.trace + Calls(t.q.up, t.tree.nodes[n], t.q, Up(n, d))
  {
  }

  lemma AllListedJoin(a: seq<Event>, lo: nat, x: seq<Event>, tr: seq<Event>, y: seq<Event>)
    requires AllListed(a, lo, x) && a <= tr && AllListed(tr, |a|, y)
    ensures AllListed(tr, lo, x + y)
  {
    forall j | lo <= j < |tr| ensures tr[j] in x + y {
      if j < |a| {
        assert tr[j] == a[j] && a[j] in x;
      } else {
        assert tr[j] in y;
      }
    }
  }

  lemma AllAccountedJoin(t: Tour, lo: nat, a: seq<Event>, x: seq<Event>, tr: seq<Event>, y: seq<Event>)
    requires IsTree(t.tree) && lo <= |a| && a <= tr
    requires AllAccounted(t, lo, a, x) && AllAccounted(t, |a|, tr, y)
    ensures AllAccounted(t, lo, tr, x + y)
  {
    hide IsTree, Accounted;
    forall e | e in x + y ensures Accounted(t, lo, tr, e) {
      if e in x {
        StillAccounted(t, lo, a, lo, tr, e);
      } else {
        StillAccounted(t, lo, tr, |a|, tr, e);
      }
    }
  }

  /** A single step makes exactly its own call. */
  lemma OneAccounted(t: Tour, a: seq<Event>, calls: seq<Event>, tr: seq<Event>)
    requires IsTree(t.tree) && tr == a + calls
    ensures a <= tr && AllAccounted(t, |a|, tr, calls)
  {
    hide IsTree, PassedOver, Under;
    forall e | e in calls ensures Accounted(t, |a|, tr, e) {
      var j :| 0 <= j < |calls| && calls[j] == e;
      assert tr[|a| + j] == e;
    }
  }

  /** What is listed below a node that the callback passed over is accounted for. */
  lemma PassedAccounted(t: Tour, p: nat, i: nat, d: nat, a: seq<Event>)
    requires IsTree(t.tree) && p in t.tree.sh.kids && i < |t.tree.sh.kids[p]|
    requires t.tree.sh.kids[p][i] in t.tree.sh.kids
    requires t.decide(a + [Down(t.tree.sh.kids[p][i], d)]) == NextPeer
    ensures AllAccounted(t, |a|, a + [Down(t.tree.sh.kids[p][i], d)], Listing(t, t.tree.sh.kids[p][i], 0, d + 1))
  {
    var n := t.tree.sh.kids[p][i];
    var tr := a + [Down(n, d)];
    hide IsTree, Listing, Under, Lies;
    assert tr[..|tr|] == tr && PassedOver(t, tr, |tr|);
    forall e | e in Listing(t, n, 0, d + 1) ensures Accounted(t, |a|, tr, e) {
      ListingLies(t, n, 0, d + 1, e);
      LiesUnder(t, p, i, d, e);
    }
  }

  /** In a tree in which every node has an object, only listed calls are made, whatever the callbacks answer. */
  lemma {:induction false} VisitListed(t: Tour, p: nat, i: nat, d: nat, w: Walk)
    requires IsTree(t.tree) && InList(t.tree, p, i) && AllTyped(t)
    ensures var tr := TraceOf(VisitList(t, p, i, d, w));
            w.trace <= tr && AllListed(tr, |w.trace|, Listing(t, p, i, d))
    decreases Below(t.tree, p), |t.tree.sh.kids[p]| - i
  {
    if i < |t.tree.sh.kids[p]| {
      var n, w1, answer, inner, after := VisitUnfold(t, p, i, d, w);
      var a, b, c, rest := ListingUnfold(t, p, i, d);
      TypedCalls(t, n, d, w);
      hide IsTree, DownStep, UpStep, VisitList, Listing, InList, AllTyped, Calls, AllListed;
      if answer == Continue && d != t.q.maxDepth {
        VisitListed(t, n, 0, d + 1, w1);
      }
      var tr1 := if answer == Break || answer == Unknown then w1.trace else TraceOf(inner);
      var tr2, tr3 := tr1, tr1;
      if answer != Break && answer != Unknown && inner.Going? {
        TypedCalls(t, n, d, inner.w);
        tr2, tr3 := TraceOf(after), TraceOf(after);
        if after.Going? {
          VisitListed(t, p, i + 1, d, after.w);
          tr3 := TraceOf(VisitList(t, p, i + 1, d, after.w));
        }
      }
      ListedFour(w.trace, w1.trace, tr1, tr2, tr3, a, b, c, rest);
    }
  }

  lemma ListedFour(tr0: seq<Event>, tr1: seq<Event>, tr2: seq<Event>, tr3: seq<Event>, tr4: seq<Event>,
        a: seq<Event>, b: seq<Event>, c: seq<Event>, rest: seq<Event>)
    requires tr1 == tr0 + a && tr1 <= tr2 && (tr3 == tr2 || tr3 == tr2 + c) && tr3 <= tr4
    requires tr2 == tr1 || AllListed(tr2, |tr1|, b)
    requires tr4 == tr3 || AllListed(tr4, |tr3|, rest)
    ensures tr0 <= tr4 && AllListed(tr4, |tr0|, a + b + c + rest)
  {
    assert AllListed(tr1, |tr0|, a) by {
      assert forall j :: |tr0| <= j < |tr1| ==> tr1[j] == a[j - |tr0|];
    }
    assert AllListed(tr3, |tr2|, c) by {
      assert forall j :: |tr2| <= j < |tr3| ==> tr3[j] == c[j - |tr2|];
    }
    AllListedJoin(tr1, |tr0|, a, tr2, b);
    AllListedJoin(tr2, |tr0|, a + b, tr3, c);
    AllListedJoin(tr3, |tr0|, a + b + c, tr4, rest);
  }

  /** And a walk that is not stopped leaves out nothing but what lies below nodes its callbacks passed over. */
  lemma {:induction false} VisitComplete(t: Tour, p: nat, i: nat, d: nat, w: Walk)
    requires IsTree(t.tree) && InList(t.tree, p, i) && AllTyped(t) && VisitList(t, p, i, d, w).Going?
    ensures var tr := VisitList(t, p, i, d, w).w.trace;
            w.trace <= tr && AllAccounted(t, |w.trace|, tr, Listing(t, p, i, d))
    decreases Below(t.tree, p), |t.tree.sh.kids[p]| - i
  {
    if i < |t.tree.sh.kids[p]| {
      var n, w1, answer, inner, after := VisitUnfold(t, p, i, d, w);
      var a, b, c, rest := ListingUnfold(t, p, i, d);
      TypedCalls(t, n, d, w);
      DownCalls(t, n, d, w);
      TypedCalls(t, n, d, inner.w);
      hide IsTree, DownStep, UpStep, VisitList, Listing, InList, AllTyped, Calls, AllAccounted;
      OneAccounted(t, w.trace, a, w1.trace);
      if answer == Continue && d != t.q.maxDepth {
        VisitComplete(t, n, 0, d + 1, w1);
        AllAccountedJoin(t, |w.trace|, w1.trace, a, inner.w.trace, b);
      } else if b == [] {
        assert a + b == a;
      } else {
        PassedAccounted(t, p, i, d, w.trace);
        BothAccounted(t, |w.trace|, w1.trace, a, b);
      }
      VisitComplete(t, p, i + 1, d, after.w);
      AccountedFour(t, w.trace, inner.w.trace, after.w.trace, VisitList(t, p, i, d, w).w.trace, a + b, c, rest);
    }
  }

  lemma AccountedFour(t: Tour, tr0: seq<Event>, tr1: seq<Event>, tr2: seq<Event>, tr3: seq<Event>,
        x: seq<Event>, c: seq<Event>, rest: seq<Event>)
    requires IsTree(t.tree) && tr0 <= tr1 && tr2 == tr1 + c && tr2 <= tr3
    requires AllAccounted(t, |tr0|, tr1, x) && AllAccounted(t, |tr2|, tr3, rest)
    ensures tr0 <= tr3 && AllAccounted(t, |tr0|, tr3, x + c + rest)
  {
    hide IsTree, AllAccounted;
    OneAccounted(t, tr1, c, tr2);
    AllAccountedJoin(t, |tr0|, tr1, x, tr2, c);
    AllAccountedJoin(t, |tr0|, tr2, x + c, tr3, rest);
  }

  lemma BothAccounted(t: Tour, lo: nat, tr: seq<Event>, x: seq<Event>, y: seq<Event>)
    requires IsTree(t.tree) && AllAccounted(t, lo, tr, x) && AllAccounted(t, lo, tr, y)
    ensures AllAccounted(t, lo, tr, x + y)
  {
    hide IsTree, Accounted;
  }

  // ---------- in which order ----------

  /**
   Two calls, the first before the second: they differ, a node is called on the way down before all below it and on
   the way up after all below it, and siblings in the order of the list.
   */
  ghost predicate InOrder(t: Tree, e: Event, f: Event)
    requires IsTree(t)
  {
    && e != f && (e.node == f.node && e.depth == f.depth ==> e.Down?)
    && (f.Down? ==> !Under(t, f.node, f.depth, e))
    && (e.Up? ==> !Under(t, e.node, e.depth, f))
    && (e.depth == f.depth ==>
          forall p, i, j :: p in t.sh.kids && 0 <= j < i < |t.sh.kids[p]| ==>
            e.node != t.sh.kids[p][i] || f.node != t.sh.kids[p][j])
  }

  ghost predicate AllInOrder(t: Tree, lo: nat, tr: seq<Event>)
    requires IsTree(t)
  {
    forall k, j :: lo <= k < j < |tr| ==> InOrder(t, tr[k], tr[j])
  }

  lemma AllInOrderJoin(t: Tree, lo: nat, a: seq<Event>, tr: seq<Event>)
    requires IsTree(t) && a <= tr && AllInOrder(t, lo, a) && AllInOrder(t, |a|, tr)
    requires forall k, j :: lo <= k < |a| <= j < |tr| ==> InOrder(t, a[k], tr[j])
    ensures AllInOrder(t, lo, tr)
  {
    hide IsTree, InOrder;
    forall k, j | lo <= k < j < |tr| ensures InOrder(t, tr[k], tr[j]) {
      if k < |a| {
        assert tr[k] == a[k];
        if j < |a| {
          assert tr[j] == a[j];
        }
      }
    }
  }

  /** A child comes before everything with its later siblings. */
  lemma LaterInOrder(t: Tour, p: nat, i: nat, d: nat, e: Event, f: Event)
    requires IsTree(t.tree) && p in t.tree.sh.kids && i < |t.tree.sh.kids[p]| && Lies(t, p, i + 1, d, f)
    requires e.node == t.tree.sh.kids[p][i] && e.depth == d
    ensures InOrder(t.tree, e, f)
  {
    SelfApart(t, p, i, d, e);
    ChildPlaced(t.tree, p, i);
    if Under(t.tree, e.node, d, f) {
      UnderApart(t, p, i, d, f);
    }
    if f.depth == d {
      forall q, k, j | q in t.tree.sh.kids && 0 <= j < k < |t.tree.sh.kids[q]|
        ensures e.node != t.tree.sh.kids[q][k] || f.node != t.tree.sh.kids[q][j]
      {
        ChildPlaced(t.tree, q, k);
        ChildPlaced(t.tree, q, j);
      }
    }
  }

  /** So does everything below it. */
  lemma BelowInOrder(t: Tour, p: nat, i: nat, d: nat, e: Event, f: Event)
    requires IsTree(t.tree) && p in t.tree.sh.kids && i < |t.tree.sh.kids[p]| && Lies(t, p, i + 1, d, f)
    requires Under(t.tree, t.tree.sh.kids[p][i], d, e)
    ensures InOrder(t.tree, e, f)
  {
    var n := t.tree.sh.kids[p][i];
    ChildPlaced(t.tree, p, i);
    hide IsTree;
    if Under(t.tree, n, d, f) {
      UnderApart(t, p, i, d, f);
      assert false;
    }
    if f.depth == d {
    } else {
      if Under(t.tree, f.node, f.depth, e) {
        UnderBetween(t.tree, n, d, f, e);
        assert false;
      }
      if e.depth == f.depth {
        forall q, k, j | q in t.tree.sh.kids && 0 <= j < k < |t.tree.sh.kids[q]|
          ensures e.node != t.tree.sh.kids[q][k] || f.node != t.tree.sh.kids[q][j]
        {
          if e.node == t.tree.sh.kids[q][k] && f.node == t.tree.sh.kids[q][j] {
            SiblingsUnder(t.tree, q, k, j, n, d, e, f);
            assert false;
          }
        }
      }
    }
    if Under(t.tree, e.node, e.depth, f) {
      UnderAgain(t.tree, n, d, e, f);
      assert false;
    }
  }

  /** Of two nodes one below the other, the upper one is below whatever the lower one is below, if it is deep enough. */
  lemma UnderBetween(t: Tree, n: nat, d: nat, e: Event, f: Event)
    requires IsTree(t) && Under(t, n, d, f) && Under(t, e.node, e.depth, f) && d < e.depth
    ensures Under(t, n, d, e)
  {
    AncestorAdd(t, f.node, f.depth - e.depth, e.depth - d);
    hide IsTree;
  }

  /** Siblings are below the same nodes. */
  lemma SiblingsUnder(t: Tree, q: nat, k: nat, j: nat, n: nat, d: nat, e: Event, f: Event)
    requires IsTree(t) && q in t.sh.kids && k < |t.sh.kids[q]| && j < |t.sh.kids[q]|
    requires e.node == t.sh.kids[q][k] && f.node == t.sh.kids[q][j] && e.depth == f.depth && Under(t, n, d, e)
    ensures Under(t, n, d, f)
  {
    ChildPlaced(t, q, k);
    ChildPlaced(t, q, j);
    assert Owned(t.nodes, t.sh, t.root, t.root);
    hide IsTree;
    assert ParentOf(t, e.node) == q && ParentOf(t, f.node) == q;
    assert Ancestor(t, e.node, e.depth - d) == Ancestor(t, q, e.depth - d - 1);
    assert Ancestor(t, f.node, f.depth - d) == Ancestor(t, q, e.depth - d - 1);
  }

  /** All calls for a child and below it, and then those for later children. */
  lemma InOrderLater(t: Tour, p: nat, i: nat, d: nat, lo: nat, a: seq<Event>, tr: seq<Event>)
    requires IsTree(t.tree) && p in t.tree.sh.kids && i < |t.tree.sh.kids[p]|
    requires AllInOrder(t.tree, lo, a) && AllWithin(t.tree, t.tree.sh.kids[p][i], d, a, lo)
    requires a <= tr && AllInOrder(t.tree, |a|, tr) && AllLie(t, p, i + 1, d, tr, |a|)
    ensures AllInOrder(t.tree, lo, tr)
  {
    hide IsTree, Lies, Under, AllInOrder, InOrder;
    forall k, j | lo <= k < |a| <= j < |tr| ensures InOrder(t.tree, a[k], tr[j]) {
      assert Lies(t, p, i + 1, d, tr[j]);
      if a[k].node == t.tree.sh.kids[p][i] && a[k].depth == d {
        LaterInOrder(t, p, i, d, a[k], tr[j]);
      } else {
        BelowInOrder(t, p, i, d, a[k], tr[j]);
      }
    }
    AllInOrderJoin(t.tree, lo, a, tr);
  }

  /** The call on the way down, and those below. */
  lemma InOrderDown(t: Tour, p: nat, i: nat, d: nat, a: seq<Event>, b: seq<Event>, tr: seq<Event>)
    requires IsTree(t.tree) && p in t.tree.sh.kids && i < |t.tree.sh.kids[p]|
    requires t.tree.sh.kids[p][i] in t.tree.sh.kids
    requires b == a || b == a + [Down(t.tree.sh.kids[p][i], d)]
    requires b <= tr && AllInOrder(t.tree, |b|, tr) && AllLie(t, t.tree.sh.kids[p][i], 0, d + 1, tr, |b|)
    ensures AllInOrder(t.tree, |a|, tr)
  {
    hide IsTree, Lies, Ancestor;
    forall j | |b| <= j < |tr| ensures InOrder(t.tree, Down(t.tree.sh.kids[p][i], d), tr[j]) {
      LiesUnder(t, p, i, d, tr[j]);
    }
    hide InOrder;
    AllInOrderJoin(t.tree, |a|, b, tr);
  }

  lemma KidsDiffer(t: Tree, q: nat, k: nat, j: nat)
    requires IsTree(t) && q in t.sh.kids && j < k < |t.sh.kids[q]|
    ensures t.sh.kids[q][k] != t.sh.kids[q][j]
  {
    ChildPlaced(t, q, k);
  }

  /** And coming up past the node again. */
  lemma InOrderUp(t: Tour, n: nat, d: nat, a: seq<Event>, b: seq<Event>, c: seq<Event>, tr: seq<Event>)
    requires IsTree(t.tree) && a <= b <= c && (b == a || b == a + [Down(n, d)]) && (tr == c || tr == c + [Up(n, d)])
    requires AllInOrder(t.tree, |a|, c) && AllWithin(t.tree, n, d, c, |a|) && AllLie(t, n, 0, d + 1, c, |b|)
    ensures AllInOrder(t.tree, |a|, tr)
  {
    hide IsTree, Ancestor;
    if tr != c {
      forall k | |a| <= k < |c| ensures InOrder(t.tree, c[k], Up(n, d)) {
        assert c[k] != Up(n, d) by {
          if k >= |b| {
            assert Lies(t, n, 0, d + 1, c[k]);
          }
        }
        forall q, x, y | q in t.tree.sh.kids && 0 <= y < x < |t.tree.sh.kids[q]|
          ensures c[k].depth == d ==> c[k].node != t.tree.sh.kids[q][x] || n != t.tree.sh.kids[q][y]
        {
          KidsDiffer(t.tree, q, x, y);
        }
      }
      hide InOrder;
      AllInOrderJoin(t.tree, |a|, c, tr);
    }
  }

  lemma {:induction false} VisitInOrder(t: Tour, p: nat, i: nat, d: nat, w: Walk)
    requires IsTree(t.tree) && InList(t.tree, p, i)
    ensures AllInOrder(t.tree, |w.trace|, TraceOf(VisitList(t, p, i, d, w)))
    decreases Below(t.tree, p), |t.tree.sh.kids[p]| - i
  {
    if i < |t.tree.sh.kids[p]| {
      var n, w1, answer, inner, after := VisitUnfold(t, p, i, d, w);
      DownCalls(t, n, d, w);
      hide IsTree, AllLie, DownStep, UpStep, VisitList, InList, AllWithin, AllInOrder, Respects;
      if answer == Continue && d != t.q.maxDepth {
        VisitLies(t, n, 0, d + 1, w1);
        VisitInOrder(t, n, 0, d + 1, w1);
      } else {
        NoneAfter(t, n, d + 1, w1.trace);
      }
      var a := if answer == Break || answer == Unknown then w1.trace else TraceOf(inner);
      InOrderDown(t, p, i, d, w.trace, w1.trace, a);
      if answer != Break && answer != Unknown && inner.Going? {
        UpCalls(t, n, d, inner.w);
        AllWithinDown(t, p, i, d, w.trace, w1.trace, a);
        InOrderUp(t, n, d, w.trace, w1.trace, a, TraceOf(after));
        if after.Going? {
          AllWithinUp(t.tree, n, d, |w.trace|, a, after.w.trace);
          VisitLies(t, p, i + 1, d, after.w);
          VisitInOrder(t, p, i + 1, d, after.w);
          InOrderLater(t, p, i, d, |w.trace|, after.w.trace, TraceOf(VisitList(t, p, i + 1, d, after.w)));
        }
      }
    }
  }

  lemma AllWithinDown(t: Tour, p: nat, i: nat, d: nat, a: seq<Event>, b: seq<Event>, tr: seq<Event>)
    requires IsTree(t.tree) && p in t.tree.sh.kids && i < |t.tree.sh.kids[p]|
    requires t.tree.sh.kids[p][i] in t.tree.sh.kids
    requires b == a || b == a + [Down(t.tree.sh.kids[p][i], d)]
    requires b <= tr && AllLie(t, t.tree.sh.kids[p][i], 0, d + 1, tr, |b|)
    ensures AllWithin(t.tree, t.tree.sh.kids[p][i], d, tr, |a|)
  {
    AllWithinInner(t, p, i, d, b, |a|, tr);
  }

  lemma AllWithinUp(t: Tree, n: nat, d: nat, lo: nat, a: seq<Event>, tr: seq<Event>)
    requires IsTree(t) && AllWithin(t, n, d, a, lo) && (tr == a || tr == a + [Up(n, d)])
    ensures AllWithin(t, n, d, tr, lo)
  {
    hide IsTree;
  }

  // ---------- what is listed ----------

  /** The query passes over this node and what lies below it. */
  predicate Shadows(nodes: Nodes, q: Query, n: nat) {
    n in nodes && Hidden(nodes[n], q) && nodes[n].kind.Some? && nodes[n].kind.value in q.mask
  }

  /**
   A call the query asks for: of that direction and type, not too deep, and with nothing hidden from it on the way.
   */
  ghost predicate AskedFor(t: Tour, d: nat, e: Event)
    requires IsTree(t.tree)
  {
    && (if e.Down? then t.q.down else t.q.up) && e.depth <= t.q.maxDepth
    && e.node in t.tree.sh.kids && e.node in t.tree.nodes
    && t.tree.nodes[e.node].kind.Some? && t.tree.nodes[e.node].kind.value in t.q.mask
    && forall k: nat :: k <= e.depth - d ==> !Shadows(t.tree.nodes, t.q, Ancestor(t.tree, e.node, k))
  }

  /** The call for the node itself. */
  lemma SelfAskedFor(t: Tour, n: nat, d: nat, e: Event)
    requires IsTree(t.tree) && n in t.tree.sh.kids && n in t.tree.nodes && e.node == n && e.depth == d <= t.q.maxDepth
    ensures AskedFor(t, d, e) <==>
            e in Calls(t.q.down, t.tree.nodes[n], t.q, Down(n, d)) + Calls(t.q.up, t.tree.nodes[n], t.q, Up(n, d))
  {
    assert Ancestor(t.tree, e.node, 0) == n;
    hide IsTree;
  }

  /** A call for a node below it. */
  lemma BelowAskedFor(t: Tour, n: nat, d: nat, e: Event)
    requires IsTree(t.tree) && n in t.tree.nodes && Under(t.tree, n, d, e)
    ensures AskedFor(t, d, e) <==> AskedFor(t, d + 1, e) && !CutOff(t.tree.nodes[n], t.q, d)
  {
    hide IsTree, Ancestor;
  }

  /** A call for a node below n lies with n's children. */
  lemma UnderLies(t: Tour, n: nat, d: nat, e: Event)
    requires IsTree(t.tree) && Under(t.tree, n, d, e) && n != t.tree.root
    ensures Lies(t, n, 0, d + 1, e)
  {
    var a := Ancestor(t.tree, e.node, e.depth - d - 1);
    AncestorStep(t.tree, e.node, e.depth - d - 1);
    if a == t.tree.root {
      RootStays(t.tree, e.node, e.depth - d - 1);
    }
    assert Owned(t.tree.nodes, t.tree.sh, t.tree.root, a);
    hide IsTree;
  }

  /** Going up no further than the root. */
  lemma {:induction false} RootStays(t: Tree, n: nat, k: nat)
    requires IsTree(t) && n in t.sh.kids && Ancestor(t, n, k) == t.root
    ensures Ancestor(t, n, k + 1) == t.root
    decreases k
  {
    if k > 0 && n != t.root {
      AncestorStep(t, n, 0);
      RootStays(t, ParentOf(t, n), k - 1);
    }
    hide IsTree;
  }

  /** Where a call lies: with the first child, below it, or with the later ones. */
  lemma LiesWhere(t: Tour, p: nat, i: nat, d: nat, e: Event)
    requires IsTree(t.tree) && p in t.tree.sh.kids && i < |t.tree.sh.kids[p]|
    ensures Lies(t, p, i, d, e) <==>
            (e.node == t.tree.sh.kids[p][i] && e.depth == d) || Lies(t, t.tree.sh.kids[p][i], 0, d + 1, e) ||
            Lies(t, p, i + 1, d, e)
  {
    ChildPlaced(t.tree, p, i);
    assert Owned(t.tree.nodes, t.tree.sh, t.tree.root, t.tree.root);
    var n := t.tree.sh.kids[p][i];
    hide IsTree;
    if Lies(t, p, i, d, e) {
      var j :| i <= j < |t.tree.sh.kids[p]| && t.tree.sh.kids[p][j] == Ancestor(t.tree, e.node, e.depth - d);
      if j == i && e.depth > d {
        UnderLies(t, n, d, e);
      }
    } else {
      if e.node == n && e.depth == d {
        LiesItself(t, p, i, d, e);
      } else if Lies(t, n, 0, d + 1, e) {
        LiesDeeper(t, p, i, d, e);
      } else if Lies(t, p, i + 1, d, e) {
        LiesEarlier(t, p, i, d, e);
      }
    }
  }

  /** Where a call is listed. */
  lemma ListedPart(t: Tour, p: nat, i: nat, d: nat, e: Event)
    requires IsTree(t.tree) && p in t.tree.sh.kids && i < |t.tree.sh.kids[p]|
    ensures var n := t.tree.sh.kids[p][i];
            && n in t.tree.nodes && n in t.tree.sh.kids && InList(t.tree, n, 0) && InList(t.tree, p, i + 1)
            && Below(t.tree, n) < Below(t.tree, p)
            && var node := t.tree.nodes[n];
               (e in Listing(t, p, i, d) <==>
                || e in Calls(t.q.down, node, t.q, Down(n, d)) + Calls(t.q.up, node, t.q, Up(n, d))
                || (!CutOff(node, t.q, d) && e in Listing(t, n, 0, d + 1)) || e in Listing(t, p, i + 1, d))
  {
    var a, b, c, rest := ListingUnfold(t, p, i, d);
    hide IsTree, Listing, Calls;
  }

  /** Exactly the calls the query asks for are listed. */
  lemma {:induction false} ListedExactly(t: Tour, p: nat, i: nat, d: nat, e: Event)
    requires IsTree(t.tree) && InList(t.tree, p, i) && d <= t.q.maxDepth
    ensures e in Listing(t, p, i, d) <==> Lies(t, p, i, d, e) && AskedFor(t, d, e)
    decreases Below(t.tree, p), |t.tree.sh.kids[p]| - i
  {
    if i == |t.tree.sh.kids[p]| {
      hide IsTree, AskedFor;
    } else {
      var n := t.tree.sh.kids[p][i];
      ListedPart(t, p, i, d, e);
      LiesWhere(t, p, i, d, e);
      assert d == t.q.maxDepth ==> CutOff(t.tree.nodes[n], t.q, d);
      hide *;
      ListedExactly(t, p, i + 1, d, e);
      if !CutOff(t.tree.nodes[n], t.q, d) {
        ListedExactly(t, n, 0, d + 1, e);
      }
      SelfCalls(t, n, d, e);
      if e.node == n && e.depth == d {
        SelfAskedFor(t, n, d, e);
        SelfOnly(t, n, d, e);
      } else if Lies(t, n, 0, d + 1, e) {
        LiesUnder(t, p, i, d, e);
        BelowAskedFor(t, n, d, e);
      }
    }
  }

  lemma SelfOnly(t: Tour, n: nat, d: nat, e: Event)
    requires e.depth == d
    ensures !Lies(t, n, 0, d + 1, e)
  {
    hide IsTree;
  }

  lemma SelfCalls(t: Tour, n: nat, d: nat, e: Event)
    requires n in t.tree.nodes
    ensures e in Calls(t.q.down, t.tree.nodes[n], t.q, Down(n, d)) + Calls(t.q.up, t.tree.nodes[n], t.q, Up(n, d)) ==>
              e.node == n && e.depth == d
  {
  }
}
