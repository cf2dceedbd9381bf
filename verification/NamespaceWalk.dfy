/**
 The walk over the namespace as a recursive traversal: which callbacks it makes, in which order, when they always go on.
 */
module NamespaceWalk {
  import opened NamespaceTree
  import opened Options

  // ---------- the walk as a recursion over the tree ----------

  datatype Event = Down(node: nat, depth: nat) | Up(node: nat, depth: nat)

  /** Unknown stands for any other value a callback may return. */
  datatype Decision = Continue | NextPeer | Break | Unknown

  /** Which callbacks there are and which nodes they want. */
  datatype Query = Query(down: bool, up: bool, mask: set<nat>, maxDepth: nat, permanentOnly: bool)

  /** The calls made so far, and the result of the last type comparison. */
  datatype Walk = Walk(trace: seq<Event>, matches: bool)

  datatype Outcome = Going(w: Walk) | Stopped(trace: seq<Event>, status: Status)

  /** The callbacks, as a function of everything they have seen, the current call last. */
  type Callback = seq<Event> -> Decision

  /** A node without an object leaves the previous comparison's result in place. */
  function Compare(node: Node, q: Query, was: bool): bool {
    if node.kind == None then was else node.kind.value in q.mask
  }

  predicate Hidden(node: Node, q: Query) {
    q.permanentOnly && node.temporary
  }

  function DownStep(nodes: Nodes, q: Query, decide: Callback, n: nat, d: nat, w: Walk): (Walk, Decision)
    requires n in nodes
  {
    var w' := w.(matches := Compare(nodes[n], q, w.matches));
    if !w'.matches then (w', Continue)
    else if Hidden(nodes[n], q) then (w', NextPeer)
    else if !q.down then (w', Continue)
    else
      var tr := w.trace + [Down(n, d)];
      (w'.(trace := tr), decide(tr))
  }

  function UpStep(nodes: Nodes, q: Query, decide: Callback, n: nat, d: nat, w: Walk): Outcome
    requires n in nodes
  {
    var w' := w.(matches := Compare(nodes[n], q, w.matches));
    if !w'.matches || Hidden(nodes[n], q) || !q.up then Going(w')
    else
      var tr := w.trace + [Up(n, d)];
      if decide(tr) == Break then Stopped(tr, Ok) else Going(w'.(trace := tr))
  }

  /** What a walk goes over, and for whom. */
  datatype Tour = Tour(tree: Tree, q: Query, decide: Callback)

  /** Every child of p from the i-th on: down, its own children unless cut off, up, then the next. */
  ghost function VisitList(t: Tour, p: nat, i: nat, d: nat, w: Walk): Outcome
    requires IsTree(t.tree) && InList(t.tree, p, i)
    decreases Below(t.tree, p), |t.tree.sh.kids[p]| - i
  {
    if i == |t.tree.sh.kids[p]| then Going(w)
    else
      ChildPlaced(t.tree, p, i);
      var n := t.tree.sh.kids[p][i];
      var (w1, decision) := DownStep(t.tree.nodes, t.q, t.decide, n, d, w);
      if decision == Break then Stopped(w1.trace, Ok)
      else if decision == Unknown then Stopped(w1.trace, InvalidArgument)
      else
        var inner :=
          if decision == Continue && d != t.q.maxDepth then VisitList(t, n, 0, d + 1, w1) else Going(w1);
        if inner.Stopped? then inner
        else
          var after := UpStep(t.tree.nodes, t.q, t.decide, n, d, inner.w);
          if after.Stopped? then after else VisitList(t, p, i + 1, d, after.w)
  }

  // ---------- what the recursive traversal does ----------

  /** The calls made for a node on the way down, or up. */
  function Calls(wanted: bool, node: Node, q: Query, e: Event): seq<Event> {
    if wanted && !Hidden(node, q) && node.kind.Some? && node.kind.value in q.mask then [e] else []
  }

  /** The nodes below this one are passed over: too deep, or hidden by a temporary node the query would want. */
  predicate CutOff(node: Node, q: Query, d: nat) {
    d == q.maxDepth || (Hidden(node, q) && node.kind.Some? && node.kind.value in q.mask)
  }

  /** All calls of a walk that is never cut short, children of p from the i-th on: pre-order down, post-order up. */
  ghost function Listing(t: Tour, p: nat, i: nat, d: nat): seq<Event>
    requires IsTree(t.tree) && InList(t.tree, p, i)
    decreases Below(t.tree, p), |t.tree.sh.kids[p]| - i
  {
    if i == |t.tree.sh.kids[p]| then []
    else
      ChildPlaced(t.tree, p, i);
      var n := t.tree.sh.kids[p][i];
      var node := t.tree.nodes[n];
      Calls(t.q.down, node, t.q, Down(n, d))
      + (if CutOff(node, t.q, d) then [] else Listing(t, n, 0, d + 1))
      + Calls(t.q.up, node, t.q, Up(n, d))
      + Listing(t, p, i + 1, d)
  }

  lemma ListingUnfold(t: Tour, p: nat, i: nat, d: nat)
    returns (a: seq<Event>, b: seq<Event>, c: seq<Event>, rest: seq<Event>)
    requires IsTree(t.tree) && p in t.tree.sh.kids && i < |t.tree.sh.kids[p]|
    ensures var n := t.tree.sh.kids[p][i];
            && n in t.tree.nodes && n in t.tree.sh.kids && Below(t.tree, n) < Below(t.tree, p)
            && var node := t.tree.nodes[n];
               && a == Calls(t.q.down, node, t.q, Down(n, d)) && c == Calls(t.q.up, node, t.q, Up(n, d))
               && b == if CutOff(node, t.q, d) then [] else Listing(t, n, 0, d + 1)
    ensures rest == Listing(t, p, i + 1, d) && Listing(t, p, i, d) == a + b + c + rest
  {
    ChildPlaced(t.tree, p, i);
    var n := t.tree.sh.kids[p][i];
    var node := t.tree.nodes[n];
    a, c := Calls(t.q.down, node, t.q, Down(n, d)), Calls(t.q.up, node, t.q, Up(n, d));
    b := if CutOff(node, t.q, d) then [] else Listing(t, n, 0, d + 1);
    rest := Listing(t, p, i + 1, d);
    hide IsTree, Calls;
  }

  // ---------- what a node without an object inherits ----------

  /** Whether the walk passes over what lies below a node it has just compared with this result. */
  predicate Skips(node: Node, q: Query, d: nat, matches: bool) {
    d == q.maxDepth || (matches && Hidden(node, q))
  }

  /** The result of the last comparison once the children of p from the i-th on are done, if it was `was` before. */
  ghost function LastMatch(t: Tree, q: Query, p: nat, i: nat, d: nat, was: bool): bool
    requires IsTree(t) && InList(t, p, i)
    decreases Below(t, p), |t.sh.kids[p]| - i
  {
    if i == |t.sh.kids[p]| then was
    else
      ChildPlaced(t, p, i);
      LastMatch(t, q, p, i + 1, d, MatchAfter(t, q, p, i, d, was))
  }

  /** The same for child number i alone, below which the walk may go. */
  ghost function MatchBelow(t: Tree, q: Query, p: nat, i: nat, d: nat, was: bool): bool
    requires IsTree(t) && p in t.sh.kids && i < |t.sh.kids[p]|
    decreases Below(t, p), |t.sh.kids[p]| - i, 0
  {
    ChildPlaced(t, p, i);
    var n := t.sh.kids[p][i];
    var m := Compare(t.nodes[n], q, was);
    if Skips(t.nodes[n], q, d, m) then m else LastMatch(t, q, n, 0, d + 1, m)
  }

  ghost function MatchAfter(t: Tree, q: Query, p: nat, i: nat, d: nat, was: bool): bool
    requires IsTree(t) && p in t.sh.kids && i < |t.sh.kids[p]|
    decreases Below(t, p), |t.sh.kids[p]| - i, 1
  {
    ChildPlaced(t, p, i);
    Compare(t.nodes[t.sh.kids[p][i]], q, MatchBelow(t, q, p, i, d, was))
  }

  /**
   On the way down to a node without an object after a match: the callback is called for it, or, if the query hides
   it, calls below it are left out.
   */
  ghost predicate MisledDown(t: Tour, n: nat, d: nat, was: bool)
    requires IsTree(t.tree) && n in t.tree.sh.kids && n in t.tree.nodes
  {
    var node := t.tree.nodes[n];
    && node.kind == None && was
    && if Hidden(node, t.q) then d != t.q.maxDepth && Listing(t, n, 0, d + 1) != [] else t.q.down
  }

  /** And on the way up. */
  predicate MisledUp(node: Node, q: Query, was: bool) {
    node.kind == None && was && !Hidden(node, q) && q.up
  }

  /** Somewhere below p, from its i-th child on, the walk takes a node without an object for a match. */
  ghost predicate Misled(t: Tour, p: nat, i: nat, d: nat, was: bool)
    requires IsTree(t.tree) && InList(t.tree, p, i)
    decreases Below(t.tree, p), |t.tree.sh.kids[p]| - i, 1
  {
    i < |t.tree.sh.kids[p]| &&
    (MisledAt(t, p, i, d, was) || Misled(t, p, i + 1, d, MatchAfter(t.tree, t.q, p, i, d, was)))
  }

  /** Or at or below the i-th child itself. */
  ghost predicate MisledAt(t: Tour, p: nat, i: nat, d: nat, was: bool)
    requires IsTree(t.tree) && p in t.tree.sh.kids && i < |t.tree.sh.kids[p]|
    decreases Below(t.tree, p), |t.tree.sh.kids[p]| - i, 0
  {
    ChildPlaced(t.tree, p, i);
    var n := t.tree.sh.kids[p][i];
    var node := t.tree.nodes[n];
    var m := Compare(node, t.q, was);
    || MisledDown(t, n, d, was)
    || (!Skips(node, t.q, d, m) && Misled(t, n, 0, d + 1, m))
    || MisledUp(node, t.q, MatchBelow(t.tree, t.q, p, i, d, was))
  }

  /** A call for a node that has no object. */
  predicate Stray(nodes: Nodes, e: Event) {
    e.node in nodes && nodes[e.node].kind == None
  }

  ghost predicate HasStray(nodes: Nodes, s: seq<Event>) {
    exists e :: e in s && Stray(nodes, e)
  }

  /** The calls a walk really makes against the listed ones. */
  ghost predicate Against(nodes: Nodes, made: seq<Event>, listed: seq<Event>, misled: bool) {
    if misled then HasStray(nodes, made) || |made| < |listed| else made == listed
  }

  /** Parts that compare so compare so together. */
  lemma AgainstJoin(nodes: Nodes, a: seq<Event>, a0: seq<Event>, x: bool, b: seq<Event>, b0: seq<Event>, y: bool)
    requires Against(nodes, a, a0, x) && Against(nodes, b, b0, y)
    ensures Against(nodes, a + b, a0 + b0, x || y)
  {
    if HasStray(nodes, a) {
      var e :| e in a && Stray(nodes, e);
      assert e in a + b;
    } else if HasStray(nodes, b) {
      var e :| e in b && Stray(nodes, e);
      assert e in a + b;
    }
  }

  /** The call made for a node on the way down, against the listed ones. */
  lemma DownAgainst(t: Tour, n: nat, d: nat, w: Walk) returns (w1: Walk, made: seq<Event>)
    requires n in t.tree.nodes && forall tr :: t.decide(tr) == Continue
    ensures var node := t.tree.nodes[n];
            var r := DownStep(t.tree.nodes, t.q, t.decide, n, d, w);
            && r.0 == w1 && (r.1 == Continue || r.1 == NextPeer)
            && w1.trace == w.trace + made && w1.matches == Compare(node, t.q, w.matches)
            && (r.1 == NextPeer || d == t.q.maxDepth <==> Skips(node, t.q, d, w1.matches))
            && Against(t.tree.nodes, made, Calls(t.q.down, node, t.q, Down(n, d)),
                       node.kind == None && w.matches && !Hidden(node, t.q) && t.q.down)
  {
    var node := t.tree.nodes[n];
    var r := DownStep(t.tree.nodes, t.q, t.decide, n, d, w);
    w1 := r.0;
    made := if w1.matches && !Hidden(node, t.q) && t.q.down then [Down(n, d)] else [];
    assert made != [] ==> Down(n, d) in made;
  }

  lemma UpAgainst(t: Tour, n: nat, d: nat, w: Walk) returns (w1: Walk, made: seq<Event>)
    requires n in t.tree.nodes && forall tr :: t.decide(tr) == Continue
    ensures var node := t.tree.nodes[n];
            && UpStep(t.tree.nodes, t.q, t.decide, n, d, w) == Going(w1)
            && w1.trace == w.trace + made && w1.matches == Compare(node, t.q, w.matches)
            && Against(t.tree.nodes, made, Calls(t.q.up, node, t.q, Up(n, d)), MisledUp(node, t.q, w.matches))
  {
    var node := t.tree.nodes[n];
    w1 := UpStep(t.tree.nodes, t.q, t.decide, n, d, w).w;
    made := if w1.matches && !Hidden(node, t.q) && t.q.up then [Up(n, d)] else [];
    assert made != [] ==> Up(n, d) in made;
  }

  /** What the walk does below child number i, which it has just compared on the way down. */
  lemma BelowAgainst(t: Tour, p: nat, i: nat, d: nat, was: bool, w1: Walk, goes: bool)
    returns (o: Outcome, made: seq<Event>)
    requires IsTree(t.tree) && p in t.tree.sh.kids && i < |t.tree.sh.kids[p]|
    requires forall tr :: t.decide(tr) == Continue
    requires var n := t.tree.sh.kids[p][i];
             && n in t.tree.nodes && n in t.tree.sh.kids && Below(t.tree, n) < Below(t.tree, p)
             && w1.matches == Compare(t.tree.nodes[n], t.q, was)
             && goes == !Skips(t.tree.nodes[n], t.q, d, w1.matches)
    ensures var n := t.tree.sh.kids[p][i];
            var node := t.tree.nodes[n];
            && o == (if goes then VisitList(t, n, 0, d + 1, w1) else Going(w1))
            && o.Going? && o.w.trace == w1.trace + made && o.w.matches == MatchBelow(t.tree, t.q, p, i, d, was)
            && Against(t.tree.nodes, made, if CutOff(node, t.q, d) then [] else Listing(t, n, 0, d + 1),
                       (MisledDown(t, n, d, was) && Hidden(node, t.q)) ||
                       (goes && Misled(t, n, 0, d + 1, w1.matches)))
    decreases Below(t.tree, p), |t.tree.sh.kids[p]| - i, 0
  {
    var n := t.tree.sh.kids[p][i];
    o, made := Going(w1), [];
    if goes {
      hide IsTree;
      made := CallsAgainst(t, n, 0, d + 1, w1);
      o := VisitList(t, n, 0, d + 1, w1);
    }
  }

  /** Child number i's share of the walk, and of what is listed. */
  lemma ChildAgainst(t: Tour, p: nat, i: nat, d: nat, w: Walk)
    returns (w3: Walk, made: seq<Event>, listed: seq<Event>)
    requires IsTree(t.tree) && p in t.tree.sh.kids && i < |t.tree.sh.kids[p]|
    requires forall tr :: t.decide(tr) == Continue
    ensures VisitList(t, p, i, d, w) == VisitList(t, p, i + 1, d, w3)
    ensures w3.trace == w.trace + made && w3.matches == MatchAfter(t.tree, t.q, p, i, d, w.matches)
    ensures Against(t.tree.nodes, made, listed, MisledAt(t, p, i, d, w.matches))
    ensures InList(t.tree, p, i + 1) && Listing(t, p, i, d) == listed + Listing(t, p, i + 1, d)
    decreases Below(t.tree, p), |t.tree.sh.kids[p]| - i, 1
  {
    ChildPlaced(t.tree, p, i);
    var n := t.tree.sh.kids[p][i];
    var node := t.tree.nodes[n];
    assert Below(t.tree, n) < Below(t.tree, p);
    hide IsTree;
    var w1, a := DownAgainst(t, n, d, w);
    var goes := !Skips(node, t.q, d, w1.matches);
    var o, b := BelowAgainst(t, p, i, d, w.matches, w1, goes);
    var c;
    w3, c := UpAgainst(t, n, d, o.w);
    hide Against;
    var a0 := Calls(t.q.down, node, t.q, Down(n, d));
    var b0 := if CutOff(node, t.q, d) then [] else Listing(t, n, 0, d + 1);
    var x := node.kind == None && w.matches && !Hidden(node, t.q) && t.q.down;
    var y := (MisledDown(t, n, d, w.matches) && Hidden(node, t.q)) || (goes && Misled(t, n, 0, d + 1, w1.matches));
    AgainstJoin(t.tree.nodes, a, a0, x, b, b0, y);
    AgainstJoin(t.tree.nodes, a + b, a0 + b0, x || y, c, Calls(t.q.up, node, t.q, Up(n, d)),
                MisledUp(node, t.q, o.w.matches));
    made := a + b + c;
    ThreeMore(w.trace, w1.trace, o.w.trace, w3.trace, a, b, c);
    listed := a0 + b0 + Calls(t.q.up, node, t.q, Up(n, d));
    var _, _, _, rest := ListingUnfold(t, p, i, d);
  }

  lemma ThreeMore(w0: seq<Event>, w1: seq<Event>, w2: seq<Event>, w3: seq<Event>,
                  a: seq<Event>, b: seq<Event>, c: seq<Event>)
    requires w1 == w0 + a && w2 == w1 + b && w3 == w2 + c
    ensures w3 == w0 + (a + b + c)
  {
    assert (w0 + a) + b == w0 + (a + b);
  }

  /** The walk from here on ends, makes these calls, and they compare with the listed ones. */
  ghost predicate Walked(t: Tour, p: nat, i: nat, d: nat, w: Walk, made: seq<Event>)
    requires IsTree(t.tree) && InList(t.tree, p, i)
  {
    var o := VisitList(t, p, i, d, w);
    && o.Going? && o.w.trace == w.trace + made
    && o.w.matches == LastMatch(t.tree, t.q, p, i, d, w.matches)
    && Against(t.tree.nodes, made, Listing(t, p, i, d), Misled(t, p, i, d, w.matches))
  }

  /** One child and the rest. */
  lemma MisledUnfold(t: Tour, p: nat, i: nat, d: nat, was: bool)
    requires IsTree(t.tree) && p in t.tree.sh.kids && i < |t.tree.sh.kids[p]|
    ensures var after := MatchAfter(t.tree, t.q, p, i, d, was);
            && InList(t.tree, p, i + 1)
            && Misled(t, p, i, d, was) == (MisledAt(t, p, i, d, was) || Misled(t, p, i + 1, d, after))
            && LastMatch(t.tree, t.q, p, i, d, was) == LastMatch(t.tree, t.q, p, i + 1, d, after)
  {
    hide IsTree;
  }

  lemma WalkedOut(t: Tour, p: nat, i: nat, d: nat, w: Walk, made: seq<Event>) returns (o: Outcome)
    requires IsTree(t.tree) && InList(t.tree, p, i) && Walked(t, p, i, d, w, made)
    ensures o == VisitList(t, p, i, d, w) && o.Going? && o.w.trace == w.trace + made
    ensures o.w.matches == LastMatch(t.tree, t.q, p, i, d, w.matches)
    ensures Against(t.tree.nodes, made, Listing(t, p, i, d), Misled(t, p, i, d, w.matches))
  {
    o := VisitList(t, p, i, d, w);
    hide IsTree, VisitList, LastMatch, Misled, Against, Listing;
  }

  lemma WalkedIn(t: Tour, p: nat, i: nat, d: nat, w: Walk, made: seq<Event>)
    requires IsTree(t.tree) && InList(t.tree, p, i) && VisitList(t, p, i, d, w).Going?
    requires VisitList(t, p, i, d, w).w.trace == w.trace + made
    requires VisitList(t, p, i, d, w).w.matches == LastMatch(t.tree, t.q, p, i, d, w.matches)
    requires Against(t.tree.nodes, made, Listing(t, p, i, d), Misled(t, p, i, d, w.matches))
    ensures Walked(t, p, i, d, w, made)
  {
    hide IsTree, VisitList, LastMatch, Misled, Against, Listing;
  }

  /** The calls of a walk whose callbacks always continue, against the listed ones. */
  lemma {:induction false} CallsAgainst(t: Tour, p: nat, i: nat, d: nat, w: Walk) returns (made: seq<Event>)
    requires IsTree(t.tree) && InList(t.tree, p, i)
    requires forall tr :: t.decide(tr) == Continue
    ensures Walked(t, p, i, d, w, made)
    decreases Below(t.tree, p), |t.tree.sh.kids[p]| - i, 2
  {
    assert p in t.tree.sh.kids && i <= |t.tree.sh.kids[p]|;
    hide *;
    if i == |t.tree.sh.kids[p]| {
      made := [];
      NoneWalked(t, p, i, d, w);
    } else {
      var w3, mine, listed := ChildAgainst(t, p, i, d, w);
      var rest := CallsAgainst(t, p, i + 1, d, w3);
      MisledUnfold(t, p, i, d, w.matches);
      var o := WalkedOut(t, p, i + 1, d, w3, rest);
      AgainstJoin(t.tree.nodes, mine, listed, MisledAt(t, p, i, d, w.matches),
                  rest, Listing(t, p, i + 1, d), Misled(t, p, i + 1, d, w3.matches));
      made := mine + rest;
      TwoMore(w.trace, w3.trace, o.w.trace, mine, rest);
      WalkedIn(t, p, i, d, w, made);
    }
  }

  lemma NoneWalked(t: Tour, p: nat, i: nat, d: nat, w: Walk)
    requires IsTree(t.tree) && p in t.tree.sh.kids && i == |t.tree.sh.kids[p]|
    ensures Walked(t, p, i, d, w, [])
  {
    assert w.trace + [] == w.trace;
    hide IsTree;
  }

  lemma TwoMore(w0: seq<Event>, w1: seq<Event>, w2: seq<Event>, a: seq<Event>, b: seq<Event>)
    requires w1 == w0 + a && w2 == w1 + b
    ensures w2 == w0 + (a + b)
  {
  }

  /** Only nodes with an object are listed. */
  lemma {:induction false} NoStrayListed(t: Tour, p: nat, i: nat, d: nat)
    requires IsTree(t.tree) && InList(t.tree, p, i)
    ensures !HasStray(t.tree.nodes, Listing(t, p, i, d))
    decreases Below(t.tree, p), |t.tree.sh.kids[p]| - i
  {
    if i < |t.tree.sh.kids[p]| {
      var a, b, c, rest := ListingUnfold(t, p, i, d);
      var n := t.tree.sh.kids[p][i];
      if !CutOff(t.tree.nodes[n], t.q, d) {
        NoStrayListed(t, n, 0, d + 1);
      }
      NoStrayListed(t, p, i + 1, d);
      hide IsTree, Listing;
    }
  }

  /**
   With callbacks that always continue the walk makes exactly the listed calls, pre-order down and post-order up, if
   and only if it never takes a node without an object for a match.
   */
  lemma WalkIsListing(t: Tour, p: nat, i: nat, d: nat, w: Walk)
    requires IsTree(t.tree) && InList(t.tree, p, i)
    requires forall tr :: t.decide(tr) == Continue
    ensures var o := VisitList(t, p, i, d, w);
            o.Going? && (o.w.trace == w.trace + Listing(t, p, i, d) <==> !Misled(t, p, i, d, w.matches))
  {
    var made := CallsAgainst(t, p, i, d, w);
    NoStrayListed(t, p, i, d);
    hide IsTree, Listing, VisitList, Misled, HasStray;
    if w.trace + made == w.trace + Listing(t, p, i, d) {
      assert (w.trace + made)[|w.trace|..] == made;
    }
  }

  /** Every installed node has an object attached. */
  ghost predicate AllTyped(t: Tour) {
    forall n :: n in t.tree.sh.kids && n in t.tree.nodes ==> t.tree.nodes[n].kind.Some?
  }

  /** A tree in which every node has an object is walked as listed, whatever was compared before. */
  lemma {:induction false} ContinueListsAll(t: Tour, p: nat, i: nat, d: nat, w: Walk)
    requires IsTree(t.tree) && InList(t.tree, p, i) && AllTyped(t)
    requires forall tr :: t.decide(tr) == Continue
    ensures var o := VisitList(t, p, i, d, w); o.Going? && o.w.trace == w.trace + Listing(t, p, i, d)
  {
    WalkIsListing(t, p, i, d, w);
    TypedNotMisled(t, p, i, d, w.matches);
  }

  lemma {:induction false} TypedNotMisled(t: Tour, p: nat, i: nat, d: nat, was: bool)
    requires IsTree(t.tree) && InList(t.tree, p, i) && AllTyped(t)
    ensures !Misled(t, p, i, d, was)
    decreases Below(t.tree, p), |t.tree.sh.kids[p]| - i
  {
    if i < |t.tree.sh.kids[p]| {
      ChildPlaced(t.tree, p, i);
      var n := t.tree.sh.kids[p][i];
      TypedNotMisled(t, n, 0, d + 1, Compare(t.tree.nodes[n], t.q, was));
      TypedNotMisled(t, p, i + 1, d, MatchAfter(t.tree, t.q, p, i, d, was));
    }
    hide IsTree;
  }

  // ---------- the same for every mask ----------

  /** No node is hidden from the query. */
  ghost predicate NothingHidden(t: Tree, q: Query) {
    forall n :: n in t.sh.kids && n in t.nodes ==> !Hidden(t.nodes[n], q)
  }

  /** A node is passed over by a walk that wants every type: too deep, or hidden once an object has been compared. */
  predicate Passed(node: Node, q: Query, d: nat, seen: bool) {
    d == q.maxDepth || (Hidden(node, q) && (seen || node.kind.Some?))
  }

  /**
   The comparisons of a walk, pre-order down, post-order up: all of them when nothing is hidden, and those of a walk for
   every type when something is. `seen` tells of an object compared before.
   */
  ghost function Comparisons(t: Tree, q: Query, p: nat, i: nat, d: nat, seen: bool): seq<Event>
    requires IsTree(t) && InList(t, p, i)
    decreases Below(t, p), |t.sh.kids[p]| - i, 1
  {
    if i == |t.sh.kids[p]| then []
    else
      var mine := ComparedAt(t, q, p, i, d, seen);
      mine + Comparisons(t, q, p, i + 1, d, seen || AnyObject(t.nodes, mine))
  }

  /** Those at and below child number i. */
  ghost function ComparedAt(t: Tree, q: Query, p: nat, i: nat, d: nat, seen: bool): seq<Event>
    requires IsTree(t) && p in t.sh.kids && i < |t.sh.kids[p]|
    decreases Below(t, p), |t.sh.kids[p]| - i, 0
  {
    ChildPlaced(t, p, i);
    var n := t.sh.kids[p][i];
    [Down(n, d)] + ComparedBelow(t, q, n, d, seen) + [Up(n, d)]
  }

  /** And those below a node. */
  ghost function ComparedBelow(t: Tree, q: Query, n: nat, d: nat, seen: bool): seq<Event>
    requires IsTree(t) && n in t.sh.kids && n in t.nodes
    decreases Below(t, n), |t.sh.kids[n]|, 2
  {
    if Passed(t.nodes[n], q, d, seen) then [] else Comparisons(t, q, n, 0, d + 1, seen || t.nodes[n].kind.Some?)
  }

  predicate HasObject(nodes: Nodes, e: Event) {
    e.node in nodes && nodes[e.node].kind.Some?
  }

  ghost predicate AnyObject(nodes: Nodes, s: seq<Event>) {
    exists j :: 0 <= j < |s| && HasObject(nodes, s[j])
  }

  /**
   A comparison of a node without an object that would show if taken for a match: there is a callback to call, or, on
   the way down to a hidden node, there are calls below it to leave out.
   */
  ghost predicate Risky(t: Tour, e: Event)
    requires IsTree(t.tree)
  {
    && Stray(t.tree.nodes, e) && e.node in t.tree.sh.kids
    && if Hidden(t.tree.nodes[e.node], t.q)
       then e.Down? && e.depth != t.q.maxDepth && Listing(t, e.node, 0, e.depth + 1) != []
       else if e.Down? then t.q.down else t.q.up
  }

  /** Such a comparison comes after one with an object, or anywhere if there was one before. */
  ghost predicate Late(t: Tour, s: seq<Event>, seen: bool)
    requires IsTree(t.tree)
  {
    exists k :: 0 <= k < |s| && Risky(t, s[k]) && (seen || AnyObject(t.tree.nodes, s[..k]))
  }

  lemma AnyObjectJoin(nodes: Nodes, a: seq<Event>, b: seq<Event>)
    ensures AnyObject(nodes, a + b) <==> AnyObject(nodes, a) || AnyObject(nodes, b)
  {
    if AnyObject(nodes, a) {
      var j :| 0 <= j < |a| && HasObject(nodes, a[j]);
      assert (a + b)[j] == a[j];
    } else if AnyObject(nodes, b) {
      var j :| 0 <= j < |b| && HasObject(nodes, b[j]);
      assert (a + b)[|a| + j] == b[j];
    }
  }

  lemma LateJoin(t: Tour, a: seq<Event>, b: seq<Event>, seen: bool)
    requires IsTree(t.tree)
    ensures Late(t, a + b, seen) <==> Late(t, a, seen) || Late(t, b, seen || AnyObject(t.tree.nodes, a))
  {
    JoinedLate(t, a, b, seen);
    if Late(t, a + b, seen) {
      LateParts(t, a, b, seen);
    }
    hide *;
  }

  lemma JoinedLate(t: Tour, a: seq<Event>, b: seq<Event>, seen: bool)
    requires IsTree(t.tree)
    ensures Late(t, a, seen) || Late(t, b, seen || AnyObject(t.tree.nodes, a)) ==> Late(t, a + b, seen)
  {
    hide IsTree, AnyObject, Risky;
    var s := a + b;
    if Late(t, a, seen) {
      var k :| 0 <= k < |a| && Risky(t, a[k]) && (seen || AnyObject(t.tree.nodes, a[..k]));
      assert s[k] == a[k] && s[..k] == a[..k];
    } else if Late(t, b, seen || AnyObject(t.tree.nodes, a)) {
      var k :| 0 <= k < |b| && Risky(t, b[k])
        && (seen || AnyObject(t.tree.nodes, a) || AnyObject(t.tree.nodes, b[..k]));
      assert s[|a| + k] == b[k] && s[..|a| + k] == a + b[..k];
      AnyObjectJoin(t.tree.nodes, a, b[..k]);
    }
  }

  lemma LateParts(t: Tour, a: seq<Event>, b: seq<Event>, seen: bool)
    requires IsTree(t.tree) && Late(t, a + b, seen)
    ensures Late(t, a, seen) || Late(t, b, seen || AnyObject(t.tree.nodes, a))
  {
    hide IsTree, AnyObject, Risky;
    var s := a + b;
    var k :| 0 <= k < |s| && Risky(t, s[k]) && (seen || AnyObject(t.tree.nodes, s[..k]));
    if k < |a| {
      assert s[k] == a[k] && s[..k] == a[..k];
    } else {
      assert s[k] == b[k - |a|] && s[..k] == a + b[..k - |a|];
      AnyObjectJoin(t.tree.nodes, a, b[..k - |a|]);
    }
  }

  /** A single comparison. */
  lemma LateOne(t: Tour, e: Event, seen: bool)
    requires IsTree(t.tree)
    ensures Late(t, [e], seen) <==> Risky(t, e) && seen
    ensures AnyObject(t.tree.nodes, [e]) <==> HasObject(t.tree.nodes, e)
  {
    assert [e][..0] == [];
    assert [e][0] == e;
  }

  /** The query's mask holds the type of every object in the tree. */
  ghost predicate WantsAll(t: Tree, q: Query) {
    forall n :: n in t.sh.kids && n in t.nodes && t.nodes[n].kind.Some? ==> t.nodes[n].kind.value in q.mask
  }

  /** What `was` and `seen`, before and after, have to do with each other. */
  predicate Tied(full: bool, match_: bool, seen: bool) {
    (match_ ==> seen) && (full ==> match_ == seen)
  }

  /** Comparing one node: a match only after an object, and with every type wanted exactly then. */
  lemma CompareTied(t: Tree, q: Query, n: nat, e: Event, was: bool, seen: bool)
    requires n in t.nodes && n in t.sh.kids && e.node == n && Tied(WantsAll(t, q), was, seen)
    ensures Tied(WantsAll(t, q), Compare(t.nodes[n], q, was), seen || HasObject(t.nodes, e))
    ensures Stray(t.nodes, e) <==> t.nodes[n].kind == None
  {
  }

  /** A walk whose comparisons are known beforehand. */
  ghost predicate Foreseen(t: Tour) {
    NothingHidden(t.tree, t.q) || WantsAll(t.tree, t.q)
  }

  /** Being misled is meeting a node without an object late. */
  lemma {:induction false} MisledLate(t: Tour, p: nat, i: nat, d: nat, was: bool, seen: bool)
    requires IsTree(t.tree) && InList(t.tree, p, i) && Foreseen(t)
    requires Tied(WantsAll(t.tree, t.q), was, seen)
    ensures var s := Comparisons(t.tree, t.q, p, i, d, seen);
            && Tied(WantsAll(t.tree, t.q), Misled(t, p, i, d, was), Late(t, s, seen))
            && Tied(WantsAll(t.tree, t.q), LastMatch(t.tree, t.q, p, i, d, was), seen || AnyObject(t.tree.nodes, s))
    decreases Below(t.tree, p), |t.tree.sh.kids[p]| - i, 2
  {
    if i < |t.tree.sh.kids[p]| {
      MisledUnfold(t, p, i, d, was);
      var after, mine := MatchAfter(t.tree, t.q, p, i, d, was), ComparedAt(t.tree, t.q, p, i, d, seen);
      var seen' := seen || AnyObject(t.tree.nodes, mine);
      var rest := Comparisons(t.tree, t.q, p, i + 1, d, seen');
      assert Comparisons(t.tree, t.q, p, i, d, seen) == mine + rest;
      hide *;
      ChildLate(t, p, i, d, was, seen);
      MisledLate(t, p, i + 1, d, after, seen');
      LateJoin(t, mine, rest, seen);
      AnyObjectJoin(t.tree.nodes, mine, rest);
      TiedOr(WantsAll(t.tree, t.q), MisledAt(t, p, i, d, was), Late(t, mine, seen),
             Misled(t, p, i + 1, d, after), Late(t, rest, seen'));
    }
  }

  lemma TiedOr(full: bool, a: bool, b: bool, c: bool, e: bool)
    requires Tied(full, a, b) && Tied(full, c, e)
    ensures Tied(full, a || c, b || e)
  {
  }

  /** The same below one node that has just been compared. */
  lemma {:induction false} BelowLate(t: Tour, p: nat, i: nat, d: nat, was: bool, seen: bool)
    requires IsTree(t.tree) && p in t.tree.sh.kids && i < |t.tree.sh.kids[p]| && Foreseen(t)
    requires Tied(WantsAll(t.tree, t.q), was, seen)
    ensures var n := t.tree.sh.kids[p][i];
            && n in t.tree.sh.kids && n in t.tree.nodes && InList(t.tree, n, 0)
            && var node := t.tree.nodes[n];
               var m, seen1 := Compare(node, t.q, was), seen || node.kind.Some?;
               var s := ComparedBelow(t.tree, t.q, n, d, seen);
               && Tied(WantsAll(t.tree, t.q), !Skips(node, t.q, d, m) && Misled(t, n, 0, d + 1, m), Late(t, s, seen1))
               && Tied(WantsAll(t.tree, t.q), MatchBelow(t.tree, t.q, p, i, d, was),
                       seen1 || AnyObject(t.tree.nodes, s))
    decreases Below(t.tree, p), |t.tree.sh.kids[p]| - i, 0
  {
    ChildPlaced(t.tree, p, i);
    var n := t.tree.sh.kids[p][i];
    var node := t.tree.nodes[n];
    var m, seen1 := Compare(node, t.q, was), seen || node.kind.Some?;
    hide IsTree;
    CompareTied(t.tree, t.q, n, Down(n, d), was, seen);
    assert Skips(node, t.q, d, m) == Passed(node, t.q, d, seen);
    if !Passed(node, t.q, d, seen) {
      MisledLate(t, n, 0, d + 1, m, seen1);
    } else {
      assert ComparedBelow(t.tree, t.q, n, d, seen) == [];
    }
    hide WantsAll, Comparisons, Misled, LastMatch;
  }

  lemma {:induction false} ChildLate(t: Tour, p: nat, i: nat, d: nat, was: bool, seen: bool)
    requires IsTree(t.tree) && p in t.tree.sh.kids && i < |t.tree.sh.kids[p]| && Foreseen(t)
    requires Tied(WantsAll(t.tree, t.q), was, seen)
    ensures var s := ComparedAt(t.tree, t.q, p, i, d, seen);
            && Tied(WantsAll(t.tree, t.q), MisledAt(t, p, i, d, was), Late(t, s, seen))
            && Tied(WantsAll(t.tree, t.q), MatchAfter(t.tree, t.q, p, i, d, was), seen || AnyObject(t.tree.nodes, s))
    decreases Below(t.tree, p), |t.tree.sh.kids[p]| - i, 1
  {
    BelowLate(t, p, i, d, was, seen);
    var n := t.tree.sh.kids[p][i];
    var node := t.tree.nodes[n];
    var m, below := Compare(node, t.q, was), MatchBelow(t.tree, t.q, p, i, d, was);
    var inner := ComparedBelow(t.tree, t.q, n, d, seen);
    var seen2 := seen || node.kind.Some? || AnyObject(t.tree.nodes, inner);
    assert MisledAt(t, p, i, d, was) ==
           (MisledDown(t, n, d, was) || (!Skips(node, t.q, d, m) && Misled(t, n, 0, d + 1, m))
            || MisledUp(node, t.q, below));
    assert MatchAfter(t.tree, t.q, p, i, d, was) == Compare(node, t.q, below);
    assert ComparedAt(t.tree, t.q, p, i, d, seen) == [Down(n, d)] + inner + [Up(n, d)];
    assert Risky(t, Down(n, d)) ==> (MisledDown(t, n, d, was) <==> was);
    assert MisledDown(t, n, d, was) ==> was && Risky(t, Down(n, d));
    assert MisledUp(node, t.q, below) <==> Risky(t, Up(n, d)) && below;
    CompareTied(t.tree, t.q, n, Up(n, d), below, seen2);
    LateThree(t, Down(n, d), inner, Up(n, d), seen);
    hide IsTree, Late, Risky, AnyObject, WantsAll, ComparedBelow, ComparedAt, MatchBelow, MatchAfter, Compare, Misled,
      MisledAt, MisledDown, MisledUp, Skips;
  }

  /** A comparison, others, and a comparison. */
  lemma LateThree(t: Tour, down: Event, inner: seq<Event>, up: Event, seen: bool)
    requires IsTree(t.tree)
    ensures var seen1 := seen || HasObject(t.tree.nodes, down);
            var seen2 := seen1 || AnyObject(t.tree.nodes, inner);
            && (Late(t, [down] + inner + [up], seen) <==>
                  (Risky(t, down) && seen) || Late(t, inner, seen1) || (Risky(t, up) && seen2))
            && (seen || AnyObject(t.tree.nodes, [down] + inner + [up]) <==> seen2 || HasObject(t.tree.nodes, up))
  {
    LateOne(t, down, seen);
    LateOne(t, up, seen || HasObject(t.tree.nodes, down) || AnyObject(t.tree.nodes, inner));
    LateJoin(t, [down], inner, seen);
    LateJoin(t, [down] + inner, [up], seen);
    AnyObjectJoin(t.tree.nodes, [down], inner);
    AnyObjectJoin(t.tree.nodes, [down] + inner, [up]);
    hide *;
  }

  /** The same walk for another set of types. */
  function Masked(t: Tour, mask: set<nat>): Tour {
    t.(q := t.q.(mask := mask))
  }

  /** The calls ForEachChild makes. */
  ghost function Made(t: Tour, start: nat): seq<Event>
    requires IsTree(t.tree) && start in t.tree.sh.kids
  {
    var o := VisitList(t, start, 0, 1, Walk([], false));
    if o.Going? then o.w.trace else o.trace
  }

  /**
   When nothing is hidden, the walk is as listed whatever types are asked for if and only if no node without an object
   is compared, in a direction with a callback, after a node that has one.
   */
  lemma EveryMask(t: Tour, start: nat)
    requires IsTree(t.tree) && start in t.tree.sh.kids && NothingHidden(t.tree, t.q)
    requires forall tr :: t.decide(tr) == Continue
    ensures (forall mask :: Made(Masked(t, mask), start) == Listing(Masked(t, mask), start, 0, 1))
       <==> !Late(t, Comparisons(t.tree, t.q, start, 0, 1, false), false)
  {
    var late := Late(t, Comparisons(t.tree, t.q, start, 0, 1, false), false);
    forall mask: set<nat>
      ensures var u := Masked(t, mask);
              Tied(WantsAll(u.tree, u.q), Made(u, start) != Listing(u, start, 0, 1), late)
    {
      OneMask(t, start, mask);
    }
    var all := set n | n in t.tree.nodes && t.tree.nodes[n].kind.Some? :: t.tree.nodes[n].kind.value;
    assert WantsAll(t.tree, Masked(t, all).q);
    hide IsTree, Made, Listing, WantsAll;
  }

  lemma OneMask(t: Tour, start: nat, mask: set<nat>)
    requires IsTree(t.tree) && start in t.tree.sh.kids && NothingHidden(t.tree, t.q)
    requires forall tr :: t.decide(tr) == Continue
    ensures var u := Masked(t, mask);
            Tied(WantsAll(u.tree, u.q), Made(u, start) != Listing(u, start, 0, 1),
                 Late(t, Comparisons(t.tree, t.q, start, 0, 1, false), false))
  {
    var u := Masked(t, mask);
    MadeLate(u, start);
    SameComparisons(t.tree, t.q, u.q, start, 0, 1, false);
    LateMask(t, u, Comparisons(t.tree, t.q, start, 0, 1, false));
    hide IsTree, Made, Listing, Late, Comparisons;
  }

  lemma MadeLate(t: Tour, start: nat)
    requires IsTree(t.tree) && start in t.tree.sh.kids && Foreseen(t)
    requires forall tr :: t.decide(tr) == Continue
    ensures Tied(WantsAll(t.tree, t.q), Made(t, start) != Listing(t, start, 0, 1),
                 Late(t, Comparisons(t.tree, t.q, start, 0, 1, false), false))
  {
    MadeIsListing(t, start);
    MisledLate(t, start, 0, 1, false, false);
    hide IsTree, Made, Listing, Misled, LastMatch, Late, Comparisons;
  }

  lemma MadeIsListing(t: Tour, start: nat)
    requires IsTree(t.tree) && start in t.tree.sh.kids
    requires forall tr :: t.decide(tr) == Continue
    ensures Made(t, start) == Listing(t, start, 0, 1) <==> !Misled(t, start, 0, 1, false)
  {
    WalkIsListing(t, start, 0, 1, Walk([], false));
    hide IsTree, VisitList, Listing, Misled;
    assert [] + Listing(t, start, 0, 1) == Listing(t, start, 0, 1);
  }

  /** Which comparisons are made does not depend on the mask. */
  lemma {:induction false} SameComparisons(t: Tree, q: Query, r: Query, p: nat, i: nat, d: nat, seen: bool)
    requires IsTree(t) && InList(t, p, i) && r.maxDepth == q.maxDepth && r.permanentOnly == q.permanentOnly
    ensures Comparisons(t, q, p, i, d, seen) == Comparisons(t, r, p, i, d, seen)
    decreases Below(t, p), |t.sh.kids[p]| - i
  {
    if i < |t.sh.kids[p]| {
      ChildPlaced(t, p, i);
      var n := t.sh.kids[p][i];
      SameComparisons(t, q, r, n, 0, d + 1, seen || t.nodes[n].kind.Some?);
      hide IsTree, AnyObject;
      assert ComparedBelow(t, q, n, d, seen) == ComparedBelow(t, r, n, d, seen);
      assert ComparedAt(t, q, p, i, d, seen) == ComparedAt(t, r, p, i, d, seen);
      SameComparisons(t, q, r, p, i + 1, d, seen || AnyObject(t.nodes, ComparedAt(t, q, p, i, d, seen)));
    }
  }

  /** When nothing is hidden, neither does what is late. */
  lemma LateMask(t: Tour, u: Tour, s: seq<Event>)
    requires IsTree(t.tree) && NothingHidden(t.tree, t.q)
    requires u.tree == t.tree && u.q.down == t.q.down && u.q.up == t.q.up && u.q.permanentOnly == t.q.permanentOnly
    ensures Late(u, s, false) == Late(t, s, false)
  {
    hide IsTree;
    assert forall k :: 0 <= k < |s| ==> Risky(u, s[k]) == Risky(t, s[k]);
  }

  /**
   A walk for every type, as uacpi_namespace_for_each_child_simple makes it, whatever it hides: it is as listed if and
   only if no node without an object is compared after one that has one, where that shows; hidden nodes are passed over
   once an object has been met.
   */
  lemma EveryType(t: Tour, start: nat)
    requires IsTree(t.tree) && start in t.tree.sh.kids && WantsAll(t.tree, t.q)
    requires forall tr :: t.decide(tr) == Continue
    ensures Made(t, start) == Listing(t, start, 0, 1)
       <==> !Late(t, Comparisons(t.tree, t.q, start, 0, 1, false), false)
  {
    MadeLate(t, start);
  }

  /** A root with a child of type 6 and then one without an object. */
  function TwoChildren(): Tree {
    Tree(map[1 := Node(0, 2, 0, false, false, Some(0), "____"), 2 := Node(1, 0, 3, false, false, Some(6), "AAAA"),
             3 := Node(1, 0, 0, false, false, None, "BBBB")],
         Shape(map[1 := [2, 3], 2 := [], 3 := []], map[1 := 0, 2 := 1, 3 := 1], 1), 1)
  }

  /** A walk over it for type 6 calls back for the second child too. */
  lemma EarlierMatchInherited()
    ensures var t := Tour(TwoChildren(), Query(true, false, {6}, 5, false), _ => Continue);
            && IsTree(t.tree)
            && VisitList(t, 1, 0, 1, Walk([], false)) == Going(Walk([Down(2, 1), Down(3, 1)], true))
            && Listing(t, 1, 0, 1) == [Down(2, 1)]
  {
    TwoChildrenTree();
    var t := Tour(TwoChildren(), Query(true, false, {6}, 5, false), _ => Continue);
    var w := Walk([Down(2, 1)], true);
    assert VisitList(t, 2, 0, 2, w) == Going(w) && Listing(t, 2, 0, 2) == [];
    var w' := Walk([Down(2, 1), Down(3, 1)], true);
    assert VisitList(t, 3, 0, 2, w') == Going(w') && Listing(t, 3, 0, 2) == [];
    assert VisitList(t, 1, 2, 1, w') == Going(w') && Listing(t, 1, 2, 1) == [];
    assert w.trace + [Down(3, 1)] == w'.trace;
    assert VisitList(t, 1, 1, 1, w) == Going(w');
    assert Listing(t, 1, 1, 1) == [];
  }

  /** A root with a temporary child of type 5, whose children are one of type 6 and one without an object. */
  function HiddenChild(): Tree {
    Tree(map[1 := Node(0, 2, 0, false, false, Some(0), "____"), 2 := Node(1, 3, 0, false, true, Some(5), "AAAA"),
             3 := Node(2, 0, 4, false, false, Some(6), "BBBB"), 4 := Node(2, 0, 0, false, false, None, "CCCC")],
         Shape(map[1 := [2], 2 := [3, 4], 3 := [], 4 := []], map[1 := 0, 2 := 1, 3 := 2, 4 := 2], 2), 1)
  }

  lemma HiddenChildTree()
    ensures IsTree(HiddenChild())
  {
    var t := HiddenChild();
    assert LinkedAt(t.nodes, t.sh.kids[1], 0) && t.sh.kids[1][0] == 2;
    assert LinkedAt(t.nodes, t.sh.kids[2], 0) && LinkedAt(t.nodes, t.sh.kids[2], 1);
    assert t.sh.kids[2][0] == 3 && t.sh.kids[2][1] == 4;
    assert Family(t.nodes, t.sh, 1) && Family(t.nodes, t.sh, 2) && Family(t.nodes, t.sh, 3) && Family(t.nodes, t.sh, 4);
    assert Owned(t.nodes, t.sh, 1, 1) && Owned(t.nodes, t.sh, 1, 2);
    assert Owned(t.nodes, t.sh, 1, 3) && Owned(t.nodes, t.sh, 1, 4);
  }

  /**
   A walk for permanent nodes of every type passes over the temporary child and is right, while the same walk for type 6
   goes below it and is not: what one set of types hides another may enter.
   */
  lemma HiddenFromOneMask()
    ensures var t := Tour(HiddenChild(), Query(true, false, {0, 5, 6}, 5, true), _ => Continue);
            && IsTree(t.tree) && WantsAll(t.tree, t.q) && Made(t, 1) == Listing(t, 1, 0, 1)
            && Made(Masked(t, {6}), 1) != Listing(Masked(t, {6}), 1, 0, 1)
  {
    HiddenChildTree();
    var t := Tour(HiddenChild(), Query(true, false, {0, 5, 6}, 5, true), _ => Continue);
    NotMisledByAll(t);
    MisledByOne(Masked(t, {6}));
    hide IsTree, Misled, Listing, Made;
    MadeIsListing(t, 1);
    MadeIsListing(Masked(t, {6}), 1);
  }

  lemma NotMisledByAll(t: Tour)
    requires t.tree == HiddenChild() && t.q == Query(true, false, {0, 5, 6}, 5, true)
    ensures IsTree(t.tree) && !Misled(t, 1, 0, 1, false)
  {
    HiddenChildTree();
    assert !Misled(t, 1, 1, 1, MatchAfter(t.tree, t.q, 1, 0, 1, false));
    assert !MisledAt(t, 1, 0, 1, false);
  }

  lemma MisledByOne(u: Tour)
    requires u.tree == HiddenChild() && u.q == Query(true, false, {6}, 5, true)
    ensures IsTree(u.tree) && Misled(u, 1, 0, 1, false)
  {
    HiddenChildTree();
    assert LastMatch(u.tree, u.q, 3, 0, 3, true);
    assert MatchAfter(u.tree, u.q, 2, 0, 2, false);
    assert MisledDown(u, 4, 2, true);
    assert MisledAt(u, 2, 1, 2, true);
    assert Misled(u, 2, 1, 2, true);
    assert Misled(u, 2, 0, 2, false);
    assert MisledAt(u, 1, 0, 1, false);
  }

  lemma TwoChildrenTree()
    ensures IsTree(TwoChildren())
  {
    var t := TwoChildren();
    assert LinkedAt(t.nodes, t.sh.kids[1], 0) && LinkedAt(t.nodes, t.sh.kids[1], 1);
    assert t.sh.kids[1][0] == 2 && t.sh.kids[1][1] == 3;
    assert Family(t.nodes, t.sh, 1) && Family(t.nodes, t.sh, 2) && Family(t.nodes, t.sh, 3);
    assert Owned(t.nodes, t.sh, 1, 1) && Owned(t.nodes, t.sh, 1, 2) && Owned(t.nodes, t.sh, 1, 3);
  }

  // ---------- no call is made twice ----------

  /** The ancestor k levels above an installed node, or the root if that is nearer. */
  ghost function Ancestor(t: Tree, n: nat, k: nat): nat
    requires IsTree(t) && n in t.sh.kids
    decreases k
  {
    if k == 0 || n == t.root then n else Ancestor(t, ParentOf(t, n), k - 1)
  }

  /** Everything listed lies below a child of p, from the i-th on, at the depth it is reported with. */
  ghost predicate Lies(t: Tour, p: nat, i: nat, d: nat, e: Event) {
    && IsTree(t.tree) && InList(t.tree, p, i)
    && e.node in t.tree.sh.kids && d <= e.depth
    && exists j :: i <= j < |t.tree.sh.kids[p]| && t.tree.sh.kids[p][j] == Ancestor(t.tree, e.node, e.depth - d)
  }

  /** Going up k levels and one more is going up k + 1 levels. */
  lemma {:induction false} AncestorStep(t: Tree, n: nat, k: nat)
    requires IsTree(t) && n in t.sh.kids
    ensures var a := Ancestor(t, n, k);
            a in t.sh.kids && (a != t.root ==> Ancestor(t, n, k + 1) == ParentOf(t, a))
    decreases k
  {
    if k > 0 && n != t.root {
      AncestorStep(t, ParentOf(t, n), k - 1);
    }
    hide IsTree;
  }

  lemma {:induction false} ListingLies(t: Tour, p: nat, i: nat, d: nat, e: Event)
    requires IsTree(t.tree) && InList(t.tree, p, i) && e in Listing(t, p, i, d)
    ensures Lies(t, p, i, d, e)
    decreases Below(t.tree, p), |t.tree.sh.kids[p]| - i
  {
    ListedWhere(t, p, i, d, e);
    hide *;
    if e in Listing(t, p, i + 1, d) {
      ListingLies(t, p, i + 1, d, e);
      LiesEarlier(t, p, i, d, e);
    } else if e.node == t.tree.sh.kids[p][i] && e.depth == d {
      LiesItself(t, p, i, d, e);
    } else {
      ListingLies(t, t.tree.sh.kids[p][i], 0, d + 1, e);
      LiesDeeper(t, p, i, d, e);
    }
  }

  /** A listed call is for the first child, below it, or with the later children. */
  lemma ListedWhere(t: Tour, p: nat, i: nat, d: nat, e: Event)
    requires IsTree(t.tree) && InList(t.tree, p, i) && e in Listing(t, p, i, d)
    ensures i < |t.tree.sh.kids[p]| && InList(t.tree, p, i + 1)
    ensures var n := t.tree.sh.kids[p][i];
            && n in t.tree.sh.kids && InList(t.tree, n, 0) && Below(t.tree, n) < Below(t.tree, p)
            && (e in Listing(t, p, i + 1, d) || (e.node == n && e.depth == d) || e in Listing(t, n, 0, d + 1))
  {
    assert i < |t.tree.sh.kids[p]|;
    var a, b, c, rest := ListingUnfold(t, p, i, d);
    hide IsTree, Listing;
  }

  lemma LiesEarlier(t: Tour, p: nat, i: nat, d: nat, e: Event)
    requires Lies(t, p, i + 1, d, e)
    ensures Lies(t, p, i, d, e)
  {
    hide IsTree;
  }

  lemma LiesItself(t: Tour, p: nat, i: nat, d: nat, e: Event)
    requires IsTree(t.tree) && p in t.tree.sh.kids && i < |t.tree.sh.kids[p]|
    requires e.node == t.tree.sh.kids[p][i] && e.depth == d
    ensures Lies(t, p, i, d, e)
  {
    ChildPlaced(t.tree, p, i);
    assert t.tree.sh.kids[p][i] == Ancestor(t.tree, e.node, 0);
    hide IsTree;
  }

  lemma LiesDeeper(t: Tour, p: nat, i: nat, d: nat, e: Event)
    requires IsTree(t.tree) && p in t.tree.sh.kids && i < |t.tree.sh.kids[p]|
    requires Lies(t, t.tree.sh.kids[p][i], 0, d + 1, e)
    ensures Lies(t, p, i, d, e)
  {
    ChildPlaced(t.tree, p, i);
    var n := t.tree.sh.kids[p][i];
    var j :| 0 <= j < |t.tree.sh.kids[n]| && t.tree.sh.kids[n][j] == Ancestor(t.tree, e.node, e.depth - d - 1);
    ChildPlaced(t.tree, n, j);
    assert Owned(t.tree.nodes, t.tree.sh, t.tree.root, t.tree.root);
    AncestorStep(t.tree, e.node, e.depth - d - 1);
    assert t.tree.sh.kids[p][i] == Ancestor(t.tree, e.node, e.depth - d);
    hide IsTree;
  }

  ghost predicate Once(s: seq<Event>) {
    forall i, j :: 0 <= i < j < |s| ==> s[i] != s[j]
  }

  lemma OnceJoin(a: seq<Event>, b: seq<Event>)
    requires Once(a) && Once(b) && forall e :: e in a ==> e !in b
    ensures Once(a + b)
  {
    var s := a + b;
    forall i, j | 0 <= i < j < |s| ensures s[i] != s[j] {
      if i < |a| <= j {
        assert a[i] in a;
        assert b[j - |a|] in b;
      }
    }
  }

  /** What lies below the i-th child does not lie below a later one, and is reported deeper. */
  lemma Apart(t: Tour, p: nat, i: nat, d: nat, e: Event)
    requires IsTree(t.tree) && p in t.tree.sh.kids && i < |t.tree.sh.kids[p]|
    requires t.tree.sh.kids[p][i] in t.tree.sh.kids && Lies(t, t.tree.sh.kids[p][i], 0, d + 1, e)
    ensures e.depth > d && !Lies(t, p, i + 1, d, e)
  {
    var n := t.tree.sh.kids[p][i];
    var j :| 0 <= j < |t.tree.sh.kids[n]| && t.tree.sh.kids[n][j] == Ancestor(t.tree, e.node, e.depth - d - 1);
    ChildPlaced(t.tree, p, i);
    ChildPlaced(t.tree, n, j);
    assert Owned(t.tree.nodes, t.tree.sh, t.tree.root, t.tree.root);
    AncestorStep(t.tree, e.node, e.depth - d - 1);
    assert n == Ancestor(t.tree, e.node, e.depth - d);
    hide IsTree;
  }

  lemma NotListed(t: Tour, p: nat, i: nat, d: nat, e: Event)
    requires IsTree(t.tree) && InList(t.tree, p, i) && !Lies(t, p, i, d, e)
    ensures e !in Listing(t, p, i, d)
  {
    if e in Listing(t, p, i, d) {
      ListingLies(t, p, i, d, e);
    }
  }

  /** The node itself does not lie below its later siblings. */
  lemma SelfApart(t: Tour, p: nat, i: nat, d: nat, e: Event)
    requires IsTree(t.tree) && p in t.tree.sh.kids && i < |t.tree.sh.kids[p]|
    requires e.node == t.tree.sh.kids[p][i] && e.depth == d
    ensures !Lies(t, p, i + 1, d, e)
  {
    ChildPlaced(t.tree, p, i);
    assert Ancestor(t.tree, e.node, 0) == e.node;
    hide IsTree;
  }

  /** Whatever is listed below the i-th child is deeper than it and not listed again with its later siblings. */
  lemma InnerApart(t: Tour, p: nat, i: nat, d: nat, e: Event)
    requires IsTree(t.tree) && p in t.tree.sh.kids && i < |t.tree.sh.kids[p]|
    requires var n := t.tree.sh.kids[p][i]; n in t.tree.sh.kids && e in Listing(t, n, 0, d + 1)
    ensures e.depth > d && e !in Listing(t, p, i + 1, d)
  {
    ListingLies(t, t.tree.sh.kids[p][i], 0, d + 1, e);
    Apart(t, p, i, d, e);
    NotListed(t, p, i + 1, d, e);
  }

  lemma OnceFour(a: seq<Event>, b: seq<Event>, c: seq<Event>, rest: seq<Event>)
    requires Once(a) && Once(b) && Once(c) && Once(rest)
    requires forall e :: e in a ==> e !in b && e !in c && e !in rest
    requires forall e :: e in b ==> e !in c && e !in rest
    requires forall e :: e in c ==> e !in rest
    ensures Once(a + b + c + rest)
  {
    OnceJoin(a, b);
    OnceJoin(a + b, c);
    hide Once;
    OnceJoin(a + b + c, rest);
  }

  /** A walk never makes the same call twice. */
  lemma {:induction false} ListingOnce(t: Tour, p: nat, i: nat, d: nat)
    requires IsTree(t.tree) && InList(t.tree, p, i)
    ensures Once(Listing(t, p, i, d))
    decreases Below(t.tree, p), |t.tree.sh.kids[p]| - i
  {
    if i < |t.tree.sh.kids[p]| {
      var a, b, c, rest := ListingUnfold(t, p, i, d);
      var n := t.tree.sh.kids[p][i];
      if !CutOff(t.tree.nodes[n], t.q, d) {
        ListingOnce(t, n, 0, d + 1);
      }
      ListingOnce(t, p, i + 1, d);
      forall e | e in b ensures e.depth > d && e !in rest {
        InnerApart(t, p, i, d, e);
      }
      forall e | e in a || e in c ensures e.node == n && e.depth == d && e !in rest {
        SelfApart(t, p, i, d, e);
        NotListed(t, p, i + 1, d, e);
      }
      assert Once(a) && Once(c) && forall e :: e in a ==> e.Down?;
      assert forall e :: e in c ==> e.Up?;
      hide *;
      OnceFour(a, b, c, rest);
    }
  }
}
