/**
 The ACPI namespace as linked nodes: installing and removing a node, and the final teardown. Node addresses are
 numbers and 0 is the null pointer. The shape (each node's children in order) is the tree the pointers spell.
 */
module NamespaceTree {
  import opened Extrema
  import opened Options

  datatype Status =
    Ok | InvalidArgument | NotFound | Denied | Dangling | InternalError | InvalidNameString | AlreadyExists |
    OutOfMemory

  /** `kind` is the type of the attached object, if one is attached; `name` is the four-character segment. */
  datatype Node = Node(
    parent: nat,
    child: nat,
    next: nat,
    dangling: bool,
    temporary: bool,
    kind: Option<nat>,
    name: seq<char>
  )

  type Nodes = map<nat, Node>

  /** Children in order, and the distance from the root, of every installed node. */
  datatype Shape = Shape(kids: map<nat, seq<nat>>, level: map<nat, nat>, height: nat)

  datatype Tree = Tree(nodes: Nodes, sh: Shape, root: nat)

  // ---------- the tree the pointers spell ----------

  ghost predicate NoDup(s: seq<nat>) {
    forall i, j :: 0 <= i < j < |s| ==> s[i] != s[j]
  }

  predicate LinkedAt(nodes: Nodes, list: seq<nat>, i: nat)
    requires i < |list|
  {
    list[i] in nodes && nodes[list[i]].next == if i + 1 < |list| then list[i + 1] else 0
  }

  /** The list starting at `first` and linked by next. */
  ghost predicate Chain(nodes: Nodes, first: nat, list: seq<nat>) {
    && first == (if list == [] then 0 else list[0])
    && forall i {:trigger LinkedAt(nodes, list, i)} :: 0 <= i < |list| ==> LinkedAt(nodes, list, i)
  }

  predicate Placed(nodes: Nodes, sh: Shape, p: nat, k: nat)
    requires p in sh.level
  {
    && k in nodes && k in sh.kids && k in sh.level && k != 0
    && nodes[k].parent == p && !nodes[k].dangling
    && sh.level[k] == sh.level[p] + 1
  }

  /** A node and its children agree. */
  ghost predicate Family(nodes: Nodes, sh: Shape, p: nat) {
    && p in nodes && p in sh.kids && p in sh.level && p != 0
    && sh.level[p] <= sh.height
    && Chain(nodes, nodes[p].child, sh.kids[p])
    && NoDup(sh.kids[p])
    && forall i :: 0 <= i < |sh.kids[p]| ==> Placed(nodes, sh, p, sh.kids[p][i])
  }

  /** Every installed node but the root is among its parent's children. */
  ghost predicate Owned(nodes: Nodes, sh: Shape, root: nat, n: nat) {
    n in nodes &&
    if n == root then nodes[n].parent == 0 && n in sh.level && sh.level[n] == 0
    else nodes[n].parent in sh.kids && n in sh.kids[nodes[n].parent]
  }

  /** A node that is not installed was removed, or never had any links. */
  predicate Loose(nodes: Nodes, n: nat)
    requires n in nodes
  {
    nodes[n].dangling || (nodes[n].parent == 0 && nodes[n].child == 0 && nodes[n].next == 0)
  }

  ghost predicate IsTree(t: Tree) {
    && t.root in t.sh.kids
    && (forall p {:trigger Family(t.nodes, t.sh, p)} :: p in t.sh.kids ==> Family(t.nodes, t.sh, p))
    && (forall n {:trigger Owned(t.nodes, t.sh, t.root, n)} :: n in t.sh.kids ==> Owned(t.nodes, t.sh, t.root, n))
    && (forall n {:trigger Loose(t.nodes, n)} :: n in t.nodes && n !in t.sh.kids ==> Loose(t.nodes, n))
    && 0 !in t.nodes
  }

  /** A place in the children of an installed node, or past the last of them. */
  ghost predicate InList(t: Tree, p: nat, i: nat) {
    p in t.sh.kids && i <= |t.sh.kids[p]|
  }

  /** The i-th child of an installed node is installed one level below it. */
  lemma ChildPlaced(t: Tree, p: nat, i: nat)
    requires IsTree(t) && p in t.sh.kids && i < |t.sh.kids[p]|
    ensures Family(t.nodes, t.sh, p) && Placed(t.nodes, t.sh, p, t.sh.kids[p][i])
    ensures Family(t.nodes, t.sh, t.sh.kids[p][i])
  {
    assert Family(t.nodes, t.sh, p);
    assert Placed(t.nodes, t.sh, p, t.sh.kids[p][i]);
  }

  /** How many levels the tree may still have below p. */
  ghost function Below(t: Tree, p: nat): nat {
    if p in t.sh.level && t.sh.level[p] <= t.sh.height then t.sh.height - t.sh.level[p] else 0
  }

  /** How many children of p are left from the j-th on. */
  ghost function Ahead(t: Tree, p: nat, j: nat): nat {
    if p in t.sh.kids && j <= |t.sh.kids[p]| then |t.sh.kids[p]| - j else 0
  }

  /** The child link is null exactly for a node without children. */
  lemma ChildLink(t: Tree, p: nat)
    requires IsTree(t) && p in t.sh.kids
    ensures p in t.nodes
    ensures if t.sh.kids[p] == [] then t.nodes[p].child == 0
            else t.nodes[p].child == t.sh.kids[p][0] && t.nodes[p].child in t.nodes && t.nodes[p].child != 0
  {
    assert Family(t.nodes, t.sh, p);
    if t.sh.kids[p] != [] {
      ChildPlaced(t, p, 0);
    }
    hide IsTree;
  }

  /** What the three links of a node that is child number i of p are. */
  lemma Links(t: Tree, p: nat, i: nat)
    requires IsTree(t) && p in t.sh.kids && i < |t.sh.kids[p]|
    ensures var kids := t.sh.kids;
            var n := kids[p][i];
            && n in t.nodes && n in kids && t.nodes[n].parent == p
            && t.nodes[n].next == (if i + 1 < |kids[p]| then kids[p][i + 1] else 0)
            && t.nodes[n].child == if kids[n] == [] then 0 else kids[n][0]
    ensures i + 1 < |t.sh.kids[p]| ==> t.nodes[t.sh.kids[p][i]].next != 0
    ensures t.sh.kids[t.sh.kids[p][i]] != [] ==> t.nodes[t.sh.kids[p][i]].child != 0
  {
    ChildPlaced(t, p, i);
    var n := t.sh.kids[p][i];
    assert LinkedAt(t.nodes, t.sh.kids[p], i);
    if i + 1 < |t.sh.kids[p]| {
      ChildPlaced(t, p, i + 1);
    }
    if t.sh.kids[n] != [] {
      ChildPlaced(t, n, 0);
    }
  }

  // ---------- adding a node ----------

  /** The shape with n as the last child of p. */
  function Added(sh: Shape, p: nat, n: nat): Shape
    requires p in sh.kids && p in sh.level
  {
    Shape(sh.kids[n := []][p := sh.kids[p] + [n]], sh.level[n := sh.level[p] + 1], Max(sh.height, sh.level[p] + 1))
  }

  /** The links with n hung behind the last child of p. */
  function Hung(t: Tree, p: nat, n: nat): Nodes
    requires p in t.sh.kids && p in t.nodes && n in t.nodes && t.nodes[n].next == 0
  {
    var list := t.sh.kids[p];
    var nodes :=
      if list == [] then t.nodes[p := t.nodes[p].(child := n)]
      else if list[|list| - 1] in t.nodes then
        var last := list[|list| - 1]; t.nodes[last := t.nodes[last].(next := n)]
      else t.nodes;
    nodes[n := nodes[n].(parent := p)]
  }

  /** A node is the child of one parent only. */
  lemma OneParent(t: Tree, p: nat, i: nat, x: nat, j: nat)
    requires IsTree(t) && p in t.sh.kids && i < |t.sh.kids[p]| && x in t.sh.kids && j < |t.sh.kids[x]|
    requires t.sh.kids[p][i] == t.sh.kids[x][j]
    ensures p == x && i == j
  {
    ChildPlaced(t, p, i);
    ChildPlaced(t, x, j);
  }

  lemma AddedFamily(t: Tree, p: nat, n: nat, x: nat)
    requires IsTree(t) && p in t.sh.kids && p in t.sh.level && p in t.nodes
    requires n in t.nodes && n !in t.sh.kids && !t.nodes[n].dangling
    requires x == n || x in t.sh.kids
    ensures Loose(t.nodes, n)
    ensures Family(Hung(t, p, n), Added(t.sh, p, n), x)
  {
    assert Loose(t.nodes, n) && Family(t.nodes, t.sh, p);
    var list := t.sh.kids[p];
    if list != [] {
      ChildPlaced(t, p, |list| - 1);
    }
    var nodes', sh' := Hung(t, p, n), Added(t.sh, p, n);
    if x != n {
      assert Family(t.nodes, t.sh, x);
      forall i: nat | i < |sh'.kids[x]|
        ensures LinkedAt(nodes', sh'.kids[x], i) && Placed(nodes', sh', x, sh'.kids[x][i])
      {
        if i < |t.sh.kids[x]| {
          ChildPlaced(t, x, i);
          assert LinkedAt(t.nodes, t.sh.kids[x], i);
          if list != [] && t.sh.kids[x][i] == list[|list| - 1] {
            OneParent(t, p, |list| - 1, x, i);
          }
        }
      }
    }
  }

  lemma AddedOwned(t: Tree, p: nat, n: nat, x: nat)
    requires IsTree(t) && p in t.sh.kids && p in t.sh.level && p in t.nodes
    requires n in t.nodes && n !in t.sh.kids && Loose(t.nodes, n) && !t.nodes[n].dangling
    requires x == n || x in t.sh.kids
    ensures Owned(Hung(t, p, n), Added(t.sh, p, n), t.root, x)
  {
    var sh' := Added(t.sh, p, n);
    if x == n {
      assert sh'.kids[p][|t.sh.kids[p]|] == n;
    } else {
      assert Owned(t.nodes, t.sh, t.root, x);
      if x != t.root && t.nodes[x].parent == p {
        var i :| 0 <= i < |t.sh.kids[p]| && t.sh.kids[p][i] == x;
        assert sh'.kids[p][i] == x;
      }
    }
  }

  /** Hanging a loose node behind the last child of an installed one gives the tree with that one child more. */
  lemma AddedIsTree(t: Tree, p: nat, n: nat)
    requires IsTree(t) && p in t.sh.kids && p in t.sh.level && p in t.nodes
    requires n in t.nodes && n !in t.sh.kids && !t.nodes[n].dangling
    ensures Loose(t.nodes, n) && IsTree(Tree(Hung(t, p, n), Added(t.sh, p, n), t.root))
  {
    assert Loose(t.nodes, n);
    var t' := Tree(Hung(t, p, n), Added(t.sh, p, n), t.root);
    forall x: nat | x in t'.sh.kids ensures Family(t'.nodes, t'.sh, x) && Owned(t'.nodes, t'.sh, t.root, x) {
      AddedFamily(t, p, n, x);
      AddedOwned(t, p, n, x);
    }
    if t.sh.kids[p] != [] {
      ChildPlaced(t, p, |t.sh.kids[p]| - 1);
    }
    forall x: nat | x in t'.nodes && x !in t'.sh.kids ensures Loose(t'.nodes, x) {
      assert Loose(t.nodes, x);
    }
    hide Family, Owned;
  }

  // ---------- removing a node ----------

  /** The shape without child number i of p. */
  function Dropped(sh: Shape, p: nat, i: nat): Shape
    requires p in sh.kids && i < |sh.kids[p]|
  {
    sh.(kids := (sh.kids - {sh.kids[p][i]})[p := sh.kids[p][..i] + sh.kids[p][i + 1..]])
  }

  /** The links with child number i of p bypassed and marked dangling; its object is detached. */
  function Bypassed(t: Tree, p: nat, i: nat): Nodes
    requires p in t.sh.kids && i < |t.sh.kids[p]| && p in t.nodes && t.sh.kids[p][i] in t.nodes
  {
    var list := t.sh.kids[p];
    var n := list[i];
    var nodes := t.nodes[n := t.nodes[n].(kind := None)];
    var nodes' :=
      if i == 0 then nodes[p := nodes[p].(child := nodes[n].next)]
      else if list[i - 1] in nodes then nodes[list[i - 1] := nodes[list[i - 1]].(next := nodes[n].next)]
      else nodes;
    nodes'[n := nodes'[n].(dangling := true)]
  }

  lemma DroppedLink(t: Tree, p: nat, i: nat, x: nat, j: nat)
    requires IsTree(t) && p in t.sh.kids && i < |t.sh.kids[p]| && p in t.nodes && t.sh.kids[p][i] in t.nodes
    requires p != t.sh.kids[p][i] && x in t.sh.level
    requires x in t.sh.kids && x != t.sh.kids[p][i] && j < |Dropped(t.sh, p, i).kids[x]|
    ensures var nodes', sh' := Bypassed(t, p, i), Dropped(t.sh, p, i);
            LinkedAt(nodes', sh'.kids[x], j) && Placed(nodes', sh', x, sh'.kids[x][j])
  {
    var nodes', sh' := Bypassed(t, p, i), Dropped(t.sh, p, i);
    var list, list' := t.sh.kids[x], sh'.kids[x];
    var n := t.sh.kids[p][i];
    // where the element came from
    var j0 := if x == p && j >= i then j + 1 else j;
    assert list'[j] == list[j0];
    ChildPlaced(t, x, j0);
    ChildPlaced(t, p, i);
    assert LinkedAt(t.nodes, list, j0) && LinkedAt(t.nodes, t.sh.kids[p], i);
    if i > 0 {
      ChildPlaced(t, p, i - 1);
    }
    if list[j0] == n {
      OneParent(t, p, i, x, j0);
    }
    if i > 0 && list[j0] == t.sh.kids[p][i - 1] {
      OneParent(t, p, i - 1, x, j0);
    }
    if j + 1 < |list'| {
      assert list'[j + 1] == list[if x == p && j + 1 >= i then j + 2 else j + 1];
    }
    hide Family, NoDup, Chain, IsTree;
  }

  lemma DroppedFamily(t: Tree, p: nat, i: nat, x: nat)
    requires IsTree(t) && p in t.sh.kids && i < |t.sh.kids[p]| && p in t.nodes && t.sh.kids[p][i] in t.nodes
    requires x in t.sh.kids && x != t.sh.kids[p][i]
    ensures Family(Bypassed(t, p, i), Dropped(t.sh, p, i), x)
  {
    var nodes', sh' := Bypassed(t, p, i), Dropped(t.sh, p, i);
    assert Family(t.nodes, t.sh, x);
    ChildPlaced(t, p, i);
    forall j: nat | j < |sh'.kids[x]|
      ensures LinkedAt(nodes', sh'.kids[x], j) && Placed(nodes', sh', x, sh'.kids[x][j])
    {
      DroppedLink(t, p, i, x, j);
    }
    if x == p && i == 0 {
      assert LinkedAt(t.nodes, t.sh.kids[p], 0);
    }
    hide Placed, LinkedAt;
  }

  lemma DroppedOwned(t: Tree, p: nat, i: nat, x: nat)
    requires IsTree(t) && p in t.sh.kids && i < |t.sh.kids[p]| && p in t.nodes && t.sh.kids[p][i] in t.nodes
    requires x in t.sh.kids && x != t.sh.kids[p][i] && t.sh.kids[p][i] in t.sh.kids
    requires t.sh.kids[t.sh.kids[p][i]] == []
    ensures Owned(Bypassed(t, p, i), Dropped(t.sh, p, i), t.root, x)
  {
    var sh' := Dropped(t.sh, p, i);
    assert Owned(t.nodes, t.sh, t.root, x);
    if x != t.root && t.nodes[x].parent == p {
      var j :| 0 <= j < |t.sh.kids[p]| && t.sh.kids[p][j] == x;
      assert sh'.kids[p][if j < i then j else j - 1] == x;
    }
  }

  lemma DroppedLoose(t: Tree, p: nat, i: nat, x: nat)
    requires IsTree(t) && p in t.sh.kids && i < |t.sh.kids[p]| && p in t.nodes && t.sh.kids[p][i] in t.nodes
    requires x in t.nodes && (x in t.sh.kids ==> x == t.sh.kids[p][i])
    ensures x in Bypassed(t, p, i) && Loose(Bypassed(t, p, i), x)
  {
    if x != t.sh.kids[p][i] {
      assert Loose(t.nodes, x);
      if i > 0 {
        ChildPlaced(t, p, i - 1);
      }
    }
    hide IsTree;
  }

  lemma DroppedKeys(t: Tree, p: nat, i: nat)
    requires IsTree(t) && p in t.sh.kids && i < |t.sh.kids[p]| && p in t.nodes && t.sh.kids[p][i] in t.nodes
    ensures p != t.sh.kids[p][i] && t.root != t.sh.kids[p][i] && t.sh.kids[p][i] in t.sh.kids
    ensures Dropped(t.sh, p, i).kids.Keys == t.sh.kids.Keys - {t.sh.kids[p][i]}
    ensures Bypassed(t, p, i).Keys == t.nodes.Keys
  {
    ChildPlaced(t, p, i);
    assert Owned(t.nodes, t.sh, t.root, t.root);
    hide IsTree;
  }

  /** Bypassing a childless node gives the tree without it. */
  lemma DroppedIsTree(t: Tree, p: nat, i: nat)
    requires IsTree(t) && p in t.sh.kids && i < |t.sh.kids[p]| && p in t.nodes && t.sh.kids[p][i] in t.nodes
    requires t.sh.kids[p][i] in t.sh.kids && t.sh.kids[t.sh.kids[p][i]] == []
    ensures IsTree(Tree(Bypassed(t, p, i), Dropped(t.sh, p, i), t.root))
  {
    var nodes', sh' := Bypassed(t, p, i), Dropped(t.sh, p, i);
    DroppedKeys(t, p, i);
    hide Family, Owned, Loose, Bypassed, Dropped;
    forall x: nat | x in sh'.kids ensures Family(nodes', sh', x) && Owned(nodes', sh', t.root, x) {
      DroppedFamily(t, p, i, x);
      DroppedOwned(t, p, i, x);
    }
    forall x: nat | x in nodes' && x !in sh'.kids ensures Loose(nodes', x) {
      DroppedLoose(t, p, i, x);
    }
  }

  /** Only the links matter to the tree. */
  lemma SameLinks(t: Tree, nodes': Nodes)
    requires IsTree(t) && nodes'.Keys == t.nodes.Keys
    requires forall n :: n in t.nodes ==>
               && nodes'[n].parent == t.nodes[n].parent && nodes'[n].child == t.nodes[n].child
               && nodes'[n].next == t.nodes[n].next && nodes'[n].dangling == t.nodes[n].dangling
    ensures IsTree(Tree(nodes', t.sh, t.root))
  {
    forall x: nat | x in t.sh.kids ensures Family(nodes', t.sh, x) && Owned(nodes', t.sh, t.root, x) {
      assert Family(t.nodes, t.sh, x) && Owned(t.nodes, t.sh, t.root, x);
      forall i: nat | i < |t.sh.kids[x]|
        ensures LinkedAt(nodes', t.sh.kids[x], i) && Placed(nodes', t.sh, x, t.sh.kids[x][i])
      {
        assert LinkedAt(t.nodes, t.sh.kids[x], i) && Placed(t.nodes, t.sh, x, t.sh.kids[x][i]);
      }
    }
    forall x: nat | x in nodes' && x !in t.sh.kids ensures Loose(nodes', x) {
      assert Loose(t.nodes, x);
    }
    hide Family, Owned;
  }

  /** Whether a node without children can be found among its siblings: it is installed and is not the root. */
  lemma Linked(t: Tree, n: nat) returns (at: nat)
    requires IsTree(t) && n in t.nodes && !t.nodes[n].dangling && t.nodes[n].child == 0
    ensures n in t.sh.kids ==> t.sh.kids[n] == []
    ensures t.nodes[n].parent == 0 <==> n == t.root || n !in t.sh.kids
    ensures t.nodes[n].parent != 0 ==>
              var p := t.nodes[n].parent;
              p in t.nodes && p in t.sh.kids && at < |t.sh.kids[p]| && t.sh.kids[p][at] == n
  {
    at := 0;
    if n !in t.sh.kids {
      assert Loose(t.nodes, n);
    } else {
      assert Owned(t.nodes, t.sh, t.root, n) && Family(t.nodes, t.sh, n);
      if t.sh.kids[n] != [] {
        ChildPlaced(t, n, 0);
        assert false;
      }
      if n != t.root {
        var p := t.nodes[n].parent;
        assert Family(t.nodes, t.sh, p);
        at :| at < |t.sh.kids[p]| && t.sh.kids[p][at] == n;
      }
    }
    hide IsTree;
  }

  // ---------- taking the whole tree down ----------

  /** Every child of p before c has no children of its own. */
  ghost predicate ChildlessBefore(t: Tree, p: nat, c: nat)
    requires p in t.sh.kids
  {
    forall i, j :: 0 <= i < j < |t.sh.kids[p]| && t.sh.kids[p][j] == c ==> Childless(t.sh, t.sh.kids[p][i])
  }

  predicate Childless(sh: Shape, n: nat) {
    n in sh.kids && sh.kids[n] == []
  }

  /** Everything the walk has passed on its way down to c is already childless. */
  ghost predicate Cleared(t: Tree, c: nat)
    requires IsTree(t) && c in t.sh.kids
    decreases if c in t.sh.level then t.sh.level[c] else 0
  {
    c == t.root ||
    (var p := ParentOf(t, c);
     ChildlessBefore(t, p, c) && Cleared(t, p))
  }

  /** The parent of an installed node other than the root is installed one level above. */
  ghost function ParentOf(t: Tree, c: nat): (p: nat)
    requires IsTree(t) && c in t.sh.kids && c != t.root
    ensures p in t.sh.kids && c in t.sh.kids[p] && c in t.nodes && p == t.nodes[c].parent
    ensures p in t.sh.level && c in t.sh.level && t.sh.level[c] == t.sh.level[p] + 1
  {
    assert Owned(t.nodes, t.sh, t.root, c);
    var p := t.nodes[c].parent;
    var i :| 0 <= i < |t.sh.kids[p]| && t.sh.kids[p][i] == c;
    ChildPlaced(t, p, i);
    p
  }

  /** t' is t with only children of w removed, all of them childless. */
  ghost predicate Trimmed(t: Tree, t': Tree, w: nat) {
    && t'.root == t.root && t'.sh.level == t.sh.level && t'.sh.height == t.sh.height
    && w in t.sh.kids && w in t'.sh.kids && t'.sh.kids.Keys <= t.sh.kids.Keys
    && (forall x :: x in t'.sh.kids && x != w ==> t'.sh.kids[x] == t.sh.kids[x])
    && (forall x :: x in t.sh.kids && x !in t'.sh.kids ==> x in t.sh.kids[w])
    && (forall x :: x in t'.sh.kids && x in t.nodes && x in t'.nodes ==> t'.nodes[x].parent == t.nodes[x].parent)
  }

  lemma {:induction false} ClearedTrimmed(t: Tree, t': Tree, w: nat, c: nat)
    requires IsTree(t) && IsTree(t') && Trimmed(t, t', w) && c in t.sh.kids && c in t'.sh.kids && Cleared(t, c)
    requires w in t.sh.level && c in t.sh.level && (c == w || t.sh.level[c] < t.sh.level[w])
    ensures Cleared(t', c)
    decreases t.sh.level[c]
  {
    if c != t.root {
      var p := ParentOf(t, c);
      assert ParentOf(t', c) == p;
      ClearedTrimmed(t, t', w, p);
      forall i, j | 0 <= i < j < |t'.sh.kids[p]| && t'.sh.kids[p][j] == c ensures Childless(t'.sh, t'.sh.kids[p][i]) {
        assert Childless(t.sh, t.sh.kids[p][i]);
        ChildPlaced(t', p, i);
      }
    }
  }

  /** With no node left under the root, no other node is left. */
  lemma {:induction false} NothingLeft(t: Tree, n: nat)
    requires IsTree(t) && Childless(t.sh, t.root) && n in t.sh.kids
    ensures n == t.root
    decreases if n in t.sh.level then t.sh.level[n] else 0
  {
    if n != t.root {
      var p := ParentOf(t, n);
      NothingLeft(t, p);
    }
  }

  /** The removals so far, from the shape at the start to the shape now: each node once, after all its children. */
  ghost predicate History(sh0: Shape, sh: Shape, removed: seq<nat>) {
    && NoDup(removed)
    && (forall x :: x in sh0.kids <==> x in sh.kids || x in removed)
    && (forall x :: x in removed ==> x !in sh.kids)
    && (forall x, k :: x in sh.kids && k in sh0.kids[x] ==> k in sh.kids[x] || k in removed)
    && ChildrenFirst(sh0, removed)
  }

  ghost predicate ChildrenFirst(sh0: Shape, removed: seq<nat>) {
    forall i, k :: 0 <= i < |removed| && removed[i] in sh0.kids && k in sh0.kids[removed[i]] ==> k in removed[..i]
  }

  lemma OneMoreRemoved(sh0: Shape, sh: Shape, removed: seq<nat>, p: nat, i: nat)
    requires History(sh0, sh, removed) && p in sh.kids && i < |sh.kids[p]|
    requires Childless(sh, sh.kids[p][i]) && p != sh.kids[p][i]
    ensures History(sh0, Dropped(sh, p, i), removed + [sh.kids[p][i]])
  {
    var n := sh.kids[p][i];
    var sh', removed' := Dropped(sh, p, i), removed + [n];
    forall x, k | x in sh'.kids && k in sh0.kids[x] ensures k in sh'.kids[x] || k in removed' {
      if k in sh.kids[x] && x == p && k != n {
        var j :| 0 <= j < |sh.kids[p]| && sh.kids[p][j] == k;
        assert sh'.kids[p][if j < i then j else j - 1] == k;
      }
    }
    forall j, k | 0 <= j < |removed'| && removed'[j] in sh0.kids && k in sh0.kids[removed'[j]]
      ensures k in removed'[..j]
    {
      if j < |removed| {
        assert k in removed[..j];
        assert removed'[..j] == removed[..j];
      } else {
        assert k in sh.kids[n] || k in removed;
        assert removed'[..j] == removed;
      }
    }
  }

  lemma DropTrims(t: Tree, t1: Tree, w: nat)
    requires Trimmed(t, t1, w) && t1.sh.kids[w] != [] && w in t1.nodes && t1.sh.kids[w][0] in t1.nodes
    requires t1.sh.kids[w][0] != w && t1.sh.kids[w][0] in t.sh.kids[w]
    ensures Trimmed(t, Tree(Bypassed(t1, w, 0), Dropped(t1.sh, w, 0), t.root), w)
  {
  }

  /** The inner loop's state: only childless children of c have gone since t, and each is in the history. */
  ghost predicate Wiping(t: Tree, t1: Tree, c: nat, sh0: Shape, removed: seq<nat>) {
    && IsTree(t) && IsTree(t1) && Trimmed(t, t1, c) && History(sh0, t1.sh, removed)
    && forall k :: k in t1.sh.kids[c] ==> k in t.sh.kids[c] && Childless(t1.sh, k)
  }

  /** The first child can be removed: it is in its place, and childless. */
  lemma WipeFirst(t: Tree, c: nat)
    requires IsTree(t) && c in t.sh.kids && t.sh.kids[c] != [] && Childless(t.sh, t.sh.kids[c][0])
    ensures var k := t.sh.kids[c][0];
            && c in t.nodes && k in t.nodes && k in t.sh.kids && k != t.root && k == t.nodes[c].child && k != c
            && !t.nodes[k].dangling && t.nodes[k].child == 0 && t.nodes[k].parent == c
            && (forall i :: 0 <= i < |t.sh.kids[c]| && t.sh.kids[c][i] == k ==> i == 0)
  {
    ChildLink(t, c);
    ChildPlaced(t, c, 0);
    Links(t, c, 0);
    DroppedKeys(t, c, 0);
    OnlyFirst(t, c);
    hide IsTree;
  }

  /** Nothing the inner loop relies on is lost by removing it. */
  lemma WipeStep(t: Tree, t1: Tree, c: nat, sh0: Shape, removed: seq<nat>)
    requires Wiping(t, t1, c, sh0, removed) && t1.sh.kids[c] != []
    ensures var k := t1.sh.kids[c][0];
            && Childless(t1.sh, k) && c in t1.nodes && k in t1.nodes
            && Wiping(t, Tree(Bypassed(t1, c, 0), Dropped(t1.sh, c, 0), t1.root), c, sh0, removed + [k])
            && |Dropped(t1.sh, c, 0).kids| == |t1.sh.kids| - 1
  {
    var k := t1.sh.kids[c][0];
    assert k in t1.sh.kids[c] && Childless(t1.sh, k);
    WipeFirst(t1, c);
    ChildPlaced(t1, c, 0);
    DroppedKeys(t1, c, 0);
    DroppedIsTree(t1, c, 0);
    hide IsTree, Family, Bypassed;
    OneMoreRemoved(sh0, t1.sh, removed, c, 0);
    DropTrims(t, t1, c);
    RestChildless(t1.sh, c);
    hide Trimmed, History, Dropped, Childless;
    assert |Dropped(t1.sh, c, 0).kids| == |Dropped(t1.sh, c, 0).kids.Keys| && |t1.sh.kids| == |t1.sh.kids.Keys|;
  }

  lemma OnlyFirst(t: Tree, c: nat)
    requires IsTree(t) && c in t.sh.kids && t.sh.kids[c] != []
    ensures forall i :: 0 <= i < |t.sh.kids[c]| && t.sh.kids[c][i] == t.sh.kids[c][0] ==> i == 0
  {
    assert Family(t.nodes, t.sh, c);
    hide IsTree;
  }

  lemma RestChildless(sh: Shape, c: nat)
    requires c in sh.kids && sh.kids[c] != [] && sh.kids[c][0] != c && NoDup(sh.kids[c])
    requires forall k :: k in sh.kids[c] ==> Childless(sh, k)
    ensures var sh' := Dropped(sh, c, 0);
            forall x :: x in sh'.kids[c] ==> x in sh.kids[c] && (x != c ==> Childless(sh', x))
  {
    var sh' := Dropped(sh, c, 0);
    assert sh'.kids[c] == sh.kids[c][1..];
    forall x | x in sh'.kids[c] && x != c ensures x in sh.kids[c] && Childless(sh', x) {
      assert x in sh.kids[c];
      assert Childless(sh, x);
    }
  }

  /** The loop's state while it works: everything before the j-th child of `current` is childless. */
  ghost predicate Working(t: Tree, current: nat, next: nat, depth: nat, j: nat) {
    && IsTree(t) && current in t.sh.kids && current in t.sh.level && depth == t.sh.level[current] + 1
    && Cleared(t, current)
    && j <= |t.sh.kids[current]| && next == (if j == 0 then 0 else t.sh.kids[current][j - 1])
    && (forall i :: 0 <= i < j ==> Childless(t.sh, t.sh.kids[current][i]))
    && (current == t.root || t.sh.kids[current] != [])
  }

  /** The teardown loop's whole state. */
  ghost predicate AtLoop(t: Tree, current: nat, next: nat, depth: nat, j: nat, sh0: Shape, removed: seq<nat>) {
    && IsTree(t) && History(sh0, t.sh, removed)
    && if depth == 0 then Childless(t.sh, t.root) else Working(t, current, next, depth, j)
  }

  /** Before the first step. */
  lemma LoopStart(t: Tree)
    requires IsTree(t)
    ensures AtLoop(t, t.root, 0, 1, 0, t.sh, [])
  {
    assert Owned(t.nodes, t.sh, t.root, t.root);
    hide IsTree;
  }

  /** What the loop reads next: the j-th child, or null when every child has been passed and can be wiped. */
  lemma LoopNext(t: Tree, current: nat, next: nat, depth: nat, j: nat, sh0: Shape, removed: seq<nat>)
    requires AtLoop(t, current, next, depth, j, sh0, removed) && depth != 0
    ensures Working(t, current, next, depth, j) && current in t.sh.kids
    ensures current in t.nodes && (next != 0 ==> next in t.nodes)
    ensures var n := if next == 0 then t.nodes[current].child else t.nodes[next].next;
            if Ahead(t, current, j) == 0 then n == 0 && Wiping(t, t, current, sh0, removed)
            else
              && j < |t.sh.kids[current]| && n != 0 && n == t.sh.kids[current][j] && n in t.nodes && n in t.sh.kids
              && (t.nodes[n].child == 0 <==> t.sh.kids[n] == [])
  {
    ChildLink(t, current);
    if j > 0 {
      Links(t, current, j - 1);
      ChildPlaced(t, current, j - 1);
    }
    if j < |t.sh.kids[current]| {
      ChildPlaced(t, current, j);
      ChildLink(t, t.sh.kids[current][j]);
    }
    hide IsTree, History;
  }

  /** Past a childless child, the loop moves on to the next. */
  lemma LoopOver(t: Tree, current: nat, next: nat, depth: nat, j: nat, sh0: Shape, removed: seq<nat>)
    requires AtLoop(t, current, next, depth, j, sh0, removed) && depth != 0
    requires current in t.sh.kids && j < |t.sh.kids[current]|
    requires var n := t.sh.kids[current][j]; n in t.sh.kids && t.sh.kids[n] == []
    ensures AtLoop(t, current, t.sh.kids[current][j], depth, j + 1, sh0, removed)
    ensures Ahead(t, current, j + 1) < Ahead(t, current, j)
  {
    hide IsTree, History;
  }

  /** Stepping down to the j-th child, in front of its first. */
  lemma LoopDown(t: Tree, current: nat, next: nat, depth: nat, j: nat, sh0: Shape, removed: seq<nat>)
    requires AtLoop(t, current, next, depth, j, sh0, removed) && depth != 0
    requires current in t.sh.kids && j < |t.sh.kids[current]|
    requires var n := t.sh.kids[current][j]; n in t.sh.kids && t.sh.kids[n] != []
    ensures AtLoop(t, t.sh.kids[current][j], 0, depth + 1, 0, sh0, removed)
    ensures Below(t, t.sh.kids[current][j]) < Below(t, current)
  {
    var n := t.sh.kids[current][j];
    ChildPlaced(t, current, j);
    assert Owned(t.nodes, t.sh, t.root, t.root);
    assert ParentOf(t, n) == current;
    forall a, b | 0 <= a < b < |t.sh.kids[current]| && t.sh.kids[current][b] == n
      ensures Childless(t.sh, t.sh.kids[current][a])
    {
      OneParent(t, current, b, current, j);
    }
    hide IsTree, History;
  }

  /** A childless node, everything before it being childless, as the loop sees it from its parent. */
  lemma WorkingAbove(t: Tree, c: nat) returns (j: nat)
    requires IsTree(t) && c in t.sh.kids && Cleared(t, c) && Childless(t.sh, c) && c != t.root
    ensures c in t.nodes && c in t.sh.level && t.sh.level[c] > 0
    ensures Working(t, t.nodes[c].parent, c, t.sh.level[c], j)
  {
    var p := ParentOf(t, c);
    var k :| 0 <= k < |t.sh.kids[p]| && t.sh.kids[p][k] == c;
    j := k + 1;
    hide IsTree;
  }

  /** Stepping back up from a wiped node; above the root the loop ends. */
  lemma LoopUp(t: Tree, t': Tree, c: nat, next: nat, depth: nat, j: nat, sh0: Shape, removed: seq<nat>)
    returns (j': nat)
    requires depth != 0 && Working(t, c, next, depth, j)
    requires Wiping(t, t', c, sh0, removed) && Childless(t'.sh, c)
    ensures c in t'.nodes && depth != 0
    ensures AtLoop(t', t'.nodes[c].parent, c, depth - 1, j', sh0, removed)
    ensures depth == 1 || (c in t.sh.kids && t.sh.kids[c] != [])
  {
    j' := 0;
    ClearedTrimmed(t, t', c, c);
    assert Owned(t'.nodes, t'.sh, t'.root, c);
    if c == t.root {
      assert Owned(t.nodes, t.sh, t.root, c);
    } else {
      j' := WorkingAbove(t', c);
    }
    hide IsTree, History, Cleared, Working, Childless;
  }

  /** At the end only the root is left, and the history is complete. */
  lemma LoopDone(t: Tree, current: nat, next: nat, j: nat, sh0: Shape, removed: seq<nat>)
    requires AtLoop(t, current, next, 0, j, sh0, removed)
    ensures IsTree(t) && t.sh.kids.Keys == {t.root}
    ensures NoDup(removed) && ChildrenFirst(sh0, removed)
    ensures forall n :: n in removed <==> n in sh0.kids && n != t.root
  {
    forall n | n in t.sh.kids ensures n == t.root {
      NothingLeft(t, n);
    }
    hide IsTree;
  }

  /** A node nobody has linked yet. */
  predicate Untouched(node: Node) {
    node.parent == 0 && node.child == 0 && node.next == 0 && !node.dangling
  }

  /** The same node but for its links. */
  predicate SameObject(was: Node, now: Node) {
    now == was.(parent := now.parent, child := now.child, next := now.next)
  }

  ghost predicate SameObjects(nodes: Nodes, nodes': Nodes) {
    nodes'.Keys == nodes.Keys && forall n :: n in nodes ==> SameObject(nodes[n], nodes'[n])
  }

  /** A tree of the root and the listed children, the rest of the nodes as they were. */
  ghost predicate StartedWith(nodes: Nodes, t: Tree, list: seq<nat>) {
    && SameObjects(nodes, t.nodes)
    && t.root in t.sh.kids && t.sh.kids[t.root] == list
    && t.sh.kids.Keys == {t.root} + (set n | n in list)
    && forall n :: n in nodes && n !in t.sh.kids ==> t.nodes[n] == nodes[n]
  }

  lemma HungUnderRoot(nodes: Nodes, t: Tree, list: seq<nat>, n: nat)
    requires IsTree(t) && StartedWith(nodes, t, list)
    requires n in nodes && Untouched(nodes[n]) && n !in list && n != t.root
    ensures t.root in t.sh.level && t.root in t.nodes && n in t.nodes && n !in t.sh.kids && !t.nodes[n].dangling
    ensures t.nodes[n].next == 0
    ensures StartedWith(nodes, Tree(Hung(t, t.root, n), Added(t.sh, t.root, n), t.root), list + [n])
  {
    assert Family(t.nodes, t.sh, t.root);
    if list != [] {
      ChildPlaced(t, t.root, |list| - 1);
      assert list[|list| - 1] in t.sh.kids;
    }
    hide IsTree, Family, Owned, Loose;
    forall m | m in nodes
      ensures var nodes' := Hung(t, t.root, n);
              && m in nodes' && (m !in t.sh.kids && m != n ==> nodes'[m] == nodes[m])
              && SameObject(nodes[m], nodes'[m])
    {
      HungSame(t, t.root, n, m);
    }
    HungSame(t, t.root, n, n);
    AddedKids(t, list, n);
    hide Hung, Added, Untouched, SameObject;
  }

  lemma AddedKids(t: Tree, list: seq<nat>, n: nat)
    requires t.root in t.sh.kids && t.root in t.sh.level && t.sh.kids[t.root] == list && n != t.root
    requires t.sh.kids.Keys == {t.root} + (set m | m in list)
    ensures var sh' := Added(t.sh, t.root, n);
            && t.root in sh'.kids && sh'.kids[t.root] == list + [n]
            && sh'.kids.Keys == t.sh.kids.Keys + {n} == {t.root} + (set m | m in list + [n])
  {
    assert (set m | m in list + [n]) == (set m | m in list) + {n};
  }

  /** Hanging a node changes links only, and those of installed nodes and the new one only. */
  lemma HungSame(t: Tree, p: nat, n: nat, m: nat)
    requires p in t.sh.kids && p in t.nodes && n in t.nodes && t.nodes[n].next == 0 && m in t.nodes
    requires t.sh.kids[p] != [] ==> t.sh.kids[p][|t.sh.kids[p]| - 1] in t.sh.kids
    ensures var nodes' := Hung(t, p, n);
            && nodes'.Keys == t.nodes.Keys
            && SameObject(t.nodes[m], nodes'[m])
            && (m !in t.sh.kids && m != n ==> nodes'[m] == t.nodes[m])
  {
  }

  lemma RootOnlyIsTree(nodes: Nodes, root: nat)
    requires root in nodes && 0 !in nodes && forall n :: n in nodes ==> Untouched(nodes[n])
    ensures IsTree(Tree(nodes, Shape(map[root := []], map[root := 0], 0), root))
    ensures StartedWith(nodes, Tree(nodes, Shape(map[root := []], map[root := 0], 0), root), [])
  {
  }

  class Namespace {
    var nodes: Nodes
    const root: nat
    ghost var shape: Shape

    ghost function View(): Tree
      reads this
    {
      Tree(nodes, shape, root)
    }

    ghost predicate Valid()
      reads this
    {
      IsTree(View())
    }

    /** The root alone, the other nodes not yet linked. */
    constructor (root: nat, nodes: Nodes)
      requires root in nodes && 0 !in nodes && forall n :: n in nodes ==> Untouched(nodes[n])
      ensures Valid() && this.root == root && StartedWith(nodes, View(), [])
    {
      this.root, this.nodes := root, nodes;
      shape := Shape(map[root := []], map[root := 0], 0);
      new;
      RootOnlyIsTree(nodes, root);
      hide IsTree, StartedWith;
    }

    /** uacpi_initialize_namespace: the predefined nodes under the root, in their order. */
    method Predefine(predefined: seq<nat>)
      requires Valid() && StartedWith(nodes, View(), [])
      requires NoDup(predefined) && forall n :: n in predefined ==> n in nodes && Untouched(nodes[n]) && n != root
      modifies this
      ensures Valid() && StartedWith(old(nodes), View(), predefined)
    {
      hide IsTree, Hung, Added, StartedWith, Loose, Untouched;
      for i := 0 to |predefined|
        invariant Valid() && StartedWith(old(nodes), View(), predefined[..i])
      {
        InstallNext(predefined, i, old(nodes));
      }
      assert predefined[..|predefined|] == predefined;
    }

    /** One round of it. */
    method InstallNext(predefined: seq<nat>, i: nat, ghost nodes0: Nodes)
      requires Valid() && i < |predefined| && NoDup(predefined) && StartedWith(nodes0, View(), predefined[..i])
      requires predefined[i] in nodes0 && Untouched(nodes0[predefined[i]]) && predefined[i] != root
      modifies this
      ensures Valid() && StartedWith(nodes0, View(), predefined[..i + 1])
    {
      var n := predefined[i];
      assert n !in predefined[..i];
      HungUnderRoot(nodes0, View(), predefined[..i], n);
      hide *;
      var status := Install(root, n);
      assert predefined[..i + 1] == predefined[..i] + [n];
    }

    /** Hangs a node behind its new siblings; a node that was once removed is refused. */
    method Install(parent: nat, node: nat) returns (status: Status)
      requires Valid() && node in nodes && node !in shape.kids && (parent != 0 ==> parent in shape.kids)
      modifies this
      ensures Valid()
      ensures old(nodes[node].dangling) ==> status == Dangling && View() == old(View())
      ensures var p := if parent == 0 then root else parent;
              !old(nodes[node].dangling) ==>
                && status == Ok && p in old(shape.level) && p in old(nodes) && Loose(old(nodes), node)
                && nodes == Hung(old(View()), p, node) && shape == Added(old(shape), p, node)
    {
      var p := if parent == 0 then root else parent;
      ghost var t := View();
      assert Family(nodes, shape, p);
      if nodes[node].dangling {
        return Dangling;
      }
      ChildLink(t, p);
      AddedIsTree(t, p, node);
      ghost var list := shape.kids[p];
      if nodes[p].child == 0 {
        nodes := nodes[p := nodes[p].(child := node)];
      } else {
        var prev := nodes[p].child;
        ghost var i := 0;
        ChildPlaced(t, p, 0);
        assert LinkedAt(nodes, list, 0);
        while nodes[prev].next != 0
          invariant nodes == t.nodes && shape == t.sh
          invariant 0 <= i < |list| && prev == list[i] && LinkedAt(nodes, list, i)
          decreases |list| - i
        {
          prev := nodes[prev].next;
          i := i + 1;
          assert LinkedAt(nodes, list, i);
        }
        assert i + 1 == |list| || Placed(t.nodes, t.sh, p, list[i + 1]);
        nodes := nodes[prev := nodes[prev].(next := node)];
      }
      nodes := nodes[node := nodes[node].(parent := p)];
      shape := Added(shape, p, node);
      return Ok;
    }

    /** Takes a childless node out from among its siblings, wherever it is, and marks it dangling. */
    method Uninstall(node: nat) returns (status: Status, ghost at: nat)
      requires Valid() && node in nodes
      modifies this
      ensures Valid() && nodes.Keys == old(nodes.Keys)
      ensures old(nodes[node].dangling) ==> status == InternalError && View() == old(View())
      ensures !old(nodes[node].dangling) && old(nodes[node].child) != 0 ==> status == Denied && View() == old(View())
      ensures !old(nodes[node].dangling) && old(nodes[node].child) == 0 ==>
                if node == root || node !in old(shape.kids) then
                  && status == InternalError && shape == old(shape)
                  && nodes == old(nodes[node := nodes[node].(kind := None)])
                else
                  var p := old(nodes[node].parent);
                  && status == Ok && p in old(nodes) && p in old(shape.kids) && at < |old(shape.kids)[p]|
                  && old(shape.kids)[p][at] == node
                  && nodes == Bypassed(old(View()), p, at) && shape == Dropped(old(shape), p, at)
    {
      at := 0;
      if nodes[node].dangling {
        return InternalError, 0;
      }
      if nodes[node].child != 0 {
        return Denied, 0;
      }
      ghost var t := View();
      at := Linked(t, node);
      nodes := nodes[node := nodes[node].(kind := None)];
      SameLinks(t, nodes);
      if nodes[node].parent == 0 {
        return InternalError, at;
      }
      var p := nodes[node].parent;
      ghost var list := shape.kids[p];
      DroppedKeys(t, p, at);
      DroppedIsTree(t, p, at);
      ChildPlaced(t, p, 0);
      var prev := nodes[p].child;
      if prev == node {
        OneParent(t, p, 0, p, at);
        nodes := nodes[p := nodes[p].(child := nodes[node].next)];
      } else {
        ghost var i := 0;
        assert LinkedAt(t.nodes, list, 0);
        while prev != 0 && nodes[prev].next != node
          invariant i < at < |list| && prev == list[i] && prev in nodes && LinkedAt(t.nodes, list, i)
          invariant nodes == t.nodes[node := t.nodes[node].(kind := None)] && shape == t.sh
          decreases |list| - i
        {
          prev := nodes[prev].next;
          i := i + 1;
          ChildPlaced(t, p, i);
          assert LinkedAt(t.nodes, list, i);
        }
        ChildPlaced(t, p, i);
        assert list[i + 1] == node;
        assert i + 1 == at by {
          OneParent(t, p, i + 1, p, at);
        }
        nodes := nodes[prev := nodes[prev].(next := nodes[node].next)];
      }
      nodes := nodes[node := nodes[node].(dangling := true)];
      shape := Dropped(shape, p, at);
      return Ok, at;
    }

    /** The inner loop of the teardown: removes the children of a node, all childless, one after the other. */
    method Wipe(c: nat, ghost sh0: Shape, removed: seq<nat>) returns (removed': seq<nat>)
      requires Wiping(View(), View(), c, sh0, removed)
      modifies this
      ensures Wiping(old(View()), View(), c, sh0, removed') && Childless(shape, c)
      ensures if old(shape.kids[c]) == [] then |shape.kids| == |old(shape.kids)|
              else |shape.kids| < |old(shape.kids)|
    {
      ghost var t := View();
      removed' := removed;
      ChildLink(View(), c);
      while nodes[c].child != 0
        invariant Wiping(t, View(), c, sh0, removed') && c in nodes
        invariant nodes[c].child == 0 <==> shape.kids[c] == []
        invariant |shape.kids| - |shape.kids[c]| == |t.sh.kids| - |t.sh.kids[c]|
        decreases |shape.kids[c]|
      {
        ghost var t1 := View();
        WipeStep(t, t1, c, sh0, removed');
        WipeFirst(t1, c);
        var k := nodes[c].child;
        hide IsTree, Trimmed, History, Childless;
        var status, at := Uninstall(k);
        assert status == Ok && at == 0;
        removed' := removed' + [k];
        ChildLink(View(), c);
      }
    }

    /**
     Takes down the whole tree: no removal is refused, every node but the root is removed exactly once and after all
     its children, and only the root is left.
     */
    method Deinitialize() returns (removed: seq<nat>)
      requires Valid()
      modifies this
      ensures Valid() && shape.kids.Keys == {root}
      ensures NoDup(removed) && ChildrenFirst(old(shape), removed)
      ensures forall n :: n in removed <==> n in old(shape.kids) && n != root
    {
      ghost var t0 := View();
      removed := [];
      var current: nat, next: nat, depth: nat := root, 0, 1;
      ghost var j: nat := 0;
      LoopStart(t0);
      hide *;
      while depth != 0
        invariant AtLoop(View(), current, next, depth, j, t0.sh, removed)
        decreases |shape.kids| + (if depth != 0 then 1 else 0),
                  Below(View(), current),
                  Ahead(View(), current, j)
      {
        ghost var t := View();
        LoopNext(t, current, next, depth, j, t0.sh, removed);
        ghost var next0 := next;
        next := if next == 0 then nodes[current].child else nodes[next].next;
        if next == 0 {
          depth := depth - 1;
          removed := Wipe(current, t0.sh, removed);
          ghost var j' := LoopUp(t, View(), current, next0, depth + 1, j, t0.sh, removed);
          j := j';
          next := current;
          current := nodes[current].parent;
          continue;
        }
        if nodes[next].child != 0 {
          LoopDown(t, current, next0, depth, j, t0.sh, removed);
          depth := depth + 1;
          current := next;
          next := 0;
          j := 0;
        } else {
          LoopOver(t, current, next0, depth, j, t0.sh, removed);
          j := j + 1;
        }
      }
      LoopDone(View(), current, next, j, t0.sh, removed);
    }
  }
}
