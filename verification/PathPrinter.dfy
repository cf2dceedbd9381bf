/**
 The absolute path of a namespace node: the printer, which fills its buffer from the back, and when resolving the
 printed path leads back to the node.
 */
module PathPrinter {
  import opened NameAgreement
  import opened NamePaths
  import opened NamespaceTree
  import opened Options

  /** The names from below the root down to n. */
  ghost function NamesDown(t: Tree, n: nat): seq<seq<char>>
    requires IsTree(t) && n in t.sh.kids
    decreases if n in t.sh.level then t.sh.level[n] else 0
  {
    if n == t.root then [] else NamesDown(t, ParentOf(t, n)) + [t.nodes[n].name]
  }

  ghost function AbsolutePath(t: Tree, n: nat): seq<char>
    requires IsTree(t) && n in t.sh.kids
  {
    ['\\'] + Joined(NamesDown(t, n))
  }

  /** Names as the namespace stores them: four characters, none of them a dot. */
  ghost predicate PlainNames(t: Tree) {
    forall n :: n in t.sh.kids && n in t.nodes ==> IsPlain(t.nodes[n].name)
  }

  lemma {:induction false} NamesPlain(t: Tree, n: nat)
    requires IsTree(t) && n in t.sh.kids && PlainNames(t)
    ensures var names := NamesDown(t, n); forall i :: 0 <= i < |names| ==> IsPlain(names[i])
    ensures n in t.sh.level && |NamesDown(t, n)| == t.sh.level[n]
    decreases if n in t.sh.level then t.sh.level[n] else 0
  {
    assert Owned(t.nodes, t.sh, t.root, t.root);
    if n != t.root {
      NamesPlain(t, ParentOf(t, n));
      assert IsPlain(t.nodes[n].name);
    }
    hide IsTree, IsPlain;
  }

  // ---------- printing and resolving ----------

  /** No ancestor of n, nor n itself, has an earlier sibling of the same name. */
  ghost predicate Unshadowed(t: Tree, n: nat)
    requires IsTree(t) && n in t.sh.kids
    decreases if n in t.sh.level then t.sh.level[n] else 0
  {
    n == t.root ||
    (var p := ParentOf(t, n); Named(t, p, t.nodes[n].name) == Some(n) && Unshadowed(t, p))
  }

  lemma {:induction false} DescendOneMore(t: Tree, n: nat, segs: seq<seq<char>>, last: seq<char>)
    requires IsTree(t) && n in t.sh.kids
    ensures var r := Descend(t, n, segs, false);
            Descend(t, n, segs + [last], false) ==
            if r.Failed? then r
            else var next := Named(t, r.node, last); if next.Some? then At(next.value) else Failed(NotFound)
    decreases |segs|
  {
    if segs == [] {
      assert ([] + [last])[1..] == [];
    } else {
      assert (segs + [last])[1..] == segs[1..] + [last];
      var next := Named(t, n, segs[0]);
      if next.Some? {
        DescendOneMore(t, next.value, segs[1..], last);
      }
    }
    hide IsTree, Named;
  }

  /** What is found under p is a child of p. */
  lemma {:induction false} NamedIsChild(t: Tree, p: nat, i: nat, name: seq<char>)
    requires IsTree(t) && InList(t, p, i)
    ensures var r := ChildNamed(t, p, i, name); r.Some? ==> r.value != t.root && ParentOf(t, r.value) == p
    decreases |t.sh.kids[p]| - i
  {
    if i < |t.sh.kids[p]| {
      ChildPlaced(t, p, i);
      assert Owned(t.nodes, t.sh, t.root, t.root);
      NamedIsChild(t, p, i + 1, name);
    }
    hide IsTree;
  }

  /** Descending along n's own names reaches n exactly when no name on the way is shadowed. */
  lemma {:induction false} DescendNames(t: Tree, n: nat)
    requires IsTree(t) && n in t.sh.kids && t.root in t.sh.kids
    ensures Descend(t, t.root, NamesDown(t, n), false) == At(n) <==> Unshadowed(t, n)
    decreases if n in t.sh.level then t.sh.level[n] else 0
  {
    if n != t.root {
      var p, name := ParentOf(t, n), t.nodes[n].name;
      DescendNames(t, p);
      DescendOneMore(t, t.root, NamesDown(t, p), name);
      var r := Descend(t, t.root, NamesDown(t, p), false);
      if r.At? {
        NamedIsChild(t, r.node, 0, name);
      }
    }
    hide IsTree, ChildNamed;
  }

  /**
   The printed path of a node leads back to it, from every scope and with or without search, exactly when neither the
   node nor any of its ancestors has an earlier sibling of the same name.
   */
  lemma PrintThenResolve(t: Tree, n: nat, scope: nat, search: bool)
    requires IsTree(t) && n in t.sh.kids && scope in t.sh.kids && PlainNames(t)
    ensures Lookup(t, scope, AbsolutePath(t, n), search) == At(n) <==> Unshadowed(t, n)
  {
    var path, names := AbsolutePath(t, n), NamesDown(t, n);
    NamesPlain(t, n);
    SegmentsOfJoined(names);
    CaretsAre(path, 0, 0);
    assert path[1..] == Joined(names);
    DescendNames(t, n);
    hide IsTree, Joined, Segments, NamesDown, Unshadowed, Descend;
  }

  /** A root with two children of the same name. */
  function Twins(): Tree {
    Tree(map[1 := Node(0, 2, 0, false, false, Some(0), "____"), 2 := Node(1, 0, 3, false, false, Some(6), "AAAA"),
             3 := Node(1, 0, 0, false, false, Some(6), "AAAA")],
         Shape(map[1 := [2, 3], 2 := [], 3 := []], map[1 := 0, 2 := 1, 3 := 1], 1), 1)
  }

  lemma TwinsTree()
    ensures IsTree(Twins()) && PlainNames(Twins())
    ensures ParentOf(Twins(), 2) == 1 == ParentOf(Twins(), 3) && Named(Twins(), 1, "AAAA") == Some(2)
  {
    var t := Twins();
    assert LinkedAt(t.nodes, t.sh.kids[1], 0) && LinkedAt(t.nodes, t.sh.kids[1], 1);
    assert t.sh.kids[1][0] == 2 && t.sh.kids[1][1] == 3;
    assert Family(t.nodes, t.sh, 1) && Family(t.nodes, t.sh, 2) && Family(t.nodes, t.sh, 3);
    assert Owned(t.nodes, t.sh, 1, 1) && Owned(t.nodes, t.sh, 1, 2) && Owned(t.nodes, t.sh, 1, 3);
  }

  /** The printed path of the second leads to the first, from wherever it is resolved. */
  lemma TwinFound(scope: nat, search: bool)
    requires scope in Twins().sh.kids
    ensures IsTree(Twins()) && Lookup(Twins(), scope, AbsolutePath(Twins(), 3), search) == At(2)
  {
    TwinsTree();
    var t := Twins();
    assert Unshadowed(t, 2) && AbsolutePath(t, 3) == AbsolutePath(t, 2);
    hide *;
    PrintThenResolve(t, 2, scope, search);
  }

  /** Children with different names. */
  ghost predicate UniqueNames(t: Tree) {
    forall p, i, j ::
      p in t.sh.kids && 0 <= i < j < |t.sh.kids[p]| && t.sh.kids[p][i] in t.nodes && t.sh.kids[p][j] in t.nodes
      ==> t.nodes[t.sh.kids[p][i]].name != t.nodes[t.sh.kids[p][j]].name
  }

  lemma {:induction false} NamedIsFirst(t: Tree, p: nat, i: nat, k: nat)
    requires IsTree(t) && UniqueNames(t) && p in t.sh.kids && i <= k < |t.sh.kids[p]|
    requires t.sh.kids[p][k] in t.nodes
    ensures ChildNamed(t, p, i, t.nodes[t.sh.kids[p][k]].name) == Some(t.sh.kids[p][k])
    decreases k - i
  {
    ChildPlaced(t, p, i);
    if i < k {
      NamedIsFirst(t, p, i + 1, k);
    }
    hide IsTree;
  }

  /** With sibling names unique, every printed path leads back. */
  lemma {:induction false} UniqueMeansUnshadowed(t: Tree, n: nat)
    requires IsTree(t) && n in t.sh.kids && UniqueNames(t)
    ensures Unshadowed(t, n)
    decreases if n in t.sh.level then t.sh.level[n] else 0
  {
    if n != t.root {
      var p := ParentOf(t, n);
      UniqueMeansUnshadowed(t, p);
      var k :| 0 <= k < |t.sh.kids[p]| && t.sh.kids[p][k] == n;
      NamedIsFirst(t, p, 0, k);
    }
    hide IsTree;
  }

  // ---------- the printer ----------

  /** uacpi_namespace_node_depth: the links up to the root. */
  method NodeDepth(ns: Namespace, node: nat) returns (depth: nat)
    requires ns.Valid() && node in ns.shape.kids
    ensures node in ns.shape.level && depth == ns.shape.level[node]
  {
    ghost var t := ns.View();
    var n := node;
    depth := 0;
    NameLinks(t, n);
    RootLevel(t);
    hide IsTree;
    while ns.nodes[n].parent != 0
      invariant n in t.sh.kids && n in t.nodes && n in t.sh.level && node in t.sh.level
      invariant t.nodes[n].parent != 0 <==> n != t.root
      invariant depth + t.sh.level[n] == t.sh.level[node]
      decreases t.sh.level[n]
    {
      NameLinks(t, n);
      n := ns.nodes[n].parent;
      NameLinks(t, n);
      depth := depth + 1;
    }
  }

  lemma RootLevel(t: Tree)
    requires IsTree(t)
    ensures t.root in t.sh.level && t.sh.level[t.root] == 0
    ensures forall n :: n in t.sh.kids ==> n in t.sh.level
  {
    assert Owned(t.nodes, t.sh, t.root, t.root);
    forall n | n in t.sh.kids ensures n in t.sh.level {
      assert Family(t.nodes, t.sh, n);
    }
    hide IsTree;
  }

  /** One more name behind some joined ones. */
  lemma {:induction false} JoinedLast(names: seq<seq<char>>, last: seq<char>)
    requires names != []
    ensures Joined(names + [last]) == Joined(names) + (['.'] + last)
    decreases |names|
  {
    var all := names + [last];
    assert all[1..] == names[1..] + [last];
    if |names| == 1 {
      assert names[1..] + [last] == [last];
    } else {
      JoinedLast(names[1..], last);
      JoinedParts(names);
      JoinedParts(all);
    }
  }

  /** How long the path still to be written is, and what its last name is. */
  lemma PathTail(t: Tree, n: nat)
    requires IsTree(t) && n in t.sh.kids && n != t.root && PlainNames(t) && n in t.nodes
    ensures var p := ParentOf(t, n);
            var here, above := Joined(NamesDown(t, n)), Joined(NamesDown(t, p));
            && |t.nodes[n].name| == 4
            && here == if p == t.root then t.nodes[n].name else above + (['.'] + t.nodes[n].name)
    ensures ParentOf(t, n) == t.root ==> Joined(NamesDown(t, ParentOf(t, n))) == []
  {
    var p := ParentOf(t, n);
    NamesPlain(t, n);
    NamesPlain(t, p);
    assert IsPlain(t.nodes[n].name);
    if p == t.root {
      assert NamesDown(t, p) == [];
      assert NamesDown(t, n) == [t.nodes[n].name];
    } else {
      assert NamesDown(t, p) != [];
      JoinedLast(NamesDown(t, p), t.nodes[n].name);
    }
    hide IsTree, Joined;
  }

  /** The part of the text in front of `offset` is the path of n. */
  ghost predicate UpTo(t: Tree, text: seq<char>, offset: nat, n: nat) {
    && IsTree(t) && n in t.sh.kids && 1 <= offset <= |text|
    && text[..offset] == ['\\'] + Joined(NamesDown(t, n))
  }

  /** The last name of that part, the dot in front of it, and the part for the parent. */
  lemma PathStep(t: Tree, text: seq<char>, offset: nat, n: nat)
    requires UpTo(t, text, offset, n) && n != t.root && PlainNames(t) && n in t.nodes
    ensures var p := ParentOf(t, n);
            var offset' := if p == t.root then offset - 4 else offset - 5;
            && |t.nodes[n].name| == 4 && 1 <= offset' && UpTo(t, text, offset', p)
            && (forall j :: offset - 4 <= j < offset ==> text[j] == t.nodes[n].name[j - (offset - 4)])
            && (p != t.root ==> text[offset - 5] == '.')
  {
    PathTail(t, n);
    var p := ParentOf(t, n);
    var here, above, name := Joined(NamesDown(t, n)), Joined(NamesDown(t, p)), t.nodes[n].name;
    hide IsTree, Joined, NamesDown, ParentOf, PlainNames;
    var part := text[..offset];
    forall j | offset - 4 <= j < offset ensures text[j] == name[j - (offset - 4)] {
      assert part[j] == text[j];
    }
    if p == t.root {
      assert text[..offset - 4] == part[..offset - 4];
    } else {
      assert text[offset - 5] == part[offset - 5];
      assert text[..offset - 5] == part[..offset - 5];
    }
  }

  /** At the root only the leading backslash is left. */
  lemma PathStart(t: Tree, text: seq<char>, offset: nat)
    requires UpTo(t, text, offset, t.root)
    ensures offset == 1 && text[0] == '\\'
  {
    assert text[..offset] == ['\\'];
  }

  /** uacpi_namespace_node_generate_absolute_path's loop, from the back of the buffer to the front. */
  method WriteNames(ns: Namespace, node: nat, path: array<char>, ghost text: seq<char>)
    requires ns.Valid() && PlainNames(ns.View()) && UpTo(ns.View(), text, |text|, node)
    requires path.Length == |text| + 1 && path[0] == '\\' && path[|text|] == '\0'
    modifies path
    ensures path[..] == text + ['\0']
  {
    ghost var t := ns.View();
    var n, offset: nat := node, path.Length - 1;
    while n != ns.root
      invariant UpTo(t, text, offset, n)
      invariant path[0] == '\\' && path[|text|] == '\0'
      invariant forall j :: offset <= j < |text| ==> path[j] == text[j]
      decreases if n in t.sh.level then t.sh.level[n] else 0
    {
      NameLinks(t, n);
      PathStep(t, text, offset, n);
      ghost var p := ParentOf(t, n);
      hide IsTree, Joined, NamesDown, UpTo, PlainNames, ParentOf;
      offset := offset - 4;
      forall j | offset <= j < offset + 4 {
        path[j] := ns.nodes[n].name[j - offset];
      }
      n := ns.nodes[n].parent;
      if n != ns.root {
        offset := offset - 1;
        path[offset] := '.';
      }
    }
    PathStart(t, text, offset);
    assert path[..] == text + ['\0'];
  }

  /** The buffer is exactly as long as the path and its terminator, and is filled completely. */
  method GenerateAbsolutePath(ns: Namespace, node: nat) returns (path: array<char>)
    requires ns.Valid() && node in ns.shape.kids && PlainNames(ns.View())
    ensures fresh(path) && path[..] == AbsolutePath(ns.View(), node) + ['\0']
  {
    ghost var t := ns.View();
    var depth := NodeDepth(ns, node);
    depth := depth + 1;
    var bytesNeeded := 1 + (depth - 1) * 4;
    bytesNeeded := bytesNeeded + if depth > 2 then depth - 2 else 0;
    bytesNeeded := bytesNeeded + 1;
    path := new char[bytesNeeded];
    path[0] := '\\';
    path[bytesNeeded - 1] := '\0';
    ghost var text := AbsolutePath(t, node);
    NamesPlain(t, node);
    JoinedShape(NamesDown(t, node));
    assert text[..|text|] == text;
    WriteNames(ns, node, path, text);
  }
}
