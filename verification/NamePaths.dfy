/**
 Names of namespace nodes: the resolver of textual paths, the resolver of AML NameStrings (section 20.2.2 of the
 ACPI 6.5 specification), the translation of the latter into the former, and the printer of absolute paths.
 */
module NamePaths {
  import opened NamespaceTree
  import opened Options

  const DUAL_NAME_PREFIX := '.'
  const MULTI_NAME_PREFIX := '/'
  const NULL_NAME := '\0'

  /** A resolved node, or why there is none. */
  datatype Found = At(node: nat) | Failed(status: Status)

  // ---------- looking a name up in the tree ----------

  /** The first child of p, from the i-th on, with that name. */
  ghost function ChildNamed(t: Tree, p: nat, i: nat, name: seq<char>): (r: Option<nat>)
    requires IsTree(t) && InList(t, p, i)
    ensures r.Some? ==> r.value in t.sh.kids
    decreases |t.sh.kids[p]| - i
  {
    if i == |t.sh.kids[p]| then None
    else
      ChildPlaced(t, p, i);
      var n := t.sh.kids[p][i];
      if t.nodes[n].name == name then Some(n) else ChildNamed(t, p, i + 1, name)
  }

  ghost function Named(t: Tree, p: nat, name: seq<char>): (r: Option<nat>)
    requires IsTree(t) && p in t.sh.kids
    ensures r.Some? ==> r.value in t.sh.kids
  {
    ChildNamed(t, p, 0, name)
  }

  /** The name in p or, failing that, in the nearest ancestor that has it. */
  ghost function NamedUpward(t: Tree, p: nat, name: seq<char>): (r: Option<nat>)
    requires IsTree(t) && p in t.sh.kids
    ensures r.Some? ==> r.value in t.sh.kids
    decreases if p in t.sh.level then t.sh.level[p] else 0
  {
    var here := Named(t, p, name);
    if here.Some? || p == t.root then here else NamedUpward(t, ParentOf(t, p), name)
  }

  /** k levels up, if the tree goes that far. */
  ghost function Climb(t: Tree, n: nat, k: nat): (r: Option<nat>)
    requires IsTree(t) && n in t.sh.kids
    ensures r.Some? ==> r.value in t.sh.kids
    decreases k
  {
    if k == 0 then Some(n) else if n == t.root then None else Climb(t, ParentOf(t, n), k - 1)
  }

  /** Segment after segment down from n; a checked segment must be a valid name. */
  ghost function Descend(t: Tree, n: nat, segs: seq<seq<char>>, checked: bool): (r: Found)
    requires IsTree(t) && n in t.sh.kids
    ensures r.At? ==> r.node in t.sh.kids
    decreases |segs|
  {
    if segs == [] then At(n)
    else if checked && !IsNameSeg(segs[0]) then Failed(InvalidNameString)
    else
      var next := Named(t, n, segs[0]);
      if next == None then Failed(NotFound) else Descend(t, next.value, segs[1..], checked)
  }

  predicate IsNameChar(c: char) {
    'A' <= c <= 'Z' || c == '_' || '0' <= c <= '9'
  }

  /** The code takes a digit in the first place too, which the grammar does not. */
  predicate IsNameSeg(s: seq<char>) {
    |s| == 4 && forall i :: 0 <= i < 4 ==> IsNameChar(s[i])
  }

  // ---------- prefixes, common to both notations ----------

  /** How many '^' stand at i. */
  function Carets(s: seq<char>, i: nat): (k: nat)
    requires i <= |s|
    ensures i + k <= |s| && (i + k < |s| ==> s[i + k] != '^')
    ensures forall j :: i <= j < i + k ==> s[j] == '^'
    decreases |s| - i
  {
    if i < |s| && s[i] == '^' then 1 + Carets(s, i + 1) else 0
  }

  /** Where the name proper begins: after the carets, or after a root character. */
  function PrefixEnd(s: seq<char>, i: nat): (e: nat)
    requires i <= |s|
    ensures i <= e <= |s|
  {
    var j := i + Carets(s, i);
    if j < |s| && s[j] == '\\' then j + 1 else j
  }

  /** The node the prefix leads to. */
  ghost function PrefixNode(t: Tree, scope: nat, s: seq<char>, i: nat): (r: Option<nat>)
    requires IsTree(t) && scope in t.sh.kids && i <= |s|
    ensures r.Some? ==> r.value in t.sh.kids
  {
    var k := Carets(s, i);
    if i + k < |s| && s[i + k] == '\\' then (if k > 0 then None else Some(t.root))
    else Climb(t, scope, k)
  }

  // ---------- textual paths ----------

  function SegLen(s: seq<char>, n: nat): (k: nat)
    requires n <= 4
    ensures k <= |s| && n + k <= 4
    decreases 4 - n
  {
    if n == 4 || s == [] || s[0] == '.' then 0 else 1 + SegLen(s[1..], n + 1)
  }

  function Padded(s: seq<char>): (r: seq<char>)
    requires |s| <= 4
    ensures |r| == 4 && s <= r
    decreases 4 - |s|
  {
    if |s| == 4 then s else Padded(s + ['_'])
  }

  function SkipDot(s: seq<char>): (r: seq<char>) {
    if s != [] && s[0] == '.' then s[1..] else s
  }

  /** The segments of a path without its prefix: at most four characters up to a dot, filled up with '_'. */
  function Segments(s: seq<char>): seq<seq<char>>
    decreases |s|
  {
    if s == [] then []
    else
      var rest := SkipDot(s);
      var k := SegLen(rest, 0);
      [Padded(rest[..k])] + Segments(rest[k..])
  }

  /** What a textual path means from a scope. */
  ghost function Lookup(t: Tree, scope: nat, path: seq<char>, search: bool): (r: Found)
    requires IsTree(t) && scope in t.sh.kids
    ensures r.At? ==> r.node in t.sh.kids
  {
    var e := PrefixEnd(path, 0);
    var from := PrefixNode(t, scope, path, 0);
    var segs := Segments(path[e..]);
    if from == None then Failed(InvalidArgument)
    else if search && e == 0 && |segs| == 1 then
      var r := NamedUpward(t, scope, segs[0]);
      if r.Some? then At(r.value) else Failed(NotFound)
    else Descend(t, from.value, segs, false)
  }

  // ---------- AML NameStrings ----------

  /** A NamePath: `count` segments from `body` on; `alone` when it is a plain NameSeg. */
  datatype NamePath = Malformed | NullName | Segs(count: nat, body: nat, alone: bool)

  function NamePathAt(code: seq<char>, at: nat): (p: NamePath)
    ensures p.Segs? ==> p.body + 4 * p.count <= |code| && p.count > 0
  {
    if at >= |code| then Malformed
    else
      var p :=
        if code[at] == DUAL_NAME_PREFIX then Segs(2, at + 1, false)
        else if code[at] == MULTI_NAME_PREFIX then
          if at + 1 >= |code| || code[at + 1] as int == 0 then Malformed else Segs(code[at + 1] as int, at + 2, false)
        else if code[at] == NULL_NAME then NullName
        else Segs(1, at, true);
      if p.Segs? && p.body + 4 * p.count > |code| then Malformed else p
  }

  function SegsAt(code: seq<char>, body: nat, count: nat): (r: seq<seq<char>>)
    requires body + 4 * count <= |code|
    ensures |r| == count
    decreases count
  {
    if count == 0 then [] else [code[body..body + 4]] + SegsAt(code, body + 4, count - 1)
  }

  /** What a NameString means from a scope when the node must exist. */
  ghost function LookupAml(t: Tree, scope: nat, code: seq<char>, offset: nat): (r: Found)
    requires IsTree(t) && scope in t.sh.kids && offset <= |code|
    ensures r.At? ==> r.node in t.sh.kids
  {
    var e := PrefixEnd(code, offset);
    var from := PrefixNode(t, scope, code, offset);
    var p := NamePathAt(code, e);
    if from == None || p == Malformed then Failed(InvalidNameString)
    else if p == NullName then (if e == offset then Failed(InvalidNameString) else At(from.value))
    else
      var segs := SegsAt(code, p.body, p.count);
      if p.alone && e == offset then
        if !IsNameSeg(segs[0]) then Failed(InvalidNameString)
        else
          var r := NamedUpward(t, scope, segs[0]);
          if r.Some? then At(r.value) else Failed(NotFound)
      else Descend(t, from.value, segs, true)
  }

  /** A node to be created under a parent, or why not. */
  datatype Creation = New(parent: nat, name: seq<char>) | Refused(status: Status)

  /** What a NameString means when its last segment is to be created. */
  ghost function LookupNew(t: Tree, scope: nat, code: seq<char>, offset: nat): (r: Creation)
    requires IsTree(t) && scope in t.sh.kids && offset <= |code|
  {
    var from := PrefixNode(t, scope, code, offset);
    var p := NamePathAt(code, PrefixEnd(code, offset));
    if from == None || !p.Segs? then Refused(InvalidNameString)
    else
      var last := code[p.body + 4 * (p.count - 1)..][..4];
      var parent := Descend(t, from.value, SegsAt(code, p.body, p.count - 1), true);
      if parent.Failed? then Refused(parent.status)
      else if !IsNameSeg(last) then Refused(InvalidNameString)
      else if Named(t, parent.node, last).Some? then Refused(AlreadyExists)
      else New(parent.node, last)
  }

  /** A digit, a capital letter or an underscore, by its code. */
  predicate NameByte(k: int) {
    0x30 <= k <= 0x39 || 0x41 <= k <= 0x5A || k == 0x5F
  }

  /**
   A single segment without a prefix is refused for its characters if and only if one of them is no digit, capital
   letter or underscore; any other is looked up, in the scope and above, or created in the scope if it is not there.
   */
  lemma SegmentAccepted(t: Tree, scope: nat, seg: seq<char>)
    requires IsTree(t) && scope in t.sh.kids && |seg| == 4
    requires seg[0] != '^' && seg[0] != '\\' && seg[0] != '.' && seg[0] != '/' && seg[0] as int != 0
    ensures (forall i :: 0 <= i < 4 ==> NameByte(seg[i] as int)) ==>
              && LookupAml(t, scope, seg, 0) == (var r := NamedUpward(t, scope, seg);
                                                 if r.Some? then At(r.value) else Failed(NotFound))
              && LookupNew(t, scope, seg, 0) == (if Named(t, scope, seg).Some? then Refused(AlreadyExists)
                                                 else New(scope, seg))
    ensures !(forall i :: 0 <= i < 4 ==> NameByte(seg[i] as int)) ==>
              && LookupAml(t, scope, seg, 0) == Failed(InvalidNameString)
              && LookupNew(t, scope, seg, 0) == Refused(InvalidNameString)
  {
    hide IsTree, NamedUpward, Named;
    assert Carets(seg, 0) == 0 && PrefixEnd(seg, 0) == 0 && PrefixNode(t, scope, seg, 0) == Some(scope);
    assert NamePathAt(seg, 0) == Segs(1, 0, true);
    assert SegsAt(seg, 0, 1)[0] == seg && SegsAt(seg, 0, 0) == [] && seg[0 + 4 * 0..][..4] == seg;
    assert IsNameSeg(seg) <==> forall i :: 0 <= i < 4 ==> NameByte(seg[i] as int) by {
      assert forall c: char :: IsNameChar(c) == NameByte(c as int);
    }
  }

  /** The textual path that stands for a NameString. */
  function Joined(segs: seq<seq<char>>): seq<char> {
    if segs == [] then []
    else if |segs| == 1 then segs[0]
    else segs[0] + ['.'] + Joined(segs[1..])
  }

  function PathOf(code: seq<char>, offset: nat): seq<char>
    requires offset <= |code|
  {
    var e := PrefixEnd(code, offset);
    var p := NamePathAt(code, e);
    code[offset..e] + if p.Segs? then Joined(SegsAt(code, p.body, p.count)) else []
  }

  // ---------- the resolvers ----------

  lemma NameLinks(t: Tree, p: nat)
    requires IsTree(t) && p in t.sh.kids
    ensures p in t.nodes && p != 0
    ensures t.nodes[p].parent != 0 <==> p != t.root
    ensures p != t.root ==> t.nodes[p].parent == ParentOf(t, p)
  {
    assert Family(t.nodes, t.sh, p) && Owned(t.nodes, t.sh, t.root, p);
    if p != t.root {
      assert Family(t.nodes, t.sh, ParentOf(t, p));
    }
    hide IsTree;
  }

  /** What a null or non-null address stands for. */
  function Pointer(node: nat): Option<nat> {
    if node == 0 then None else Some(node)
  }

  lemma RootInstalled(t: Tree)
    requires IsTree(t)
    ensures t.root in t.sh.kids && t.root != 0 && forall n :: n in t.sh.kids ==> n != 0
  {
    forall n | n in t.sh.kids ensures n != 0 {
      assert Family(t.nodes, t.sh, n);
    }
  }

  method FindSubNode(ns: Namespace, parent: nat, name: seq<char>) returns (node: nat)
    requires ns.Valid() && (parent != 0 ==> parent in ns.shape.kids)
    ensures var p := if parent == 0 then ns.root else parent;
            p in ns.shape.kids && Pointer(node) == Named(ns.View(), p, name)
  {
    var p := if parent == 0 then ns.root else parent;
    ghost var t, i := ns.View(), 0;
    ChildLink(t, p);
    ghost var list := t.sh.kids[p];
    hide IsTree;
    node := ns.nodes[p].child;
    while node != 0
      invariant 0 <= i <= |list| && node == (if i < |list| then list[i] else 0)
      invariant i < |list| ==> list[i] != 0
      invariant Named(t, p, name) == ChildNamed(t, p, i, name)
      decreases |list| - i
    {
      Links(t, p, i);
      ChildPlaced(t, p, i);
      if ns.nodes[node].name == name {
        return;
      }
      node := ns.nodes[node].next;
      i := i + 1;
      if i < |list| {
        ChildPlaced(t, p, i);
      }
    }
  }

  lemma {:induction false} CaretsAre(s: seq<char>, i: nat, k: nat)
    requires i + k <= |s| && (forall j :: i <= j < i + k ==> s[j] == '^') && (i + k < |s| ==> s[i + k] != '^')
    ensures Carets(s, i) == k
    decreases k
  {
    if k > 0 {
      CaretsAre(s, i + 1, k - 1);
    }
  }

  /** One level more. */
  lemma {:induction false} ClimbOneMore(t: Tree, n: nat, k: nat)
    requires IsTree(t) && n in t.sh.kids
    ensures var r := Climb(t, n, k);
            Climb(t, n, k + 1) == if r == None || r.value == t.root then None else Some(ParentOf(t, r.value))
    decreases k
  {
    if k > 0 && n != t.root {
      ClimbOneMore(t, ParentOf(t, n), k - 1);
    }
    hide IsTree;
  }

  lemma {:induction false} ClimbTooFar(t: Tree, n: nat, k: nat, more: nat)
    requires IsTree(t) && n in t.sh.kids && Climb(t, n, k) == None
    ensures Climb(t, n, k + more) == None
    decreases more
  {
    if more > 0 {
      ClimbTooFar(t, n, k, more - 1);
      ClimbOneMore(t, n, k + more - 1);
    }
  }

  /** The loop both resolvers begin with: it fails exactly when the prefix leads nowhere. */
  method FollowPrefix(ns: Namespace, scope: nat, s: seq<char>, i: nat) returns (ok: bool, node: nat, end: nat)
    requires ns.Valid() && scope in ns.shape.kids && i <= |s|
    ensures ok <==> PrefixNode(ns.View(), scope, s, i).Some?
    ensures ok ==> node == PrefixNode(ns.View(), scope, s, i).value && end == PrefixEnd(s, i)
  {
    ghost var t := ns.View();
    node, end := scope, i;
    var prev := ' ';
    while end < |s|
      invariant i <= end <= |s| && node in t.sh.kids
      invariant forall j :: i <= j < end ==> s[j] == '^'
      invariant Climb(t, scope, end - i) == Some(node)
      invariant prev == '^' <==> end > i
    {
      if s[end] == '\\' {
        CaretsAre(s, i, end - i);
        if prev == '^' {
          return false, 0, 0;
        }
        return true, ns.root, end + 1;
      }
      if s[end] != '^' {
        break;
      }
      ClimbOneMore(t, scope, end - i);
      if node == ns.root {
        assert forall j :: i <= j < i + Carets(s, i) ==> s[j] == '^';
        CaretsPast(s, i, end + 1 - i);
        ClimbTooFar(t, scope, end + 1 - i, Carets(s, i) - (end + 1 - i));
        return false, 0, 0;
      }
      NameLinks(t, node);
      node := ns.nodes[node].parent;
      prev := s[end];
      end := end + 1;
    }
    CaretsAre(s, i, end - i);
    return true, node, end;
  }

  lemma {:induction false} CaretsPast(s: seq<char>, i: nat, k: nat)
    requires i + k <= |s| && forall j :: i <= j < i + k ==> s[j] == '^'
    ensures Carets(s, i) >= k
    decreases k
  {
    if k > 0 {
      CaretsPast(s, i + 1, k - 1);
    }
  }

  lemma {:induction false} SegLenIs(s: seq<char>, n: nat, k: nat)
    requires n + k <= 4 && k <= |s| && '.' !in s[..k] && (n + k == 4 || k == |s| || s[k] == '.')
    ensures SegLen(s, n) == k
    decreases k
  {
    if k > 0 {
      assert s[..k][0] == s[0] && s[..k][1..] == s[1..][..k - 1];
      SegLenIs(s[1..], n + 1, k - 1);
    }
  }

  lemma {:induction false} PaddedIs(s: seq<char>, r: seq<char>)
    requires |r| == 4 && s <= r && forall i :: |s| <= i < 4 ==> r[i] == '_'
    ensures Padded(s) == r
    decreases 4 - |s|
  {
    if |s| < 4 {
      PaddedIs(s + ['_'], r);
    }
  }

  /** Four characters from the cursor on, or as many as there are before a dot or the end. */
  method SegmentToName(path: seq<char>, cursor: nat) returns (name: seq<char>, cursor': nat)
    requires cursor <= |path|
    ensures var k := SegLen(path[cursor..], 0);
            cursor' == cursor + k && name == Padded(path[cursor..][..k])
  {
    name, cursor' := [], cursor;
    for offset := 0 to 4
      invariant cursor <= cursor' <= |path| && |name| == offset && cursor' - cursor <= offset
      invariant path[cursor..cursor'] <= name && '.' !in path[cursor..cursor']
      invariant forall i :: cursor' - cursor <= i < offset ==> name[i] == '_'
      invariant cursor' - cursor < offset ==> cursor' == |path| || path[cursor'] == '.'
    {
      if cursor' == |path| || path[cursor'] == '.' {
        name := name + ['_'];
      } else {
        name := name + [path[cursor']];
        cursor' := cursor' + 1;
      }
    }
    assert path[cursor..][..cursor' - cursor] == path[cursor..cursor'];
    SegLenIs(path[cursor..], 0, cursor' - cursor);
    PaddedIs(path[cursor..cursor'], name);
  }

  /** The single segment that the scope does not have, in the scopes above it. */
  method SearchAbove(ns: Namespace, scope: nat, name: seq<char>) returns (node: nat)
    requires ns.Valid() && scope in ns.shape.kids && Named(ns.View(), scope, name) == None
    ensures Pointer(node) == NamedUpward(ns.View(), scope, name)
  {
    ghost var t := ns.View();
    ghost var below := scope;
    NameLinks(t, scope);
    var parent := ns.nodes[scope].parent;
    while parent != 0
      invariant below in t.sh.kids && below in t.nodes && Named(t, below, name) == None
      invariant parent == t.nodes[below].parent && (parent != 0 <==> below != t.root)
      invariant parent != 0 ==> parent == ParentOf(t, below)
      invariant NamedUpward(t, scope, name) == NamedUpward(t, below, name)
      decreases if below in t.sh.level then t.sh.level[below] else 0
    {
      node := FindSubNode(ns, parent, name);
      if node != 0 {
        return;
      }
      NameLinks(t, parent);
      below := parent;
      parent := ns.nodes[parent].parent;
    }
    return 0;
  }

  lemma DropDrop(s: seq<char>, c: nat, k: nat)
    requires c + k <= |s|
    ensures s[c..][k..] == s[c + k..]
  {
  }

  /** Where the segment at the cursor starts, behind a dot if there is one. */
  function SegStart(path: seq<char>, cursor: nat): nat {
    if cursor < |path| && path[cursor] == '.' then cursor + 1 else cursor
  }

  function Rest(path: seq<char>, c: nat): seq<char> {
    if c <= |path| then path[c..] else []
  }

  function SegmentAt(path: seq<char>, cursor: nat): seq<char> {
    var rest := Rest(path, SegStart(path, cursor));
    Padded(rest[..SegLen(rest, 0)])
  }

  function NextSegment(path: seq<char>, cursor: nat): nat {
    var c := SegStart(path, cursor);
    c + SegLen(Rest(path, c), 0)
  }

  function SegmentsFrom(path: seq<char>, cursor: nat): seq<seq<char>> {
    Segments(Rest(path, cursor))
  }

  lemma SegmentsUnfold(s: seq<char>)
    requires s != []
    ensures var rest := SkipDot(s);
            var k := SegLen(rest, 0);
            && Segments(s) == [Padded(rest[..k])] + Segments(rest[k..])
            && (s[0] != '.' ==> k > 0)
  {
    hide Padded;
  }

  /** Behind its dot, if it has one, the rest of the path starts at the segment. */
  lemma RestStarts(path: seq<char>, cursor: nat)
    requires cursor < |path|
    ensures var c := SegStart(path, cursor);
            c <= |path| && |Rest(path, c)| == |path| - c && SkipDot(Rest(path, cursor)) == Rest(path, c)
    ensures Rest(path, cursor) != [] && Rest(path, cursor)[0] == path[cursor]
  {
    if path[cursor] == '.' {
      DropDrop(path, cursor, 1);
    }
  }

  lemma RestDrops(path: seq<char>, c: nat, k: nat)
    requires c + k <= |path|
    ensures k <= |Rest(path, c)| && Rest(path, c)[k..] == Rest(path, c + k)
  {
    DropDrop(path, c, k);
  }

  /** The segment at the cursor, and what is left behind it. */
  lemma SegmentStep(path: seq<char>, cursor: nat)
    requires cursor < |path|
    ensures cursor < NextSegment(path, cursor) <= |path|
    ensures SegmentsFrom(path, cursor) == [SegmentAt(path, cursor)] + SegmentsFrom(path, NextSegment(path, cursor))
  {
    hide Rest, SegLen, Padded, Segments, SkipDot;
    RestStarts(path, cursor);
    SegmentsUnfold(Rest(path, cursor));
    var c := SegStart(path, cursor);
    RestDrops(path, c, SegLen(Rest(path, c), 0));
  }

  /** There are segments left exactly while there are characters left. */
  lemma SegmentsLeft(path: seq<char>, cursor: nat)
    requires cursor <= |path|
    ensures SegmentsFrom(path, cursor) == [] <==> cursor == |path|
  {
  }

  /** The loop over the segments has come from `from` to `cur`. */
  ghost predicate Resolving(t: Tree, path: seq<char>, e: nat, from: nat, cursor: nat, cur: nat, single: bool) {
    && IsTree(t) && from in t.sh.kids && cur in t.sh.kids && e <= cursor <= |path|
    && var segs := SegmentsFrom(path, e);
       && Descend(t, from, segs, false) == Descend(t, cur, SegmentsFrom(path, cursor), false)
       && (cursor == e ==> cur == from && single == (e == 0))
       && (cursor != e ==> (single <==> e == 0 && |segs| == 1))
       && (cursor != e && single ==> cursor == |path| && Named(t, from, segs[0]) == Some(cur))
  }

  /** One segment further; when the child is missing, whether the scopes above are searched. */
  lemma ResolvingStep(t: Tree, path: seq<char>, e: nat, from: nat, cursor: nat, cur: nat, single: bool)
    requires Resolving(t, path, e, from, cursor, cur, single) && cursor < |path|
    ensures var name, cursor' := SegmentAt(path, cursor), NextSegment(path, cursor);
            var next := Named(t, cur, name);
            var single' := single && cursor' == |path|;
            && cursor < cursor' <= |path|
            && (next.Some? ==> Resolving(t, path, e, from, cursor', next.value, single'))
            && (next.None? ==>
                  && Descend(t, from, SegmentsFrom(path, e), false) == Failed(NotFound)
                  && (single' <==> e == 0 && |SegmentsFrom(path, e)| == 1)
                  && (single' ==> cur == from && SegmentsFrom(path, e)[0] == name))
  {
    SegmentStep(path, cursor);
    SegmentsLeft(path, NextSegment(path, cursor));
    hide IsTree, SegStart, SegmentAt, NextSegment, SegmentsFrom;
    assert SegmentsFrom(path, cursor)[1..] == SegmentsFrom(path, NextSegment(path, cursor));
  }

  /** What the resolution comes to once the prefix has been followed. */
  lemma LookupIs(t: Tree, scope: nat, path: seq<char>, search: bool)
    requires IsTree(t) && scope in t.sh.kids && PrefixNode(t, scope, path, 0).Some?
    ensures var e, from := PrefixEnd(path, 0), PrefixNode(t, scope, path, 0).value;
            && Resolving(t, path, e, from, e, from, e == 0)
            && (e == 0 ==> from == scope)
            && Lookup(t, scope, path, search) ==
               var segs := SegmentsFrom(path, e);
               if search && e == 0 && |segs| == 1 then
                 var r := NamedUpward(t, scope, segs[0]);
                 if r.Some? then At(r.value) else Failed(NotFound)
               else Descend(t, from, segs, false)
  {
  }

  method ReadSegment(path: seq<char>, cursor: nat) returns (name: seq<char>, cursor': nat)
    requires cursor < |path|
    ensures name == SegmentAt(path, cursor) && cursor' == NextSegment(path, cursor)
  {
    cursor' := cursor;
    if path[cursor'] == '.' {
      cursor' := cursor' + 1;
    }
    name, cursor' := SegmentToName(path, cursor');
  }

  method Resolve(ns: Namespace, parent: nat, path: seq<char>, search: bool, permanentOnly: bool)
    returns (status: Status, node: nat)
    requires ns.Valid() && (parent != 0 ==> parent in ns.shape.kids) && (search ==> parent != 0)
    ensures var scope := if parent == 0 then ns.root else parent;
            var r := Lookup(ns.View(), scope, path, search);
            if r.Failed? then status == r.status && node == 0
            else if r.node in ns.nodes && permanentOnly && ns.nodes[r.node].temporary then status == Denied && node == 0
            else status == Ok && node == r.node
  {
    var scope := if parent == 0 then ns.root else parent;
    ghost var t := ns.View();
    NameLinks(t, scope);
    var ok, cur, cursor := FollowPrefix(ns, scope, path, 0);
    if !ok {
      return InvalidArgument, 0;
    }
    var single := cursor == 0;
    LookupIs(t, scope, path, search);
    ghost var e, from := cursor, cur;
    assert ns.Valid() && t.sh == ns.shape && t.nodes == ns.nodes && t.root == ns.root;
    RootInstalled(t);
    hide IsTree, Resolving, Lookup, Descend, Named, NamedUpward, SegmentsFrom, SegmentAt, NextSegment, PrefixNode,
      PrefixEnd, ParentOf;
    while cursor != |path|
      invariant Resolving(t, path, e, from, cursor, cur, single) && cursor <= |path|
      decreases |path| - cursor
    {
      ResolvingStep(t, path, e, from, cursor, cur, single);
      var name;
      name, cursor := ReadSegment(path, cursor);
      if cursor != |path| && single {
        single := false;
      }
      var next := FindSubNode(ns, cur, name);
      if next == 0 {
        if !search || !single {
          return NotFound, 0;
        }
        next := SearchAbove(ns, scope, name);
        if next == 0 {
          return NotFound, 0;
        }
        cur := next;
        break;
      }
      cur := next;
    }
    NameLinks(t, cur);
    if ns.nodes[cur].temporary && permanentOnly {
      return Denied, 0;
    }
    return Ok, cur;
  }

  /** The segment at b, and the ones behind it. */
  lemma AmlStep(t: Tree, cur: nat, code: seq<char>, b: nat, c: nat)
    requires IsTree(t) && cur in t.sh.kids && c > 0 && b + 4 * c <= |code|
    ensures var seg := code[b..b + 4];
            var next := Named(t, cur, seg);
            Descend(t, cur, SegsAt(code, b, c), true) ==
            if !IsNameSeg(seg) then Failed(InvalidNameString)
            else if next == None then Failed(NotFound)
            else Descend(t, next.value, SegsAt(code, b + 4, c - 1), true)
  {
    assert SegsAt(code, b, c)[1..] == SegsAt(code, b + 4, c - 1);
    hide IsTree, IsNameSeg;
  }

  lemma AmlDone(t: Tree, cur: nat, code: seq<char>, b: nat)
    requires IsTree(t) && cur in t.sh.kids && b <= |code|
    ensures Descend(t, cur, SegsAt(code, b, 0), true) == At(cur)
  {
  }

  /** The single segment in the scopes from p upward: here, or further up. */
  lemma UpwardStep(t: Tree, p: nat, name: seq<char>)
    requires IsTree(t) && p in t.sh.kids
    ensures var here := Named(t, p, name);
            NamedUpward(t, p, name) ==
            if here.Some? || p == t.root then here else NamedUpward(t, ParentOf(t, p), name)
  {
  }

  /** What is left of the meaning of a NameString once the prefix has led to `from`. */
  ghost function AmlResult(t: Tree, code: seq<char>, from: nat, body: nat, n: nat, justOne: bool): Found
    requires IsTree(t) && from in t.sh.kids && 0 < n && body + 4 * n <= |code|
  {
    if justOne then
      var seg := code[body..body + 4];
      if !IsNameSeg(seg) then Failed(InvalidNameString)
      else
        var r := NamedUpward(t, from, seg);
        if r.Some? then At(r.value) else Failed(NotFound)
    else Descend(t, from, SegsAt(code, body, n), true)
  }

  ghost function NewResult(t: Tree, code: seq<char>, from: nat, body: nat, n: nat): Creation
    requires IsTree(t) && from in t.sh.kids && 0 < n && body + 4 * n <= |code|
  {
    var b := body + 4 * (n - 1);
    var last := code[b..b + 4];
    var parent := Descend(t, from, SegsAt(code, body, n - 1), true);
    if parent.Failed? then Refused(parent.status)
    else if !IsNameSeg(last) then Refused(InvalidNameString)
    else if Named(t, parent.node, last).Some? then Refused(AlreadyExists)
    else New(parent.node, last)
  }

  lemma AmlCases(t: Tree, scope: nat, code: seq<char>, offset: nat)
    requires IsTree(t) && scope in t.sh.kids && offset <= |code| && PrefixNode(t, scope, code, offset).Some?
    requires NamePathAt(code, PrefixEnd(code, offset)).Segs?
    ensures var e, from := PrefixEnd(code, offset), PrefixNode(t, scope, code, offset).value;
            var p := NamePathAt(code, e);
            && 0 < p.count && p.body + 4 * p.count <= |code| && (p.alone ==> p.count == 1)
            && LookupAml(t, scope, code, offset) == AmlResult(t, code, from, p.body, p.count, p.alone && e == offset)
            && LookupNew(t, scope, code, offset) == NewResult(t, code, from, p.body, p.count)
  {
    var p := NamePathAt(code, PrefixEnd(code, offset));
    var b := p.body + 4 * (p.count - 1);
    assert code[b..][..4] == code[b..b + 4];
    hide IsTree, IsNameSeg;
  }

  /** With `count` segments to go the loop has come from `from` to `cur`. */
  ghost predicate AmlAt(t: Tree, code: seq<char>, from: nat, body: nat, n: nat, justOne: bool, create: bool,
                        cur: nat, count: nat) {
    && IsTree(t) && from in t.sh.kids && cur in t.sh.kids
    && 0 < n && body + 4 * n <= |code| && count <= n && (justOne ==> n == 1) && (create ==> count > 0)
    && (count == n ==> cur == from)
    && var b := body + 4 * (n - count);
       && (Descend(t, from, SegsAt(code, body, n), true) == Descend(t, cur, SegsAt(code, b, count), true)
           || (justOne && count < n))
       && (create ==>
             Descend(t, from, SegsAt(code, body, n - 1), true) == Descend(t, cur, SegsAt(code, b, count - 1), true))
       && (justOne && count < n ==>
             IsNameSeg(code[body..body + 4]) && NamedUpward(t, from, code[body..body + 4]) == Some(cur))
  }

  /** What one turn of the loop finds, and what that means for the whole. */
  lemma AmlTurn(t: Tree, code: seq<char>, from: nat, body: nat, n: nat, justOne: bool, create: bool,
                cur: nat, count: nat)
    requires AmlAt(t, code, from, body, n, justOne, create, cur, count) && count > 0
    ensures var b := body + 4 * (n - count);
            var seg := code[b..b + 4];
            var here := Named(t, cur, seg);
            var next := if justOne && !create then NamedUpward(t, cur, seg) else here;
            && (!IsNameSeg(seg) ==>
                  && AmlResult(t, code, from, body, n, justOne) == Failed(InvalidNameString)
                  && (create ==> NewResult(t, code, from, body, n) == Refused(InvalidNameString)))
            && (IsNameSeg(seg) && create && count == 1 ==>
                  NewResult(t, code, from, body, n) == if here.Some? then Refused(AlreadyExists) else New(cur, seg))
            && (IsNameSeg(seg) && !(create && count == 1) && next == None ==>
                  && (create ==> NewResult(t, code, from, body, n) == Refused(NotFound))
                  && (!create ==> AmlResult(t, code, from, body, n, justOne) == Failed(NotFound)))
            && (IsNameSeg(seg) && !(create && count == 1) && next.Some? ==>
                  AmlAt(t, code, from, body, n, justOne, create, next.value, count - 1))
  {
    var b := body + 4 * (n - count);
    AmlStep(t, cur, code, b, count);
    if create {
      if count > 1 {
        AmlStep(t, cur, code, b, count - 1);
      } else {
        AmlDone(t, cur, code, b);
      }
    }
    hide IsTree, IsNameSeg, SegsAt, Descend, Named, NamedUpward;
  }

  lemma AmlEnd(t: Tree, code: seq<char>, from: nat, body: nat, n: nat, justOne: bool, cur: nat)
    requires AmlAt(t, code, from, body, n, justOne, false, cur, 0)
    ensures AmlResult(t, code, from, body, n, justOne) == At(cur)
  {
    AmlDone(t, cur, code, body + 4 * n);
    hide IsTree, IsNameSeg;
  }

  /** The AML resolver's own climb, which goes on from the result of the first lookup. */
  method SearchUpward(ns: Namespace, scope: nat, found: nat, name: seq<char>) returns (node: nat)
    requires ns.Valid() && scope in ns.shape.kids && Pointer(found) == Named(ns.View(), scope, name)
    ensures Pointer(node) == NamedUpward(ns.View(), scope, name)
  {
    ghost var t := ns.View();
    var parent := scope;
    node := found;
    UpwardStep(t, parent, name);
    while node == 0 && parent != ns.root
      invariant parent in t.sh.kids && Pointer(node) == Named(t, parent, name)
      invariant NamedUpward(t, parent, name) == NamedUpward(t, scope, name)
      decreases if parent in t.sh.level then t.sh.level[parent] else 0
    {
      NameLinks(t, parent);
      UpwardStep(t, parent, name);
      parent := ns.nodes[parent].parent;
      node := FindSubNode(ns, parent, name);
    }
    UpwardStep(t, parent, name);
  }

  /** What kind of path stands at `at`: the switch both AML routines make. */
  method ReadNamePath(code: seq<char>, at: nat) returns (ok: bool, count: nat, body: nat, alone: bool)
    requires at <= |code|
    ensures var p := NamePathAt(code, at);
            && (!ok <==> p == Malformed) && (ok ==> body + 4 * count <= |code|)
            && (ok && count == 0 <==> p == NullName)
            && (ok && count > 0 ==> p == Segs(count, body, alone))
  {
    count, body, alone := 0, at, false;
    if at == |code| {
      return false, 0, at, false;
    }
    var c := code[at];
    if c == DUAL_NAME_PREFIX {
      count, body := 2, at + 1;
    } else if c == MULTI_NAME_PREFIX {
      if at + 1 == |code| {
        return false, 0, at, false;
      }
      count, body := code[at + 1] as int, at + 2;
      if count == 0 {
        return false, 0, at, false;
      }
    } else if c == NULL_NAME {
      return true, 0, at + 1, false;
    } else {
      count, alone := 1, true;
    }
    ok := count * 4 <= |code| - body;
  }

  /** The loop of resolve_name_string over the segments. */
  method ResolveSegments(ns: Namespace, from: nat, code: seq<char>, body: nat, n: nat, justOne: bool, create: bool)
    returns (status: Status, node: nat, name: seq<char>)
    requires ns.Valid() && from in ns.shape.kids && 0 < n && body + 4 * n <= |code| && (justOne ==> n == 1)
    ensures !create ==>
              var r := AmlResult(ns.View(), code, from, body, n, justOne);
              if r.At? then status == Ok && node == r.node else status == r.status
    ensures create ==>
              var r := NewResult(ns.View(), code, from, body, n);
              if r.New? then status == Ok && node == r.parent && name == r.name else status == r.status
  {
    ghost var t := ns.View();
    var cur, count, b := from, n, body;
    assert AmlAt(t, code, from, body, n, justOne, create, cur, count);
    RootInstalled(t);
    hide IsTree, AmlResult, NewResult, AmlAt, Named, NamedUpward, IsNameSeg;
    while count > 0
      invariant count <= n && b == body + 4 * (n - count) && (create ==> count > 0)
      invariant AmlAt(t, code, from, body, n, justOne, create, cur, count) && cur in t.sh.kids
      decreases count
    {
      var seg := code[b..b + 4];
      AmlTurn(t, code, from, body, n, justOne, create, cur, count);
      if !IsNameSeg(seg) {
        return InvalidNameString, 0, [];
      }
      var next := FindSubNode(ns, cur, seg);
      if create {
        if count == 1 {
          if next != 0 {
            return AlreadyExists, 0, [];
          }
          return Ok, cur, seg;
        }
      } else if justOne {
        next := SearchUpward(ns, cur, next, seg);
      }
      if next == 0 {
        return NotFound, 0, [];
      }
      cur := next;
      b := b + 4;
      count := count - 1;
      assert cur in t.sh.kids;
    }
    AmlEnd(t, code, from, body, n, justOne, cur);
    return Ok, cur, [];
  }

  /** resolve_name_string: finds the node, or with `create` the parent under which the last segment is new. */
  method ResolveNameString(ns: Namespace, scope: nat, code: seq<char>, offset: nat, create: bool)
    returns (status: Status, node: nat, name: seq<char>)
    requires ns.Valid() && scope in ns.shape.kids && offset <= |code|
    ensures !create ==>
              var r := LookupAml(ns.View(), scope, code, offset);
              if r.At? then status == Ok && node == r.node else status == r.status
    ensures create ==>
              var r := LookupNew(ns.View(), scope, code, offset);
              if r.New? then status == Ok && node == r.parent && name == r.name else status == r.status
  {
    var ok, from, e := FollowPrefix(ns, scope, code, offset);
    if !ok {
      return InvalidNameString, 0, [];
    }
    var count, body, alone;
    ok, count, body, alone := ReadNamePath(code, e);
    if !ok {
      return InvalidNameString, 0, [];
    }
    var justOne := alone && e == offset;
    if count == 0 {
      if create || e == offset {
        return InvalidNameString, 0, [];
      }
      return Ok, from, [];
    }
    AmlCases(ns.View(), scope, code, offset);
    status, node, name := ResolveSegments(ns, from, code, body, count, justOne, create);
  }
}
