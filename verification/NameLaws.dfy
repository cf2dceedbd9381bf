/**
 What the prefixes of a name mean, in both notations: a caret is one parent, a backslash is the root, and a single
 segment without either is searched for upwards, parent by parent.
 */
module NameLaws {
  import opened NamePaths
  import opened NamespaceTree
  import opened Options

  /** An AML segment of four name bytes. */
  predicate IsSegment(seg: seq<char>) {
    |seg| == 4 && forall i :: 0 <= i < 4 ==> NameByte(seg[i] as int)
  }

  /** The node found, or none. */
  function Result(r: Option<nat>): Found {
    if r.Some? then At(r.value) else Failed(NotFound)
  }

  lemma SegmentChars(seg: seq<char>)
    requires IsSegment(seg)
    ensures seg[0] != '^' && seg[0] != '\\' && seg[0] != '.' && seg[0] != '/' && seg[0] as int != 0 && IsNameSeg(seg)
  {
    assert forall c: char :: IsNameChar(c) == NameByte(c as int);
  }

  /** A segment alone: the scope's own child if it has one of that name, else what its parent makes of the segment. */
  lemma SearchedUpwards(t: Tree, scope: nat, seg: seq<char>)
    requires IsTree(t) && scope in t.sh.kids && IsSegment(seg)
    ensures LookupAml(t, scope, seg, 0) ==
            if Named(t, scope, seg).Some? then At(Named(t, scope, seg).value)
            else if scope == t.root then Failed(NotFound)
            else LookupAml(t, ParentOf(t, scope), seg, 0)
  {
    SegmentChars(seg);
    SegmentAccepted(t, scope, seg);
    if scope != t.root {
      SegmentAccepted(t, ParentOf(t, scope), seg);
    }
    hide IsTree, LookupAml, Named;
  }

  /** Behind a backslash it is looked for in the root alone. */
  lemma RootSegment(t: Tree, scope: nat, seg: seq<char>)
    requires IsTree(t) && scope in t.sh.kids && IsSegment(seg)
    ensures LookupAml(t, scope, ['\\'] + seg, 0) == Result(Named(t, t.root, seg))
  {
    SegmentChars(seg);
    var code := ['\\'] + seg;
    assert Carets(code, 0) == 0 && PrefixEnd(code, 0) == 1 && PrefixNode(t, scope, code, 0) == Some(t.root);
    OneSegment(t, t.root, code, 1, seg);
    hide IsTree, Named, NamedUpward, Descend;
  }

  lemma OneSegment(t: Tree, from: nat, code: seq<char>, at: nat, seg: seq<char>)
    requires IsTree(t) && from in t.sh.kids && IsSegment(seg) && at + 4 == |code| && code[at..] == seg
    ensures NamePathAt(code, at) == Segs(1, at, true) && SegsAt(code, at, 1) == [seg]
    ensures Descend(t, from, [seg], true) == Result(Named(t, from, seg))
  {
    SegmentChars(seg);
    assert code[at] == seg[0];
    assert code[at..at + 4] == seg;
    hide IsTree, Named;
  }

  /** Behind a caret it is looked for in the parent alone; the root has none. */
  lemma CaretSegment(t: Tree, scope: nat, seg: seq<char>)
    requires IsTree(t) && scope in t.sh.kids && IsSegment(seg)
    ensures LookupAml(t, scope, ['^'] + seg, 0) ==
            if scope == t.root then Failed(InvalidNameString) else Result(Named(t, ParentOf(t, scope), seg))
  {
    SegmentChars(seg);
    var code := ['^'] + seg;
    assert code[1] == seg[0];
    assert Carets(code, 1) == 0 && Carets(code, 0) == 1 && PrefixEnd(code, 0) == 1;
    assert PrefixNode(t, scope, code, 0) == if scope == t.root then None else Some(ParentOf(t, scope)) by {
      assert scope != t.root ==> Climb(t, ParentOf(t, scope), 0) == Some(ParentOf(t, scope));
    }
    if scope != t.root {
      OneSegment(t, ParentOf(t, scope), code, 1, seg);
    }
    hide IsTree, Named, NamedUpward, Descend;
  }
}
