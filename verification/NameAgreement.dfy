/**
 Three ways to one node: resolving a NameString directly, resolving its translation into a textual path, and
 resolving the absolute path printed for a node.
 */
module NameAgreement {
  import opened NamePaths
  import opened NamespaceTree
  import opened Options

  // ---------- segments survive being joined ----------

  predicate IsPlain(seg: seq<char>) {
    |seg| == 4 && '.' !in seg
  }

  lemma NameSegIsPlain(seg: seq<char>)
    requires IsNameSeg(seg)
    ensures IsPlain(seg)
  {
  }

  /** Four plain characters are one segment, whatever follows behind a dot. */
  lemma OneSegment(seg: seq<char>, rest: seq<char>)
    requires IsPlain(seg) && (rest == [] || rest[0] == '.')
    ensures Segments(seg + rest) == [seg] + Segments(rest)
  {
    var s := seg + rest;
    assert s[..4] == seg && s[4..] == rest;
    assert s[0] == seg[0];
    assert seg[0] in seg;
    assert SkipDot(s) == s;
    SegLenIs(s, 0, 4);
    PaddedIs(seg, seg);
  }

  /** A leading dot is skipped in front of a segment. */
  lemma DotSkipped(s: seq<char>)
    requires s != [] && s[0] != '.'
    ensures Segments(['.'] + s) == Segments(s)
  {
    assert SkipDot(['.'] + s) == s;
    assert SkipDot(s) == s;
  }

  lemma JoinedParts(segs: seq<seq<char>>)
    requires |segs| > 1
    ensures Joined(segs) == segs[0] + (['.'] + Joined(segs[1..]))
  {
  }

  /** How joined segments begin, and how long they are. */
  lemma {:induction false} JoinedShape(segs: seq<seq<char>>)
    requires forall i :: 0 <= i < |segs| ==> IsPlain(segs[i])
    ensures segs != [] ==>
              IsPlain(segs[0]) && Joined(segs) != [] && Joined(segs)[0] == segs[0][0] && Joined(segs)[0] != '.'
    ensures |Joined(segs)| == JoinedSize(|segs|)
  {
    if segs != [] {
      assert segs[0][0] in segs[0];
      if |segs| > 1 {
        JoinedParts(segs);
        JoinedShape(segs[1..]);
      }
    }
  }

  /** The segments read back from the joined text are the ones that were joined. */
  lemma {:induction false} SegmentsOfJoined(segs: seq<seq<char>>)
    requires forall i :: 0 <= i < |segs| ==> IsPlain(segs[i])
    ensures Segments(Joined(segs)) == segs
  {
    if segs == [] {
    } else if |segs| == 1 {
      OneSegment(segs[0], []);
      assert segs[0] + [] == segs[0] && segs == [segs[0]];
    } else {
      var rest := segs[1..];
      SegmentsOfJoined(rest);
      JoinedShape(rest);
      JoinedParts(segs);
      assert IsPlain(segs[0]);
      hide *;
      OneSegment(segs[0], ['.'] + Joined(rest));
      DotSkipped(Joined(rest));
      assert segs == [segs[0]] + rest;
    }
  }

  // ---------- the translation means the same ----------

  /** Every segment of the NameString is a valid name. */
  ghost predicate WellFormed(code: seq<char>, offset: nat)
    requires offset <= |code|
  {
    var p := NamePathAt(code, PrefixEnd(code, offset));
    && p != Malformed
    && (p.Segs? ==>
          forall i :: 0 <= i < p.count ==> IsNameSeg(SegsAt(code, p.body, p.count)[i]))
  }

  /** The text has the NameString's prefix and its segments. */
  lemma PathParts(t: Tree, scope: nat, code: seq<char>, offset: nat)
    requires IsTree(t) && scope in t.sh.kids && offset <= |code| && WellFormed(code, offset)
    ensures var path, e := PathOf(code, offset), PrefixEnd(code, offset);
            var p := NamePathAt(code, e);
            && PrefixEnd(path, 0) == e - offset <= |path|
            && PrefixNode(t, scope, path, 0) == PrefixNode(t, scope, code, offset)
            && Segments(path[e - offset..]) == if p.Segs? then SegsAt(code, p.body, p.count) else []
  {
    var path, e, k := PathOf(code, offset), PrefixEnd(code, offset), Carets(code, offset);
    var p := NamePathAt(code, e);
    var segs := if p.Segs? then SegsAt(code, p.body, p.count) else [];
    forall i | 0 <= i < |segs| ensures IsPlain(segs[i]) {
      NameSegIsPlain(segs[i]);
    }
    SegmentsOfJoined(segs);
    JoinedShape(segs);
    assert path == code[offset..e] + Joined(segs);
    assert path[e - offset..] == Joined(segs);
    assert forall j :: 0 <= j < e - offset ==> path[j] == code[offset + j];
    if e - offset == k && segs != [] {
      assert path[k] == segs[0][0] && IsNameSeg(segs[0]);
    }
    hide IsTree, Segments, Joined, SegsAt, NamePathAt;
    CaretsAre(path, 0, k);
  }

  /** For valid segments the check changes nothing. */
  lemma {:induction false} CheckPasses(t: Tree, n: nat, segs: seq<seq<char>>)
    requires IsTree(t) && n in t.sh.kids
    requires forall i :: 0 <= i < |segs| ==> IsNameSeg(segs[i])
    ensures Descend(t, n, segs, true) == Descend(t, n, segs, false)
    decreases |segs|
  {
    if segs != [] {
      assert IsNameSeg(segs[0]);
      hide IsTree, IsNameSeg;
      var next := Named(t, n, segs[0]);
      if next.Some? {
        CheckPasses(t, next.value, segs[1..]);
      }
    }
  }

  /** Both find the same node, or neither finds one. */
  predicate Agree(a: Found, b: Found) {
    if a.At? then b == a else b.Failed?
  }

  /** A NameString without prefix or segments. */
  predicate BareNull(code: seq<char>, offset: nat)
    requires offset <= |code|
  {
    var e := PrefixEnd(code, offset);
    e == offset && NamePathAt(code, e) == NullName
  }

  /** A MultiNamePath of one unprefixed segment, which AML does not search for above the scope but a path does. */
  ghost predicate LoneMulti(t: Tree, scope: nat, code: seq<char>, offset: nat)
    requires IsTree(t) && scope in t.sh.kids && offset <= |code|
  {
    var e := PrefixEnd(code, offset);
    var p := NamePathAt(code, e);
    && e == offset && p.Segs? && p.count == 1 && !p.alone
    && var seg := SegsAt(code, p.body, p.count)[0];
       Named(t, scope, seg) == None && NamedUpward(t, scope, seg).Some?
  }

  /**
   Translating a well-formed NameString and resolving the text, with the search above the scope, agrees with
   resolving the NameString itself exactly when it is not a bare NullName, nor a MultiNamePath of one unprefixed
   segment that only a scope further up has.
   */
  lemma TranslationAgrees(t: Tree, scope: nat, code: seq<char>, offset: nat)
    requires IsTree(t) && scope in t.sh.kids && offset <= |code| && WellFormed(code, offset)
    ensures Agree(LookupAml(t, scope, code, offset), Lookup(t, scope, PathOf(code, offset), true))
       <==> !BareNull(code, offset) && !LoneMulti(t, scope, code, offset)
  {
    PathParts(t, scope, code, offset);
    var path, e := PathOf(code, offset), PrefixEnd(code, offset);
    var p := NamePathAt(code, e);
    var from := PrefixNode(t, scope, code, offset);
    TextMeans(t, scope, path, from, if p.Segs? then SegsAt(code, p.body, p.count) else []);
    if from.Some? && p.Segs? {
      SegsMean(t, scope, code, offset);
    }
    hide IsTree, Segments, SegsAt, IsNameSeg, PathOf, Named, NamedUpward, Lookup, PrefixNode, PrefixEnd;
  }

  /** A root with one child, named AAAA. */
  function OneChild(): Tree {
    Tree(map[1 := Node(0, 2, 0, false, false, Some(0), "____"), 2 := Node(1, 0, 0, false, false, Some(6), "AAAA")],
         Shape(map[1 := [2], 2 := []], map[1 := 0, 2 := 1], 1), 1)
  }

  lemma OneChildTree()
    ensures IsTree(OneChild())
    ensures Named(OneChild(), 2, "AAAA") == None && NamedUpward(OneChild(), 2, "AAAA") == Some(2)
  {
    var t := OneChild();
    assert LinkedAt(t.nodes, t.sh.kids[1], 0) && t.sh.kids[1][0] == 2;
    assert Family(t.nodes, t.sh, 1) && Family(t.nodes, t.sh, 2);
    assert Owned(t.nodes, t.sh, 1, 1) && Owned(t.nodes, t.sh, 1, 2);
    assert Named(t, 1, "AAAA") == Some(2) && ParentOf(t, 2) == 1;
  }

  /** A bare NullName, and AAAA as a MultiNamePath of one segment seen from that very node: text finds more. */
  lemma TranslationDisagrees()
    ensures var t, null_, multi := OneChild(), [NULL_NAME], [MULTI_NAME_PREFIX, 1 as char] + "AAAA";
            && IsTree(t) && WellFormed(null_, 0) && WellFormed(multi, 0)
            && !Agree(LookupAml(t, 2, null_, 0), Lookup(t, 2, PathOf(null_, 0), true))
            && !Agree(LookupAml(t, 2, multi, 0), Lookup(t, 2, PathOf(multi, 0), true))
  {
    OneChildTree();
    var t, null_, multi := OneChild(), [NULL_NAME], [MULTI_NAME_PREFIX, 1 as char] + "AAAA";
    assert Carets(null_, 0) == 0 && Carets(multi, 0) == 0;
    assert multi[2..6] == "AAAA";
    assert SegsAt(multi, 2, 1) == ["AAAA"];
    assert NamePathAt(multi, 0) == Segs(1, 2, false);
    hide IsTree, Named, NamedUpward, SegsAt;
    TranslationAgrees(t, 2, null_, 0);
    TranslationAgrees(t, 2, multi, 0);
  }

  /** What a text means, told by its prefix and its segments. */
  lemma TextMeans(t: Tree, scope: nat, path: seq<char>, from: Option<nat>, segs: seq<seq<char>>)
    requires IsTree(t) && scope in t.sh.kids
    requires from == PrefixNode(t, scope, path, 0) && segs == Segments(path[PrefixEnd(path, 0)..])
    ensures Lookup(t, scope, path, true) ==
            if from == None then Failed(InvalidArgument)
            else if PrefixEnd(path, 0) == 0 && |segs| == 1 then
              var r := NamedUpward(t, scope, segs[0]);
              if r.Some? then At(r.value) else Failed(NotFound)
            else Descend(t, from.value, segs, false)
  {
  }

  /** Where there are segments: they need no check, and a single one is looked up here or, alone, further up. */
  lemma SegsMean(t: Tree, scope: nat, code: seq<char>, offset: nat)
    requires IsTree(t) && scope in t.sh.kids && offset <= |code| && WellFormed(code, offset)
    requires PrefixNode(t, scope, code, offset).Some? && NamePathAt(code, PrefixEnd(code, offset)).Segs?
    ensures var p, from := NamePathAt(code, PrefixEnd(code, offset)), PrefixNode(t, scope, code, offset).value;
            var segs := SegsAt(code, p.body, p.count);
            && IsNameSeg(segs[0]) && Descend(t, from, segs, true) == Descend(t, from, segs, false)
            && (p.count == 1 ==>
                  Descend(t, from, segs, true) ==
                  if Named(t, from, segs[0]) == None then Failed(NotFound) else At(Named(t, from, segs[0]).value))
            && (Named(t, scope, segs[0]).Some? ==> NamedUpward(t, scope, segs[0]) == Named(t, scope, segs[0]))
  {
    var p, from := NamePathAt(code, PrefixEnd(code, offset)), PrefixNode(t, scope, code, offset).value;
    var segs := SegsAt(code, p.body, p.count);
    CheckPasses(t, from, segs);
    assert IsNameSeg(segs[0]);
    UpwardStep(t, scope, segs[0]);
    if p.count == 1 {
      assert segs[1..] == [];
    }
    hide IsTree, IsNameSeg, Named;
  }

  /** The first loop of name_string_to_path, which only measures the prefix. */
  method PrefixBytes(code: seq<char>, offset: nat) returns (e: nat)
    requires offset <= |code|
    ensures e == PrefixEnd(code, offset)
  {
    e := offset;
    while e < |code| && code[e] == '^'
      invariant offset <= e <= |code| && forall j :: offset <= j < e ==> code[j] == '^'
    {
      e := e + 1;
    }
    CaretsAre(code, offset, e - offset);
    if e < |code| && code[e] == '\\' {
      e := e + 1;
    }
  }

  /** Its second loop: the segments behind the prefix, with dots between them, and the terminator. */
  method CopySegments(code: seq<char>, body: nat, count: nat, path: array<char>, prefix: nat, ghost text: seq<char>)
    requires body + 4 * count <= |code| && prefix <= |text| && path.Length == |text| + 1
    requires forall j :: 0 <= j < prefix ==> path[j] == text[j]
    requires text[prefix..] == Joined(SegsAt(code, body, count))
    modifies path
    ensures path[..] == text + ['\0']
  {
    SegsLength(code, body, count);
    var pos: nat, cursor: nat, left: nat := prefix, body, count;
    hide *;
    while left > 0
      invariant left <= count && cursor == body + 4 * (count - left) && cursor + 4 * left <= |code|
      invariant pos + |Joined(SegsAt(code, cursor, left))| == |text| && (left == 0 ==> pos == |text|)
      invariant forall j :: 0 <= j < pos ==> path[j] == text[j]
      invariant left > 0 ==> text[pos..] == Joined(SegsAt(code, cursor, left))
    {
      TextStep(text, pos, code, cursor, left);
      forall j | pos <= j < pos + 4 {
        path[j] := code[cursor + (j - pos)];
      }
      pos, cursor, left := pos + 4, cursor + 4, left - 1;
      if left > 0 {
        path[pos] := '.';
        pos := pos + 1;
      }
    }
    path[pos] := '\0';
    assert path[..] == text + ['\0'];
  }

  /** name_string_to_path: the text in a buffer of exactly the size it needs. */
  method NameStringToPath(code: seq<char>, offset: nat) returns (status: Status, path: array<char>)
    requires offset <= |code|
    ensures fresh(path)
    ensures if NamePathAt(code, PrefixEnd(code, offset)) == Malformed then status == InvalidNameString
            else status == Ok && path[..] == PathOf(code, offset) + ['\0']
  {
    path := new char[0];
    var e := PrefixBytes(code, offset);
    var ok, count, body, alone := ReadNamePath(code, e);
    if !ok {
      return InvalidNameString, path;
    }
    var prefix := e - offset;
    var size := (if count > 0 then 4 * count + count - 1 else 0) + prefix + 1;
    path := new char[size];
    SegsLength(code, body, count);
    TextStart(code, offset);
    hide Joined, NamePathAt, PrefixEnd, Carets;
    forall i | 0 <= i < prefix {
      path[i] := code[offset + i];
    }
    CopySegments(code, body, count, path, prefix, PathOf(code, offset));
    status := Ok;
  }

  function JoinedSize(n: nat): nat {
    if n == 0 then 0 else 5 * n - 1
  }

  /** The first of some joined segments. */
  lemma JoinStep(code: seq<char>, body: nat, count: nat)
    requires 0 < count && body + 4 * count <= |code|
    ensures Joined(SegsAt(code, body, count)) ==
            code[body..body + 4] + if count == 1 then [] else ['.'] + Joined(SegsAt(code, body + 4, count - 1))
  {
    var segs := SegsAt(code, body, count);
    assert segs[1..] == SegsAt(code, body + 4, count - 1);
    if count == 1 {
      assert segs == [code[body..body + 4]];
    } else {
      JoinedParts(segs);
    }
  }

  lemma {:induction false} SegsLength(code: seq<char>, body: nat, count: nat)
    requires body + 4 * count <= |code|
    ensures |Joined(SegsAt(code, body, count))| == JoinedSize(count)
    decreases count
  {
    if count > 0 {
      JoinStep(code, body, count);
      SegsLength(code, body + 4, count - 1);
    }
  }

  /** The text begins with the prefix as it stands in the code. */
  lemma TextStart(code: seq<char>, offset: nat)
    requires offset <= |code|
    ensures var text, e := PathOf(code, offset), PrefixEnd(code, offset);
            var p := NamePathAt(code, e);
            && e - offset <= |text| && (forall j :: 0 <= j < e - offset ==> text[j] == code[offset + j])
            && text[e - offset..] == if p.Segs? then Joined(SegsAt(code, p.body, p.count)) else []
  {
    var text, e := PathOf(code, offset), PrefixEnd(code, offset);
    var p := NamePathAt(code, e);
    var rest := if p.Segs? then Joined(SegsAt(code, p.body, p.count)) else [];
    assert text == code[offset..e] + rest;
    hide *;
    assert text[e - offset..] == rest;
  }

  /** The text at a segment that is still to be copied. */
  lemma TextStep(text: seq<char>, pos: nat, code: seq<char>, cursor: nat, left: nat)
    requires 0 < left && cursor + 4 * left <= |code| && pos <= |text|
    requires text[pos..] == Joined(SegsAt(code, cursor, left))
    ensures pos + |Joined(SegsAt(code, cursor, left))| == |text| && pos + 4 <= |text|
              && (left == 1 ==> pos + 4 == |text|)
    ensures left > 1 ==> pos + 5 + |Joined(SegsAt(code, cursor + 4, left - 1))| == |text|
    ensures forall j :: pos <= j < pos + 4 ==> text[j] == code[cursor + (j - pos)]
    ensures left > 1 ==> text[pos + 4] == '.' && text[pos + 5..] == Joined(SegsAt(code, cursor + 4, left - 1))
  {
    JoinStep(code, cursor, left);
    SegsLength(code, cursor, left);
    hide *;
    var tail := text[pos..];
    forall j | pos <= j < pos + 4 ensures text[j] == code[cursor + (j - pos)] {
      assert tail[j - pos] == code[cursor..cursor + 4][j - pos];
    }
    if left > 1 {
      assert tail[4] == '.';
      assert text[pos + 5..] == tail[5..];
    }
  }
}
