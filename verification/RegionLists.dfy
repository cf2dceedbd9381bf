/**
 The operation regions of an address space handler: a list linked through the regions, each of which holds one
 reference to the handler.
 */
module RegionLists {
  import opened NamespaceTree

  /** A region is known by its node; `next` links the regions of one handler. */
  datatype Region = Region(space: nat, handler: nat, next: nat)

  /** `regions` is the first region served. */
  datatype Handler = Handler(space: nat, regions: nat, refs: int)

  type Regions = map<nat, Region>
  type Handlers = map<nat, Handler>

  // ---------- the list of a handler's regions ----------

  predicate RegionAt(regions: Regions, handlers: Handlers, h: nat, list: seq<nat>, i: nat)
    requires i < |list| && h in handlers
  {
    var r := list[i];
    && r in regions && r != 0 && regions[r].handler == h && regions[r].space == handlers[h].space
    && regions[r].next == if i + 1 < |list| then list[i + 1] else 0
  }

  /** h's list is linked through its regions, and each of them holds one reference. */
  ghost predicate ListOk(regions: Regions, handlers: Handlers, lists: map<nat, seq<nat>>, h: nat) {
    && h in handlers && h in lists && h != 0
    && handlers[h].regions == (if lists[h] == [] then 0 else lists[h][0])
    && handlers[h].refs == 1 + |lists[h]|
    && NoDup(lists[h])
    && forall i {:trigger RegionAt(regions, handlers, h, lists[h], i)} ::
         0 <= i < |lists[h]| ==> RegionAt(regions, handlers, h, lists[h], i)
  }

  /** A region with a handler is in its list. */
  predicate Listed(regions: Regions, lists: map<nat, seq<nat>>, r: nat)
    requires r in regions
  {
    regions[r].handler != 0 ==> regions[r].handler in lists && r in lists[regions[r].handler]
  }

  ghost predicate Attached(regions: Regions, handlers: Handlers, lists: map<nat, seq<nat>>) {
    && lists.Keys == handlers.Keys
    && (forall h {:trigger ListOk(regions, handlers, lists, h)} ::
          h in handlers ==> ListOk(regions, handlers, lists, h))
    && (forall r {:trigger Listed(regions, lists, r)} :: r in regions ==> Listed(regions, lists, r))
  }

  /** Pushing region r, which has no handler, onto the front of h's list. */
  lemma AttachKeeps(regions: Regions, handlers: Handlers, lists: map<nat, seq<nat>>, r: nat, h: nat)
    requires Attached(regions, handlers, lists) && r in regions && r != 0 && regions[r].handler == 0
    requires h in handlers && h in lists && handlers[h].space == regions[r].space
    ensures Attached(regions[r := Region(regions[r].space, h, handlers[h].regions)],
                     handlers[h := handlers[h].(regions := r, refs := handlers[h].refs + 1)],
                     lists[h := [r] + lists[h]])
  {
    var regions' := regions[r := Region(regions[r].space, h, handlers[h].regions)];
    var handlers' := handlers[h := handlers[h].(regions := r, refs := handlers[h].refs + 1)];
    var lists' := lists[h := [r] + lists[h]];
    assert ListOk(regions, handlers, lists, h);
    forall g | g in handlers' ensures ListOk(regions', handlers', lists', g) {
      assert ListOk(regions, handlers, lists, g);
      forall i: nat | i < |lists'[g]| ensures RegionAt(regions', handlers', g, lists'[g], i) {
        var i0: nat := if g == h && i > 0 then i - 1 else i;
        if g != h || i > 0 {
          assert RegionAt(regions, handlers, g, lists[g], i0);
        }
      }
      forall i: nat, j: nat | i < j < |lists'[g]| ensures lists'[g][i] != lists'[g][j] {
        if g == h && i == 0 {
          assert RegionAt(regions, handlers, h, lists[h], j - 1);
        }
      }
    }
    forall x | x in regions' ensures Listed(regions', lists', x) {
      assert Listed(regions, lists, x);
      if x == r {
        assert lists'[h][0] == r;
      } else if regions[x].handler == h {
        var i :| 0 <= i < |lists[h]| && lists[h][i] == x;
        assert lists'[h][i + 1] == x;
      }
    }
  }

  function Removed(list: seq<nat>, i: nat): seq<nat>
    requires i < |list|
  {
    list[..i] + list[i + 1..]
  }

  /** What unlinking child number i of h's list does to the links. */
  function Unlinked(regions: Regions, handlers: Handlers, list: seq<nat>, h: nat, i: nat): (Regions, Handlers)
    requires h in handlers && i < |list| && forall j :: 0 <= j < |list| ==> list[j] in regions
  {
    var r := list[i];
    var regions' := if i == 0 then regions
                    else regions[list[i - 1] := regions[list[i - 1]].(next := regions[r].next)];
    var handler' := if i == 0 then handlers[h].(regions := regions[r].next) else handlers[h];
    (regions'[r := regions'[r].(handler := 0)], handlers[h := handler'.(refs := handler'.refs - 1)])
  }

  lemma ListMembers(regions: Regions, handlers: Handlers, lists: map<nat, seq<nat>>, h: nat)
    requires ListOk(regions, handlers, lists, h)
    ensures forall j :: 0 <= j < |lists[h]| ==> lists[h][j] in regions && regions[lists[h][j]].handler == h
  {
    forall j | 0 <= j < |lists[h]| ensures lists[h][j] in regions && regions[lists[h][j]].handler == h {
      assert RegionAt(regions, handlers, h, lists[h], j);
    }
  }

  lemma DetachList(regions: Regions, handlers: Handlers, lists: map<nat, seq<nat>>, h: nat, i: nat, g: nat)
    requires Attached(regions, handlers, lists) && h in handlers && h in lists && i < |lists[h]| && g in handlers
    requires forall j :: 0 <= j < |lists[h]| ==> lists[h][j] in regions
    ensures var (regions', handlers') := Unlinked(regions, handlers, lists[h], h, i);
            ListOk(regions', handlers', lists[h := Removed(lists[h], i)], g)
  {
    var (regions', handlers') := Unlinked(regions, handlers, lists[h], h, i);
    var lists' := lists[h := Removed(lists[h], i)];
    assert ListOk(regions, handlers, lists, h) && ListOk(regions, handlers, lists, g);
    assert RegionAt(regions, handlers, h, lists[h], i);
    if i > 0 {
      assert RegionAt(regions, handlers, h, lists[h], i - 1);
    }
    forall j: nat | j < |lists'[g]| ensures RegionAt(regions', handlers', g, lists'[g], j) {
      var j0: nat := if g == h && j >= i then j + 1 else j;
      assert RegionAt(regions, handlers, g, lists[g], j0);
      assert lists'[g][j] == lists[g][j0];
      if j + 1 < |lists'[g]| {
        assert lists'[g][j + 1] == lists[g][if g == h && j + 1 >= i then j + 2 else j + 1];
      }
    }
    if g == h && i == 0 && |lists[h]| > 1 {
      assert lists'[h][0] == lists[h][1];
    }
  }

  /** Taking a region out of its handler's list, wherever it is. */
  lemma DetachKeeps(regions: Regions, handlers: Handlers, lists: map<nat, seq<nat>>, h: nat, i: nat)
    requires Attached(regions, handlers, lists) && h in handlers && h in lists && i < |lists[h]|
    requires forall j :: 0 <= j < |lists[h]| ==> lists[h][j] in regions
    ensures var (regions', handlers') := Unlinked(regions, handlers, lists[h], h, i);
            Attached(regions', handlers', lists[h := Removed(lists[h], i)])
  {
    var (regions', handlers') := Unlinked(regions, handlers, lists[h], h, i);
    var lists' := lists[h := Removed(lists[h], i)];
    assert ListOk(regions, handlers, lists, h);
    forall g | g in handlers' ensures ListOk(regions', handlers', lists', g) {
      DetachList(regions, handlers, lists, h, i, g);
    }
    forall x | x in regions' ensures Listed(regions', lists', x) {
      assert Listed(regions, lists, x);
      if x != lists[h][i] && regions[x].handler == h {
        var j :| 0 <= j < |lists[h]| && lists[h][j] == x;
        assert lists'[h][if j < i then j else j - 1] == x;
      }
    }
    hide ListOk;
  }

  /** A handler's list holds exactly the regions that name it, and its references are one more than they are. */
  lemma ListExact(regions: Regions, handlers: Handlers, lists: map<nat, seq<nat>>, h: nat)
    requires Attached(regions, handlers, lists) && h in handlers && h in lists && h != 0
    ensures forall r :: r in lists[h] <==> r in regions && regions[r].handler == h
    ensures handlers[h].refs == 1 + |set r | r in regions && regions[r].handler == h|
  {
    assert ListOk(regions, handlers, lists, h);
    ListMembers(regions, handlers, lists, h);
    forall r | r in regions && regions[r].handler == h ensures r in lists[h] {
      assert Listed(regions, lists, r);
    }
    var served := set r | r in regions && regions[r].handler == h;
    DistinctCount(lists[h]);
    assert served == Elements(lists[h]);
  }

  function Elements(s: seq<nat>): set<nat> {
    set r | r in s
  }

  lemma {:induction false} DistinctCount(s: seq<nat>)
    requires NoDup(s)
    ensures |Elements(s)| == |s|
  {
    if s != [] {
      var rest := s[..|s| - 1];
      DistinctCount(rest);
      var last := s[|s| - 1];
      assert s == rest + [last];
      assert last !in Elements(rest);
      assert Elements(s) == Elements(rest) + {last};
    }
  }
}
