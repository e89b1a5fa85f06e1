/** Sorting one level in place: the nodes are read into a list, the list is sorted, and the
    `next` pointers are rewritten along it. */
module HdfSort {
  import opened Options
  import opened HdfTree
  import opened HdfLevel
  import opened HdfStore
  import opened HdfRemove
  import C = HdfStoreCopy

  /** A node with what the comparison function can read from it. */
  datatype Item = Item(node: Hdf, tree: Tree)

  ghost predicate Sorted(items: seq<Item>, le: Order)
  {
    forall i, j :: 0 <= i < j < |items| ==> le(items[i].tree, items[j].tree)
  }

  ghost function NodesOf(items: seq<Item>): (r: seq<Hdf>)
    ensures |r| == |items| && forall i :: 0 <= i < |r| ==> r[i] == items[i].node
  {
    seq(|items|, i requires 0 <= i < |items| => items[i].node)
  }

  /** The same items, and so the same nodes. */
  ghost predicate SameItems(a: seq<Item>, b: seq<Item>)
  {
    multiset(a) == multiset(b) && multiset(NodesOf(a)) == multiset(NodesOf(b))
  }

  lemma OneMoreItem(a: seq<Item>, b: seq<Item>, x: Item, k: nat)
    requires SameItems(a, b) && k <= |a|
    ensures SameItems(a[..k] + [x] + a[k..], b + [x])
  {
    InsertMultiset(a, x, k);
    InsertMultiset(NodesOf(a), x.node, k);
    assert NodesOf(a[..k] + [x] + a[k..]) == NodesOf(a)[..k] + [x.node] + NodesOf(a)[k..];
    assert NodesOf(b + [x]) == NodesOf(b) + [x.node];
  }

  lemma InsertMultiset<T>(a: seq<T>, x: T, k: nat)
    requires k <= |a|
    ensures multiset(a[..k] + [x] + a[k..]) == multiset(a) + multiset{x}
  {
    assert a == a[..k] + a[k..];
  }

  /** Stands for uListSort: some ordered permutation. */
  method SortList(level: seq<Item>, le: Order) returns (r: seq<Item>)
    requires IsOrder(le)
    ensures SameItems(r, level) && Sorted(r, le)
  {
    hide SameItems;
    r := [];
    NoItems(level);
    for i := 0 to |level|
      invariant SameItems(r, level[..i]) && Sorted(r, le)
    {
      assert level[..i + 1] == level[..i] + [level[i]];
      var k := FindSlot(r, level[i], le);
      OneMoreItem(r, level[..i], level[i], k);
      InsertSorted(r, level[i], k, le);
      r := r[..k] + [level[i]] + r[k..];
    }
    assert level[..|level|] == level;
  }

  /** The first position whose item is not below `x`. */
  method FindSlot(level: seq<Item>, x: Item, le: Order) returns (k: nat)
    ensures k <= |level|
    ensures forall i :: 0 <= i < k ==> le(level[i].tree, x.tree)
    ensures k < |level| ==> !le(level[k].tree, x.tree)
  {
    k := 0;
    while k < |level| && le(level[k].tree, x.tree)
      invariant 0 <= k <= |level|
      invariant forall i :: 0 <= i < k ==> le(level[i].tree, x.tree)
    {
      k := k + 1;
    }
  }

  lemma NoItems(level: seq<Item>)
    ensures SameItems([], level[..0])
  {
    assert level[..0] == [];
  }

  lemma InsertSorted(items: seq<Item>, x: Item, k: nat, le: Order)
    requires IsOrder(le) && Sorted(items, le) && k <= |items|
    requires forall i :: 0 <= i < k ==> le(items[i].tree, x.tree)
    requires k < |items| ==> !le(items[k].tree, x.tree)
    ensures Sorted(items[..k] + [x] + items[k..], le)
  {
    forall j | k <= j < |items|
      ensures le(x.tree, items[j].tree)
    {
      assert k < j ==> le(items[k].tree, items[j].tree);
    }
    var r := items[..k] + [x] + items[k..];
    assert forall i :: 0 <= i < |r| ==> r[i] == if i < k then items[i] else if i == k then x else items[i - 1];
  }

  // ---- what the comparison reads ------------------------------------------------------

  /** Everything below a node. */
  method ReadBelow(h: HdfStore, n: Hdf) returns (kids: seq<Tree>)
    requires h.Valid() && n in h.nodes
    ensures Has(h.T, n.path) && kids == Get(h.T, n.path).value.kids
    decreases if Has(h.T, n.path) then Get(h.T, n.path).value else h.T
  {
    hide HdfStore.Valid;
    C.SourceWidth(h, n);
    ghost var all := Get(h.T, n.path).value.kids;
    kids := [];
    var k := n.child;
    while k != null
      invariant |kids| <= |all| && kids == all[..|kids|]
      invariant k == if |kids| < |n.kids| then n.kids[|kids|] else null
      decreases |all| - |kids|
    {
      C.SourceKid(h, n, |kids|);
      assert all[|kids|] in all;
      var below := ReadBelow(h, k);
      var t := Tree(k.name, Data(k.value, k.link, k.attr), below);
      assert t == all[|kids|];
      kids, k := kids + [t], k.next;
    }
  }

  ghost predicate Reads(h: HdfStore, items: seq<Item>)
    reads h
  {
    forall i :: 0 <= i < |items| ==> items[i].node in h.nodes && Get(h.T, items[i].node.path) == Some(items[i].tree)
  }

  /** The loop of `hdf_sort_obj` that loads the level, and what can be read from each node. */
  method LoadLevel(h: HdfStore, hn: Hdf) returns (items: seq<Item>)
    requires h.Valid() && hn in h.nodes
    ensures NodesOf(items) == hn.kids && Reads(h, items)
  {
    hide HdfStore.Valid, Get, Hdf.LevelOk;
    LevelFacts(h, hn);
    var level := hn.ReadLevel();
    var trees := ReadBelow(h, hn);
    C.SourceWidth(h, hn);
    items := [];
    for i := 0 to |level|
      invariant |items| == i && Reads(h, items)
      invariant forall j :: 0 <= j < i ==> items[j].node == level[j]
    {
      C.SourceKid(h, hn, i);
      items := items + [Item(level[i], trees[i])];
    }
  }

  /** The nodes of a sorted list. */
  method Unload(items: seq<Item>) returns (level: seq<Hdf>)
    ensures level == NodesOf(items)
  {
    level := [];
    for i := 0 to |items|
      invariant |level| == i && forall j :: 0 <= j < i ==> level[j] == items[j].node
    {
      level := level + [items[i].node];
    }
  }

  lemma StillReads(h: HdfStore, a: seq<Item>, b: seq<Item>)
    requires Reads(h, a) && SameItems(b, a)
    ensures Reads(h, b)
  {
    forall i | 0 <= i < |b|
      ensures b[i].node in h.nodes && Get(h.T, b[i].node.path) == Some(b[i].tree)
    {
      assert b[i] in multiset(b);
      var j :| 0 <= j < |a| && a[j] == b[i];
    }
  }

  /** Sorted nodes are sorted children. */
  lemma ItemsArrange(h: HdfStore, hn: Hdf, items: seq<Item>, le: Order)
    requires h.Valid() && hn in h.nodes && Reads(h, items) && Sorted(items, le)
    requires multiset(NodesOf(items)) == multiset(hn.kids)
    ensures Has(h.T, hn.path) && IsReordering(NamesOf(NodesOf(items)), Get(h.T, hn.path).value.kids)
    ensures OrderedLevel(Reordered(Get(h.T, hn.path).value.kids, NamesOf(NodesOf(items))), le)
  {
    hide HdfStore.Valid;
    var level := NodesOf(items);
    ReorderingOf(h, hn, level);
    var kids := Get(h.T, hn.path).value.kids;
    var r := Reordered(kids, NamesOf(level));
    forall i | 0 <= i < |r|
      ensures r[i] == items[i].tree
    {
      assert level[i] in level;
      var j :| 0 <= j < |hn.kids| && hn.kids[j] == level[i];
      C.SourceKid(h, hn, j);
      C.SourceDistinct(h, hn, j);
    }
  }

  // ---- the nodes and the tree after a level has been rewritten --------------------------

  twostate lemma ShapeSorted(h: HdfStore, new hn: Hdf)
    requires old(h.ShapeOk()) && hn in old(h.nodes) && h.nodes == old(h.nodes)
    requires forall k :: k in hn.kids <==> k in old(hn.kids)
    requires forall n :: n in h.nodes && n != hn ==> n.kids == old(n.kids)
    ensures h.ShapeOk()
  {
  }

  twostate lemma TreeSorted(h: HdfStore, new hn: Hdf)
    requires old(h.ShapeOk()) && old(h.TreeOk()) && hn in old(h.nodes) && h.nodes == old(h.nodes)
    requires forall n :: n in h.nodes ==>
      n.value == old(n.value) && n.link == old(n.link) && n.attr == old(n.attr)
    requires forall n :: n in h.nodes && n != hn ==> n.kids == old(n.kids)
    requires Has(old(h.T), hn.path)
    requires IsReordering(NamesOf(hn.kids), Get(old(h.T), hn.path).value.kids)
    requires h.T == Reorder(old(h.T), hn.path, NamesOf(hn.kids))
    ensures h.TreeOk()
  {
    forall n | n in h.nodes
      ensures Shallow(h.T, n.path) == Some(n.Facts())
    {
      assert Shallow(old(h.T), n.path) == Some(old(n.Facts()));
      ReorderShallow(old(h.T), hn.path, NamesOf(hn.kids), n.path);
    }
  }

  /** A permutation of the children is a reordering of the level. */
  lemma ReorderingOf(h: HdfStore, hn: Hdf, level: seq<Hdf>)
    requires h.Valid() && hn in h.nodes && multiset(level) == multiset(hn.kids)
    ensures Has(h.T, hn.path)
    ensures IsReordering(NamesOf(level), Get(h.T, hn.path).value.kids)
    ensures NoRepeats(level) && forall k :: k in level <==> k in hn.kids
  {
    h.Shown(hn);
    assert hn.LevelOk();
    PermutedNames(hn.kids, level);
    var names := Names(Get(h.T, hn.path).value.kids);
    assert names == hn.Facts().names;
    assert Distinct(names);
    forall i | 0 <= i < |level|
      ensures NamesOf(level)[i] in names
    {
      var j :| 0 <= j < |hn.kids| && hn.kids[j] == level[i];
      assert names[j] == level[i].name;
    }
  }

  /** What rewriting one level has done to the nodes. */
  twostate predicate Rearranged(new hn: Hdf, new level: seq<Hdf>, was: set<Hdf>)
    reads was
  {
    && hn in was && hn.kids == level && hn.lastHs == old(hn.lastHs)
    && (forall n :: n in was && n != hn ==>
          n.child == old(n.child) && n.lastChild == old(n.lastChild) && n.kids == old(n.kids) &&
          n.hash == old(n.hash) && n.lastHs == old(n.lastHs))
    && (forall n :: n in was ==>
          n.value == old(n.value) && n.link == old(n.link) && n.attr == old(n.attr))
    && (forall n :: n in was && n !in old(hn.kids) ==> n.next == old(n.next))
  }

  method Rearrange(hn: Hdf, level: seq<Hdf>, ghost was: set<Hdf>, ghost dead: set<Hdf>)
    requires hn in was && (forall k :: k in hn.kids ==> k in was) && hn.LevelOk() && was !! dead
    requires level != [] && multiset(level) == multiset(hn.kids)
    modifies was
    ensures Rearranged(hn, level, was) && hn.LevelOk()
    ensures forall d :: d in dead ==> d.next == old(d.next)
  {
    hn.Relink(level);
  }

  twostate lemma ValidSorted(h: HdfStore, new hn: Hdf, new level: seq<Hdf>)
    requires old(h.Valid()) && hn in old(h.nodes) && h.nodes == old(h.nodes) && h.dead == old(h.dead)
    requires Rearranged(hn, level, old(h.nodes)) && hn.LevelOk()
    requires forall k :: k in level <==> k in old(hn.kids)
    requires forall d :: d in h.dead ==> d.next == old(d.next)
    requires Has(old(h.T), hn.path)
    requires IsReordering(NamesOf(level), Get(old(h.T), hn.path).value.kids)
    requires h.T == Reorder(old(h.T), hn.path, NamesOf(level))
    ensures h.Valid()
  {
    ShapeSorted(h, hn);
    h.LevelsKept(hn);
    TreeSorted(h, hn);
    h.CachesKept();
  }

  lemma LevelFacts(h: HdfStore, hn: Hdf)
    requires h.Valid() && hn in h.nodes
    ensures hn.LevelOk() && h.nodes !! h.dead && forall k :: k in hn.kids ==> k in h.nodes
  {
    assert hn.LevelOk();
  }

  /** The rewritten list is put in place and the tree follows. */
  method Commit(h: HdfStore, hn: Hdf, level: seq<Hdf>)
    requires h.Valid() && hn in h.nodes && level != [] && multiset(level) == multiset(hn.kids)
    modifies h`T, h.nodes
    ensures h.Valid() && h.nodes == old(h.nodes) && Rearranged(hn, level, h.nodes)
    ensures Has(old(h.T), hn.path)
    ensures IsReordering(NamesOf(level), Get(old(h.T), hn.path).value.kids)
    ensures h.T == Reorder(old(h.T), hn.path, NamesOf(level))
  {
    hide HdfStore.Valid;
    ReorderingOf(h, hn, level);
    LevelFacts(h, hn);
    Rearrange(hn, level, h.nodes, h.dead);
    h.T := Reorder(h.T, hn.path, NamesOf(level));
    ValidSorted(h, hn, level);
  }

  lemma ReorderNothing(t: Tree, p: Path)
    requires Has(t, p) && Get(t, p).value.kids == []
    ensures IsReordering([], []) && Reorder(t, p, []) == t
  {
    PutGet(t, p);
  }

  method SortLevel(h: HdfStore, hn: Hdf, le: Order)
    requires h.Valid() && hn in h.nodes && hn.child != null && IsOrder(le)
    modifies h`T, h.nodes
    ensures h.Valid() && h.nodes == old(h.nodes) && multiset(hn.kids) == multiset(old(hn.kids))
    ensures Has(old(h.T), hn.path) && Arranged(old(h.T), hn.path, NamesOf(hn.kids), le, h.T)
  {
    hide HdfStore.Valid, Reads, Sorted;
    LevelFacts(h, hn);
    C.SourceWidth(h, hn);
    var loaded := LoadLevel(h, hn);
    var items := SortList(loaded, le);
    StillReads(h, loaded, items);
    ItemsArrange(h, hn, items, le);
    var level := Unload(items);
    Commit(h, hn, level);
  }

  /** `hdf_sort_obj`: the level becomes a permutation of itself that is ordered, however much of
      the nodes the comparison looks at, and the tree changes in nothing else; `Valid` says that
      the list is well linked, its tail pointer right and every cache and index still usable. */
  method SortObj(h: HdfStore, hn: Hdf, le: Order)
    requires h.Valid() && hn in h.nodes && IsOrder(le)
    modifies h`T, h.nodes
    ensures h.Valid() && h.nodes == old(h.nodes) && multiset(hn.kids) == multiset(old(hn.kids))
    ensures Has(old(h.T), hn.path) && Arranged(old(h.T), hn.path, NamesOf(hn.kids), le, h.T)
  {
    hide HdfStore.Valid;
    ReorderingOf(h, hn, hn.kids);
    LevelFacts(h, hn);
    C.SourceWidth(h, hn);
    if hn.child == null {
      ReorderNothing(h.T, hn.path);
    } else {
      SortLevel(h, hn, le);
    }
  }
}
