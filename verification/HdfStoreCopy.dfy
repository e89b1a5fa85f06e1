/** `hdf_copy`, within one data set or from one into another, node by node. */
module HdfStoreCopy {
  import Seqs
  import opened Options
  import opened HdfTree
  import opened HdfNames
  import opened HdfLevel
  import opened HdfStore
  import opened HdfRemove
  import S = HdfSpec
  import C = HdfCopy
  import L = HdfLaws
  import K = HdfLookup

  /** Two data sets that share no node. */
  ghost predicate Apart(h: HdfStore, from: HdfStore)
    reads h, from
  {
    h != from && h.nodes !! from.nodes && h.nodes !! from.dead
  }

  /** The source is in another data set, or in the same one beside the destination. */
  ghost predicate Separate(h: HdfStore, dest: Path, from: HdfStore, src: Path)
    reads h, from
  {
    Apart(h, from) || (h == from && C.Beside(dest, src))
  }

  /** What the nodes below `src` say about the source tree. */
  ghost predicate Shows(from: HdfStore, src: Hdf)
    reads from, src
  {
    Has(from.T, src.path) && |src.kids| == |Get(from.T, src.path).value.kids|
  }

  lemma SourceKid(from: HdfStore, src: Hdf, i: nat)
    requires from.Valid() && src in from.nodes && i < |src.kids|
    ensures Shows(from, src) && src.kids[i] in from.nodes && IsComponent(src.kids[i].name)
    ensures var st := Get(from.T, src.path).value.kids[i];
      Get(from.T, src.kids[i].path) == Some(st) && st.name == src.kids[i].name &&
      st.data == Data(src.kids[i].value, src.kids[i].link, src.kids[i].attr)
    ensures src.kids[i].next == After(src.kids, i)
  {
    from.Shown(src);
    assert src.LevelOk();
    assert Shallow(from.T, src.path) == Some(src.Facts());
    assert src.kids[i] in src.kids;
    var kids := Get(from.T, src.path).value.kids;
    assert Names(kids) == NamesOf(src.kids);
    IndexUnique(kids, i);
    GetKid(from.T, src.path, src.kids[i].name);
    from.Shown(src.kids[i]);
  }

  lemma SourceDistinct(from: HdfStore, src: Hdf, i: nat)
    requires from.Valid() && src in from.nodes && i < |src.kids| && Shows(from, src)
    ensures var kids := Get(from.T, src.path).value.kids;
      IndexOf(kids, kids[i].name) == i
  {
    assert src.LevelOk();
    var kids := Get(from.T, src.path).value.kids;
    assert Shallow(from.T, src.path) == Some(src.Facts());
    assert Names(kids) == NamesOf(src.kids);
    IndexUnique(kids, i);
  }

  method PlaceNode(h: HdfStore, dest: Hdf, c: string, d: Data) returns (dt: Hdf)
    requires h.Valid() && dest in h.nodes && Has(h.T, dest.path) && IsComponent(c)
    modifies h`T, h`nodes, h.nodes
    ensures h.Valid() && old(h.nodes) <= h.nodes && fresh(h.nodes - old(h.nodes))
    ensures dt in h.nodes && dt.path == dest.path + [c] && Has(h.T, dest.path) && Has(h.T, dt.path)
    ensures h.T == C.Place(old(h.T), dest.path, c, d)
  {
    hide HdfStore.Valid;
    C.SetSingle(h.T, dest.path, c, d, 0);
    var ok, node := h.SetValue(dest, c, d, 0);
    dt := node;
    h.Shown(dest);
    h.Shown(dt);
  }

  lemma SourceWidth(from: HdfStore, src: Hdf)
    requires from.Valid() && src in from.nodes
    ensures Shows(from, src) && src.child == if src.kids == [] then null else src.kids[0]
  {
    assert src.LevelOk();
    assert Shallow(from.T, src.path) == Some(src.Facts());
  }

  /** One round: a child of the source and all that is below it. */
  method CopyOne(h: HdfStore, dest: Hdf, from: HdfStore, st: Hdf)
    requires h.Valid() && dest in h.nodes && Has(h.T, dest.path)
    requires from.Valid() && st in from.nodes && Separate(h, dest.path, from, st.path) && Has(from.T, st.path)
    requires IsComponent(st.name)
    requires Get(from.T, st.path).value.data == Data(st.value, st.link, st.attr)
    modifies h`T, h`nodes, h.nodes
    ensures h.Valid() && old(h.nodes) <= h.nodes && fresh(h.nodes - old(h.nodes))
    ensures from.Valid() && (old(Apart(h, from)) ==> Apart(h, from)) && Has(h.T, dest.path)
    ensures var s, q := Get(old(from.T), st.path).value, dest.path + [st.name];
      var placed := C.Place(old(h.T), dest.path, st.name, C.Unlinked(s.data));
      Has(placed, q) && h.T == C.CopyKids(placed, q, s.kids)
    decreases Get(from.T, st.path).value, 1
  {
    hide HdfStore.Valid;
    if h == from {
      C.BesideKid(dest.path, st.path, st.name);
      C.PlaceBeside(h.T, dest.path, st.name, Data(st.value, false, st.attr), st.path);
    }
    var dt := PlaceNode(h, dest, st.name, Data(st.value, false, st.attr));
    CopyNodes(h, dt, from, st);
    h.Shown(dest);
  }

  lemma Onward(t: Tree, p: Path, kids: seq<Tree>, i: nat)
    requires Has(t, p) && i < |kids|
    ensures var s, q := kids[i], p + [kids[i].name];
      var placed := C.Place(t, p, s.name, C.Unlinked(s.data));
      Has(placed, q) && var deep := C.CopyKids(placed, q, s.kids);
      Has(deep, p) && C.CopyKids(t, p, kids[i..]) == C.CopyKids(deep, p, kids[i + 1..])
  {
    var s, q := kids[i], p + [kids[i].name];
    C.PlaceShallow(t, p, s.name, C.Unlinked(s.data), p);
    C.PlaceShallow(t, p, s.name, C.Unlinked(s.data), q);
    C.CopyKeeps(C.Place(t, p, s.name, C.Unlinked(s.data)), q, s.kids, p);
    assert kids[i..][0] == kids[i] && kids[i..][1..] == kids[i + 1..];
  }

  /** The child of that name is at the same position among the nodes. */
  lemma KidAt(from: HdfStore, src: Hdf, st: Hdf, i: nat)
    requires from.Valid() && src in from.nodes && st in from.nodes && Has(from.T, src.path)
    requires i < |Get(from.T, src.path).value.kids|
    requires st.path == src.path + [Get(from.T, src.path).value.kids[i].name]
    ensures |src.kids| == |Get(from.T, src.path).value.kids| && src.kids[i] == st
  {
    SourceWidth(from, src);
    SourceKid(from, src, i);
    assert src.kids[i].path == src.path + [src.kids[i].name];
  }

  /** Where the loop over the children of `src` stands. */
  ghost predicate At(from: HdfStore, src: Hdf, kids: seq<Tree>, st: Hdf?, i: nat)
    reads from
  {
    && src in from.nodes && Has(from.T, src.path) && Get(from.T, src.path).value.kids == kids && i <= |kids|
    && (st == null <==> i == |kids|)
    && (st != null ==> st in from.nodes && st.path == src.path + [kids[i].name])
  }

  method First(from: HdfStore, src: Hdf) returns (st: Hdf?)
    requires from.Valid() && src in from.nodes && Has(from.T, src.path)
    ensures At(from, src, Get(from.T, src.path).value.kids, st, 0)
  {
    hide HdfStore.Valid;
    SourceWidth(from, src);
    st := src.child;
    if st != null {
      SourceKid(from, src, 0);
      PathOfKid(from, src, 0);
    }
  }

  /** To the next sibling. */
  method Next(from: HdfStore, src: Hdf, st: Hdf, ghost kids: seq<Tree>, ghost i: nat) returns (next: Hdf?)
    requires from.Valid() && At(from, src, kids, st, i)
    ensures At(from, src, kids, next, i + 1)
  {
    hide HdfStore.Valid;
    KidAt(from, src, st, i);
    SourceKid(from, src, i);
    next := st.next;
    if i + 1 < |kids| {
      SourceKid(from, src, i + 1);
      PathOfKid(from, src, i + 1);
    }
  }

  lemma PathOfKid(from: HdfStore, src: Hdf, i: nat)
    requires from.Valid() && src in from.nodes && i < |src.kids|
    ensures src.kids[i].path == src.path + [src.kids[i].name]
  {
    assert src.kids[i] in src.kids;
  }

  /** One round of the loop: what remains to be copied leads to the same tree as before. */
  method CopyStep(h: HdfStore, dest: Hdf, from: HdfStore, src: Hdf, st: Hdf, ghost kids: seq<Tree>, ghost i: nat)
    returns (next: Hdf?)
    requires h.Valid() && dest in h.nodes && Has(h.T, dest.path)
    requires from.Valid() && Separate(h, dest.path, from, src.path) && At(from, src, kids, st, i)
    modifies h`T, h`nodes, h.nodes
    ensures h.Valid() && old(h.nodes) <= h.nodes && fresh(h.nodes - old(h.nodes))
    ensures from.Valid() && (old(Apart(h, from)) ==> Apart(h, from)) && Has(h.T, dest.path)
    ensures At(from, src, kids, next, i + 1) && Get(from.T, src.path) == old(Get(from.T, src.path))
    ensures C.CopyKids(h.T, dest.path, kids[i + 1..]) == C.CopyKids(old(h.T), dest.path, kids[i..])
    decreases Get(from.T, src.path).value, 0, 0
  {
    hide HdfStore.Valid, C.CopyKids, C.Place, Get;
    KidAt(from, src, st, i);
    SourceKid(from, src, i);
    Onward(h.T, dest.path, kids, i);
    assert kids[i] in kids;
    if h == from {
      C.BesideKid(dest.path, src.path, st.name);
      C.BesideKid(src.path, dest.path, st.name);
      C.PlaceBeside(h.T, dest.path, st.name, C.Unlinked(kids[i].data), src.path);
      C.CopyBeside(C.Place(h.T, dest.path, st.name, C.Unlinked(kids[i].data)), dest.path + [st.name], kids[i].kids,
                   src.path);
    }
    CopyOne(h, dest, from, st);
    next := Next(from, src, st, kids, i);
  }

  /** `_copy_nodes`, from another data set or from beside the destination: the source stays as it
      is. */
  method CopyNodes(h: HdfStore, dest: Hdf, from: HdfStore, src: Hdf)
    requires h.Valid() && dest in h.nodes && Has(h.T, dest.path)
    requires from.Valid() && src in from.nodes && Separate(h, dest.path, from, src.path) && Has(from.T, src.path)
    modifies h`T, h`nodes, h.nodes
    ensures h.Valid() && old(h.nodes) <= h.nodes && fresh(h.nodes - old(h.nodes))
    ensures from.Valid() && (old(Apart(h, from)) ==> Apart(h, from))
    ensures Get(from.T, src.path) == old(Get(from.T, src.path))
    ensures h.T == C.CopyKids(old(h.T), dest.path, Get(from.T, src.path).value.kids)
    decreases Get(from.T, src.path).value, 0, 1
  {
    hide HdfStore.Valid, C.CopyKids, Get;
    ghost var kids := Get(from.T, src.path).value.kids;
    ghost var goal := C.CopyKids(h.T, dest.path, kids);
    Seqs.Whole(kids);
    var st := First(from, src);
    ghost var i := 0;
    while st != null
      invariant h.Valid() && dest in h.nodes && Has(h.T, dest.path)
      invariant from.Valid() && (old(Apart(h, from)) ==> Apart(h, from))
      invariant old(h.nodes) <= h.nodes && fresh(h.nodes - old(h.nodes))
      invariant At(from, src, kids, st, i) && Get(from.T, src.path) == old(Get(from.T, src.path))
      invariant C.CopyKids(h.T, dest.path, kids[i..]) == goal
      decreases |kids| - i
    {
      st := CopyStep(h, dest, from, src, st, kids, i);
      i := i + 1;
    }
    CopyNothing(h.T, dest.path);
  }

  lemma CopyNothing(t: Tree, p: Path)
    requires Has(t, p)
    ensures C.CopyKids(t, p, []) == t
  {
  }

  /** Every tree that a data set can come to stand for is well formed: sibling names are
      distinct, non-empty and free of dots, at every depth. */
  lemma {:induction false} AlwaysWellFormed(h: HdfStore, n: Hdf)
    requires h.Valid() && n in h.nodes
    ensures Has(h.T, n.path) && C.WellFormed(Get(h.T, n.path).value.kids)
    decreases if Has(h.T, n.path) then Get(h.T, n.path).value else h.T
  {
    h.Shown(n);
    SourceWidth(h, n);
    assert n.LevelOk();
    var kids := Get(h.T, n.path).value.kids;
    forall i | 0 <= i < |kids|
      ensures IsComponent(kids[i].name) && C.WellFormed(kids[i].kids) && kids[i].name == n.kids[i].name
    {
      SourceKid(h, n, i);
      AlwaysWellFormed(h, n.kids[i]);
    }
    assert Distinct(Names(kids));
  }

  /** Nothing in the tree is without a node. */
  lemma {:induction false} EveryPathHasANode(h: HdfStore, n: Hdf, r: Path) returns (m: Hdf)
    requires h.Valid() && n in h.nodes && Has(h.T, n.path + r)
    ensures m in h.nodes && m.path == n.path + r
    decreases |r|
  {
    m := n;
    if r == [] {
      assert n.path + r == n.path;
    } else {
      assert n.path + r == n.path + [r[0]] + r[1..];
      GetAppend(h.T, n.path + [r[0]], r[1..]);
      h.KidPresence(n, r[0]);
      var k :| k in n.kids && k.name == r[0];
      m := EveryPathHasANode(h, k, r[1..]);
    }
  }

  lemma NamesShown(h: HdfStore, n: Hdf)
    requires h.Valid() && n in h.nodes
    ensures Has(h.T, n.path) && C.NamesAt(h.T, n.path) == NamesOf(n.kids) && NamesDiffer(n.kids)
  {
    assert n.LevelOk();
    assert Shallow(h.T, n.path) == Some(n.Facts());
  }

  lemma ValidDistinct(h: HdfStore)
    requires h.Valid()
    ensures AllDistinct(h.T)
  {
    forall q | Has(h.T, q)
      ensures Distinct(Shallow(h.T, q).value.names)
    {
      assert h.root.path + q == q;
      var m := EveryPathHasANode(h, h.root, q);
      NamesShown(h, m);
    }
  }

  // ---- the whole operation --------------------------------------------------------------

  /** The source is in another data set, or beside the destination. */
  ghost predicate FreeToCopy(h: HdfStore, base: Path, name: string, from: HdfStore, src: Path, fuel: nat)
    requires Has(h.T, base)
    reads h, from
  {
    Apart(h, from) ||
    (h == from &&
      var dest := C.Destination(h.T, base, name, fuel);
      dest.Some? ==> C.Beside(dest.value, src))
  }

  /** Making the destination leaves the source as it is. */
  lemma MadeBeside(h: HdfStore, base: Path, name: string, src: Path, fuel: nat)
    requires h.Valid() && Has(h.T, base) && Has(h.T, src) && FreeToCopy(h, base, name, h, src, fuel)
    requires S.Walk(h.T, base, name, fuel).Missing? && S.SetValue(h.T, base, name, EmptyData, fuel).Done?
    ensures Get(S.SetValue(h.T, base, name, EmptyData, fuel).tree, src) == Get(h.T, src)
  {
    hide HdfStore.Valid, S.SetValue;
    ValidDistinct(h);
    K.NotTheBase(h.T, base, name, fuel);
    L.SetBeside(h.T, base, name, EmptyData, fuel, src);
  }

  /** `hdf_copy`, within one data set or between two. It may be called whenever looking the
      destination up, or creating it, comes to an end. */
  method CopyTree(h: HdfStore, base: Hdf, name: string, from: HdfStore, src: Hdf, ghost fuel: nat)
    returns (ok: bool)
    requires h.Valid() && base in h.nodes && Has(h.T, base.path)
    requires from.Valid() && src in from.nodes && Has(from.T, src.path)
    requires FreeToCopy(h, base.path, name, from, src.path, fuel)
    requires !C.Copy(h.T, base.path, name, Get(from.T, src.path).value.kids, fuel).Undefined?
    modifies h`T, h`nodes, h.nodes
    ensures h.Valid() && from.Valid() && (old(Apart(h, from)) ==> Apart(h, from))
    ensures old(h.nodes) <= h.nodes && fresh(h.nodes - old(h.nodes))
    ensures var r := C.Copy(old(h.T), base.path, name, Get(old(from.T), src.path).value.kids, fuel);
      ok == r.Copied? && h.T == r.tree
  {
    hide HdfStore.Valid, C.CopyKids, S.SetValue, S.Walk;
    var node := h.Walk(base, name, fuel);
    ok := true;
    if node == null {
      if h == from && S.SetValue(h.T, base.path, name, EmptyData, fuel).Done? {
        MadeBeside(h, base.path, name, src.path, fuel);
      }
      ok, node := h.SetValue(base, name, EmptyData, fuel);
    }
    if ok {
      h.Shown(node);
      CopyNodes(h, node, from, src);
    }
  }
}
