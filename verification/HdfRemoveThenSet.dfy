/** The linked nodes after a removal and the making of a sibling: the list of the parent is the
    old one without the removed node, with the new one at its end. */
module HdfRemoveThenSet {
  import opened Options
  import opened HdfTree
  import opened HdfNames
  import opened HdfLevel
  import opened HdfStore
  import opened HdfRemove
  import S = HdfSpec
  import C = HdfCopy
  import E = HdfLaws
  import L = HdfLookup
  import N = HdfStoreCopy

  /** A child that was there before and is there now is the same node. */
  twostate lemma SameKids(h: HdfStore, new n: Hdf)
    requires old(h.Valid()) && h.Valid() && n in old(h.nodes) && n in h.nodes
    requires h.nodes <= old(h.nodes) || old(h.nodes) <= h.nodes
    ensures forall k, m :: k in n.kids && m in old(n.kids) && k.name == m.name ==> k == m
  {
    forall k, m | k in n.kids && m in old(n.kids) && k.name == m.name
      ensures k == m
    {
      assert k.path == n.path + [k.name] && m.path == n.path + [m.name];
    }
  }

  /** A node stays in the data set as long as its path is in the tree. */
  twostate lemma StillThere(h: HdfStore, new n: Hdf)
    requires old(h.Valid()) && h.Valid() && n in old(h.nodes) && h.nodes <= old(h.nodes)
    requires Has(h.T, n.path)
    ensures n in h.nodes
  {
    assert h.root.path + n.path == n.path;
    var m := N.EveryPathHasANode(h, h.root, n.path);
  }

  lemma SameList(a: seq<Hdf>, b: seq<Hdf>)
    requires NamesOf(a) == NamesOf(b)
    requires forall k, m :: k in a && m in b && k.name == m.name ==> k == m
    ensures a == b
  {
    forall j | 0 <= j < |a|
      ensures a[j] == b[j]
    {
      assert NamesOf(a)[j] == a[j].name && NamesOf(b)[j] == b[j].name;
    }
  }

  lemma NamesWithout(kids: seq<Hdf>, i: nat)
    requires i < |kids|
    ensures NamesOf(Without(kids, i)) == Without(NamesOf(kids), i)
  {
  }

  lemma NamesWith(kids: seq<Hdf>, k: Hdf)
    ensures NamesOf(kids + [k]) == NamesOf(kids) + [k.name]
  {
  }

  lemma TakenOut(t: Tree, base: Path, removed: string) returns (i: nat)
    requires Has(t, base) && AllDistinct(t) && Has(t, base + Components(removed))
    ensures var target, r := base + Components(removed), RemoveTree(t, base, removed);
      var names, p := C.NamesAt(t, L.Parent(target)), L.Parent(target);
      Has(r, p) && i < |names| && p + [names[i]] == target && C.NamesAt(r, p) == Without(names, i)
  {
    hide RemoveTree, Components;
    var target, r := base + Components(removed), RemoveTree(t, base, removed);
    var p := L.Parent(target);
    RemoveTreeExactly(t, base, removed, p);
    i := OutOf(t, r, p, target[|target| - 1]);
    assert target == p + [target[|target| - 1]];
  }

  lemma OutOf(t: Tree, r: Tree, p: Path, gone: string) returns (i: nat)
    requires Has(t, p) && Has(r, p) && OneTakenOut(t, r, p, gone)
    ensures var names := C.NamesAt(t, p);
      i < |names| && names[i] == gone && C.NamesAt(r, p) == Without(names, i)
  {
    i :| 0 <= i < |Shallow(t, p).value.names| && Shallow(t, p).value.names[i] == gone &&
      Shallow(r, p).value.names == Without(Shallow(t, p).value.names, i);
  }

  twostate lemma ListTakenOut(h: HdfStore, new lp: Hdf, new i: nat)
    requires old(h.Valid()) && h.Valid() && lp in old(h.nodes) && lp in h.nodes && h.nodes <= old(h.nodes)
    requires i < |C.NamesAt(old(h.T), lp.path)|
    requires C.NamesAt(h.T, lp.path) == Without(C.NamesAt(old(h.T), lp.path), i)
    ensures i < |old(lp.kids)| && lp.kids == Without(old(lp.kids), i)
    ensures old(lp.kids)[i].path == lp.path + [C.NamesAt(old(h.T), lp.path)[i]]
  {
    hide HdfStore.Valid;
    N.NamesShown(h, lp);
    NamesWere(h, lp);
    NamesWithout(old(lp.kids), i);
    SameKids(h, lp);
    SameList(lp.kids, Without(old(lp.kids), i));
  }

  twostate lemma NamesWere(h: HdfStore, new n: Hdf)
    requires old(h.Valid()) && n in old(h.nodes)
    ensures C.NamesAt(old(h.T), n.path) == NamesOf(old(n.kids))
    ensures forall k :: k in old(n.kids) ==> k.path == n.path + [k.name]
  {
    assert Shallow(old(h.T), n.path) == Some(old(n.Facts()));
  }

  /** The removal, seen from the parent: its list has lost exactly the removed node. */
  method TakeOut(h: HdfStore, hdf: Hdf, removed: string, lp: Hdf, other: Hdf) returns (ghost i: nat)
    requires h.Valid() && hdf in h.nodes && lp in h.nodes && other in h.nodes && Has(h.T, hdf.path)
    requires Has(h.T, hdf.path + Components(removed)) && lp.path == L.Parent(hdf.path + Components(removed))
    modifies h`T, h`nodes, h`dead, h.nodes
    ensures h.Valid() && lp in h.nodes && h.nodes <= old(h.nodes) && Has(h.T, lp.path)
    ensures Has(h.T, other.path) ==> other in h.nodes
    ensures h.T == RemoveTree(old(h.T), hdf.path, removed)
    ensures i < |old(lp.kids)| && old(lp.kids)[i].path == hdf.path + Components(removed)
    ensures lp.kids == Without(old(lp.kids), i)
  {
    hide HdfStore.Valid, RemoveTree, C.NamesAt, Components;
    N.ValidDistinct(h);
    i := TakenOut(h.T, hdf.path, removed);
    h.RemoveTree(hdf, removed);
    StillThere(h, lp);
    if Has(h.T, other.path) {
      StillThere(h, other);
    }
    ListTakenOut(h, lp, i);
  }

  /** An assignment that has made the child `c` of the node `lp`: a new node at the end of the list. */
  twostate lemma ListAppended(h: HdfStore, new lp: Hdf, new node: Hdf, new c: string)
    requires old(h.Valid()) && h.Valid() && lp in old(h.nodes) && old(h.nodes) <= h.nodes
    requires node in h.nodes && node.path == lp.path + [c] && !Has(old(h.T), lp.path + [c])
    requires C.NamesAt(h.T, lp.path) == C.NamesAt(old(h.T), lp.path) + [c]
    ensures node !in old(h.nodes) && node.name == c && lp.kids == old(lp.kids) + [node]
  {
    hide HdfStore.Valid;
    N.NamesShown(h, lp);
    NamesWere(h, lp);
    NewNode(h, lp, node, c);
    NamesWith(old(lp.kids), node);
    SameKids(h, lp);
    SameList(lp.kids, old(lp.kids) + [node]);
  }

  twostate lemma WasShown(h: HdfStore, new n: Hdf)
    requires old(h.Valid())
    ensures n in old(h.nodes) ==> Has(old(h.T), n.path)
  {
    assert n in old(h.nodes) ==> Shallow(old(h.T), n.path) == Some(old(n.Facts()));
  }

  twostate lemma NewNode(h: HdfStore, new lp: Hdf, new node: Hdf, new c: string)
    requires old(h.Valid()) && h.Valid() && lp in old(h.nodes) && old(h.nodes) <= h.nodes
    requires node in h.nodes && node.path == lp.path + [c] && !Has(old(h.T), lp.path + [c])
    requires c in NamesOf(lp.kids)
    ensures node !in old(h.nodes) && node.name == c
    ensures forall k :: k in lp.kids && k.name == c ==> k == node
  {
    WasShown(h, node);
    forall k | k in lp.kids && k.name == c
      ensures k == node
    {
      assert k.path == lp.path + [c];
    }
    var j :| 0 <= j < |lp.kids| && NamesOf(lp.kids)[j] == c;
    assert lp.kids[j] in lp.kids;
  }

  /** What an assignment that ends at a new node leaves there and at its parent. */
  lemma Made(t: Tree, from: Path, added: string, d: Data, fuel: nat, p: Path, c: string)
    requires Has(t, from) && Has(t, p) && !Has(t, p + [c])
    requires var r := S.SetValue(t, from, added, d, fuel); r.Done? && r.path == p + [c]
    ensures var t2 := S.SetValue(t, from, added, d, fuel).tree;
      C.NamesAt(t2, p) == C.NamesAt(t, p) + [c] && Shallow(t2, p + [c]) == Some(Entry(d, []))
  {
    hide S.SetSteps, S.SetValue;
    S.NameUnfolded(t, from, added, d, fuel);
    var way := E.SetExactly(t, from, from, added, d, fuel);
    var t2 := S.SetValue(t, from, added, d, fuel).tree;
    assert Shallow(t2, p) == E.SetEntry(t, way, d, p) && Shallow(t2, p + [c]) == E.SetEntry(t, way, d, p + [c]);
    E.OnTheWay(t, p, c, way, p);
  }

  method Append(h: HdfStore, from: Hdf, added: string, lp: Hdf, ghost c: string, d: Data, ghost fuel: nat)
    returns (node: Hdf)
    requires h.Valid() && from in h.nodes && lp in h.nodes && Has(h.T, from.path) && Has(h.T, lp.path)
    requires !Has(h.T, lp.path + [c])
    requires var r := S.SetValue(h.T, from.path, added, d, fuel); r.Done? && r.path == lp.path + [c]
    modifies h`T, h`nodes, h.nodes
    ensures h.Valid() && old(h.nodes) <= h.nodes && fresh(h.nodes - old(h.nodes)) && node in h.nodes
    ensures node !in old(h.nodes) && lp.kids == old(lp.kids) + [node]
    ensures h.T == S.SetValue(old(h.T), from.path, added, d, fuel).tree
    ensures node.path == lp.path + [c] && node.name == c && Shallow(h.T, node.path) == Some(Entry(d, []))
  {
    hide HdfStore.Valid, S.SetValue;
    Made(h.T, from.path, added, d, fuel, lp.path, c);
    var ok, made := h.SetValue(from, added, d, fuel);
    node := made;
    ListAppended(h, lp, node, c);
  }

  /** `hdf_remove_tree`, and then a `_set_value` from any node and through any links that makes a
      child `c` of the parent. The list is the same whether the level is hashed or not. */
  method RemoveThenSet(h: HdfStore, hdf: Hdf, removed: string, lp: Hdf, from: Hdf, added: string, ghost c: string,
                       d: Data, ghost fuel: nat)
    returns (node: Hdf, ghost i: nat)
    requires h.Valid() && hdf in h.nodes && lp in h.nodes && from in h.nodes && Has(h.T, hdf.path)
    requires var target := hdf.path + Components(removed);
      Has(h.T, target) && lp.path == L.Parent(target)
    requires var t := RemoveTree(h.T, hdf.path, removed);
      Has(t, from.path) && !Has(t, lp.path + [c]) &&
      var r := S.SetValue(t, from.path, added, d, fuel); r.Done? && r.path == lp.path + [c]
    modifies h`T, h`nodes, h`dead, h.nodes
    ensures h.Valid() && lp in h.nodes && node in h.nodes && fresh(node)
    ensures h.T == S.SetValue(RemoveTree(old(h.T), hdf.path, removed), from.path, added, d, fuel).tree
    ensures node.path == lp.path + [c] && node.name == c && Shallow(h.T, node.path) == Some(Entry(d, []))
    ensures i < |old(lp.kids)| && old(lp.kids)[i].path == hdf.path + Components(removed)
    ensures lp.kids == Without(old(lp.kids), i) + [node]
  {
    hide HdfStore.Valid, RemoveTree, S.SetValue;
    i := TakeOut(h, hdf, removed, lp, from);
    node := Append(h, from, added, lp, c, d, fuel);
  }
}
