/** `hdf_copy` within one data set on the linked nodes, wherever the destination is but inside the
    source: the loop follows the list of the source while it may grow. */
module HdfStoreCopyWithin {
  import opened Options
  import opened HdfTree
  import opened HdfNames
  import opened HdfLevel
  import opened HdfStore
  import opened HdfStoreCopy
  import opened HdfCopyWithin
  import S = HdfSpec
  import C = HdfCopy

  lemma NodeShown(h: HdfStore, n: Hdf)
    requires h.Valid() && n in h.nodes
    ensures Has(h.T, n.path)
  {
    h.Shown(n);
  }

  /** The data of the node at which the loop stands. */
  lemma StandsAt(h: HdfStore, src: Hdf, st: Hdf, i: nat)
    requires h.Valid() && Has(h.T, src.path) && At(h, src, KidsAt(h.T, src.path), st, i)
    ensures var k := KidsAt(h.T, src.path)[i];
      IsComponent(k.name) && st.name == k.name && k.data == Data(st.value, st.link, st.attr) &&
      st.path == src.path + [k.name]
  {
    KidAt(h, src, st, i);
    SourceKid(h, src, i);
  }

  lemma StillAt(h: HdfStore, t: Tree, p: Path, src: Hdf, st: Hdf, i: nat)
    requires h.Valid() && src in h.nodes && st in h.nodes && Has(t, src.path) && Has(h.T, src.path)
    requires GrownAt(t, h.T, p, src.path) && i < |KidsAt(t, src.path)|
    requires st.path == src.path + [KidsAt(t, src.path)[i].name]
    ensures At(h, src, KidsAt(h.T, src.path), st, i)
  {
    assert C.NamesAt(t, src.path)[i] == KidsAt(t, src.path)[i].name;
    assert C.NamesAt(h.T, src.path)[i] == KidsAt(h.T, src.path)[i].name;
  }

  /** One round: the child, all that is below it, and the next one. */
  method LiveStep(h: HdfStore, dest: Hdf, src: Hdf, st: Hdf, ghost i: nat, ghost steps: nat) returns (next: Hdf?)
    requires h.Valid() && dest in h.nodes && src in h.nodes && Has(h.T, dest.path) && Has(h.T, src.path)
    requires At(h, src, KidsAt(h.T, src.path), st, i)
    requires Live(h.T, dest.path, src.path, i, steps + 1).Some?
    modifies h`T, h`nodes, h.nodes
    ensures h.Valid() && old(h.nodes) <= h.nodes && fresh(h.nodes - old(h.nodes))
    ensures Has(h.T, dest.path) && Has(h.T, src.path) && At(h, src, KidsAt(h.T, src.path), next, i + 1)
    ensures Live(h.T, dest.path, src.path, i + 1, steps) == old(Live(h.T, dest.path, src.path, i, steps + 1))
    decreases steps, 1
  {
    hide HdfStore.Valid, Live, Placed, At, GrownAt;
    ghost var t := h.T;
    StandsAt(h, src, st, i);
    AtMiddle(h, src, st, i);
    PlacedIs(t, dest.path, src.path, i);
    Round(t, dest.path, src.path, i, steps);
    var dt := PlaceNode(h, dest, st.name, Data(st.value, false, st.attr));
    CopyLive(h, dt, st, steps);
    NodeShown(h, src);
    StillAt(h, t, dest.path, src, st, i);
    next := Next(h, src, st, KidsAt(h.T, src.path), i);
  }

  lemma AtMiddle(h: HdfStore, src: Hdf, st: Hdf, i: nat)
    requires Has(h.T, src.path) && At(h, src, KidsAt(h.T, src.path), st, i)
    ensures i < |KidsAt(h.T, src.path)| && st in h.nodes
  {
  }

  lemma AtEnd(h: HdfStore, src: Hdf, i: nat)
    requires Has(h.T, src.path) && At(h, src, KidsAt(h.T, src.path), null, i)
    ensures i >= |KidsAt(h.T, src.path)|
  {
  }

  /** `_copy_nodes`, for any two nodes of one data set between which it comes to an end. */
  method CopyLive(h: HdfStore, dest: Hdf, src: Hdf, ghost steps: nat)
    requires h.Valid() && dest in h.nodes && src in h.nodes && Has(h.T, dest.path) && Has(h.T, src.path)
    requires Live(h.T, dest.path, src.path, 0, steps).Some?
    modifies h`T, h`nodes, h.nodes
    ensures h.Valid() && old(h.nodes) <= h.nodes && fresh(h.nodes - old(h.nodes))
    ensures Some(h.T) == old(Live(h.T, dest.path, src.path, 0, steps))
    decreases steps, 0
  {
    hide HdfStore.Valid, Live, At, KidsAt;
    ghost var goal := Live(h.T, dest.path, src.path, 0, steps);
    var st := Begin(h, src);
    ghost var i: nat, left: nat := 0, steps;
    while st != null
      invariant h.Valid() && dest in h.nodes && src in h.nodes && Has(h.T, dest.path) && Has(h.T, src.path)
      invariant old(h.nodes) <= h.nodes && fresh(h.nodes - old(h.nodes))
      invariant At(h, src, KidsAt(h.T, src.path), st, i) && left <= steps
      invariant Live(h.T, dest.path, src.path, i, left) == goal
      decreases left
    {
      LiveUnfolded(h.T, dest.path, src.path, i, 0);
      st := LiveStep(h, dest, src, st, i, left - 1);
      i, left := i + 1, left - 1;
    }
    AtEnd(h, src, i);
    LiveUnfolded(h.T, dest.path, src.path, i, if left > 0 then left - 1 else 0);
  }

  method Begin(h: HdfStore, src: Hdf) returns (st: Hdf?)
    requires h.Valid() && src in h.nodes && Has(h.T, src.path)
    ensures At(h, src, KidsAt(h.T, src.path), st, 0)
  {
    st := First(h, src);
  }

  /** Making the destination, if it has to be made. */
  method DestinationNode(h: HdfStore, base: Hdf, name: string, ghost fuel: nat) returns (node: Hdf?)
    requires h.Valid() && base in h.nodes && Has(h.T, base.path)
    requires !C.Copy(h.T, base.path, name, [], fuel).Undefined?
    modifies h`T, h`nodes, h.nodes
    ensures h.Valid() && old(h.nodes) <= h.nodes && fresh(h.nodes - old(h.nodes))
    ensures var r := C.Copy(old(h.T), base.path, name, [], fuel);
      h.T == r.tree && (node != null <==> r.Copied?) &&
      (node != null ==> node in h.nodes && C.Destination(old(h.T), base.path, name, fuel) == Some(node.path))
  {
    hide HdfStore.Valid, S.SetValue, S.Walk;
    node := h.Walk(base, name, fuel);
    if node == null {
      var ok, made := h.SetValue(base, name, EmptyData, fuel);
      node := if ok then made else null;
    }
  }

  /** `hdf_copy` within one data set. It may be called whenever looking the destination up, or
      creating it, comes to an end, and the destination is not inside the source. */
  method CopyTreeWithin(h: HdfStore, base: Hdf, name: string, src: Hdf, ghost fuel: nat)
    returns (ok: bool, ghost steps: nat)
    requires h.Valid() && base in h.nodes && src in h.nodes && Has(h.T, base.path)
    requires !C.Copy(h.T, base.path, name, [], fuel).Undefined?
    requires var dest := C.Destination(h.T, base.path, name, fuel);
      dest.Some? ==> !(src.path < dest.value)
    modifies h`T, h`nodes, h.nodes
    ensures h.Valid() && old(h.nodes) <= h.nodes && fresh(h.nodes - old(h.nodes))
    ensures var r := C.Copy(old(h.T), base.path, name, [], fuel);
      && ok == r.Copied?
      && (!ok ==> h.T == r.tree)
      && (ok ==>
            var dest := C.Destination(old(h.T), base.path, name, fuel);
            dest.Some? && Has(r.tree, dest.value) && Has(r.tree, src.path) &&
            Some(h.T) == Live(r.tree, dest.value, src.path, 0, steps))
  {
    hide HdfStore.Valid, Live, C.Copy, C.Destination;
    var node := DestinationNode(h, base, name, fuel);
    ok, steps := node != null, 0;
    if node != null {
      NodeShown(h, node);
      NodeShown(h, src);
      ValidDistinct(h);
      ReturnsIffOutside(h.T, node.path, src.path);
      steps :| Live(h.T, node.path, src.path, 0, steps).Some?;
      CopyLive(h, node, src, steps);
    }
  }
}
