/** Runs of operations on the linked nodes: every structural invariant is kept by every step,
    and the tree goes through exactly the steps that HdfReplay describes. */
module HdfRuns {
  import opened Options
  import opened HdfTree
  import opened HdfLevel
  import opened HdfStore
  import opened HdfRemove
  import opened HdfReplay
  import opened HdfStoreCopy
  import opened HdfSort
  import C = HdfCopy
  import L = HdfPlain

  /** The cached or hashed search, the scan of the list and the tree agree on every name. */
  method FindBothWays(h: HdfStore, hn: Hdf, c: string) returns (hp: Hdf?)
    requires h.Valid() && hn in h.nodes
    modifies hn`lastHp, hn`lastHs
    ensures h.Valid()
    ensures hp == null <==> !Has(h.T, hn.path + [c])
    ensures hp != null ==> hp in h.nodes && hp.path == hn.path + [c]
  {
    var hs, count, ln;
    ghost var i;
    hp, hs, count := h.SearchAt(hn, c);
    var scanned: Hdf?;
    scanned, ln, i := h.ScanAt(hn, c);
    assert hp == scanned;
  }

  /** The node that a caller holds, found by its path. */
  method NodeAt(h: HdfStore, p: Path) returns (n: Hdf)
    requires h.Valid() && Has(h.T, p)
    ensures n in h.nodes && n.path == p
  {
    hide HdfStore.Valid, Has;
    RootFacts(h);
    n := h.root;
    for i := 0 to |p|
      invariant n in h.nodes && n.path == p[..i]
    {
      PrefixThere(h.T, p, i);
      var m := h.Lookup(n, p[i]);
      n := m;
    }
    assert p[..|p|] == p;
  }

  lemma PrefixThere(t: Tree, p: Path, i: nat)
    requires Has(t, p) && i < |p|
    ensures Has(t, p[..i] + [p[i]]) && p[..i] + [p[i]] == p[..i + 1]
  {
    var q := p[..i] + [p[i]];
    assert q == p[..i + 1] && p == q + p[i + 1..];
    GetAppend(t, q, p[i + 1..]);
  }

  /** `hdf_sort_obj` on a node. */
  method SortNode(h: HdfStore, node: Hdf, le: Order)
    requires h.Valid() && node in h.nodes && IsOrder(le)
    modifies h`T, h.nodes
    ensures h.Valid() && h.nodes == old(h.nodes) && Has(old(h.T), node.path)
    ensures exists names :: Arranged(old(h.T), node.path, names, le, h.T)
  {
    SortObj(h, node, le);
  }

  lemma RootFacts(h: HdfStore)
    requires h.Valid()
    ensures h.root in h.nodes && h.root.path == [] && Has(h.T, [])
  {
  }

  /** One operation of a run. */
  method Perform(h: HdfStore, from: HdfStore, op: Op, ghost fuel: nat)
    requires h.Valid() && from.Valid() && Apart(h, from) && Returns(h.T, op, from.T, fuel)
    modifies h`T, h`nodes, h`dead, h.nodes
    ensures h.Valid() && from.Valid() && Apart(h, from) && fresh(h.nodes - old(h.nodes))
    ensures Leads(old(h.T), op, from.T, fuel, h.T)
  {
    hide HdfStore.Valid;
    var node := NodeAt(h, op.at);
    match op {
      case Set(_, name, d) =>
        var ok, made := h.SetValue(node, name, d, fuel);
      case Remove(_, name) =>
        h.RemoveTree(node, name);
      case Sort(_, le) =>
        SortNode(h, node, le);
      case Copy(_, name, src) =>
        var source := NodeAt(from, src);
        var ok := CopyTree(h, node, name, from, source, fuel);
      case CopyWithin(_, name, src) =>
        var source := NodeAt(h, src);
        var ok := CopyTree(h, node, name, h, source, fuel);
    }
  }

  /** Any run of operations that return: the nodes stay valid throughout, so every list is
      well linked, every index maps exactly the names of its level and no cache is stale; the
      tree goes from step to step as specified; and whenever there were no links to begin with
      and none is made, every lookup afterwards is decided by the list of operations. */
  method Run(h: HdfStore, from: HdfStore, ops: seq<Op>) returns (ghost trees: seq<Tree>)
    requires h.Valid() && from.Valid() && Apart(h, from) && RunReturns(h.T, ops, from.T)
    modifies h`T, h`nodes, h`dead, h.nodes
    ensures h.Valid() && from.Valid() && Apart(h, from) && fresh(h.nodes - old(h.nodes))
    ensures IsRun(trees, ops, from.T) && trees[0] == old(h.T) && trees[|ops|] == h.T
  {
    hide HdfStore.Valid;
    trees := [h.T];
    var i := 0;
    while i < |ops|
      invariant 0 <= i <= |ops| && |trees| == i + 1
      invariant h.Valid() && from.Valid() && Apart(h, from) && fresh(h.nodes - old(h.nodes))
      invariant IsRun(trees, ops[..i], from.T) && trees[0] == old(h.T) && trees[i] == h.T
      invariant RunReturns(h.T, ops[i..], from.T)
    {
      ghost var fuel :| Returns(h.T, ops[i], from.T, fuel);
      ghost var was := h.T;
      Perform(h, from, ops[i], fuel);
      RunExtended(trees, ops, i, from.T, h.T);
      assert LeadsTo(was, ops[i..][0], from.T, h.T);
      assert ops[i..][1..] == ops[i + 1..];
      trees, i := trees + [h.T], i + 1;
    }
    assert ops[..i] == ops;
  }

  lemma RunExtended(trees: seq<Tree>, ops: seq<Op>, i: nat, from: Tree, t2: Tree)
    requires i < |ops| && IsRun(trees, ops[..i], from) && LeadsTo(trees[i], ops[i], from, t2)
    ensures IsRun(trees + [t2], ops[..i + 1], from)
  {
    assert (trees + [t2])[..i + 1] == trees;
    assert ops[..i + 1][..i] == ops[..i] && ops[..i + 1][i] == ops[i];
  }

  lemma ValidShape(h: HdfStore)
    requires h.Valid()
    ensures C.WellFormed(h.T.kids)
    ensures L.Plain(h.T) ==> Sound(h.T) && Copyable(h.T)
  {
    RootFacts(h);
    AlwaysWellFormed(h, h.root);
    if L.Plain(h.T) {
      SoundFromParts(h.T);
    }
  }

  /** What a new data set holds: a root without a value. */
  ghost function JustARoot(): Contents
  {
    ContentsOf(EmptyRoot)
  }

  lemma NewIsSound()
    ensures Sound(EmptyRoot) && forall q :: JustARoot()(q) == if q == [] then Some(None) else None
  {
    forall q
      ensures GoodEntry(Shallow(EmptyRoot, q)) && Under(EmptyRoot, q) == if q == [] then Some(None) else None
    {
    }
  }

  /** A new data set after any run that makes no link and uses nodes that are there: the run comes
      to an end, and under every path is exactly what the list of operations says. */
  method RunOnNew(forceHashAt: nat, from: HdfStore, ops: seq<Op>) returns (h: HdfStore)
    requires from.Valid() && L.Plain(from.T) && AllHarmless(ops) && AllOrders(ops) && AllHeld(ops, from.T, JustARoot())
    ensures h.Valid() && fresh(h) && Sound(h.T)
    ensures forall q :: JustARoot()(q) == if q == [] then Some(None) else None
    ensures forall q :: Under(h.T, q) == Replay(ops, from.T, JustARoot(), q)
  {
    h := new HdfStore(forceHashAt);
    NewIsSound();
    ValidShape(from);
    SoundRunReturns(h.T, ops, from.T);
    ghost var trees := Run(h, from, ops);
    RunValues(trees, ops, from.T, []);
    forall q
      ensures Under(h.T, q) == Replay(ops, from.T, JustARoot(), q)
    {
      RunValues(trees, ops, from.T, q);
    }
  }
}
