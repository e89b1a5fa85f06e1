/** The laws a caller relies on: set then get, what stays as it was, and termination. */
module HdfLookup {
  import Seqs
  import opened Options
  import opened HdfTree
  import opened HdfAttrs
  import opened HdfWays
  import opened HdfNames
  import opened HdfSpec
  import opened HdfCopy
  import opened HdfRemove
  import opened HdfLaws
  import opened HdfLinks
  import opened HdfTargets

  // ---- assigning through any chain of links -----------------------------------------

  /** An assignment at the root, through any chain of links, followed by a lookup of the same
      name: the very node is found again, with the value set, unless that node is itself one of
      the links that led to it; and then it is not found, if no link lies below that one. */
  lemma SetThenWalk(t: Tree, name: string, d: Data, fuel: nat)
    requires !t.data.link && !d.link && name != ""
    requires SetValue(t, [], name, d, fuel).Done?
    ensures var r := SetValue(t, [], name, d, fuel);
      r.path !in Followed(t, [], name, fuel) ==>
        Walk(r.tree, [], name, fuel) == Found(r.path) && GetValue(r.tree, [], name, fuel) == d.value
    ensures var r := SetValue(t, [], name, d, fuel);
      LinklessBelow(t, r.path) ==>
        (Walk(r.tree, [], name, fuel) == Found(r.path) <==> r.path !in Followed(t, [], name, fuel)) &&
        (r.path in Followed(t, [], name, fuel) ==> EndsBelow(Walk(r.tree, [], name, fuel), r.path))
  {
    var r := SetValue(t, [], name, d, fuel);
    AssignThenWalk(t, [], name, d, fuel);
    SetEffect(t, [], [], name, d, fuel, []);
    SetEffect(t, [], [], name, d, fuel, r.path);
    TargetNotRoot(t, [], [], name, d, fuel);
    LinkFlagOf(t, r.tree, r.path, d, []);
    RootSteps(r.tree, name, fuel);
  }

  /** The same, said before the assignment: a lookup of all but the last component tells where the
      value will be put, and whether the name will lead there afterwards. */
  lemma SetReadsBack(t: Tree, a: string, c: string, d: Data, f: nat) returns (g: nat)
    requires !t.data.link && !d.link && Named(t) && IsComponent(c) && Steps(t, [], a, f).Found?
    ensures var p, n := Steps(t, [], a, f).path, a + "." + c;
      var q, t2 := p + [c], Place(t, p, c, d);
      && SetValue(t, [], n, d, g) == Done(t2, q)
      && (q !in Followed(t, [], n, g) ==> Walk(t2, [], n, g) == Found(q) && GetValue(t2, [], n, g) == d.value)
      && (LinklessBelow(t, q) && q in Followed(t, [], n, g) ==> EndsBelow(Walk(t2, [], n, g), q))
  {
    g := LandsFromTop(t, a, c, d, f);
    SetThenWalk(t, a + "." + c, d, g);
  }

  lemma RootSteps(t: Tree, name: string, fuel: nat)
    requires name != "" && !t.data.link
    ensures Walk(t, [], name, fuel) == Steps(t, [], name, fuel)
  {
  }

  // ---- a link stands for its target ---------------------------------------------------

  /** A name that goes through a link leads where the link's target with the rest of the name leads,
      and the link itself where its target does. */
  lemma LinkStandsForTarget(t: Tree, path: Path, c: string, rest: string, fuel: nat)
    requires !t.data.link && ClearWay(t, [], path) && AllComponents(path) && IsComponent(c)
    requires IsLink(t, path + [c]) && Target(t, path + [c]) != ""
    ensures Walk(t, [], Join(path + [c]), fuel + 1) == Walk(t, [], Target(t, path + [c]), fuel)
    ensures var direct := Walk(t, [], Target(t, path + [c]) + "." + rest, fuel);
      !direct.Stuck? ==> Walk(t, [], Join(path + [c]) + "." + rest, fuel + 1) == direct
  {
    hide Walk, Steps, Resolve;
    var q := path + [c];
    var target := Target(t, q);
    SpelledSteps(t, path, c, "", false, fuel + 1);
    SpelledSteps(t, path, c, rest, true, fuel + 1);
    RootSteps(t, target, fuel);
    RootSteps(t, target + "." + rest, fuel);
    ResolveLink(t, q, fuel + 1);
    if !Walk(t, [], target + "." + rest, fuel).Stuck? {
      ThroughLink(t, q, rest, Steps(t, [], target + "." + rest, fuel), fuel);
    }
  }

  /** A lookup along a clear way to a node, and on from there or not. */
  lemma SpelledSteps(t: Tree, path: Path, c: string, rest: string, more: bool, fuel: nat)
    requires !t.data.link && ClearWay(t, [], path) && AllComponents(path) && IsComponent(c) && Has(t, path + [c])
    ensures var r := Resolve(t, path + [c], fuel);
      Walk(t, [], if more then Join(path + [c]) + "." + rest else Join(path + [c]), fuel) ==
        if more then Onward(t, r, rest, fuel) else r
  {
    hide Walk, Steps, Resolve;
    var n := if more then c + "." + rest else c;
    DotOfHead(c, rest);
    DotOfHead(c, "");
    ClearEnds(t, [], path);
    Seqs.Empty(path);
    FirstStep(t, path, n, fuel);
    if path == [] {
      Seqs.Empty([c]);
      assert Join([c]) == c;
      RootSteps(t, n, fuel);
    } else {
      JoinSnoc(path, c);
      Dots(Join(path), c, rest);
      StepsAlong(t, [], path, n, fuel);
      assert Join(path) + "." + n != "";
      RootSteps(t, Join(path) + "." + n, fuel);
    }
  }

  // ---- what a copy leaves ---------------------------------------------------------------

  /** Where the source has a node, the copy has its value, is no link whatever the source was, and
      has taken its attributes. */
  lemma CopiedThere(t: Tree, p: Path, src: seq<Tree>, q: Path)
    requires Has(t, p) && WellFormed(src) && p < q && Has(Node(src), q[|p|..])
    ensures var r, s := CopyKids(t, p, src), Get(Node(src), q[|p|..]).value;
      Has(r, q) && var after := Get(r, q).value.data;
      && after.value == s.data.value && !after.link
      && (if Has(t, q) then Taken(Get(t, q).value.data.attrs, s.data.attrs, after.attrs)
          else after.attrs == s.data.attrs)
  {
    CopyOverlays(t, p, src, q);
    if Has(t, q) {
      CombineTakes(Get(t, q).value.data.attrs, Get(Node(src), q[|p|..]).value.data.attrs);
    }
  }

  // ---- copying to a name that leads nowhere -----------------------------------------

  /** A copy to a name that a lookup does not find, through whatever links. The place it goes to is
      `at`, which is new or is a link that leads nowhere: such a link loses value and link flag and
      keeps its attributes and what is below it, with the source laid over that. A place that had
      nothing below it gets the source, in order, links turned into plain values. Elsewhere only the
      nodes on the way are made. */
  lemma CopyToMissing(t: Tree, base: Path, name: string, src: seq<Tree>, fuel: nat, q: Path)
    requires Has(t, base) && WellFormed(src)
    requires Walk(t, base, name, fuel).Missing? && SetValue(t, base, name, EmptyData, fuel).Done?
    ensures var r, at := Copy(t, base, name, src, fuel), SetValue(t, base, name, EmptyData, fuel).path;
      && r.Copied? && Has(r.tree, at)
      && (NamesAt(t, at) == [] ==> Get(r.tree, at).value.kids == Flattened(src))
      && (NamesAt(t, at) == [] && LinkFree(src) ==> Get(r.tree, at).value.kids == src)
      && Shallow(r.tree, at) == Some(Entry(
        if Has(t, at) then Assigned(Get(t, at).value.data, EmptyData) else EmptyData,
        WithNew(NamesAt(t, at), Names(src))))
      && (at < q && Has(t, at) ==> Shallow(r.tree, q) == CopyEntry(t, at, src, q))
      && (!(at <= q) ==> Shallow(r.tree, q) == Grown(t, at, q))
  {
    hide SetSteps, SetValue, Walk;
    NameUnfolded(t, base, name, EmptyData, fuel);
    NotTheBase(t, base, name, fuel);
    var at, t1 := SetValue(t, base, name, EmptyData, fuel).path, SetValue(t, base, name, EmptyData, fuel).tree;
    SetKeeps(t, base, name, EmptyData, fuel, at);
    var way := SetExactly(t, base, base, name, EmptyData, fuel);
    assert Shallow(t1, at) == SetEntry(t, at, EmptyData, at) && Shallow(t1, q) == SetEntry(t, at, EmptyData, q);
    CopyOverlays(t1, at, src, at);
    CopyOverlays(t1, at, src, q);
    WholeSource(at, src);
    if NamesAt(t, at) == [] {
      CopyFills(t1, at, src);
      if LinkFree(src) {
        FlattenedLinkFree(src);
      }
    }
    if at < q && Has(t, at) {
      UnderTarget(t, t1, at, src, q);
    }
  }

  lemma NotTheBase(t: Tree, base: Path, name: string, fuel: nat)
    requires Has(t, base) && Walk(t, base, name, fuel).Missing?
    ensures name != ""
  {
  }

  lemma WholeSource(at: Path, src: seq<Tree>)
    ensures Get(Node(src), at[|at|..]) == Some(Node(src))
  {
    Seqs.Whole(at);
  }

  lemma UnderTarget(t: Tree, t1: Tree, at: Path, src: seq<Tree>, q: Path)
    requires Has(t, at) && Has(t1, at) && at < q && Shallow(t1, q) == SetEntry(t, at, EmptyData, q)
    ensures CopyEntry(t1, at, src, q) == CopyEntry(t, at, src, q)
  {
    hide Get, Node;
    assert Shallow(t1, q) == Shallow(t, q);
  }

  lemma CopyFills(t: Tree, at: Path, src: seq<Tree>)
    requires Has(t, at) && Shallow(t, at).value.names == [] && WellFormed(src)
    ensures Has(CopyKids(t, at, src), at) && Get(CopyKids(t, at, src), at).value.kids == Flattened(src)
  {
    CopyAppends(t, at, [], src);
    Seqs.Empty(Flattened(src));
    SetKidsAt(t, at, Flattened(src));
  }

  // ---- a sibling set after a removal ------------------------------------------------

  /** `gone` has been taken out of the list and `c` has been put at its end. */
  ghost predicate MovedOn(names: seq<string>, gone: string, after: seq<string>, c: string)
  {
    exists i {:trigger names[i]} :: 0 <= i < |names| && names[i] == gone && after == Without(names, i) + [c]
  }

  function Parent(p: Path): Path
    requires p != []
  {
    p[..|p| - 1]
  }

  /** What every place shows once the node at `target` has been removed and an assignment, from
      whatever node and through whatever links, has then made the child `c` of its parent: the
      parent's other children in their order, and `c` at the end. */
  ghost predicate MadeAfterRemoval(t: Tree, t2: Tree, target: Path, c: string, d: Data, x: Path)
    requires target != []
  {
    var p := Parent(target);
    if x == p then
      Has(t, p) && Has(t2, p) && Get(t2, p).value.data == Get(t, p).value.data &&
      MovedOn(NamesAt(t, p), target[|target| - 1], NamesAt(t2, p), c)
    else if x == p + [c] then Shallow(t2, x) == Some(Entry(d, []))
    else if target <= x then !Has(t2, x)
    else Shallow(t2, x) == Shallow(t, x)
  }

  lemma RemovedThenSet(t: Tree, base: Path, removed: string, from: Path, added: string, c: string,
    d: Data, fuel: nat, x: Path)
    requires Has(t, base) && AllDistinct(t) && added != ""
    requires var target := base + Components(removed); Has(t, target)
    requires var r, p := RemoveTree(t, base, removed), Parent(base + Components(removed));
      Has(r, from) && !Has(r, p + [c]) && SetValue(r, from, added, d, fuel).Done? &&
      SetValue(r, from, added, d, fuel).path == p + [c]
    ensures MadeAfterRemoval(t, SetValue(RemoveTree(t, base, removed), from, added, d, fuel).tree,
      base + Components(removed), c, d, x)
  {
    hide SetSteps, SetValue, RemoveTree, SetEntry, Shallow, OneTakenOut, MadeAfterRemoval;
    var target, r := base + Components(removed), RemoveTree(t, base, removed);
    NameUnfolded(r, from, added, d, fuel);
    var way := SetExactly(r, from, from, added, d, fuel);
    var t2 := SetValue(r, from, added, d, fuel).tree;
    assert Shallow(t2, x) == SetEntry(r, way, d, x);
    RemoveTreeExactly(t, base, removed, Parent(target));
    RemoveTreeExactly(t, base, removed, x);
    MadeThere(t, r, t2, target, c, d, x);
  }

  lemma MadeThere(t: Tree, r: Tree, t2: Tree, target: Path, c: string, d: Data, x: Path)
    requires target != [] && Has(t, Parent(target)) && Has(r, Parent(target)) && !Has(r, Parent(target) + [c])
    requires OneTakenOut(t, r, Parent(target), target[|target| - 1])
    requires x != Parent(target) ==> if target <= x then !Has(r, x) else Shallow(r, x) == Shallow(t, x)
    requires Shallow(t2, x) == SetEntry(r, Parent(target) + [c], d, x)
    ensures MadeAfterRemoval(t, t2, target, c, d, x)
  {
    hide MovedOn, OneTakenOut, Get;
    var p := Parent(target);
    OnTheWay(r, p, c, p + [c], x);
    ParentMovedOn(t, r, p, target[|target| - 1], c);
  }

  lemma ParentMovedOn(t: Tree, r: Tree, p: Path, gone: string, c: string)
    requires Has(t, p) && Has(r, p) && OneTakenOut(t, r, p, gone)
    ensures MovedOn(NamesAt(t, p), gone, NamesAt(r, p) + [c], c) && Get(r, p).value.data == Get(t, p).value.data
  {
    var i :| 0 <= i < |Shallow(t, p).value.names| && Shallow(t, p).value.names[i] == gone &&
      Shallow(r, p).value.names == Without(Shallow(t, p).value.names, i);
    assert NamesAt(t, p)[i] == gone;
  }

  // ---- two links that overwrite themselves ------------------------------------------

  // A tree in which `x.a` is a link back to `x`, with these children of its own.
  ghost function BackLink(kids: seq<Tree>): Tree { Tree("a", Data(Some("x"), true, []), kids) }
  ghost function BackParent(kids: seq<Tree>): Tree { Tree("x", EmptyData, [BackLink(kids)]) }
  ghost function BackTree(kids: seq<Tree>): Tree { Tree("", EmptyData, [BackParent(kids)]) }

  lemma BackPaths(kids: seq<Tree>, r: Path)
    ensures Get(BackTree(kids), []) == Some(BackTree(kids))
    ensures Get(BackTree(kids), ["x"]) == Some(BackParent(kids))
    ensures Get(BackTree(kids), ["x", "a"] + r) == Get(BackLink(kids), r)
    ensures Get(BackTree(kids), ["x", "a"]) == Some(BackLink(kids))
  {
    var t, q := BackTree(kids), ["x", "a"];
    assert ["x"][1..] == [] && q[1..] == ["a"] && ["a"][1..] == [];
    assert Get(BackParent(kids), ["a"]) == Some(BackLink(kids));
    GetAppend(t, q, r);
  }

  lemma BackNames()
    ensures HasDot("x.a.a") && Head("x.a.a") == "x" && Rest("x.a.a") == "a.a"
    ensures HasDot("a.a") && Head("a.a") == "a" && Rest("a.a") == "a"
    ensures HasDot("x.a") && Head("x.a") == "x" && Rest("x.a") == "a"
    ensures !HasDot("a") && Head("a") == "a"
  {
    assert "x" + "." + "a.a" == "x.a.a" && "x" + "." + "a" == "x.a" && "a" + "." + "a" == "a.a";
    DotOfHead("x", "a.a");
    DotOfHead("x", "a");
    DotOfHead("a", "a");
  }

  lemma BackSteps(kids: seq<Tree>, d: Data)
    ensures var t := BackTree(kids);
      Has(t, ["x"]) && Has(t, ["x", "a"]) &&
      SetSteps(t, [], ["x"], "a", d, 0) ==
        Done(SetData(t, ["x", "a"], Assigned(BackLink(kids).data, d)), ["x", "a"])
    ensures var t := BackTree(kids);
      SetSteps(t, [], [], "x.a", d, 0) == SetSteps(t, [], ["x"], "a", d, 0) &&
      SetSteps(t, [], ["x"], "a.a", d, 1) == SetSteps(t, [], [], "x.a", d, 0) &&
      SetSteps(t, [], [], "x.a.a", d, 1) == SetSteps(t, [], ["x"], "a.a", d, 1) &&
      ["x", "a"] in Followed(t, [], "x.a.a", 1)
  {
    BackPaths(kids, []);
    FollowedBack(kids);
    RoundAndOver(BackTree(kids), BackLink(kids), d);
  }

  lemma RoundAndOver(t: Tree, link: Tree, d: Data)
    requires Has(t, ["x"]) && !Get(t, ["x"]).value.data.link
    requires Get(t, ["x", "a"]) == Some(link) && link.data.link && link.data.value == Some("x")
    ensures SetSteps(t, [], ["x"], "a", d, 0) == Done(SetData(t, ["x", "a"], Assigned(link.data, d)), ["x", "a"])
    ensures SetSteps(t, [], [], "x.a", d, 0) == SetSteps(t, [], ["x"], "a", d, 0)
    ensures SetSteps(t, [], ["x"], "a.a", d, 1) == SetSteps(t, [], [], "x.a", d, 0)
    ensures SetSteps(t, [], [], "x.a.a", d, 1) == SetSteps(t, [], ["x"], "a.a", d, 1)
  {
    hide SetSteps, SetValue, Get, Head, HasDot, Rest;
    BackNames();
    Downwards();
    StepsUnfolded(t, [], ["x"], "a", d, 0);
    StepsUnfolded(t, [], [], "x.a", d, 0);
    StepsUnfolded(t, [], ["x"], "a.a", d, 1);
    NameUnfolded(t, [], "x.a", d, 0);
    StepsUnfolded(t, [], [], "x.a.a", d, 1);
  }

  lemma FollowedBack(kids: seq<Tree>)
    ensures ["x", "a"] in Followed(BackTree(kids), [], "x.a.a", 1)
  {
    BackNames();
    BackPaths(kids, []);
    Downwards();
    assert ["x", "a"] in Followed(BackTree(kids), ["x"], "a.a", 1);
  }

  /** A followed link that is overwritten and has nothing below it: the name leads nowhere then. */
  lemma LostAtLeaf(t: Tree, name: string, d: Data, fuel: nat)
    requires !t.data.link && !d.link && name != "" && SetValue(t, [], name, d, fuel).Done?
    requires var q := SetValue(t, [], name, d, fuel).path;
      q in Followed(t, [], name, fuel) && Shallow(t, q).Some? && Shallow(t, q).value.names == []
    ensures LinklessBelow(t, SetValue(t, [], name, d, fuel).path)
    ensures Walk(SetValue(t, [], name, d, fuel).tree, [], name, fuel).Missing?
  {
    hide SetSteps, SetValue, Walk, Followed;
    var r := SetValue(t, [], name, d, fuel);
    forall y | r.path < y
      ensures !Has(t, y)
    {
      assert y == r.path + y[|r.path|..];
      NothingInLeaf(Get(t, r.path).value, y[|r.path|..]);
      GetAppend(t, r.path, y[|r.path|..]);
    }
    SetThenWalk(t, name, d, fuel);
    NameUnfolded(t, [], name, d, fuel);
    var w := Walk(r.tree, [], name, fuel);
    if w.Found? {
      NothingMadeBelow(t, name, d, fuel, w.path);
    }
  }

  lemma NothingMadeBelow(t: Tree, name: string, d: Data, fuel: nat, y: Path)
    requires name != "" && SetValue(t, [], name, d, fuel).Done?
    requires var q := SetValue(t, [], name, d, fuel).path;
      q < y && Has(t, q) && !Has(t, y)
    ensures !Has(SetValue(t, [], name, d, fuel).tree, y)
  {
    hide SetSteps;
    NameUnfolded(t, [], name, d, fuel);
    var way := SetExactly(t, [], [], name, d, fuel);
    assert Shallow(SetValue(t, [], name, d, fuel).tree, y) == SetEntry(t, way, d, y);
  }

  /** Setting `x.a.a` there overwrites the link `x.a` itself, and the value cannot be read back
      under the name it was set by. */
  lemma SelfOverwrittenLink()
    ensures var t := BackTree([]);
      var r := SetValue(t, [], "x.a.a", Data(Some("v"), false, []), 1);
      r.Done? && r.path == ["x", "a"] && LinklessBelow(t, r.path) && GetValue(r.tree, [], "x.a.a", 1) == None
  {
    var t, d := BackTree([]), Data(Some("v"), false, []);
    BackSteps([], d);
    BackPaths([], []);
    NameUnfolded(t, [], "x.a.a", d, 1);
    hide SetSteps, SetValue, Walk, Get, Followed, SetData, Head, HasDot, Rest;
    LostAtLeaf(t, "x.a.a", d, 1);
  }

  // Below the link, a link `x.a.a` back to it; and the tree with that link overwritten.
  ghost function UnderLink(): Tree { Tree("a", Data(Some("x.a"), true, []), []) }
  ghost function OverX(d: Data): Tree { Tree("x", EmptyData, [Tree("a", d, [UnderLink()])]) }
  ghost function OverTree(d: Data): Tree { Tree("", EmptyData, [OverX(d)]) }

  lemma BackOverwritten(d: Data)
    requires d.attrs == []
    ensures var t := BackTree([UnderLink()]);
      Has(t, ["x", "a"]) &&
      SetData(t, ["x", "a"], Assigned(BackLink([UnderLink()]).data, d)) == OverTree(d)
  {
    var t, a := BackTree([UnderLink()]), BackLink([UnderLink()]).(data := d);
    BackPaths([UnderLink()], []);
    assert ["x", "a"][1..] == ["a"] && ["a"][1..] == [];
    assert Put(BackLink([UnderLink()]), [], a) == a;
    assert Put(BackParent([UnderLink()]), ["a"], a) == OverX(d);
    assert Put(t, ["x", "a"], a) == OverTree(d);
  }

  lemma OverPaths(d: Data)
    ensures Get(OverTree(d), ["x"]) == Some(OverX(d))
    ensures Get(OverTree(d), ["x", "a"]) == Some(Tree("a", d, [UnderLink()]))
    ensures Get(OverTree(d), ["x", "a", "a"]) == Some(UnderLink())
  {
    assert ["x", "a", "a"][1..] == ["a", "a"] && ["x", "a"][1..] == ["a"];
    assert ["a", "a"][1..] == ["a"] && ["x"][1..] == [] && ["a"][1..] == [];
    assert Get(Tree("a", d, [UnderLink()]), ["a"]) == Some(UnderLink());
    assert Get(OverX(d), ["a", "a"]) == Some(UnderLink());
  }

  lemma Downwards()
    ensures [] + ["x"] == ["x"] && ["x"] + ["a"] == ["x", "a"] && ["x", "a"] + ["a"] == ["x", "a", "a"]
  {
  }

  lemma OverSteps(d: Data)
    requires !d.link
    ensures Walk(OverTree(d), [], "x.a.a", 1) == Found(["x", "a"])
  {
    var t, q := OverTree(d), ["x", "a"];
    OverPaths(d);
    BackNames();
    Downwards();
    hide Walk, Steps, Resolve, Get, Head, HasDot, Rest;
    FirstStep(t, ["x"], "a", 0);
    ResolvePlain(t, q, 0);
    FirstStep(t, [], "x.a", 0);
    ResolvePlain(t, ["x"], 0);
    ResolveLink(t, ["x", "a", "a"], 1);
    FirstStep(t, q, "a", 1);
    FirstStep(t, ["x"], "a.a", 1);
    ResolvePlain(t, q, 1);
    FirstStep(t, [], "x.a.a", 1);
    ResolvePlain(t, ["x"], 1);
    RootSteps(t, "x.a.a", 1);
  }

  /** With a link below, the value can be read back although the link that led to it is gone:
      whether a followed link may be overwritten depends on what is below it. */
  lemma ReadThroughLower()
    ensures var t := BackTree([UnderLink()]);
      var r := SetValue(t, [], "x.a.a", Data(Some("v"), false, []), 1);
      r.Done? && r.path in Followed(t, [], "x.a.a", 1) && Walk(r.tree, [], "x.a.a", 1) == Found(r.path)
  {
    var t, d := BackTree([UnderLink()]), Data(Some("v"), false, []);
    BackSteps([UnderLink()], d);
    NameUnfolded(t, [], "x.a.a", d, 1);
    BackOverwritten(d);
    hide SetSteps, SetValue, Walk, Get, Followed, SetData, Head, HasDot, Rest;
    OverSteps(d);
  }
}
