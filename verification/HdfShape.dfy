/** Setting a node that is a link: where the links stand decides. Overwriting it keeps every lookup
    ending, wherever the links lead, exactly if no link is below it or one is above it; aiming it
    anew by the empty name does exactly if one is above it. */
module HdfShape {
  import Seqs
  import opened Options
  import opened HdfTree
  import opened HdfAttrs
  import opened HdfNames
  import opened HdfSpec
  import opened HdfCopy
  import opened HdfLaws
  import opened HdfLinks
  import opened HdfTargets
  import opened HdfTermination
  import opened HdfKeepsSettling
  import opened HdfWays

  ghost predicate SameButTarget(a: Option<Entry>, b: Option<Entry>)
  {
    if a.None? then b.None?
    else
      b.Some? && a.value.names == b.value.names && a.value.data.link == b.value.data.link &&
      (!a.value.data.link ==> a.value.data == b.value.data)
  }

  /** The same nodes and the same links, which may lead elsewhere. */
  ghost predicate Reaimed(t: Tree, u: Tree)
  {
    forall q :: SameButTarget(Shallow(t, q), Shallow(u, q))
  }

  // ---- aiming every link ----------------------------------------------------------------

  /** A name that is never found, as no node has an empty one. */
  const NOWHERE := "."

  function Aimed(d: Data, at: Path, x: Path): Data
    requires x != []
  {
    if d.link then d.(value := Some(if at == x then Join(x) else NOWHERE)) else d
  }

  /** The link at `x` leads to itself, and every other one nowhere. */
  function Aim(t: Tree, at: Path, x: Path): Tree
    requires x != []
    decreases t, 0
  {
    Tree(t.name, Aimed(t.data, at, x), AimAll(t.kids, at, x))
  }

  function AimAll(kids: seq<Tree>, at: Path, x: Path): (r: seq<Tree>)
    requires x != []
    ensures |r| == |kids|
    decreases kids, 1
  {
    if kids == [] then [] else [Aim(kids[0], at + [kids[0].name], x)] + AimAll(kids[1..], at, x)
  }

  lemma {:induction false} AimAllAt(kids: seq<Tree>, at: Path, x: Path, i: nat)
    requires x != [] && i < |kids|
    ensures AimAll(kids, at, x)[i] == Aim(kids[i], at + [kids[i].name], x)
    decreases |kids|
  {
    if i > 0 {
      AimAllAt(kids[1..], at, x, i - 1);
    }
  }

  lemma AimNames(kids: seq<Tree>, at: Path, x: Path)
    requires x != []
    ensures Names(AimAll(kids, at, x)) == Names(kids)
  {
    forall i | 0 <= i < |kids|
      ensures Names(AimAll(kids, at, x))[i] == Names(kids)[i]
    {
      AimAllAt(kids, at, x, i);
    }
  }

  lemma SameIndex(a: seq<Tree>, b: seq<Tree>, c: string)
    requires Names(a) == Names(b)
    ensures IndexOf(a, c) == IndexOf(b, c)
  {
    var i, j := IndexOf(a, c), IndexOf(b, c);
    assert |Names(a)| == |Names(b)|;
    assert i >= 0 ==> Names(a)[i] == c && Names(b)[i] == b[i].name;
    assert j >= 0 ==> Names(b)[j] == c && Names(a)[j] == a[j].name;
  }

  lemma {:induction false} AimGet(t: Tree, at: Path, x: Path, r: Path)
    requires x != []
    ensures Get(Aim(t, at, x), r) ==
      match Get(t, r)
      case None => None
      case Some(s) => Some(Aim(s, at + r, x))
    decreases |r|
  {
    if r == [] {
      Seqs.Empty(at);
    } else {
      AimNames(t.kids, at, x);
      SameIndex(t.kids, AimAll(t.kids, at, x), r[0]);
      var i := IndexOf(t.kids, r[0]);
      if i != -1 {
        AimAllAt(t.kids, at, x, i);
        AimGet(t.kids[i], at + [r[0]], x, r[1..]);
        Seqs.HeadTail(r);
        Seqs.Assoc(at, [r[0]], r[1..]);
      }
    }
  }

  lemma AimShows(t: Tree, x: Path, q: Path)
    requires x != []
    ensures var u := Aim(t, [], x);
      && SameButTarget(Shallow(t, q), Shallow(u, q))
      && (Has(t, q) ==> Has(u, q) && Get(u, q).value.data == Aimed(Get(t, q).value.data, q, x))
  {
    AimGet(t, [], x, q);
    Seqs.Empty(q);
    if Has(t, q) {
      AimNames(Get(t, q).value.kids, q, x);
    }
  }

  // ---- the first link below -------------------------------------------------------------

  ghost predicate FirstLink(t: Tree, q: Path, x: Path)
  {
    q < x && IsLink(t, x) && forall y :: q < y && y < x ==> !IsLink(t, y)
  }

  lemma {:induction false} FirstLinkBelow(t: Tree, q: Path, x: Path) returns (y: Path)
    requires q < x && IsLink(t, x)
    ensures FirstLink(t, q, y)
    decreases |x|
  {
    y := x;
    if z :| q < z && z < x && IsLink(t, z) {
      y := FirstLinkBelow(t, q, z);
    }
  }

  /** A tree with a link at `q` that can be assigned to, and a link `x` below it, the first one. */
  ghost predicate Stacked(t: Tree, path: Path, c: string, x: Path)
  {
    && WellFormed(t.kids) && !t.data.link && ClearWay(t, [], path)
    && IsLink(t, path + [c]) && FirstLink(t, path + [c], x)
  }

  lemma {:induction false} ComponentsAt(t: Tree, x: Path)
    requires WellFormed(t.kids) && Has(t, x)
    ensures AllComponents(x)
    decreases |x|
  {
    if x != [] {
      var i := IndexOf(t.kids, x[0]);
      ComponentsAt(t.kids[i], x[1..]);
      assert forall j :: 0 < j < |x| ==> x[j] == x[1..][j - 1];
    }
  }

  /** A link that has been aimed nowhere. */
  lemma LeadsNowhere(u: Tree, q: Path, f: nat)
    requires IsLink(u, q) && Target(u, q) == NOWHERE && !u.data.link && !Has(u, [""]) && f > 0
    ensures Resolve(u, q, f) == Missing
  {
    assert "" + "." + "" == NOWHERE;
    DotOfHead("", "");
    assert [] + [""] == [""];
    ResolveLink(u, q, f);
  }

  lemma NoEmptyName(t: Tree)
    requires WellFormed(t.kids)
    ensures !Has(t, [""])
  {
    assert [] + [""] == [""];
    GetKid(t, [], "");
    assert forall i :: 0 <= i < |t.kids| ==> Names(t.kids)[i] == t.kids[i].name;
  }

  lemma JoinAround(path: Path, c: string, below: Path)
    requires below != []
    ensures Join(path + [c] + below) ==
      if path == [] then c + "." + Join(below) else Join(path) + "." + (c + "." + Join(below))
  {
    JoinSplit(path + [c], below);
    if path == [] {
      assert path + [c] == [c];
    } else {
      JoinSnoc(path, c);
      Dots(Join(path), c, Join(below));
    }
  }

  /** A lookup that comes to a link leading nowhere. */
  lemma HeldUp(u: Tree, path: Path, c: string, below: Path, f: nat)
    requires ClearWay(u, [], path) && AllComponents(path) && IsComponent(c) && below != []
    requires Has(u, path + [c]) && Resolve(u, path + [c], f) == Missing
    ensures Steps(u, [], Join(path + [c] + below), f) == Missing
  {
    hide Steps, Resolve;
    var n := c + "." + Join(below);
    JoinAround(path, c, below);
    DotOfHead(c, Join(below));
    ClearEnds(u, [], path);
    Seqs.Empty(path);
    if path != [] {
      StepsAlong(u, [], path, n, f);
    }
    FirstStep(u, path, n, f);
  }

  /** A lookup that comes straight to a node. */
  lemma ComesTo(u: Tree, path: Path, c: string, f: nat)
    requires ClearWay(u, [], path) && AllComponents(path) && IsComponent(c) && Has(u, path + [c])
    ensures Steps(u, [], Join(path + [c]), f) == Resolve(u, path + [c], f)
  {
    hide Steps, Resolve;
    DotOfHead(c, "");
    ClearEnds(u, [], path);
    Seqs.Empty(path);
    if path == [] {
      Seqs.Empty([c]);
    } else {
      JoinSnoc(path, c);
      StepsAlong(u, [], path, c, f);
    }
    FirstStep(u, path, c, f);
  }

  // ---- before the assignment --------------------------------------------------------------

  lemma AimedKeepsWay(t: Tree, path: Path, x: Path)
    requires ClearWay(t, [], path) && x != []
    ensures ClearWay(Aim(t, [], x), [], path)
  {
    forall i | 0 <= i <= |path|
      ensures Has(Aim(t, [], x), [] + path[..i])
      ensures i > 0 ==> !Get(Aim(t, [], x), [] + path[..i]).value.data.link
    {
      AimShows(t, x, [] + path[..i]);
    }
  }

  lemma AimedTarget(t: Tree, x: Path, z: Path)
    requires x != [] && IsLink(Aim(t, [], x), z)
    ensures IsLink(t, z) && Target(Aim(t, [], x), z) == if z == x then Join(x) else NOWHERE
  {
    AimShows(t, x, z);
  }

  /** Every link settles: the one at `x` is never reached, as the one above it leads nowhere. */
  lemma AimedSettles(t: Tree, path: Path, c: string, x: Path)
    requires Stacked(t, path, c, x)
    ensures AllSettle(Aim(t, [], x))
  {
    hide Resolve, Steps, WellFormed;
    var u, q := Aim(t, [], x), path + [c];
    NoEmptyName(t);
    AimShows(t, x, [""]);
    AimShows(t, x, q);
    assert IsLink(u, q);
    AimedTarget(t, x, q);
    LeadsNowhere(u, q, 1);
    forall z | IsLink(u, z)
      ensures Settles(u, z)
    {
      AimedTarget(t, x, z);
      if z == x {
        ComponentsAt(t, x);
        assert x == q + x[|q|..];
        PartsOf(path, c, x);
        AimedKeepsWay(t, path, x);
        HeldUp(u, path, c, x[|q|..], 1);
        JoinNotEmpty(x);
        ResolveLink(u, x, 2);
        assert !Resolve(u, x, 2).Stuck?;
      } else {
        LeadsNowhere(u, z, 1);
        assert !Resolve(u, z, 1).Stuck?;
      }
    }
  }

  lemma PartsOf(path: Path, c: string, x: Path)
    requires path + [c] <= x && AllComponents(x)
    ensures AllComponents(path) && IsComponent(c)
  {
    assert forall i :: 0 <= i < |path| ==> path[i] == x[i];
    assert x[|path|] == c;
  }

  lemma JoinNotEmpty(x: Path)
    requires AllComponents(x) && x != []
    ensures Join(x) != ""
  {
    assert x[0] != "";
  }

  // ---- after it ---------------------------------------------------------------------------

  lemma OverwrittenWay(t: Tree, path: Path, c: string, x: Path, d: Data)
    requires Stacked(t, path, c, x) && !d.link
    ensures var u := Aim(t, [], x);
      Has(u, path) && ClearWay(Place(u, path, c, d), [], x[..|x| - 1]) && IsLink(Place(u, path, c, d), x) &&
      Target(Place(u, path, c, d), x) == Join(x)
  {
    hide Place, Get;
    var u, up := Aim(t, [], x), x[..|x| - 1];
    AimedHas(t, path, x);
    var u2 := Place(u, path, c, d);
    AtTheEnd(t, path, c, x, d);
    forall i | 0 <= i <= |up|
      ensures Has(u2, [] + up[..i]) && (i > 0 ==> !Get(u2, [] + up[..i]).value.data.link)
    {
      PlainOnTheWay(t, path, c, x, d, i);
      assert [] + up[..i] == x[..i];
    }
  }

  lemma AimedHas(t: Tree, path: Path, x: Path)
    requires ClearWay(t, [], path) && x != []
    ensures Has(t, path) && Has(Aim(t, [], x), path)
  {
    ClearEnds(t, [], path);
    Seqs.Empty(path);
    AimShows(t, x, path);
  }

  lemma AtTheEnd(t: Tree, path: Path, c: string, x: Path, d: Data)
    requires Stacked(t, path, c, x) && !d.link
    ensures var u := Aim(t, [], x);
      Has(u, path) && IsLink(Place(u, path, c, d), x) && Target(Place(u, path, c, d), x) == Join(x)
  {
    hide Place, Get;
    AimedHas(t, path, x);
    AimShows(t, x, x);
    AimShows(t, x, path + [c]);
    PlaceShallow(Aim(t, [], x), path, c, d, x);
  }

  lemma PlainOnTheWay(t: Tree, path: Path, c: string, x: Path, d: Data, i: nat)
    requires Stacked(t, path, c, x) && !d.link && i < |x|
    ensures var u := Aim(t, [], x);
      Has(u, path) && Has(Place(u, path, c, d), x[..i]) &&
      (i > 0 ==> !Get(Place(u, path, c, d), x[..i]).value.data.link)
  {
    hide Place, Get;
    AimedHas(t, path, x);
    OneOnTheWay(t, path, c, x, i);
    AimShows(t, x, x[..i]);
    AimShows(t, x, path + [c]);
    PlaceShallow(Aim(t, [], x), path, c, d, x[..i]);
  }

  lemma OneOnTheWay(t: Tree, path: Path, c: string, x: Path, i: nat)
    requires Stacked(t, path, c, x) && i < |x|
    ensures Has(t, x[..i]) && (i > 0 && x[..i] != path + [c] ==> !IsLink(t, x[..i]))
  {
    HasPrefix(t, x[..i], x);
    if i <= |path| {
      assert x[..i] == path[..i] && [] + path[..i] == path[..i];
    } else if i > |path| + 1 {
      assert path + [c] < x[..i];
    }
  }

  /** Once the link above has been overwritten, the lookup goes round in circles. */
  lemma {:induction false} NeverSettles(u: Tree, x: Path, f: nat)
    requires x != [] && ClearWay(u, [], x[..|x| - 1]) && AllComponents(x) && !u.data.link
    requires IsLink(u, x) && Target(u, x) == Join(x)
    ensures Resolve(u, x, f).Stuck?
    decreases f
  {
    hide Resolve, Steps, ClearWay, Join;
    if f == 0 {
      NoFuel(u, x);
    } else {
      NeverSettles(u, x, f - 1);
      var up, c := x[..|x| - 1], x[|x| - 1];
      assert x == up + [c];
      ComesTo(u, up, c, f - 1);
      JoinNotEmpty(x);
      ResolveLink(u, x, f);
    }
  }

  /** With a link below, there are targets that settle before the assignment and not after it. */
  lemma CircleUncovered(t: Tree, path: Path, c: string, x: Path, d: Data)
    requires Stacked(t, path, c, x) && !d.link
    ensures var u := Aim(t, [], x);
      Reaimed(t, u) && AllSettle(u) && Has(u, path) && !AllSettle(Place(u, path, c, d))
  {
    var u := Aim(t, [], x);
    forall q
      ensures SameButTarget(Shallow(t, q), Shallow(u, q))
    {
      AimShows(t, x, q);
    }
    AimedSettles(t, path, c, x);
    OverwrittenWay(t, path, c, x, d);
    ComponentsAt(t, x);
    var u2 := Place(u, path, c, d);
    AimShows(t, x, []);
    RootStaysPlain(u, path, c, d);
    forall f: nat
      ensures Resolve(u2, x, f).Stuck?
    {
      NeverSettles(u2, x, f);
    }
    assert !Settles(u2, x);
  }

  lemma RootStaysPlain(u: Tree, path: Path, c: string, d: Data)
    requires Has(u, path) && !u.data.link
    ensures !Place(u, path, c, d).data.link
  {
    PlaceShallow(u, path, c, d, []);
  }

  // ---- exactly when -------------------------------------------------------------------------

  lemma OverwrittenChange(u: Tree, path: Path, c: string, d: Data)
    requires Has(u, path) && IsLink(u, path + [c]) && !u.data.link && !d.link && Safe(u, path + [c])
    ensures PlainChange(u, Place(u, path, c, d), path + [c], d)
  {
    forall x
      ensures Changed(u, Place(u, path, c, d), path + [c], d, x)
    {
      PlaceShallow(u, path, c, d, x);
    }
  }

  lemma ReaimedSafe(t: Tree, u: Tree, q: Path)
    requires Reaimed(t, u) && Safe(t, q) && IsLink(t, q)
    ensures Safe(u, q) && IsLink(u, q)
  {
    assert SameButTarget(Shallow(t, q), Shallow(u, q));
    if Sheltered(t, q) {
      var z :| z < q && IsLink(t, z);
      assert SameButTarget(Shallow(t, z), Shallow(u, z));
      assert IsLink(u, z);
    } else {
      forall x | q < x && Has(u, x)
        ensures !Get(u, x).value.data.link
      {
        assert SameButTarget(Shallow(t, x), Shallow(u, x));
      }
    }
  }

  /** Where no link stands above, the way from the top is clear. */
  lemma UnshelteredWay(t: Tree, path: Path, c: string)
    requires Has(t, path) && !Sheltered(t, path + [c])
    ensures ClearWay(t, [], path)
  {
    forall i | 0 <= i <= |path|
      ensures Has(t, [] + path[..i])
      ensures i > 0 ==> !Get(t, [] + path[..i]).value.data.link
    {
      var z := path[..i];
      assert [] + path[..i] == z;
      HasPrefix(t, z, path);
      assert z < path + [c] && !IsLink(t, z);
    }
  }

  /** Overwriting a link by a plain value keeps every lookup ending, wherever the links of the tree
      lead, exactly if no link is below it or some link is above it. */
  lemma SettlingKeptIff(t: Tree, path: Path, c: string, d: Data)
    requires WellFormed(t.kids) && !t.data.link && !d.link && Has(t, path) && IsLink(t, path + [c])
    ensures Safe(t, path + [c]) <==>
      forall u {:trigger Reaimed(t, u)} :: Reaimed(t, u) && AllSettle(u) ==>
        Has(u, path) && AllSettle(Place(u, path, c, d))
  {
    hide Place, AllSettle;
    var q := path + [c];
    if Safe(t, q) {
      forall u {:trigger Reaimed(t, u)} | Reaimed(t, u) && AllSettle(u)
        ensures Has(u, path) && AllSettle(Place(u, path, c, d))
      {
        ReaimedSafe(t, u, q);
        assert SameButTarget(Shallow(t, path), Shallow(u, path));
        assert SameButTarget(Shallow(t, []), Shallow(u, []));
        OverwrittenChange(u, path, c, d);
        SettlesAfter(u, Place(u, path, c, d), q, d);
      }
    } else {
      var y :| q < y && Has(t, y) && Get(t, y).value.data.link;
      var x := FirstLinkBelow(t, q, y);
      UnshelteredWay(t, path, c);
      CircleUncovered(t, path, c, x, d);
      assert Reaimed(t, Aim(t, [], x));
    }
  }

  // ---- the empty name -------------------------------------------------------------------------

  lemma SelfShows(t: Tree, q: Path, d: Data, x: Path)
    requires IsLink(t, q)
    ensures var u, before := SetSelf(t, q, d), Get(t, q).value.data;
      Shallow(u, x) ==
        if x == q then Some(Entry(Data(d.value, true, Combine(before.attrs, d.attrs)), Shallow(t, q).value.names))
        else Shallow(t, x)
  {
    var before := Get(t, q).value.data;
    SetDataShallow(t, q, Data(d.value, before.link, Combine(before.attrs, d.attrs)), x);
  }

  /** A link on a clear way, aimed at itself. */
  lemma AimedAtItself(t: Tree, path: Path, c: string, d: Data)
    requires WellFormed(t.kids) && !t.data.link && IsLink(t, path + [c]) && ClearWay(t, [], path)
    requires d.value == Some(Join(path + [c]))
    ensures !AllSettle(SetSelf(t, path + [c], d))
  {
    hide Resolve;
    var x, u := path + [c], SetSelf(t, path + [c], d);
    ComponentsAt(t, x);
    SelfShows(t, x, d, x);
    SelfShows(t, x, d, []);
    forall i | 0 <= i <= |path|
      ensures Has(u, [] + path[..i]) && (i > 0 ==> !Get(u, [] + path[..i]).value.data.link)
    {
      SelfShows(t, x, d, [] + path[..i]);
      assert |[] + path[..i]| < |x|;
    }
    assert x[..|x| - 1] == path;
    forall f: nat
      ensures Resolve(u, x, f).Stuck?
    {
      NeverSettles(u, x, f);
    }
    assert IsLink(u, x) && !Settles(u, x);
  }

  /** The empty name leaves a link a link and aims it anew. That keeps every lookup ending, whatever
      the new target is, exactly if some link is above it. */
  lemma AimingAnewIff(t: Tree, path: Path, c: string)
    requires WellFormed(t.kids) && !t.data.link && Has(t, path) && IsLink(t, path + [c]) && AllSettle(t)
    ensures Sheltered(t, path + [c]) <==>
      forall d: Data :: !d.link ==> AllSettle(SetValue(t, path + [c], "", d, 0).tree)
  {
    hide AllSettle;
    var q := path + [c];
    if Sheltered(t, q) {
      forall d: Data | !d.link
        ensures AllSettle(SetValue(t, q, "", d, 0).tree)
      {
        AimedAnewSettles(t, q, d);
      }
    } else {
      UnshelteredWay(t, path, c);
      var d := Data(Some(Join(q)), false, []);
      AimedAtItself(t, path, c, d);
      assert !AllSettle(SetValue(t, q, "", d, 0).tree);
    }
  }

  // A link `a` that leads nowhere.
  ghost function LoneLink(v: string): Tree { Tree("", EmptyData, [Tree("a", Data(Some(v), true, []), [])]) }

  /** Set by the empty name, it leads to itself. */
  lemma LoneLinkAimedAnew()
    ensures var t := LoneLink("b");
      && Has(t, ["a"]) && AllSettle(t) && LinklessBelow(t, ["a"])
      && SetValue(t, ["a"], "", Data(Some("a"), false, []), 0).Done?
      && !AllSettle(SetValue(t, ["a"], "", Data(Some("a"), false, []), 0).tree)
  {
    var t := LoneLink("b");
    LonePaths("b");
    assert [] + ["a"] == ["a"];
    ClearTop(t);
    assert Join(["a"]) == "a";
    AimedAtItself(t, [], "a", Data(Some("a"), false, []));
    forall q | IsLink(t, q)
      ensures Settles(t, q)
    {
      LoneOnly("b", q);
      LoneSettles();
    }
  }

  lemma ClearTop(t: Tree)
    ensures ClearWay(t, [], [])
  {
  }

  lemma LonePaths(v: string)
    ensures Get(LoneLink(v), ["a"]) == Some(LoneLink(v).kids[0]) && !Has(LoneLink(v), ["b"])
    ensures WellFormed(LoneLink(v).kids)
    ensures LinklessBelow(LoneLink(v), ["a"])
  {
    assert ["a"][1..] == [];
    forall x | ["a"] < x
      ensures !Has(LoneLink(v), x)
    {
      assert x == ["a"] + x[1..];
      GetAppend(LoneLink(v), ["a"], x[1..]);
      NothingInLeaf(LoneLink(v).kids[0], x[1..]);
    }
  }

  lemma LoneOnly(v: string, q: Path)
    requires IsLink(LoneLink(v), q)
    ensures q == ["a"]
  {
    Seqs.HeadTail(q);
    if q[1..] != [] {
      NothingInLeaf(LoneLink(v).kids[0], q[1..]);
    }
  }

  lemma LoneSettles()
    ensures Has(LoneLink("b"), ["a"]) && Settles(LoneLink("b"), ["a"])
  {
    var t := LoneLink("b");
    LonePaths("b");
    DotOfHead("b", "");
    assert [] + ["b"] == ["b"];
    assert Steps(t, [], "b", 0) == Missing;
    ResolveLink(t, ["a"], 1);
    assert !Resolve(t, ["a"], 1).Stuck?;
  }
}
