/** Why following links comes to an end: exactly when the links can be ranked so that each is
    resolved through lower ones only; then lookups and assignments both return. */
module HdfTermination {
  import Seqs
  import opened Options
  import opened HdfTree
  import opened HdfNames
  import opened HdfSpec
  import opened HdfLinks
  import opened HdfBase
  import opened HdfTargets

  ghost predicate Settles(t: Tree, q: Path)
    requires Has(t, q)
  {
    exists f: nat :: !Resolve(t, q, f).Stuck?
  }

  /** Every link leads somewhere or nowhere, but not round in circles. */
  ghost predicate AllSettle(t: Tree)
  {
    forall q :: IsLink(t, q) ==> Settles(t, q)
  }

  // ---- ranks ------------------------------------------------------------------------

  type Rank = Path -> nat

  /** Resolution that only goes through links of a rank below `bound`. */
  ghost function RankedResolve(t: Tree, q: Path, rank: Rank, bound: nat): (r: WalkResult)
    requires Has(t, q)
    ensures r.Found? ==> Has(t, r.path)
    decreases bound, 0, 0
  {
    if !Get(t, q).value.data.link then Found(q)
    else if rank(q) >= bound then Stuck
    else RankedWalk(t, [], Target(t, q), rank, rank(q))
  }

  ghost function RankedSteps(t: Tree, p: Path, n: string, rank: Rank, bound: nat): (r: WalkResult)
    requires Has(t, p)
    ensures r.Found? ==> Has(t, r.path)
    decreases bound, 1, |n|
  {
    var q := p + [Head(n)];
    if !Has(t, q) then Missing
    else
      var r := RankedResolve(t, q, rank, bound);
      if HasDot(n) && r.Found? then RankedSteps(t, r.path, Rest(n), rank, bound) else r
  }

  ghost function RankedWalk(t: Tree, base: Path, name: string, rank: Rank, bound: nat): (r: WalkResult)
    requires Has(t, base)
    ensures r.Found? ==> Has(t, r.path)
    decreases bound, 2, 0
  {
    if name == "" then Found(base)
    else
      var r := RankedResolve(t, base, rank, bound);
      if r.Found? then RankedSteps(t, r.path, name, rank, bound) else r
  }

  /** The rank falls along link resolution. */
  ghost predicate Ranked(t: Tree, rank: Rank)
  {
    forall q :: IsLink(t, q) ==> !RankedResolve(t, q, rank, rank(q) + 1).Stuck?
  }

  // A ranked resolution is the real one, given fuel up to the bound.

  lemma {:induction false} RankedResolveIsReal(t: Tree, q: Path, rank: Rank, bound: nat)
    requires Has(t, q) && !RankedResolve(t, q, rank, bound).Stuck?
    ensures Resolve(t, q, bound) == RankedResolve(t, q, rank, bound)
    decreases bound, 0, 0
  {
    if Get(t, q).value.data.link {
      RankedWalkIsReal(t, [], Target(t, q), rank, rank(q));
      WalkMono(t, [], Target(t, q), rank(q), bound - 1);
    }
  }

  lemma {:induction false} RankedStepsIsReal(t: Tree, p: Path, n: string, rank: Rank, bound: nat)
    requires Has(t, p) && !RankedSteps(t, p, n, rank, bound).Stuck?
    ensures Steps(t, p, n, bound) == RankedSteps(t, p, n, rank, bound)
    decreases bound, 1, |n|
  {
    var q := p + [Head(n)];
    if Has(t, q) {
      RankedResolveIsReal(t, q, rank, bound);
      var r := RankedResolve(t, q, rank, bound);
      if HasDot(n) && r.Found? {
        RankedStepsIsReal(t, r.path, Rest(n), rank, bound);
      }
    }
  }

  lemma {:induction false} RankedWalkIsReal(t: Tree, base: Path, n: string, rank: Rank, bound: nat)
    requires Has(t, base) && !RankedWalk(t, base, n, rank, bound).Stuck?
    ensures Walk(t, base, n, bound) == RankedWalk(t, base, n, rank, bound)
    decreases bound, 2, 0
  {
    if n != "" {
      RankedResolveIsReal(t, base, rank, bound);
      var r := RankedResolve(t, base, rank, bound);
      if r.Found? {
        RankedStepsIsReal(t, r.path, n, rank, bound);
      }
    }
  }

  // The least sufficient fuel is a rank.

  ghost predicate Enough(t: Tree, q: Path, f: nat)
  {
    Has(t, q) && !Resolve(t, q, f).Stuck?
  }

  ghost function Least(t: Tree, q: Path): (f: nat)
    ensures (exists g: nat :: Enough(t, q, g)) ==>
      Enough(t, q, f) && forall g: nat :: Enough(t, q, g) ==> f <= g
  {
    if exists g: nat :: Enough(t, q, g) then
      var g: nat :| Enough(t, q, g);
      LeastBelow(t, q, g)
    else 0
  }

  ghost function LeastBelow(t: Tree, q: Path, g: nat): (f: nat)
    requires Enough(t, q, g)
    ensures Enough(t, q, f) && forall h: nat :: Enough(t, q, h) ==> f <= h
  {
    if g > 0 && Enough(t, q, g - 1) then LeastBelow(t, q, g - 1)
    else
      assert forall h: nat :: Enough(t, q, h) ==> g <= h by {
        forall h: nat | Enough(t, q, h)
          ensures g <= h
        {
          if h < g {
            ResolveMono(t, q, h, g - 1);
          }
        }
      }
      g
  }

  lemma LeastFuel(t: Tree, q: Path, f: nat) returns (g: nat)
    requires IsLink(t, q) && !Resolve(t, q, f).Stuck?
    ensures g == Least(t, q) && 0 < g <= f && !Resolve(t, q, g).Stuck?
  {
    g := Least(t, q);
    assert Enough(t, q, f);
  }

  lemma {:induction false} RealResolveIsRanked(t: Tree, q: Path, f: nat)
    requires Has(t, q) && !Resolve(t, q, f).Stuck?
    ensures !RankedResolve(t, q, x => Least(t, x), f + 1).Stuck?
    ensures RankedResolve(t, q, x => Least(t, x), f + 1) == Resolve(t, q, f)
    decreases f, 0, 0
  {
    if Get(t, q).value.data.link {
      var g := LeastFuel(t, q, f);
      ResolveMono(t, q, g, f);
      RealWalkIsRanked(t, [], Target(t, q), g - 1);
    }
  }

  lemma {:induction false} RealStepsIsRanked(t: Tree, p: Path, n: string, f: nat)
    requires Has(t, p) && !Steps(t, p, n, f).Stuck?
    ensures RankedSteps(t, p, n, x => Least(t, x), f + 1) == Steps(t, p, n, f)
    decreases f, 1, |n|
  {
    var q := p + [Head(n)];
    if Has(t, q) {
      RealResolveIsRanked(t, q, f);
      var r := Resolve(t, q, f);
      if HasDot(n) && r.Found? {
        RealStepsIsRanked(t, r.path, Rest(n), f);
      }
    }
  }

  lemma {:induction false} RealWalkIsRanked(t: Tree, base: Path, n: string, f: nat)
    requires Has(t, base) && !Walk(t, base, n, f).Stuck?
    ensures RankedWalk(t, base, n, x => Least(t, x), f + 1) == Walk(t, base, n, f)
    decreases f, 2, 0
  {
    if n != "" {
      RealResolveIsRanked(t, base, f);
      var r := Resolve(t, base, f);
      if r.Found? {
        RealStepsIsRanked(t, r.path, n, f);
      }
    }
  }

  /** Resolution ends for every link exactly when a rank falls along it. */
  lemma SettlesIffRanked(t: Tree)
    ensures AllSettle(t) <==> exists rank: Rank :: Ranked(t, rank)
  {
    if AllSettle(t) {
      var rank: Rank := x => Least(t, x);
      forall q | IsLink(t, q)
        ensures !RankedResolve(t, q, rank, rank(q) + 1).Stuck?
      {
        assert Settles(t, q);
        var f: nat :| !Resolve(t, q, f).Stuck?;
        assert Enough(t, q, f);
        RealResolveIsRanked(t, q, Least(t, q));
      }
      assert Ranked(t, rank);
    }
    if rank: Rank :| Ranked(t, rank) {
      forall q | IsLink(t, q)
        ensures Settles(t, q)
      {
        RankedResolveIsReal(t, q, rank, rank(q) + 1);
      }
    }
  }

  // ---- lookups return ---------------------------------------------------------------

  lemma NodeSettles(t: Tree, q: Path) returns (f: nat)
    requires AllSettle(t) && Has(t, q)
    ensures !Resolve(t, q, f).Stuck?
  {
    if IsLink(t, q) {
      assert Settles(t, q);
      f :| !Resolve(t, q, f).Stuck?;
    } else {
      f := 0;
    }
  }

  lemma {:induction false} StepsReturn(t: Tree, p: Path, n: string) returns (f: nat)
    requires AllSettle(t) && Has(t, p)
    ensures !Steps(t, p, n, f).Stuck?
    decreases |n|
  {
    var q := p + [Head(n)];
    f := 0;
    if Has(t, q) {
      f := NodeSettles(t, q);
      var r := Resolve(t, q, f);
      if HasDot(n) && r.Found? {
        var g := StepsReturn(t, r.path, Rest(n));
        var h := if f < g then g else f;
        ResolveMono(t, q, f, h);
        StepsMono(t, r.path, Rest(n), g, h);
        f := h;
      }
    }
  }

  /** Every lookup comes to an end. */
  lemma WalkReturns(t: Tree, base: Path, name: string) returns (f: nat)
    requires AllSettle(t) && Has(t, base)
    ensures !Walk(t, base, name, f).Stuck?
  {
    f := 0;
    if name != "" {
      f := NodeSettles(t, base);
      var r := Resolve(t, base, f);
      if r.Found? {
        var g := StepsReturn(t, r.path, name);
        var h := if f < g then g else f;
        ResolveMono(t, base, f, h);
        StepsMono(t, r.path, name, g, h);
        f := h;
      }
    }
  }

  // ---- assignments return -----------------------------------------------------------

  /** The assignment below any node of a tree whose root is no link. */
  lemma {:induction false} StepsAssign(t: Tree, p: Path, n: string, d: Data) returns (g: nat)
    requires Has(t, p) && AllSettle(t) && LinksHaveTargets(t) && !t.data.link
    ensures !SetSteps(t, [], p, n, d, g).Aborted?
    decreases |n|
  {
    g := 0;
    if HasDot(n) {
      var f := StepsReturn(t, p, Head(n));
      var r := Steps(t, p, Head(n), f);
      if r.Found? {
        g := StepsAssign(t, r.path, Rest(n), d);
      }
      g := PrefixLeads(t, p, Head(n), Rest(n), d, f, g);
    }
  }

  /** Every assignment comes to an end, from any node, if the links below that node settle when
      they are resolved from there. */
  lemma SetReturns(t: Tree, base: Path, name: string, d: Data) returns (f: nat)
    requires Has(t, base) && AllSettle(Below(t, base)) && LinksHaveTargets(Below(t, base))
    ensures !SetValue(t, base, name, d, f).Aborted?
  {
    f := 0;
    if name != "" {
      f := StepsAssign(Below(t, base), [], name, d);
      SetInside(t, base, name, d, f);
    }
  }

  // A plain `l`, and below `x` a link `l` to it: from the top the link settles, but an
  // assignment from `x` resolves it from `x`, where it leads to itself.
  ghost function InnerLink(): Tree { Tree("l", Data(Some("l"), true, []), []) }
  ghost function InnerX(): Tree { Tree("x", EmptyData, [InnerLink()]) }
  ghost function InnerTree(): Tree { Tree("", EmptyData, [Tree("l", Data(Some("1"), false, []), []), InnerX()]) }

  lemma InnerPaths()
    ensures var t := InnerTree();
      Get(t, ["l"]) == Some(t.kids[0]) && Get(t, ["x"]) == Some(InnerX()) && Get(t, ["x", "l"]) == Some(InnerLink())
  {
    assert ["x", "l"][1..] == ["l"] && ["l"][1..] == [] && ["x"][1..] == [];
    assert Get(InnerX(), ["l"]) == Some(InnerLink());
  }

  lemma InnerOnly(q: Path)
    requires IsLink(InnerTree(), q)
    ensures q == ["x", "l"]
  {
    Seqs.HeadTail(q);
    var q1 := q[1..];
    if q1 != [] {
      Seqs.HeadTail(q1);
      if q[0] == "l" {
        NothingInLeaf(InnerTree().kids[0], q1);
      } else {
        assert q[0] == "x" && Get(InnerTree(), q) == Get(InnerX(), q1);
        assert q1[0] == "l" && Get(InnerX(), q1) == Get(InnerLink(), q1[1..]);
        NothingInLeaf(InnerLink(), q1[1..]);
      }
    }
  }

  lemma {:induction false} InnerNeverReturns(d: Data, f: nat)
    ensures Has(InnerTree(), ["x"]) && SetValue(InnerTree(), ["x"], "l.k", d, f).Aborted?
  {
    InnerPaths();
    assert "l" + "." + "k" == "l.k";
    DotOfHead("l", "k");
    assert ["x"] + ["l"] == ["x", "l"];
    StepsUnfolded(InnerTree(), ["x"], ["x"], "l.k", d, f);
    if f > 0 {
      InnerNeverReturns(d, f - 1);
    }
  }

  /** Settling from the top is not enough for an assignment from another node. */
  lemma SettledButAborted(d: Data)
    ensures var t := InnerTree();
      AllSettle(t) && LinksHaveTargets(t) && !t.data.link && Has(t, ["x"]) &&
      forall f: nat :: SetValue(t, ["x"], "l.k", d, f).Aborted?
  {
    var t := InnerTree();
    InnerPaths();
    forall f: nat
      ensures SetValue(t, ["x"], "l.k", d, f).Aborted?
    {
      InnerNeverReturns(d, f);
    }
    DotOfHead("l", "");
    assert [] + ["l"] == ["l"] && Walk(t, [], "l", 0) == Found(["l"]);
    forall q | IsLink(t, q)
      ensures q == ["x", "l"]
    {
      InnerOnly(q);
    }
    assert Resolve(t, ["x", "l"], 1) == Found(["l"]);
    assert Settles(t, ["x", "l"]);
  }
}
