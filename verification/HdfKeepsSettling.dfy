/** When a plain assignment keeps every lookup ending, from whatever node it is made. */
module HdfKeepsSettling {
  import opened Options
  import opened HdfTree
  import opened HdfNames
  import opened HdfSpec
  import opened HdfLaws
  import opened HdfLinks
  import opened HdfAttrs
  import opened HdfBase
  import opened HdfTargets
  import opened HdfTermination

  /** Some link stands above: no lookup from the top comes to such a node. */
  ghost predicate Sheltered(t: Tree, q: Path)
  {
    exists z :: z < q && IsLink(t, z)
  }

  /** Overwriting the node uncovers no link that a lookup could come to. */
  ghost predicate Safe(t: Tree, q: Path)
  {
    LinklessBelow(t, q) || Sheltered(t, q)
  }

  /** The tree before and after a plain assignment that ended at `target`. */
  ghost predicate PlainChange(t: Tree, t2: Tree, target: Path, d: Data)
  {
    && !d.link && !t.data.link && Safe(t, target)
    && forall x :: Changed(t, t2, target, d, x)
  }

  // ---- where lookups from the top can be ----------------------------------------------

  ghost predicate Open(t: Tree, p: Path)
  {
    forall y :: y <= p ==> !IsLink(t, y)
  }

  lemma PrefixOfKid(p: Path, c: string, y: Path)
    ensures y <= p + [c] ==> y <= p || y == p + [c]
    ensures y < p + [c] ==> y <= p
  {
    if y <= p + [c] && |y| <= |p| {
      assert y == (p + [c])[..|y|] == p[..|y|];
    }
  }

  lemma OpenKid(t: Tree, p: Path, c: string)
    requires Open(t, p)
    ensures !Sheltered(t, p + [c])
    ensures !IsLink(t, p + [c]) ==> Open(t, p + [c])
  {
    forall y
      ensures y < p + [c] ==> !IsLink(t, y)
      ensures y <= p + [c] && !IsLink(t, p + [c]) ==> !IsLink(t, y)
    {
      PrefixOfKid(p, c, y);
    }
  }

  lemma {:induction false} StepsOpen(t: Tree, p: Path, n: string, f: nat)
    requires Has(t, p) && Open(t, p) && !t.data.link
    ensures Steps(t, p, n, f).Found? ==> Open(t, Steps(t, p, n, f).path)
    decreases f, |n|, 1
  {
    var q := p + [Head(n)];
    if Has(t, q) {
      KidOpen(t, p, Head(n), f);
      var r := Resolve(t, q, f);
      if HasDot(n) && r.Found? {
        StepsOpen(t, r.path, Rest(n), f);
      }
    }
  }

  lemma {:induction false} KidOpen(t: Tree, p: Path, c: string, f: nat)
    requires Has(t, p + [c]) && Open(t, p) && !t.data.link
    ensures Resolve(t, p + [c], f).Found? ==> Open(t, Resolve(t, p + [c], f).path)
    decreases f, 0, 0
  {
    hide Resolve, Walk, Steps, Open;
    var q := p + [c];
    OpenKid(t, p, c);
    if !IsLink(t, q) {
      ResolvePlain(t, q, f);
    } else if f > 0 {
      LinkUnfolded(t, q, f - 1);
      WalkOpen(t, Target(t, q), f - 1);
    } else {
      NoFuel(t, q);
    }
  }

  lemma {:induction false} WalkOpen(t: Tree, n: string, f: nat)
    requires !t.data.link
    ensures Walk(t, [], n, f).Found? ==> Open(t, Walk(t, [], n, f).path)
    decreases f, |n|, 2
  {
    TopOpen(t);
    if n != "" {
      ResolvePlain(t, [], f);
      StepsOpen(t, [], n, f);
    }
  }

  lemma LinkUnfolded(t: Tree, x: Path, f: nat)
    requires IsLink(t, x)
    ensures Resolve(t, x, f + 1) == Walk(t, [], Target(t, x), f)
  {
  }

  lemma NoFuel(t: Tree, x: Path)
    requires IsLink(t, x)
    ensures Resolve(t, x, 0).Stuck?
  {
  }

  lemma TopOpen(t: Tree)
    requires !t.data.link
    ensures Open(t, [])
  {
  }

  // ---- a plain node, or a link that becomes one ---------------------------------------

  /** Nothing at or below such a node is a link any more: it is new, or the link that has been
      overwritten, or below that link. */
  ghost predicate Quiet(t: Tree, t2: Tree, target: Path, x: Path)
  {
    Has(t2, x) && (!Has(t, x) || (target <= x && IsLink(t, target) && PlainBelow(t, target)))
  }

  lemma QuietKid(t: Tree, t2: Tree, target: Path, d: Data, x: Path, c: string)
    requires PlainChange(t, t2, target, d) && Quiet(t, t2, target, x)
    ensures Has(t2, x + [c]) ==> Quiet(t, t2, target, x + [c]) && !IsLink(t2, x + [c])
  {
    assert Changed(t, t2, target, d, x);
    assert Changed(t, t2, target, d, x + [c]);
    GetAppend(t, x, [c]);
    if Has(t, x) {
      assert target < x + [c];
    }
  }

  lemma {:induction false} QuietSteps(t: Tree, t2: Tree, target: Path, d: Data, x: Path, n: string, f: nat)
    requires PlainChange(t, t2, target, d) && Quiet(t, t2, target, x)
    ensures var r := Steps(t2, x, n, f);
      !r.Stuck? && (r.Found? ==> Quiet(t, t2, target, r.path))
    decreases |n|
  {
    QuietKid(t, t2, target, d, x, Head(n));
    if Has(t2, x + [Head(n)]) && HasDot(n) {
      QuietSteps(t, t2, target, d, x + [Head(n)], Rest(n), f);
    }
  }

  /** The same result as before, or none, or a node from which no link can be reached. */
  ghost predicate Kept(t: Tree, t2: Tree, target: Path, before: WalkResult, after: WalkResult)
  {
    !after.Stuck? && (after == before || after.Missing? || Quiet(t, t2, target, after.path))
  }

  lemma {:induction false} ResolveKept(t: Tree, t2: Tree, target: Path, d: Data, q: Path, f: nat)
    requires PlainChange(t, t2, target, d) && Has(t, q) && !Resolve(t, q, f).Stuck?
    requires q == target ==> LinklessBelow(t, target)
    ensures Has(t2, q) && Kept(t, t2, target, Resolve(t, q, f), Resolve(t2, q, f))
    decreases f, 0, 0
  {
    hide PlainChange, Walk;
    NodeChanged(t, t2, target, d, q);
    if IsLink(t, q) && q != target {
      WalkKept(t, t2, target, d, Target(t, q), f - 1);
    }
  }

  lemma NodeChanged(t: Tree, t2: Tree, target: Path, d: Data, q: Path)
    requires PlainChange(t, t2, target, d) && Has(t, q)
    ensures Has(t2, q)
    ensures if q == target then !IsLink(t2, q) else Get(t2, q).value.data == Get(t, q).value.data
    ensures q == target && IsLink(t, q) && LinklessBelow(t, q) ==> Quiet(t, t2, target, q)
  {
    assert Changed(t, t2, target, d, q);
  }

  lemma {:induction false} StepsKept(t: Tree, t2: Tree, target: Path, d: Data, p: Path, n: string, f: nat)
    requires PlainChange(t, t2, target, d) && Has(t, p) && Open(t, p) && !Steps(t, p, n, f).Stuck?
    ensures Has(t2, p) && Kept(t, t2, target, Steps(t, p, n, f), Steps(t2, p, n, f))
    decreases f, 1, |n|
  {
    var q := p + [Head(n)];
    assert Changed(t, t2, target, d, p);
    assert Changed(t, t2, target, d, q);
    if Has(t, q) {
      OpenKid(t, p, Head(n));
      KidOpen(t, p, Head(n), f);
      ResolveKept(t, t2, target, d, q, f);
      var r, r2 := Resolve(t, q, f), Resolve(t2, q, f);
      if HasDot(n) && r2.Found? {
        if r2 == r {
          StepsKept(t, t2, target, d, r.path, Rest(n), f);
        } else {
          QuietSteps(t, t2, target, d, r2.path, Rest(n), f);
        }
      }
    } else if Has(t2, q) && HasDot(n) {
      QuietSteps(t, t2, target, d, q, Rest(n), f);
    }
  }

  lemma {:induction false} WalkKept(t: Tree, t2: Tree, target: Path, d: Data, n: string, f: nat)
    requires PlainChange(t, t2, target, d) && !Walk(t, [], n, f).Stuck?
    ensures Kept(t, t2, target, Walk(t, [], n, f), Walk(t2, [], n, f))
    decreases f, 2, 0
  {
    assert Changed(t, t2, target, d, []);
    if n != "" {
      assert Resolve(t, [], f) == Found([]) && Resolve(t2, [], f) == Found([]);
      StepsKept(t, t2, target, d, [], n, f);
    }
  }

  /** If every lookup ended before a plain assignment, every lookup ends after it: from any node,
      unless it overwrites a link that lookups can come to and that has links below it. The empty
      name leaves a link as it is and aims it anew, which is no harm only where no lookup comes. */
  lemma PlainSetKeepsSettling(t: Tree, base: Path, name: string, d: Data, fuel: nat)
    requires AllSettle(t) && Has(t, base) && !t.data.link && !d.link
    requires SetValue(t, base, name, d, fuel).Done?
    requires if name == "" && IsLink(t, base) then Sheltered(t, base)
      else Safe(t, SetValue(t, base, name, d, fuel).path)
    ensures AllSettle(SetValue(t, base, name, d, fuel).tree)
  {
    hide SetSteps, AllSettle;
    var r := SetValue(t, base, name, d, fuel);
    if name == "" && IsLink(t, base) {
      AimedAnewSettles(t, base, d);
    } else {
      forall x
        ensures Changed(t, r.tree, r.path, d, x)
      {
        if name == "" {
          SelfChange(t, base, d, x);
        } else {
          SetEffect(t, base, base, name, d, fuel, x);
        }
      }
      SettlesAfter(t, r.tree, r.path, d);
    }
  }

  lemma SelfChange(t: Tree, base: Path, d: Data, x: Path)
    requires Has(t, base) && !IsLink(t, base) && !d.link
    ensures Changed(t, SetSelf(t, base, d), base, d, x)
  {
    var before := Get(t, base).value.data;
    SetDataShallow(t, base, Data(d.value, before.link, Combine(before.attrs, d.attrs)), x);
  }

  lemma SettlesAfter(t: Tree, t2: Tree, target: Path, d: Data)
    requires AllSettle(t) && PlainChange(t, t2, target, d)
    ensures AllSettle(t2)
  {
    forall q | IsLink(t2, q)
      ensures Settles(t2, q)
    {
      assert Changed(t, t2, target, d, q);
      assert IsLink(t, q) && q != target;
      var f := NodeSettles(t, q);
      ResolveKept(t, t2, target, d, q, f);
    }
  }

  // ---- a link that no lookup comes to is aimed anew -------------------------------------

  /** Only the data of one link has changed, and it is a link still. */
  ghost predicate AimedAnew(t: Tree, t2: Tree, q: Path)
  {
    && IsLink(t, q) && IsLink(t2, q)
    && forall x :: x != q ==> Shallow(t2, x) == Shallow(t, x)
  }

  lemma KidAsBefore(t: Tree, t2: Tree, q: Path, p: Path, c: string)
    requires AimedAnew(t, t2, q) && Sheltered(t, q) && Open(t, p)
    ensures var x := p + [c];
      && (Has(t2, x) <==> Has(t, x))
      && (Has(t, x) ==> Get(t2, x).value.data == Get(t, x).value.data)
  {
    hide Open, Sheltered;
    OpenKid(t, p, c);
    assert Shallow(t2, p + [c]) == Shallow(t, p + [c]);
  }

  lemma {:induction false} StepsSame(t: Tree, t2: Tree, q: Path, p: Path, n: string, f: nat)
    requires AimedAnew(t, t2, q) && Sheltered(t, q) && Has(t, p) && Has(t2, p) && Open(t, p)
    requires !t.data.link && !t2.data.link
    ensures Steps(t2, p, n, f) == Steps(t, p, n, f)
    decreases f, 1, |n|
  {
    var x := p + [Head(n)];
    KidAsBefore(t, t2, q, p, Head(n));
    if Has(t, x) {
      KidSame(t, t2, q, p, Head(n), f);
      KidOpen(t, p, Head(n), f);
      var r := Resolve(t, x, f);
      if HasDot(n) && r.Found? {
        StepsSame(t, t2, q, r.path, Rest(n), f);
      }
    }
  }

  lemma {:induction false} KidSame(t: Tree, t2: Tree, q: Path, p: Path, c: string, f: nat)
    requires AimedAnew(t, t2, q) && Sheltered(t, q) && Has(t, p + [c]) && Open(t, p)
    requires !t.data.link && !t2.data.link
    ensures Has(t2, p + [c]) && Resolve(t2, p + [c], f) == Resolve(t, p + [c], f)
    decreases f, 0, 2
  {
    hide AimedAnew, Open, Sheltered, Resolve;
    KidAsBefore(t, t2, q, p, c);
    NodeSame(t, t2, q, p + [c], f);
  }

  /** A node that shows the same data resolves to the same node. */
  lemma {:induction false} NodeSame(t: Tree, t2: Tree, q: Path, x: Path, f: nat)
    requires AimedAnew(t, t2, q) && Sheltered(t, q) && !t.data.link && !t2.data.link
    requires Has(t, x) && Has(t2, x) && Get(t2, x).value.data == Get(t, x).value.data
    ensures Resolve(t2, x, f) == Resolve(t, x, f)
    decreases f, 0, 1
  {
    hide Walk, Get, Sheltered, AimedAnew;
    if IsLink(t, x) && f > 0 {
      WalkSame(t, t2, q, Target(t, x), f - 1);
    }
  }

  lemma {:induction false} WalkSame(t: Tree, t2: Tree, q: Path, n: string, f: nat)
    requires AimedAnew(t, t2, q) && Sheltered(t, q) && !t.data.link && !t2.data.link
    ensures Walk(t2, [], n, f) == Walk(t, [], n, f)
    decreases f, 2, 0
  {
    TopOpen(t);
    if n != "" {
      ResolvePlain(t, [], f);
      ResolvePlain(t2, [], f);
      StepsSame(t, t2, q, [], n, f);
    }
  }

  lemma AimedAnewSettles(t: Tree, q: Path, d: Data)
    requires AllSettle(t) && IsLink(t, q) && Sheltered(t, q) && !t.data.link
    ensures AllSettle(SetSelf(t, q, d))
  {
    hide Walk, Resolve;
    var t2, before := SetSelf(t, q, d), Get(t, q).value.data;
    forall x
      ensures x != q ==> Shallow(t2, x) == Shallow(t, x)
      ensures IsLink(t2, q)
    {
      SetDataShallow(t, q, Data(d.value, before.link, Combine(before.attrs, d.attrs)), x);
      SetDataShallow(t, q, Data(d.value, before.link, Combine(before.attrs, d.attrs)), q);
    }
    assert Shallow(t2, []) == Shallow(t, []);
    forall x | IsLink(t2, x)
      ensures Settles(t2, x)
    {
      var f := WalkReturns(t, [], Target(t2, x));
      WalkSame(t, t2, q, Target(t2, x), f);
      LinkUnfolded(t2, x, f);
      assert !Resolve(t2, x, f + 1).Stuck?;
    }
  }

  // ---- said before the assignment -------------------------------------------------------

  /** A lookup of all but the last component, with links resolved from the base, tells which node
      will be set, if it finds one. */
  lemma PlainSetSettles(t: Tree, base: Path, a: string, c: string, d: Data, f: nat) returns (g: nat)
    requires AllSettle(t) && Has(t, base) && Named(Below(t, base)) && !t.data.link && !d.link && '.' !in c
    requires !Steps(Below(t, base), [], a, f).Stuck?
    requires var r := Steps(Below(t, base), [], a, f);
      r.Found? ==> Safe(t, base + r.path + [c])
    ensures var s := SetValue(t, base, a + "." + c, d, g);
      !s.Aborted? && (s.Done? ==> AllSettle(s.tree))
  {
    hide SetValue, AllSettle;
    assert LinksHaveTargets(Below(t, base));
    g := AssignmentLands(t, base, a, c, d, f);
    if SetValue(t, base, a + "." + c, d, g).Done? {
      PlainSetKeepsSettling(t, base, a + "." + c, d, g);
    }
  }

  // A link `a` that leads nowhere, and below it a link `a.c` to itself, which nothing reaches.
  ghost function Hidden(): Tree { Tree("c", Data(Some("a.c"), true, []), []) }
  ghost function Cover(d: Data): Tree { Tree("a", d, [Hidden()]) }
  ghost function CoverTree(d: Data): Tree { Tree("", EmptyData, [Cover(d)]) }
  const LinkAway := Data(Some("b"), true, [])
  const PlainValue := Data(Some("v"), false, [])

  lemma CoverPaths(d: Data, q: Path)
    ensures Get(CoverTree(d), q) ==
            if q == [] then Some(CoverTree(d))
            else if q == ["a"] then Some(Cover(d))
            else if q == ["a", "c"] then Some(Hidden())
            else None
  {
    if q != [] && q[0] == "a" {
      var q1 := q[1..];
      assert q == ["a"] + q1;
      assert Get(CoverTree(d), q) == Get(Cover(d), q1);
      if q1 != [] && q1[0] == "c" {
        assert q1 == ["c"] + q1[1..];
        assert Get(Cover(d), q1) == Get(Hidden(), q1[1..]);
      }
    }
  }

  lemma CoverNames()
    ensures HasDot("a.c") && Head("a.c") == "a" && Rest("a.c") == "c"
    ensures !HasDot("c") && Head("c") == "c" && !HasDot("b") && Head("b") == "b" && !HasDot("a") && Head("a") == "a"
  {
    assert "a" + "." + "c" == "a.c";
    DotOfHead("a", "c");
    DotOfHead("c", "");
    DotOfHead("b", "");
  }

  lemma Covered(q: Path)
    requires q == ["a"] || q == ["a", "c"]
    ensures Has(CoverTree(LinkAway), q) && Resolve(CoverTree(LinkAway), q, 2) == Missing
  {
    var t := CoverTree(LinkAway);
    CoverNames();
    CoverPaths(LinkAway, []);
    CoverPaths(LinkAway, ["a"]);
    CoverPaths(LinkAway, ["b"]);
    CoverPaths(LinkAway, ["a", "c"]);
    assert [] + ["a"] == ["a"] && [] + ["b"] == ["b"];
    assert Walk(t, [], "b", 0) == Missing && Walk(t, [], "b", 1) == Missing;
    assert Steps(t, [], "a.c", 1) == Missing;
  }

  lemma {:induction false} Uncovered(f: nat)
    ensures Has(CoverTree(PlainValue), ["a", "c"]) && Resolve(CoverTree(PlainValue), ["a", "c"], f).Stuck?
  {
    var t := CoverTree(PlainValue);
    CoverNames();
    CoverPaths(PlainValue, []);
    CoverPaths(PlainValue, ["a"]);
    CoverPaths(PlainValue, ["a", "c"]);
    if f > 0 {
      Uncovered(f - 1);
      assert [] + ["a"] == ["a"] && ["a"] + ["c"] == ["a", "c"];
      assert Steps(t, ["a"], "c", f - 1) == Resolve(t, ["a", "c"], f - 1);
      assert Resolve(t, ["a"], f - 1) == Found(["a"]) && Resolve(t, [], f - 1) == Found([]);
      assert Steps(t, [], "a.c", f - 1) == Steps(t, ["a"], "c", f - 1);
      assert Walk(t, [], "a.c", f - 1) == Steps(t, [], "a.c", f - 1);
      assert Target(t, ["a", "c"]) == "a.c";
    }
  }

  /** Overwriting the link there uncovers the circle below it. */
  lemma UncoveredCircle()
    ensures var t := CoverTree(LinkAway);
      var r := SetValue(t, [], "a", PlainValue, 0);
      AllSettle(t) && r.Done? && r.path == ["a"] && !Safe(t, r.path) && !AllSettle(r.tree)
  {
    var t := CoverTree(LinkAway);
    CoverNames();
    CoverPaths(LinkAway, []);
    CoverPaths(LinkAway, ["a"]);
    CoverPaths(LinkAway, ["a", "c"]);
    assert [] + ["a"] == ["a"] && ["a"] < ["a", "c"];
    forall q | IsLink(t, q)
      ensures Settles(t, q)
    {
      CoverPaths(LinkAway, q);
      Covered(q);
    }
    var r := SetValue(t, [], "a", PlainValue, 0);
    assert Assigned(LinkAway, PlainValue) == PlainValue;
    assert r.tree == CoverTree(PlainValue);
    Uncovered(0);
    assert IsLink(r.tree, ["a", "c"]);
    forall f: nat
      ensures Resolve(r.tree, ["a", "c"], f).Stuck?
    {
      Uncovered(f);
    }
    assert !Settles(r.tree, ["a", "c"]);
  }
}
