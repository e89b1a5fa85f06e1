/** Symbolic links: reading back what was assigned through them, and why following them
    comes to an end. */
module HdfLinks {
  import opened Options
  import opened HdfTree
  import opened HdfNames
  import opened HdfSpec
  import opened HdfCopy
  import opened HdfLaws

  // ---- more fuel changes nothing ----------------------------------------------------

  lemma {:induction false} ResolveMono(t: Tree, q: Path, f: nat, g: nat)
    requires Has(t, q) && f <= g && !Resolve(t, q, f).Stuck?
    ensures Resolve(t, q, g) == Resolve(t, q, f)
    decreases f, 0, 0
  {
    if Get(t, q).value.data.link {
      WalkMono(t, [], Target(t, q), f - 1, g - 1);
    }
  }

  lemma {:induction false} StepsMono(t: Tree, p: Path, n: string, f: nat, g: nat)
    requires Has(t, p) && f <= g && !Steps(t, p, n, f).Stuck?
    ensures Steps(t, p, n, g) == Steps(t, p, n, f)
    decreases f, 1, |n|
  {
    var q := p + [Head(n)];
    if Has(t, q) {
      ResolveMono(t, q, f, g);
      var r := Resolve(t, q, f);
      if HasDot(n) && r.Found? {
        StepsMono(t, r.path, Rest(n), f, g);
      }
    }
  }

  lemma {:induction false} WalkMono(t: Tree, base: Path, n: string, f: nat, g: nat)
    requires Has(t, base) && f <= g && !Walk(t, base, n, f).Stuck?
    ensures Walk(t, base, n, g) == Walk(t, base, n, f)
    decreases f, 2, 0
  {
    if n != "" {
      ResolveMono(t, base, f, g);
      if Resolve(t, base, f).Found? {
        StepsMono(t, Resolve(t, base, f).path, n, f, g);
      }
    }
  }

  lemma {:induction false} SetStepsMono(t: Tree, base: Path, p: Path, n: string, d: Data, f: nat, g: nat)
    requires Has(t, base) && Has(t, p) && f <= g && !SetSteps(t, base, p, n, d, f).Aborted?
    ensures SetSteps(t, base, p, n, d, g) == SetSteps(t, base, p, n, d, f)
    decreases f, |n|, 1
  {
    var q := p + [Head(n)];
    if Head(n) != "" && !Has(t, q) {
      NewMono(t, base, p, n, d, f, g);
    } else if Head(n) != "" {
      OldMono(t, base, p, n, d, f, g);
    }
  }

  lemma {:induction false} NewMono(t: Tree, base: Path, p: Path, n: string, d: Data, f: nat, g: nat)
    requires Has(t, base) && Has(t, p) && f <= g && !SetSteps(t, base, p, n, d, f).Aborted?
    requires Head(n) != "" && !Has(t, p + [Head(n)])
    ensures SetSteps(t, base, p, n, d, g) == SetSteps(t, base, p, n, d, f)
    decreases f, |n|, 0
  {
    hide SetSteps;
    NewUnfolded(t, base, p, n, d, f);
    NewUnfolded(t, base, p, n, d, g);
    if HasDot(n) {
      SetStepsMono(AddKid(t, p, Tree(Head(n), EmptyData, [])), base, p + [Head(n)], Rest(n), d, f, g);
    }
  }

  lemma {:induction false} OldMono(t: Tree, base: Path, p: Path, n: string, d: Data, f: nat, g: nat)
    requires Has(t, base) && Has(t, p) && f <= g && !SetSteps(t, base, p, n, d, f).Aborted?
    requires Head(n) != "" && Has(t, p + [Head(n)])
    ensures SetSteps(t, base, p, n, d, g) == SetSteps(t, base, p, n, d, f)
    decreases f, |n|, 0
  {
    hide SetSteps, SetValue;
    var q := p + [Head(n)];
    StepsUnfolded(t, base, p, n, d, f);
    StepsUnfolded(t, base, p, n, d, g);
    if HasDot(n) {
      if !Get(t, q).value.data.link {
        SetStepsMono(t, base, q, Rest(n), d, f, g);
      } else {
        var again := Get(t, q).value.data.value.value + "." + Rest(n);
        NameUnfolded(t, base, again, d, f - 1);
        NameUnfolded(t, base, again, d, g - 1);
        SetStepsMono(t, base, base, again, d, f - 1, g - 1);
      }
    }
  }

  // ---- names put together -----------------------------------------------------------

  lemma {:induction false} JoinedName(a: string, b: string)
    ensures var n := a + "." + b;
      HasDot(n) && Head(n) == Head(a) &&
      Rest(n) == if HasDot(a) then Rest(a) + "." + b else b
  {
    var n := a + "." + b;
    if HasDot(a) {
      assert n == Head(a) + "." + (Rest(a) + "." + b);
      DotOfHead(Head(a), Rest(a) + "." + b);
    } else {
      assert Dot(a) == |a| && a[..|a|] == a;
      assert '.' !in a;
      DotOfHead(a, b);
    }
  }

  /** What a lookup does once it stands on a resolved node. */
  ghost function Onward(t: Tree, r: WalkResult, rest: string, fuel: nat): WalkResult
    requires r.Found? ==> Has(t, r.path)
  {
    if r.Found? then Steps(t, r.path, rest, fuel) else r
  }

  /** Walking a joined name is walking its first half and then its second. */
  lemma {:induction false} StepsJoined(t: Tree, p: Path, a: string, b: string, f: nat)
    requires Has(t, p)
    ensures Steps(t, p, a + "." + b, f) == Onward(t, Steps(t, p, a, f), b, f)
    decreases |a|
  {
    JoinedName(a, b);
    var q := p + [Head(a)];
    if Has(t, q) {
      var r := Resolve(t, q, f);
      if HasDot(a) && r.Found? {
        StepsJoined(t, r.path, Rest(a), b, f);
      }
    }
  }

  // ---- assigning through links and reading back -------------------------------------

  /** The links that redirect an assignment on its way. */
  ghost function Followed(t: Tree, p: Path, n: string, fuel: nat): set<Path>
    requires Has(t, p)
    decreases fuel, |n|
  {
    var q := p + [Head(n)];
    if Head(n) == "" || !HasDot(n) || !Has(t, q) then {}
    else
      var s := Get(t, q).value;
      if !s.data.link then Followed(t, q, Rest(n), fuel)
      else if s.data.value.None? || fuel == 0 then {q}
      else {q} + Followed(t, [], s.data.value.value + "." + Rest(n), fuel - 1)
  }

  ghost predicate IsLink(t: Tree, q: Path)
  {
    Has(t, q) && Get(t, q).value.data.link
  }

  ghost predicate PlainBelow(t: Tree, q: Path)
  {
    forall x :: q < x && Has(t, x) ==> !Get(t, x).value.data.link
  }

  /** The node is no link, or a link with no link below it. */
  ghost predicate LinklessBelow(t: Tree, q: Path)
  {
    IsLink(t, q) ==> PlainBelow(t, q)
  }

  ghost predicate EndsBelow(r: WalkResult, q: Path)
  {
    r.Missing? || (r.Found? && q < r.path)
  }

  /** What the steps of a lookup find after an assignment along the same name. */
  ghost predicate ReadsBack(t: Tree, t2: Tree, target: Path, p: Path, n: string, fuel: nat)
    requires Has(t, p) && Has(t2, p)
  {
    && (target !in Followed(t, p, n, fuel) ==> Steps(t2, p, n, fuel) == Found(target))
    && (target in Followed(t, p, n, fuel) && LinklessBelow(t, target) ==> EndsBelow(Steps(t2, p, n, fuel), target))
  }

  lemma PlainBelowKept(t: Tree, base: Path, p: Path, n: string, d: Data, fuel: nat, q: Path)
    requires Has(t, base) && Has(t, p) && SetSteps(t, base, p, n, d, fuel).Done? && !d.link
    requires PlainBelow(t, q)
    ensures PlainBelow(SetSteps(t, base, p, n, d, fuel).tree, q)
  {
    var r := SetSteps(t, base, p, n, d, fuel);
    forall x | q < x && Has(r.tree, x)
      ensures !Get(r.tree, x).value.data.link
    {
      SetEffect(t, base, p, n, d, fuel, x);
    }
  }

  /** Where nothing below `q` is a link, a lookup that stands at `q` or below stays below. */
  lemma {:induction false} StepsBelow(t: Tree, q: Path, x: Path, n: string, f: nat)
    requires PlainBelow(t, q) && q <= x && Has(t, x)
    ensures EndsBelow(Steps(t, x, n, f), q)
    decreases |n|
  {
    var y := x + [Head(n)];
    if Has(t, y) {
      assert q < y;
      if HasDot(n) {
        StepsBelow(t, q, y, Rest(n), f);
      }
    }
  }

  lemma {:induction false} AssignThenWalk(t: Tree, p: Path, n: string, d: Data, fuel: nat)
    requires Has(t, p) && !t.data.link && !d.link
    requires SetSteps(t, [], p, n, d, fuel).Done?
    ensures var r := SetSteps(t, [], p, n, d, fuel);
      Has(r.tree, p) && ReadsBack(t, r.tree, r.path, p, n, fuel)
    decreases fuel, |n|
  {
    var r := SetSteps(t, [], p, n, d, fuel);
    var q := p + [Head(n)];
    StepsKeep(t, [], p, n, d, fuel, p);
    SetEffect(t, [], p, n, d, fuel, q);
    if !Has(t, q) {
      AssignNewThenWalk(t, p, n, d, fuel);
    } else if HasDot(n) {
      StepsKeep(t, [], p, n, d, fuel, q);
      if !Get(t, q).value.data.link {
        AssignThenWalk(t, q, Rest(n), d, fuel);
        LinkFlagOf(t, r.tree, r.path, d, q);
      } else {
        AssignThroughLink(t, p, n, d, fuel);
      }
    }
  }

  lemma LinkFlagOf(t: Tree, t2: Tree, target: Path, d: Data, q: Path)
    requires Changed(t, t2, target, d, q) && Has(t, q) && Has(t2, q) && !d.link
    ensures q == target || !Get(t, q).value.data.link ==> !Get(t2, q).value.data.link
    ensures q != target ==> Get(t2, q).value.data == Get(t, q).value.data
  {
  }

  lemma {:induction false} AssignNewThenWalk(t: Tree, p: Path, n: string, d: Data, fuel: nat)
    requires Has(t, p) && !d.link && !Has(t, p + [Head(n)])
    requires SetSteps(t, [], p, n, d, fuel).Done?
    ensures var r := SetSteps(t, [], p, n, d, fuel);
      Has(r.tree, p) && Steps(r.tree, p, n, fuel) == Found(r.path)
    decreases |n|
  {
    var r := SetSteps(t, [], p, n, d, fuel);
    var q := p + [Head(n)];
    var k := Tree(Head(n), if HasDot(n) then EmptyData else d, []);
    AddKidShallow(t, p, k, q);
    StepsKeep(t, [], p, n, d, fuel, p);
    SetEffect(t, [], p, n, d, fuel, q);
    if HasDot(n) {
      var t1 := AddKid(t, p, k);
      AddKidHas(t, p, k, []);
      NothingBelowNew(t1, q);
      AssignNewThenWalk(t1, q, Rest(n), d, fuel);
    }
  }

  /** The step through a link: the assignment starts again with the link's target in front,
      and the lookup resolves the target and goes on from there. */
  lemma {:induction false} AssignThroughLink(t: Tree, p: Path, n: string, d: Data, fuel: nat)
    requires Has(t, p) && !t.data.link && !d.link && HasDot(n)
    requires SetSteps(t, [], p, n, d, fuel).Done?
    requires Has(t, p + [Head(n)]) && Get(t, p + [Head(n)]).value.data.link
    ensures var r := SetSteps(t, [], p, n, d, fuel);
      Has(r.tree, p) && ReadsBack(t, r.tree, r.path, p, n, fuel)
    decreases fuel, 0
  {
    hide SetSteps, SetValue, Steps, Followed, Changed, Effect, PlainBelow;
    var v := Get(t, p + [Head(n)]).value.data.value;
    LinkRound(t, p, n, d, fuel);
    LinkRoundKeeps(t, p, n, d, fuel);
    AssignThenWalk(t, [], v.value + "." + Rest(n), d, fuel - 1);
    var r := SetSteps(t, [], p, n, d, fuel);
    ReadThroughLink(t, r.tree, r.path, d, p, n, v.value, fuel - 1);
  }

  /** The assignment starts again with the link's target in front. */
  lemma LinkRound(t: Tree, p: Path, n: string, d: Data, fuel: nat)
    requires Has(t, p) && HasDot(n) && SetSteps(t, [], p, n, d, fuel).Done?
    requires Has(t, p + [Head(n)]) && Get(t, p + [Head(n)]).value.data.link
    ensures var v := Get(t, p + [Head(n)]).value.data.value;
      Head(n) != "" && fuel > 0 && v.Some? && v.value != "" &&
      SetSteps(t, [], p, n, d, fuel) == SetSteps(t, [], [], v.value + "." + Rest(n), d, fuel - 1)
  {
    StepsUnfolded(t, [], p, n, d, fuel);
    var v := Get(t, p + [Head(n)]).value.data.value.value;
    NameUnfolded(t, [], v + "." + Rest(n), d, fuel - 1);
    EmptyTarget(t, Rest(n), d, fuel - 1);
  }

  lemma LinkRoundKeeps(t: Tree, p: Path, n: string, d: Data, fuel: nat)
    requires Has(t, p) && HasDot(n) && SetSteps(t, [], p, n, d, fuel).Done? && Has(t, p + [Head(n)])
    ensures var r, q := SetSteps(t, [], p, n, d, fuel), p + [Head(n)];
      Has(r.tree, p) && Has(r.tree, q) && Has(r.tree, []) && r.path != [] &&
      Changed(t, r.tree, r.path, d, q) && Changed(t, r.tree, r.path, d, [])
    ensures var r := SetSteps(t, [], p, n, d, fuel);
      !d.link && PlainBelow(t, r.path) ==> PlainBelow(r.tree, r.path)
  {
    hide SetSteps, Changed, PlainBelow;
    if !d.link && PlainBelow(t, SetSteps(t, [], p, n, d, fuel).path) {
      PlainBelowKept(t, [], p, n, d, fuel, SetSteps(t, [], p, n, d, fuel).path);
    }
    var q := p + [Head(n)];
    StepsKeep(t, [], p, n, d, fuel, p);
    StepsKeep(t, [], p, n, d, fuel, q);
    SetEffect(t, [], p, n, d, fuel, q);
    SetEffect(t, [], p, n, d, fuel, []);
    TargetNotRoot(t, [], p, n, d, fuel);
  }

  lemma ReadThroughLink(t: Tree, t2: Tree, target: Path, d: Data, p: Path, n: string, v: string, g: nat)
    requires Has(t, p) && Has(t2, p) && HasDot(n) && Head(n) != "" && v != ""
    requires !t.data.link && !d.link && target != []
    requires var q := p + [Head(n)];
      && Has(t, q) && Has(t2, q) && Get(t, q).value.data.link && Get(t, q).value.data.value == Some(v)
      && Changed(t, t2, target, d, q)
    requires Changed(t, t2, target, d, []) && (PlainBelow(t, target) ==> PlainBelow(t2, target))
    requires ReadsBack(t, t2, target, [], v + "." + Rest(n), g)
    ensures ReadsBack(t, t2, target, p, n, g + 1)
  {
    hide Followed, Steps, Resolve, Changed, PlainBelow;
    var q := p + [Head(n)];
    FollowedThrough(t, p, n, v, g);
    LinkFlagOf(t, t2, target, d, []);
    LinkFlagOf(t, t2, target, d, q);
    StepsAt(t2, p, n, g + 1);
    if q != target {
      if target !in Followed(t, p, n, g + 1) || LinklessBelow(t, target) {
        ThroughLink(t2, q, Rest(n), Steps(t2, [], v + "." + Rest(n), g), g);
      }
    } else if LinklessBelow(t, target) {
      ResolvePlain(t2, q, g + 1);
      StepsBelow(t2, q, q, Rest(n), g + 1);
    }
  }

  lemma FollowedThrough(t: Tree, p: Path, n: string, v: string, g: nat)
    requires Has(t, p) && HasDot(n) && Head(n) != ""
    requires var q := p + [Head(n)];
      Has(t, q) && Get(t, q).value.data.link && Get(t, q).value.data.value == Some(v)
    ensures Followed(t, p, n, g + 1) == {p + [Head(n)]} + Followed(t, [], v + "." + Rest(n), g)
  {
  }

  lemma StepsAt(t: Tree, p: Path, n: string, f: nat)
    requires Has(t, p) && HasDot(n) && Has(t, p + [Head(n)])
    ensures Steps(t, p, n, f) == Onward(t, Resolve(t, p + [Head(n)], f), Rest(n), f)
  {
  }

  lemma ResolvePlain(t: Tree, q: Path, f: nat)
    requires Has(t, q) && !Get(t, q).value.data.link
    ensures Resolve(t, q, f) == Found(q)
  {
  }

  /** A link to the empty name can be walked but never assigned through. */
  lemma EmptyTarget(t: Tree, rest: string, d: Data, fuel: nat)
    ensures !SetSteps(t, [], [], "" + "." + rest, d, fuel).Done?
  {
    DotOfHead("", rest);
  }

  lemma {:induction false} TargetNotRoot(t: Tree, base: Path, p: Path, n: string, d: Data, fuel: nat)
    requires Has(t, base) && Has(t, p) && SetSteps(t, base, p, n, d, fuel).Done?
    ensures SetSteps(t, base, p, n, d, fuel).path != []
    decreases fuel, |n|, 1
  {
    if Head(n) != "" && !Has(t, p + [Head(n)]) {
      NewUnfolded(t, base, p, n, d, fuel);
      if HasDot(n) {
        var k := Tree(Head(n), EmptyData, []);
        TargetNotRoot(AddKid(t, p, k), base, p + [Head(n)], Rest(n), d, fuel);
      }
    } else if Head(n) != "" {
      OldTargetNotRoot(t, base, p, n, d, fuel);
    }
  }

  lemma {:induction false} OldTargetNotRoot(t: Tree, base: Path, p: Path, n: string, d: Data, fuel: nat)
    requires Has(t, base) && Has(t, p) && SetSteps(t, base, p, n, d, fuel).Done?
    requires Head(n) != "" && Has(t, p + [Head(n)])
    ensures SetSteps(t, base, p, n, d, fuel).path != []
    decreases fuel, |n|, 0
  {
    hide SetSteps, SetValue;
    var q := p + [Head(n)];
    StepsUnfolded(t, base, p, n, d, fuel);
    if HasDot(n) {
      if !Get(t, q).value.data.link {
        TargetNotRoot(t, base, q, Rest(n), d, fuel);
      } else {
        var again := Get(t, q).value.data.value.value + "." + Rest(n);
        NameUnfolded(t, base, again, d, fuel - 1);
        TargetNotRoot(t, base, base, again, d, fuel - 1);
      }
    }
  }

  /** A link resolves to what the steps along its target find from the top. */
  lemma {:induction false} ResolveLink(t: Tree, q: Path, fuel: nat)
    requires Has(t, q) && Get(t, q).value.data.link && Target(t, q) != ""
    requires fuel > 0 && !t.data.link
    ensures Resolve(t, q, fuel) == Steps(t, [], Target(t, q), fuel - 1)
  {
    assert Resolve(t, [], fuel - 1) == Found([]);
  }

  lemma OnwardMono(t: Tree, r: WalkResult, rest: string, f: nat, g: nat)
    requires r.Found? ==> Has(t, r.path)
    requires f <= g && !Onward(t, r, rest, f).Stuck?
    ensures Onward(t, r, rest, g) == Onward(t, r, rest, f)
  {
    if r.Found? {
      StepsMono(t, r.path, rest, f, g);
    }
  }

  lemma {:induction false} JoinedShift(t: Tree, v: string, rest: string, whole: WalkResult, g: nat)
    requires Steps(t, [], v + "." + rest, g) == whole && !whole.Stuck?
    ensures Onward(t, Steps(t, [], v, g), rest, g + 1) == whole
  {
    StepsJoined(t, [], v, rest, g);
    OnwardMono(t, Steps(t, [], v, g), rest, g, g + 1);
  }

  /** Resolving a link and going on is walking its target joined with the rest. */
  lemma ThroughLink(t: Tree, q: Path, rest: string, whole: WalkResult, g: nat)
    requires Has(t, q) && Get(t, q).value.data.link && Target(t, q) != ""
    requires !t.data.link && !whole.Stuck?
    requires Steps(t, [], Target(t, q) + "." + rest, g) == whole
    ensures Onward(t, Resolve(t, q, g + 1), rest, g + 1) == whole
  {
    JoinedShift(t, Target(t, q), rest, whole, g);
    ResolveLink(t, q, g + 1);
  }
}
