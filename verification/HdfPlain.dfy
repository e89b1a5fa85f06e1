/** Data sets without links: lookups are plain descents, and an assignment changes exactly one
    value. */
module HdfPlain {
  import opened Options
  import opened HdfTree
  import opened HdfNames
  import opened HdfSpec
  import opened HdfCopy
  import opened HdfLaws

  ghost predicate Plain(t: Tree)
  {
    forall q :: Has(t, q) ==> !Get(t, q).value.data.link
  }

  /** Where a name leads when there are no links. */
  function Spelled(base: Path, name: string): Path
  {
    if name == "" then base else base + Components(name)
  }

  lemma ComponentsStep(p: Path, n: string)
    requires HasDot(n)
    ensures p + Components(n) == p + [Head(n)] + Components(Rest(n))
  {
  }

  lemma {:induction false} PlainSteps(t: Tree, p: Path, n: string, fuel: nat)
    requires Plain(t) && Has(t, p)
    ensures var q := p + Components(n);
      Steps(t, p, n, fuel) == if Has(t, q) then Found(q) else Missing
    decreases |n|
  {
    var q := p + [Head(n)];
    if HasDot(n) {
      ComponentsStep(p, n);
      if Has(t, q) {
        PlainSteps(t, q, Rest(n), fuel);
      } else {
        GetAppend(t, q, Components(Rest(n)));
      }
    } else {
      assert Head(n) == n;
    }
  }

  lemma PlainWalk(t: Tree, base: Path, name: string, fuel: nat)
    requires Plain(t) && Has(t, base)
    ensures var q := Spelled(base, name);
      Walk(t, base, name, fuel) == if Has(t, q) then Found(q) else Missing
  {
    if name != "" {
      PlainSteps(t, base, name, fuel);
    }
  }

  predicate AllNamed(n: string)
    decreases |n|
  {
    Head(n) != "" && (HasDot(n) ==> AllNamed(Rest(n)))
  }

  /** Without links an assignment ends at the place its name spells, unless a component of
      the name is empty; it is never aborted. */
  lemma {:induction false} PlainTarget(t: Tree, base: Path, p: Path, n: string, d: Data, fuel: nat)
    requires Plain(t) && Has(t, base) && Has(t, p)
    ensures var r := SetSteps(t, base, p, n, d, fuel);
      if AllNamed(n) then r.Done? && r.path == p + Components(n) else r.EmptyComponent?
    decreases |n|
  {
    var q := p + [Head(n)];
    if Head(n) != "" {
      if HasDot(n) {
        ComponentsStep(p, n);
        if Has(t, q) {
          PlainTarget(t, base, q, Rest(n), d, fuel);
        } else {
          var k := Tree(Head(n), EmptyData, []);
          AddKidHas(t, p, k, base);
          AddKidHas(t, p, k, q);
          PlainGrown(t, p, k);
          PlainTarget(AddKid(t, p, k), base, q, Rest(n), d, fuel);
        }
      } else {
        assert Head(n) == n;
      }
    }
  }

  lemma {:induction false} PlainGrown(t: Tree, p: Path, k: Tree)
    requires Plain(t) && Has(t, p) && !Has(t, p + [k.name]) && k.kids == [] && !k.data.link
    ensures Plain(AddKid(t, p, k))
  {
    forall q | Has(AddKid(t, p, k), q)
      ensures !Get(AddKid(t, p, k), q).value.data.link
    {
      AddKidShallow(t, p, k, q);
    }
  }

  lemma PlainKept(t: Tree, base: Path, name: string, d: Data, fuel: nat)
    requires Plain(t) && Has(t, base) && name != "" && !d.link
    ensures var r := SetValue(t, base, name, d, fuel);
      !r.Aborted? && Plain(r.tree) && Has(r.tree, base)
  {
    hide SetSteps, Effect;
    PlainTarget(t, base, base, name, d, fuel);
    StepsKeep(t, base, base, name, d, fuel, base);
    var r := SetValue(t, base, name, d, fuel);
    forall q | Has(r.tree, q)
      ensures !Get(r.tree, q).value.data.link
    {
      SetEffect(t, base, base, name, d, fuel, q);
      PlainEffect(t, r, d, q);
    }
  }

  lemma PlainEffect(t: Tree, r: SetResult, d: Data, q: Path)
    requires Plain(t) && !d.link && Effect(t, r, d, q) && !r.Aborted? && Has(r.tree, q)
    ensures !Get(r.tree, q).value.data.link
  {
  }

  /** Set then get, for every tree without links and every name: the name set reads as the new
      value; every name that leads elsewhere, from whatever node, reads as before; and a name
      refused for an empty component changes no reading at all, though it may create nodes. */
  lemma SetThenGet(t: Tree, base: Path, name: string, d: Data, fuel: nat, from: Path, other: string)
    requires Plain(t) && Has(t, base) && Has(t, from) && name != "" && !d.link
    ensures var r := SetValue(t, base, name, d, fuel);
      !r.Aborted? && Has(r.tree, from) && (r.Done? <==> AllNamed(name)) &&
      GetValue(r.tree, from, other, fuel) ==
        if r.Done? && Spelled(from, other) == Spelled(base, name) then d.value
        else GetValue(t, from, other, fuel)
  {
    var r, q := SetValue(t, base, name, d, fuel), Spelled(from, other);
    PlainTarget(t, base, base, name, d, fuel);
    PlainKept(t, base, name, d, fuel);
    StepsKeep(t, base, base, name, d, fuel, from);
    SetEffect(t, base, base, name, d, fuel, q);
    EmptyKept(t, base, name, d, fuel, from);
    PlainWalk(t, from, other, fuel);
    PlainWalk(r.tree, from, other, fuel);
  }

  lemma EmptyKept(t: Tree, base: Path, name: string, d: Data, fuel: nat, q: Path)
    requires Has(t, base) && Has(t, q) && name != "" && !SetValue(t, base, name, d, fuel).Aborted?
    ensures Has(SetValue(t, base, name, d, fuel).tree, q)
  {
    SetEffect(t, base, base, name, d, fuel, q);
  }

  /** The nodes created on the way to the target carry no value. */
  lemma NewAncestorsAreEmpty(t: Tree, base: Path, name: string, d: Data, fuel: nat, q: Path)
    requires Plain(t) && Has(t, base) && name != ""
    ensures var r := SetValue(t, base, name, d, fuel);
      !r.Aborted? && (!Has(t, q) && Has(r.tree, q) && !(r.Done? && q == Spelled(base, name)) ==>
        DataAt(r.tree, q) == Some(EmptyData))
  {
    PlainTarget(t, base, base, name, d, fuel);
    SetEffect(t, base, base, name, d, fuel, q);
  }
}
