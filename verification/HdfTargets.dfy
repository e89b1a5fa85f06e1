/** Where an assignment through links ends, said by a lookup before it. */
module HdfTargets {
  import Seqs
  import opened Options
  import opened HdfTree
  import opened HdfNames
  import opened HdfSpec
  import opened HdfCopy
  import opened HdfLaws
  import opened HdfLinks
  import opened HdfBase

  /** No component and no target of a link is empty. */
  ghost predicate Named(t: Tree)
  {
    && (forall q, c :: Has(t, q + [c]) ==> c != "")
    && (forall q :: IsLink(t, q) ==> Target(t, q) != "")
  }

  /** Links carry a target, as `hdf_set_symlink` is called with one. */
  ghost predicate LinksHaveTargets(t: Tree)
  {
    forall q :: IsLink(t, q) ==> Get(t, q).value.data.value.Some?
  }

  /** Where nothing exists yet there is no link to follow, and the target is a new node. */
  lemma {:induction false} NewEnds(t: Tree, base: Path, p: Path, n: string, d: Data, f: nat)
    requires Has(t, base) && Has(t, p) && !Has(t, p + [Head(n)])
    ensures var s := SetSteps(t, base, p, n, d, f);
      !s.Aborted? && (s.Done? ==> !Has(t, s.path))
  {
    if Head(n) != "" {
      NewUnfolded(t, base, p, n, d, f);
      if HasDot(n) {
        NewEndsBelow(t, base, p, n, d, f);
      }
    }
  }

  lemma {:induction false} NewEndsBelow(t: Tree, base: Path, p: Path, n: string, d: Data, f: nat)
    requires Has(t, base) && Has(t, p) && !Has(t, p + [Head(n)]) && Head(n) != "" && HasDot(n)
    ensures var s := SetSteps(t, base, p, n, d, f);
      !s.Aborted? && (s.Done? ==> !Has(t, s.path))
  {
    hide SetSteps, SetValue, AddKid, Get;
    var q, k := p + [Head(n)], Tree(Head(n), EmptyData, []);
    var t1 := AddKid(t, p, k);
    NewUnfolded(t, base, p, n, d, f);
    AddKidShallow(t, p, k, q);
    NothingBelowNew(t1, q);
    NotAtStart(t1, base, q, Rest(n), d, f);
    var s := SetSteps(t, base, p, n, d, f);
    if s.Done? {
      assert s.path == q + s.path[|q|..];
      NothingBelow(t, p, Head(n), s.path[|q|..]);
    }
  }

  lemma ThroughEmptyName(t: Tree, p: Path, n: string, d: Data)
    requires Has(t, p) && HasDot(n) && Head(n) != "" && Has(t, p + [Head(n)])
    requires Get(t, p + [Head(n)]).value.data.link && Get(t, p + [Head(n)]).value.data.value == Some("")
    ensures SetSteps(t, [], p, n, d, 1).EmptyComponent? && !Named(t)
  {
    assert IsLink(t, p + [Head(n)]);
    DotOfHead("", Rest(n));
    StepsUnfolded(t, [], p, n, d, 1);
    NameUnfolded(t, [], "" + "." + Rest(n), d, 0);
  }

  /** The assignment of `b` below where a lookup led, given that with fuel `g` it returns. */
  ghost predicate Leads(t: Tree, r: WalkResult, b: string, d: Data, g: nat, s: SetResult)
    requires r.Found? ==> Has(t, r.path)
  {
    && !s.Aborted?
    && (r.Found? ==> s == SetSteps(t, [], r.path, b, d, g) || (s.EmptyComponent? && !Named(t)))
    && (r.Missing? ==> s.Done? ==> !Has(t, s.path))
  }

  /** Setting `a.b` is setting `b` at the node that a lookup of `a` finds; where it finds none,
      the assignment makes its target. */
  lemma {:induction false} PrefixLeads(t: Tree, p: Path, a: string, b: string, d: Data, f: nat, g: nat) returns (h: nat)
    requires Has(t, p) && LinksHaveTargets(t) && !t.data.link && !Steps(t, p, a, f).Stuck?
    requires Steps(t, p, a, f).Found? ==> !SetSteps(t, [], Steps(t, p, a, f).path, b, d, g).Aborted?
    ensures Leads(t, Steps(t, p, a, f), b, d, g, SetSteps(t, [], p, a + "." + b, d, h))
    decreases f, |a|, 2
  {
    JoinedName(a, b);
    var n, q := a + "." + b, p + [Head(a)];
    h := g;
    if Head(n) == "" {
      assert Has(t, q) ==> !Named(t);
    } else if !Has(t, q) {
      NewEnds(t, [], p, n, d, g);
    } else if Get(t, q).value.data.link {
      h := LinkLeads(t, p, a, b, d, f, g);
    } else {
      if HasDot(a) {
        h := PrefixLeads(t, q, Rest(a), b, d, f, g);
      }
      StepsUnfolded(t, [], p, n, d, h);
    }
  }

  lemma {:induction false} LinkLeads(t: Tree, p: Path, a: string, b: string, d: Data, f: nat, g: nat) returns (h: nat)
    requires Has(t, p) && LinksHaveTargets(t) && !t.data.link && !Steps(t, p, a, f).Stuck?
    requires Steps(t, p, a, f).Found? ==> !SetSteps(t, [], Steps(t, p, a, f).path, b, d, g).Aborted?
    requires Head(a) != "" && IsLink(t, p + [Head(a)])
    ensures Leads(t, Steps(t, p, a, f), b, d, g, SetSteps(t, [], p, a + "." + b, d, h))
    decreases f, |a|, 1
  {
    hide SetSteps, SetValue, Named, Steps, Resolve, Leads;
    JoinedName(a, b);
    var n, v := a + "." + b, Get(t, p + [Head(a)]).value.data.value.value;
    if v == "" {
      ThroughEmptyName(t, p, n, d);
      h := 1;
      LeadsNowhere(t, Steps(t, p, a, f), b, d, g, SetSteps(t, [], p, n, d, h));
    } else {
      FirstStep(t, p, a, f);
      ResolveLink(t, p + [Head(a)], f);
      h := LinkLeadsOn(t, p, a, b, v, d, f, g);
    }
  }

  lemma {:induction false} LinkLeadsOn(t: Tree, p: Path, a: string, b: string, v: string, d: Data, f: nat, g: nat)
    returns (h: nat)
    requires Has(t, p) && LinksHaveTargets(t) && !t.data.link && !Steps(t, p, a, f).Stuck?
    requires Steps(t, p, a, f).Found? ==> !SetSteps(t, [], Steps(t, p, a, f).path, b, d, g).Aborted?
    requires Head(a) != "" && IsLink(t, p + [Head(a)]) && Get(t, p + [Head(a)]).value.data.value == Some(v)
    requires f > 0 && Resolve(t, p + [Head(a)], f) == Steps(t, [], v, f - 1)
    ensures Leads(t, Steps(t, p, a, f), b, d, g, SetSteps(t, [], p, a + "." + b, d, h))
    decreases f, |a|, 0
  {
    hide SetSteps, SetValue, LinksHaveTargets, Steps, Resolve, Leads;
    var m := Steps(t, [], v, f - 1);
    FirstStep(t, p, a, f);
    JoinedName(a, b);
    if HasDot(a) {
      h := TwoLeads(t, v, Rest(a), b, d, f, g);
    } else {
      h := PrefixLeads(t, [], v, b, d, f - 1, g);
    }
    RoundUp(t, p, a + "." + b, v, d, h);
    h := h + 1;
  }

  /** First along `v`, and from there along `a`. */
  lemma {:induction false} TwoLeads(t: Tree, v: string, a: string, b: string, d: Data, f: nat, g: nat)
    returns (h: nat)
    requires LinksHaveTargets(t) && !t.data.link && f > 0 && !Steps(t, [], v, f - 1).Stuck?
    requires var r := Onward(t, Steps(t, [], v, f - 1), a, f);
      !r.Stuck? && (r.Found? ==> !SetSteps(t, [], r.path, b, d, g).Aborted?)
    ensures Leads(t, Onward(t, Steps(t, [], v, f - 1), a, f), b, d, g,
                  SetSteps(t, [], [], v + "." + (a + "." + b), d, h))
    decreases f, |a|, 3
  {
    hide SetSteps, SetValue, LinksHaveTargets, Steps, Resolve, Leads;
    var m, rest, i := Steps(t, [], v, f - 1), a + "." + b, g;
    if m.Found? {
      i := PrefixLeads(t, m.path, a, b, d, f, g);
      LeadsReturns(t, Steps(t, m.path, a, f), b, d, g, SetSteps(t, [], m.path, rest, d, i));
    }
    h := PrefixLeads(t, [], v, rest, d, f - 1, i);
    LeadsOn(t, m, rest, i, Onward(t, m, a, f), b, d, g, SetSteps(t, [], [], v + "." + rest, d, h));
  }

  lemma RoundUp(t: Tree, p: Path, n: string, v: string, d: Data, j: nat)
    requires Has(t, p) && HasDot(n) && Head(n) != "" && IsLink(t, p + [Head(n)])
    requires Get(t, p + [Head(n)]).value.data.value == Some(v)
    ensures SetSteps(t, [], p, n, d, j + 1) == SetSteps(t, [], [], v + "." + Rest(n), d, j)
  {
    hide SetSteps, SetValue;
    StepsUnfolded(t, [], p, n, d, j + 1);
    NameUnfolded(t, [], v + "." + Rest(n), d, j);
  }

  lemma LeadsNowhere(t: Tree, r: WalkResult, b: string, d: Data, g: nat, s: SetResult)
    requires (r.Found? ==> Has(t, r.path)) && s.EmptyComponent? && !Named(t)
    ensures Leads(t, r, b, d, g, s)
  {
  }

  lemma LeadsReturns(t: Tree, r: WalkResult, b: string, d: Data, g: nat, s: SetResult)
    requires (r.Found? ==> Has(t, r.path)) && Leads(t, r, b, d, g, s)
    ensures !s.Aborted?
  {
  }

  /** From where a link led, and from there on. */
  lemma LeadsOn(t: Tree, m: WalkResult, n: string, i: nat, r: WalkResult, b: string, d: Data, g: nat, s: SetResult)
    requires (m.Found? ==> Has(t, m.path)) && (r.Found? ==> Has(t, r.path)) && !m.Stuck?
    requires Leads(t, m, n, d, i, s)
    requires if m.Found? then Leads(t, r, b, d, g, SetSteps(t, [], m.path, n, d, i)) else r == m
    ensures Leads(t, r, b, d, g, s)
  {
  }

  lemma FirstStep(t: Tree, p: Path, a: string, f: nat)
    requires Has(t, p) && Has(t, p + [Head(a)])
    ensures var r := Resolve(t, p + [Head(a)], f);
      Steps(t, p, a, f) == if HasDot(a) then Onward(t, r, Rest(a), f) else r
    ensures IsLink(t, p + [Head(a)]) && f == 0 ==> Steps(t, p, a, f).Stuck?
  {
  }

  /** The other way: an assignment that returns has looked up all but the last component. */
  lemma {:induction false} PrefixSettles(t: Tree, p: Path, a: string, b: string, d: Data, f: nat) returns (g: nat)
    requires Has(t, p) && Named(t) && !t.data.link && !SetSteps(t, [], p, a + "." + b, d, f).Aborted?
    ensures !Steps(t, p, a, g).Stuck?
    decreases f, |a|
  {
    hide SetSteps, SetValue;
    JoinedName(a, b);
    var n, q := a + "." + b, p + [Head(a)];
    g := 0;
    if Has(t, q) {
      StepsUnfolded(t, [], p, n, d, f);
      if IsLink(t, q) {
        g := LinkSettles(t, p, a, b, d, f);
      } else if HasDot(a) {
        g := PrefixSettles(t, q, Rest(a), b, d, f);
      }
    }
  }

  lemma {:induction false} LinkSettles(t: Tree, p: Path, a: string, b: string, d: Data, f: nat) returns (g: nat)
    requires Has(t, p) && Named(t) && !t.data.link && !SetSteps(t, [], p, a + "." + b, d, f).Aborted?
    requires IsLink(t, p + [Head(a)])
    ensures !Steps(t, p, a, g).Stuck?
    decreases f, |a|, 0
  {
    hide SetSteps, SetValue, Steps, Resolve, Named;
    JoinedName(a, b);
    var n, q := a + "." + b, p + [Head(a)];
    var v := Target(t, q);
    LinkGoesOn(t, p, n, d, f);
    if HasDot(a) {
      Regroup(v, Rest(a), b);
      g := PrefixSettles(t, [], v + "." + Rest(a), b, d, f - 1);
    } else {
      g := PrefixSettles(t, [], v, b, d, f - 1);
    }
    ThroughFirst(t, p, a, g);
    g := g + 1;
  }

  lemma ThroughFirst(t: Tree, p: Path, a: string, g: nat)
    requires Has(t, p) && !t.data.link && IsLink(t, p + [Head(a)]) && Target(t, p + [Head(a)]) != ""
    requires var v := Target(t, p + [Head(a)]);
      !Steps(t, [], if HasDot(a) then v + "." + Rest(a) else v, g).Stuck?
    ensures !Steps(t, p, a, g + 1).Stuck?
  {
    hide Steps, Resolve;
    var q := p + [Head(a)];
    var v := Target(t, q);
    FirstStep(t, p, a, g + 1);
    if HasDot(a) {
      ThroughLink(t, q, Rest(a), Steps(t, [], v + "." + Rest(a), g), g);
    } else {
      ResolveLink(t, q, g + 1);
    }
  }

  lemma LinkGoesOn(t: Tree, p: Path, n: string, d: Data, f: nat)
    requires Has(t, p) && Named(t) && HasDot(n) && IsLink(t, p + [Head(n)])
    requires !SetSteps(t, [], p, n, d, f).Aborted?
    ensures var v := Target(t, p + [Head(n)]);
      v != "" && f > 0 && !SetSteps(t, [], [], v + "." + Rest(n), d, f - 1).Aborted?
  {
    hide SetSteps, SetValue;
    var v := Target(t, p + [Head(n)]);
    assert Head(n) != "" && v != "";
    StepsUnfolded(t, [], p, n, d, f);
    RoundUp(t, p, n, v, d, f - 1);
  }

  lemma Regroup(v: string, a: string, b: string)
    ensures v + "." + (a + "." + b) == v + "." + a + "." + b
  {
  }

  lemma LastReturns(t: Tree, base: Path, p: Path, c: string, d: Data, f: nat)
    requires Has(t, base) && Has(t, p) && '.' !in c
    ensures SetSteps(t, base, p, c, d, f) == if c == "" then EmptyComponent(t) else Done(Place(t, p, c, d), p + [c])
  {
    DotOfHead(c, "");
  }

  /** Where an assignment ends, from any node, and for every name of at least two components: if a
      lookup of all but the last component, with links resolved from that node, finds a node, the
      last one is set there; if it finds none, the assignment makes its target or is refused. */
  lemma AssignmentLands(t: Tree, base: Path, a: string, c: string, d: Data, f: nat) returns (g: nat)
    requires Has(t, base) && '.' !in c && LinksHaveTargets(Below(t, base))
    requires !Steps(Below(t, base), [], a, f).Stuck?
    ensures var r, s := Steps(Below(t, base), [], a, f), SetValue(t, base, a + "." + c, d, g);
      !s.Aborted? &&
      (r.Found? && Named(Below(t, base)) && c != "" ==>
        Has(t, base + r.path) && s == Done(Place(t, base + r.path, c, d), base + r.path + [c])) &&
      (r.Found? && c == "" ==> !s.Done?) &&
      (r.Missing? && s.Done? ==> !Has(t, s.path))
  {
    var u, n := Below(t, base), a + "." + c;
    var r := Steps(u, [], a, f);
    if r.Found? {
      LastReturns(u, [], r.path, c, d, 0);
      PlaceBelow(t, base, r.path, c, d);
      Seqs.Assoc(base, r.path, [c]);
    }
    g := PrefixLeads(u, [], a, c, d, f, 0);
    SetInside(t, base, n, d, g);
    NameUnfolded(u, [], n, d, g);
    var s := SetSteps(u, [], [], n, d, g);
    if s.Done? && Has(t, base + s.path) {
      SetKidsSame(t, base);
      PlaceInside(t, base, u.kids, s.path);
    }
  }

  /** An assignment comes to an end exactly if that lookup does. */
  lemma ReturnsIffSettles(t: Tree, base: Path, a: string, c: string, d: Data)
    requires Has(t, base) && '.' !in c && Named(Below(t, base))
    ensures (exists f: nat :: !SetValue(t, base, a + "." + c, d, f).Aborted?) <==>
            (exists f: nat :: !Steps(Below(t, base), [], a, f).Stuck?)
  {
    var u, n := Below(t, base), a + "." + c;
    if f: nat :| !SetValue(t, base, n, d, f).Aborted? {
      SetInside(t, base, n, d, f);
      NameUnfolded(u, [], n, d, f);
      var g := PrefixSettles(u, [], a, c, d, f);
      assert !Steps(u, [], a, g).Stuck?;
    }
    if f: nat :| !Steps(u, [], a, f).Stuck? {
      assert LinksHaveTargets(u);
      var g := AssignmentLands(t, base, a, c, d, f);
      assert !SetValue(t, base, n, d, g).Aborted?;
    }
  }

  /** The same from the top, where the root is no link. */
  lemma LandsFromTop(t: Tree, a: string, c: string, d: Data, f: nat) returns (g: nat)
    requires !t.data.link && Named(t) && IsComponent(c) && Steps(t, [], a, f).Found?
    ensures var p := Steps(t, [], a, f).path;
      SetValue(t, [], a + "." + c, d, g) == Done(Place(t, p, c, d), p + [c])
  {
    var p := Steps(t, [], a, f).path;
    assert LinksHaveTargets(t);
    LastReturns(t, [], p, c, d, 0);
    g := PrefixLeads(t, [], a, c, d, f, 0);
    NameUnfolded(t, [], a + "." + c, d, g);
  }
}
