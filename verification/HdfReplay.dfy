/** Whole runs of operations, each from any node, on data sets without links: which nodes there
    are at the end, and what a lookup finds, is decided by the list of operations alone. */
module HdfReplay {
  import Seqs
  import opened Options
  import opened HdfTree
  import opened HdfAttrs
  import opened HdfNames
  import opened HdfSpec
  import opened HdfRemove
  import opened HdfCopy
  import opened HdfLaws
  import opened HdfPlain

  /** An operation on the node at the path `at`, as a caller holds it. A copy takes the children
      of the node at `src` of a second data set, or of the same one. */
  datatype Op =
    | Set(at: Path, name: string, data: Data)
    | Remove(at: Path, name: string)
    | Sort(at: Path, le: Order)
    | Copy(at: Path, name: string, src: Path)
    | CopyWithin(at: Path, name: string, src: Path)

  // ---- what one operation may lead to -------------------------------------------------

  ghost predicate SetLeads(t: Tree, at: Path, name: string, d: Data, fuel: nat, t2: Tree)
    requires Has(t, at)
  {
    var r := SetValue(t, at, name, d, fuel);
    !r.Aborted? && r.tree == t2
  }

  ghost predicate CopyLeads(t: Tree, at: Path, name: string, kids: seq<Tree>, fuel: nat, t2: Tree)
    requires Has(t, at)
  {
    var r := HdfCopy.Copy(t, at, name, kids, fuel);
    !r.Undefined? && r.tree == t2
  }

  /** The nodes that the operation is called with are there. */
  ghost predicate Held(t: Tree, op: Op, from: Tree)
  {
    Has(t, op.at) && (op.Copy? ==> Has(from, op.src)) && (op.CopyWithin? ==> Has(t, op.src))
  }

  ghost predicate Leads(t: Tree, op: Op, from: Tree, fuel: nat, t2: Tree)
  {
    Held(t, op, from) &&
    match op
    case Set(at, name, d) => SetLeads(t, at, name, d, fuel, t2)
    case Remove(at, name) => t2 == RemoveTree(t, at, name)
    case Sort(at, le) => exists names :: Arranged(t, at, names, le, t2)
    case Copy(at, name, src) => CopyLeads(t, at, name, Get(from, src).value.kids, fuel, t2)
    case CopyWithin(at, name, src) => CopyLeads(t, at, name, Get(t, src).value.kids, fuel, t2)
  }

  /** The operation may be called, and comes to an end within `fuel` nested links. */
  ghost predicate Returns(t: Tree, op: Op, from: Tree, fuel: nat)
  {
    Held(t, op, from) &&
    match op
    case Set(at, name, d) => !SetValue(t, at, name, d, fuel).Aborted?
    case Remove(_, _) => true
    case Sort(_, le) => IsOrder(le)
    case Copy(at, name, src) => !HdfCopy.Copy(t, at, name, Get(from, src).value.kids, fuel).Undefined?
    case CopyWithin(at, name, src) =>
      var dest := Destination(t, at, name, fuel);
      !HdfCopy.Copy(t, at, name, Get(t, src).value.kids, fuel).Undefined? && (dest.Some? ==> Beside(dest.value, src))
  }

  ghost predicate LeadsTo(t: Tree, op: Op, from: Tree, t2: Tree)
  {
    exists fuel: nat :: Leads(t, op, from, fuel, t2)
  }

  ghost predicate ComesBack(t: Tree, op: Op, from: Tree)
  {
    exists fuel: nat :: Returns(t, op, from, fuel)
  }

  /** Every operation of the list may be called and comes to an end, whatever the ones before it
      have done. */
  ghost predicate RunReturns(t: Tree, ops: seq<Op>, from: Tree)
    decreases |ops|
  {
    ops != [] ==>
      ComesBack(t, ops[0], from) &&
      forall t2 {:trigger LeadsTo(t, ops[0], from, t2)} ::
        LeadsTo(t, ops[0], from, t2) ==> RunReturns(t2, ops[1..], from)
  }

  // ---- the shape that every data set without links keeps -------------------------------

  ghost predicate GoodNames(names: seq<string>)
  {
    Distinct(names) && forall i :: 0 <= i < |names| ==> IsComponent(names[i])
  }

  ghost predicate GoodEntry(e: Option<Entry>)
  {
    e.Some? ==> GoodNames(e.value.names) && !e.value.data.link
  }

  /** No links, and in every level distinct names that can be spelled. */
  ghost predicate Sound(t: Tree)
  {
    forall q :: GoodEntry(Shallow(t, q))
  }

  lemma SoundIsPlain(t: Tree)
    requires Sound(t)
    ensures Plain(t) && AllDistinct(t)
  {
    forall q | Has(t, q)
      ensures !Get(t, q).value.data.link && Distinct(Shallow(t, q).value.names)
    {
      assert GoodEntry(Shallow(t, q));
    }
  }

  lemma {:induction false} SoundPath(t: Tree, q: Path, i: nat)
    requires Sound(t) && Has(t, q) && i < |q|
    ensures IsComponent(q[i])
  {
    var p, c := q[..i], q[i];
    assert q == p + [c] + q[i + 1..];
    GetAppend(t, p + [c], q[i + 1..]);
    GetKid(t, p, c);
    assert GoodEntry(Shallow(t, p));
  }

  lemma {:induction false} WellFormedAt(t: Tree, q: Path)
    requires WellFormed(t.kids) && Has(t, q)
    ensures WellFormed(Get(t, q).value.kids)
  {
    if q != [] {
      WellFormedAt(t.kids[IndexOf(t.kids, q[0])], q[1..]);
    }
  }

  lemma SoundFromParts(t: Tree)
    requires WellFormed(t.kids) && Plain(t)
    ensures Sound(t)
  {
    forall q
      ensures GoodEntry(Shallow(t, q))
    {
      if Has(t, q) {
        WellFormedAt(t, q);
      }
    }
  }

  lemma SoundGrown(t: Tree, p: Path, k: Tree)
    requires Sound(t) && Has(t, p) && !Has(t, p + [k.name])
    requires IsComponent(k.name) && k.kids == [] && !k.data.link
    ensures Sound(AddKid(t, p, k))
  {
    GetKid(t, p, k.name);
    assert GoodEntry(Shallow(t, p));
    var names := Shallow(t, p).value.names;
    assert GoodNames(names + [k.name]);
    forall q
      ensures GoodEntry(Shallow(AddKid(t, p, k), q))
    {
      AddKidShallow(t, p, k, q);
      assert GoodEntry(Shallow(t, q));
    }
  }

  lemma SoundData(t: Tree, p: Path, d: Data)
    requires Sound(t) && Has(t, p) && !d.link
    ensures Sound(SetData(t, p, d))
  {
    forall q
      ensures GoodEntry(Shallow(SetData(t, p, d), q))
    {
      SetDataShallow(t, p, d, q);
      assert GoodEntry(Shallow(t, q));
    }
  }

  lemma {:induction false} SoundSteps(t: Tree, base: Path, p: Path, n: string, d: Data, fuel: nat)
    requires Sound(t) && Has(t, base) && Has(t, p) && !d.link
    ensures var r := SetSteps(t, base, p, n, d, fuel);
      !r.Aborted? && Sound(r.tree)
    decreases |n|
  {
    var c := Head(n);
    var q := p + [c];
    if c != "" {
      if !Has(t, q) {
        var k := Tree(c, if HasDot(n) then EmptyData else d, []);
        SoundGrown(t, p, k);
        AddKidHas(t, p, k, base);
        AddKidHas(t, p, k, q);
        if HasDot(n) {
          SoundSteps(AddKid(t, p, k), base, q, Rest(n), d, fuel);
        }
      } else if !HasDot(n) {
        SoundData(t, q, Assigned(Get(t, q).value.data, d));
      } else {
        assert GoodEntry(Shallow(t, q));
        SoundSteps(t, base, q, Rest(n), d, fuel);
      }
    }
  }

  lemma SoundSet(t: Tree, at: Path, name: string, d: Data, fuel: nat)
    requires Sound(t) && Has(t, at) && !d.link
    ensures var r := SetValue(t, at, name, d, fuel);
      !r.Aborted? && Sound(r.tree)
  {
    if name == "" {
      var before := Get(t, at).value.data;
      assert GoodEntry(Shallow(t, at));
      SoundData(t, at, Data(d.value, false, Combine(before.attrs, d.attrs)));
    } else {
      SoundSteps(t, at, at, name, d, fuel);
    }
  }

  // ---- what one operation does to one path ----------------------------------------------

  /** What is under a path: no node, or a node with or without a value. */
  function Under(t: Tree, q: Path): Option<Option<string>>
  {
    if Has(t, q) then Some(Get(t, q).value.data.value) else None
  }

  /** A name that an assignment accepts. */
  predicate Accepted(name: string)
  {
    name == "" || AllNamed(name)
  }

  /** The components before the first empty one: the nodes that an assignment passes or makes. */
  function Reached(n: string): (r: Path)
    decreases |n|
  {
    if Head(n) == "" then []
    else if HasDot(n) then [Head(n)] + Reached(Rest(n))
    else [Head(n)]
  }

  /** What is under the paths of a data set. */
  type Contents = Path -> Option<Option<string>>

  ghost function ContentsOf(t: Tree): Contents
  {
    q => Under(t, q)
  }

  /** What is under the path `q` after an operation, if `e` is what was there before. */
  function Change(op: Op, from: Tree, q: Path, e: Contents): Option<Option<string>>
  {
    match op
    case Set(at, name, d) =>
      if Accepted(name) && q == Spelled(at, name) then Some(d.value) else Made(at, name, q, e(q))
    case Remove(at, name) => if at + Components(name) <= q then None else e(q)
    case Sort(_, _) => e(q)
    case Copy(at, name, src) => Laid(at, name, q, e(q), r => Under(from, src + r))
    case CopyWithin(at, name, src) => Laid(at, name, q, e(q), r => e(src + r))
  }

  /** `source` says what is at which place below the source. */
  function Laid(at: Path, name: string, q: Path, e: Option<Option<string>>, source: Contents): Option<Option<string>>
  {
    var dest := Spelled(at, name);
    if Accepted(name) && dest < q && source(q[|dest|..]).Some? then source(q[|dest|..]) else Made(at, name, q, e)
  }

  function Made(at: Path, name: string, q: Path, e: Option<Option<string>>): Option<Option<string>>
  {
    if e.None? && q <= at + Reached(name) then Some(None) else e
  }

  lemma {:induction false} ReachedAll(n: string)
    requires AllNamed(n)
    ensures Reached(n) == Components(n)
    decreases |n|
  {
    if HasDot(n) {
      ReachedAll(Rest(n));
    } else {
      assert Head(n) == n;
    }
  }

  /** The nodes there are after an assignment. */
  lemma {:induction false} StepsMake(t: Tree, base: Path, p: Path, n: string, d: Data, fuel: nat, q: Path)
    requires Plain(t) && Has(t, base) && Has(t, p)
    ensures var r := SetSteps(t, base, p, n, d, fuel);
      !r.Aborted? && (Has(r.tree, q) <==> Has(t, q) || q <= p + Reached(n))
    decreases |n|
  {
    var x := p + [Head(n)];
    PlainTarget(t, base, p, n, d, fuel);
    if Head(n) == "" {
      assert p + [] == p;
      if q <= p {
        HasPrefix(t, q, p);
      }
    } else {
      ReachedStep(p, n);
      if Has(t, x) {
        StepsUnfolded(t, base, p, n, d, fuel);
        OldStepsMake(t, base, p, n, d, fuel, q);
      } else {
        NewStepsMake(t, base, p, n, d, fuel, q);
      }
    }
  }

  lemma ReachedStep(p: Path, n: string)
    requires Head(n) != ""
    ensures p + Reached(n) == if HasDot(n) then p + [Head(n)] + Reached(Rest(n)) else p + [Head(n)]
    ensures p + [Head(n)] <= p + Reached(n)
  {
    if HasDot(n) {
      Seqs.Assoc(p, [Head(n)], Reached(Rest(n)));
    }
  }

  lemma {:induction false} OldStepsMake(t: Tree, base: Path, p: Path, n: string, d: Data, fuel: nat, q: Path)
    requires Plain(t) && Has(t, base) && Has(t, p) && Head(n) != "" && Has(t, p + [Head(n)])
    ensures var r := SetSteps(t, base, p, n, d, fuel);
      !r.Aborted? && (Has(r.tree, q) <==> Has(t, q) || q <= p + Reached(n))
    decreases |n|, 0
  {
    hide SetSteps;
    var x := p + [Head(n)];
    StepsUnfolded(t, base, p, n, d, fuel);
    ReachedStep(p, n);
    if HasDot(n) {
      StepsMake(t, base, x, Rest(n), d, fuel, q);
    } else {
      SetDataShallow(t, x, Assigned(Get(t, x).value.data, d), q);
      if q <= x {
        HasPrefix(t, q, x);
      }
    }
  }

  lemma {:induction false} NewStepsMake(t: Tree, base: Path, p: Path, n: string, d: Data, fuel: nat, q: Path)
    requires Plain(t) && Has(t, base) && Has(t, p) && Head(n) != "" && !Has(t, p + [Head(n)])
    ensures var r := SetSteps(t, base, p, n, d, fuel);
      !r.Aborted? && (Has(r.tree, q) <==> Has(t, q) || q <= p + Reached(n))
    decreases |n|, 0
  {
    hide SetSteps;
    var x, k := p + [Head(n)], Tree(Head(n), if HasDot(n) then EmptyData else d, []);
    var t1 := AddKid(t, p, k);
    NewUnfolded(t, base, p, n, d, fuel);
    ReachedStep(p, n);
    AddKidHas(t, p, k, q);
    if q <= x {
      HasPrefix(t1, q, x);
    }
    if HasDot(n) {
      PlainGrown(t, p, k);
      StepsMake(t1, base, x, Rest(n), d, fuel, q);
    }
  }

  lemma RootChange(t: Tree, at: Path, d: Data, q: Path)
    requires Has(t, at)
    ensures Under(SetSelf(t, at, d), q) == if q == at then Some(d.value) else Under(t, q)
  {
    var before := Get(t, at).value.data;
    SetDataShallow(t, at, Data(d.value, before.link, Combine(before.attrs, d.attrs)), q);
  }

  lemma EffectUnder(t: Tree, r: SetResult, d: Data, q: Path)
    requires Effect(t, r, d, q) && !r.Aborted? && (Has(t, q) ==> Has(r.tree, q))
    ensures Under(r.tree, q) ==
      if r.Done? && q == r.path then Some(d.value)
      else if Has(t, q) || !Has(r.tree, q) then Under(t, q)
      else Some(None)
  {
  }

  lemma SetChange(t: Tree, at: Path, name: string, d: Data, fuel: nat, q: Path)
    requires Sound(t) && Has(t, at) && !d.link
    ensures var r := SetValue(t, at, name, d, fuel);
      !r.Aborted? && (r.Done? <==> Accepted(name)) && (r.Done? ==> r.path == Spelled(at, name)) &&
      Under(r.tree, q) == if r.Done? && q == r.path then Some(d.value) else Made(at, name, q, Under(t, q))
  {
    SoundIsPlain(t);
    if name == "" {
      RootChange(t, at, d, q);
      SelfMakesNothing(t, at, q);
    } else {
      hide SetSteps, Effect;
      NameUnfolded(t, at, name, d, fuel);
      PlainTarget(t, at, at, name, d, fuel);
      SetEffect(t, at, at, name, d, fuel, q);
      StepsMake(t, at, at, name, d, fuel, q);
      EffectUnder(t, SetSteps(t, at, at, name, d, fuel), d, q);
    }
  }

  lemma SelfMakesNothing(t: Tree, at: Path, q: Path)
    requires Has(t, at)
    ensures Made(at, "", q, Under(t, q)) == Under(t, q)
  {
    assert at + [] == at;
    if q <= at {
      HasPrefix(t, q, at);
    }
  }

  lemma NothingFurther(t: Tree, target: Path, q: Path)
    requires !Has(t, target) && target <= q
    ensures !Has(t, q)
  {
    assert q == target + q[|target|..];
    GetAppend(t, target, q[|target|..]);
  }

  lemma RemoveChange(t: Tree, at: Path, name: string, q: Path)
    requires Sound(t) && Has(t, at)
    ensures Under(RemoveTree(t, at, name), q) == if at + Components(name) <= q then None else Under(t, q)
  {
    var target := at + Components(name);
    SoundIsPlain(t);
    RemoveTreeExactly(t, at, name, q);
    if Has(t, target) {
      UnderTakenOut(t, RemoveTree(t, at, name), target, q);
    } else if target <= q {
      NothingFurther(t, target, q);
    }
  }

  lemma UnderTakenOut(t: Tree, r: Tree, target: Path, q: Path)
    requires target != []
    requires target <= q ==> !Has(r, q)
    requires !(target <= q) && q != target[..|target| - 1] ==> Shallow(r, q) == Shallow(t, q)
    requires q == target[..|target| - 1] ==>
      Has(t, q) && Has(r, q) && OneTakenOut(t, r, q, target[|target| - 1])
    ensures Under(r, q) == if target <= q then None else Under(t, q)
  {
  }

  lemma {:induction false} SoundCopied(t: Tree, p: Path, src: seq<Tree>)
    requires Sound(t) && Has(t, p) && WellFormed(src)
    ensures Sound(CopyKids(t, p, src))
    decreases src
  {
    if src != [] {
      var st, d := src[0], Unlinked(src[0].data);
      var at := p + [st.name];
      WellFormedRest(src);
      PlaceShallow(t, p, st.name, d, p);
      PlaceShallow(t, p, st.name, d, at);
      SoundPlaced(t, p, st.name, d);
      var placed := Place(t, p, st.name, d);
      SoundCopied(placed, at, st.kids);
      CopyKeeps(placed, at, st.kids, p);
      SoundCopied(CopyKids(placed, at, st.kids), p, src[1..]);
    }
  }

  lemma SoundPlaced(t: Tree, p: Path, c: string, d: Data)
    requires Sound(t) && Has(t, p) && IsComponent(c) && !d.link
    ensures Sound(Place(t, p, c, d))
  {
    if Has(t, p + [c]) {
      SoundData(t, p + [c], Assigned(Get(t, p + [c]).value.data, d));
    } else {
      SoundGrown(t, p, Tree(c, d, []));
    }
  }

  lemma {:induction false} CopiedChange(t: Tree, at: Path, from: Tree, s: Path, q: Path)
    requires Has(t, at) && Has(from, s) && WellFormed(Get(from, s).value.kids)
    ensures Under(CopyKids(t, at, Get(from, s).value.kids), q) ==
      if at < q && Has(from, s + q[|at|..]) then Under(from, s + q[|at|..]) else Under(t, q)
  {
    var kids := Get(from, s).value.kids;
    CopyOverlays(t, at, kids, q);
    if at < q {
      GetAppend(from, s, q[|at|..]);
      assert q[|at|..] != [];
    }
  }

  /** In a sound data set a name with an empty component leads nowhere. */
  lemma {:induction false} RefusedIsMissing(t: Tree, at: Path, name: string)
    requires Sound(t) && Has(t, at + Components(name))
    ensures AllNamed(name)
  {
    forall i | 0 <= i < |Components(name)|
      ensures Components(name)[i] != ""
    {
      SoundPath(t, at + Components(name), |at| + i);
    }
    AllNamedComponents(name);
  }

  lemma {:induction false} AllNamedComponents(n: string)
    requires forall i :: 0 <= i < |Components(n)| ==> Components(n)[i] != ""
    ensures AllNamed(n)
    decreases |n|
  {
    if !HasDot(n) {
      assert Components(n)[0] == Head(n);
    } else {
      assert Components(n)[0] == Head(n);
      assert Components(n)[1..] == Components(Rest(n));
      AllNamedComponents(Rest(n));
    }
  }

  // ---- one operation, for every data set and every operation that makes no link ----------

  ghost predicate Harmless(op: Op)
  {
    op.Set? ==> !op.data.link
  }

  /** The second data set can be copied from: the trees that `Valid` allows. */
  ghost predicate Copyable(from: Tree)
  {
    Plain(from) && WellFormed(from.kids)
  }

  lemma {:induction false} SoundIsWellFormed(t: Tree)
    requires Sound(t)
    ensures WellFormed(t.kids)
    decreases t
  {
    assert GoodEntry(Shallow(t, []));
    assert GoodNames(Names(t.kids));
    forall i | 0 <= i < |t.kids|
      ensures IsComponent(t.kids[i].name) && WellFormed(t.kids[i].kids)
    {
      assert Names(t.kids)[i] == t.kids[i].name;
      SoundKid(t, i);
      SoundIsWellFormed(t.kids[i]);
    }
  }

  lemma SoundKid(t: Tree, i: nat)
    requires Sound(t) && i < |t.kids|
    ensures Sound(t.kids[i])
  {
    assert GoodEntry(Shallow(t, []));
    IndexUnique(t.kids, i);
    var c := t.kids[i].name;
    forall q
      ensures GoodEntry(Shallow(t.kids[i], q))
    {
      Seqs.Halves([c], q);
      assert GoodEntry(Shallow(t, [c] + q));
    }
  }

  lemma CopyStep(t: Tree, at: Path, name: string, from: Tree, s: Path, fuel: nat, t2: Tree, q: Path)
    requires Sound(t) && Has(t, at) && Copyable(from) && Has(from, s)
    requires CopyLeads(t, at, name, Get(from, s).value.kids, fuel, t2)
    ensures Sound(t2) && Under(t2, q) == Laid(at, name, q, Under(t, q), r => Under(from, s + r))
  {
    hide SetValue, Walk, CopyKids, Sound;
    var dest := Spelled(at, name);
    WellFormedAt(from, s);
    SoundIsPlain(t);
    PlainWalk(t, at, name, fuel);
    if Has(t, dest) {
      DestAccepted(t, at, name, q);
      SoundCopied(t, dest, Get(from, s).value.kids);
      CopiedChange(t, dest, from, s, q);
    } else {
      CopyToNew(t, at, name, from, s, fuel, q);
    }
  }

  lemma CopyToNew(t: Tree, at: Path, name: string, from: Tree, s: Path, fuel: nat, q: Path)
    requires Sound(t) && Has(t, at) && Has(from, s) && WellFormed(Get(from, s).value.kids)
    requires Walk(t, at, name, fuel).Missing? && !Has(t, Spelled(at, name))
    ensures var r := HdfCopy.Copy(t, at, name, Get(from, s).value.kids, fuel);
      !r.Undefined? && Sound(r.tree) && Under(r.tree, q) == Laid(at, name, q, Under(t, q), r => Under(from, s + r))
  {
    hide SetValue, Walk, CopyKids, Sound;
    var dest, r := Spelled(at, name), SetValue(t, at, name, EmptyData, fuel);
    SetChange(t, at, name, EmptyData, fuel, q);
    SoundSet(t, at, name, EmptyData, fuel);
    if r.Done? {
      SetKeeps(t, at, name, EmptyData, fuel, dest);
      SoundCopied(r.tree, dest, Get(from, s).value.kids);
      CopiedChange(r.tree, dest, from, s, q);
      DestMade(at, name);
    }
  }

  lemma DestAccepted(t: Tree, at: Path, name: string, q: Path)
    requires Sound(t) && Has(t, at) && Has(t, Spelled(at, name))
    ensures Accepted(name) && Made(at, name, q, Under(t, q)) == Under(t, q)
  {
    if name == "" {
      SelfMakesNothing(t, at, q);
    } else {
      RefusedIsMissing(t, at, name);
      ReachedAll(name);
      if q <= Spelled(at, name) {
        HasPrefix(t, q, Spelled(at, name));
      }
    }
  }

  lemma DestMade(at: Path, name: string)
    requires Accepted(name)
    ensures at + Reached(name) == Spelled(at, name)
  {
    if name == "" {
      assert at + [] == at;
    } else {
      ReachedAll(name);
    }
  }

  lemma {:induction false} SortStep(t: Tree, at: Path, names: seq<string>, le: Order, t2: Tree, q: Path)
    requires Sound(t) && Has(t, at) && Arranged(t, at, names, le, t2)
    ensures Sound(t2) && Under(t2, q) == Under(t, q)
  {
    ReorderShallow(t, at, names, q);
    SoundReordered(t, at, names);
  }

  lemma SoundReordered(t: Tree, p: Path, names: seq<string>)
    requires Sound(t) && Has(t, p) && IsReordering(names, Get(t, p).value.kids)
    ensures Sound(Reorder(t, p, names))
  {
    assert GoodEntry(Shallow(t, p));
    assert GoodNames(names);
    forall q
      ensures GoodEntry(Shallow(Reorder(t, p, names), q))
    {
      ReorderShallow(t, p, names, q);
      assert GoodEntry(Shallow(t, q));
    }
  }

  lemma WithoutGood(names: seq<string>, i: nat)
    requires GoodNames(names) && i < |names|
    ensures GoodNames(Without(names, i))
  {
  }

  lemma SoundRemoved(t: Tree, at: Path, name: string)
    requires Sound(t) && Has(t, at)
    ensures Sound(RemoveTree(t, at, name))
  {
    SoundIsPlain(t);
    var r := RemoveTree(t, at, name);
    hide RemoveTree, GoodEntry, OneTakenOut;
    forall q
      ensures GoodEntry(Shallow(r, q))
    {
      RemoveTreeExactly(t, at, name, q);
      assert GoodEntry(Shallow(t, q));
      if Has(t, at + Components(name)) {
        GoodTakenOut(t, r, at + Components(name), q);
      }
    }
  }

  lemma GoodTakenOut(t: Tree, r: Tree, target: Path, q: Path)
    requires target != [] && GoodEntry(Shallow(t, q))
    requires target <= q ==> !Has(r, q)
    requires !(target <= q) && q != target[..|target| - 1] ==> Shallow(r, q) == Shallow(t, q)
    requires q == target[..|target| - 1] ==>
      Has(t, q) && Has(r, q) && OneTakenOut(t, r, q, target[|target| - 1])
    ensures GoodEntry(Shallow(r, q))
  {
    if q == target[..|target| - 1] {
      var i :| 0 <= i < |Shallow(t, q).value.names| &&
        Shallow(r, q).value.names == Without(Shallow(t, q).value.names, i);
      WithoutGood(Shallow(t, q).value.names, i);
    }
  }

  /** One operation changes what is under every path as `Change` says, whatever its fuel, and
      keeps the data set free of links. */
  lemma OneStep(t: Tree, op: Op, from: Tree, fuel: nat, t2: Tree, q: Path)
    requires Sound(t) && Copyable(from) && Harmless(op) && Leads(t, op, from, fuel, t2)
    ensures Sound(t2) && Under(t2, q) == Change(op, from, q, ContentsOf(t))
  {
    hide Sound, SetValue, RemoveTree, Copyable;
    match op
    case Set(at, name, d) =>
      SetChange(t, at, name, d, fuel, q);
      SoundSet(t, at, name, d, fuel);
    case Remove(at, name) =>
      RemoveChange(t, at, name, q);
      SoundRemoved(t, at, name);
    case Sort(at, le) =>
      var names :| Arranged(t, at, names, le, t2);
      SortStep(t, at, names, le, t2, q);
    case Copy(at, name, src) =>
      CopyStep(t, at, name, from, src, fuel, t2, q);
    case CopyWithin(at, name, src) =>
      SoundIsCopyable(t);
      CopyStep(t, at, name, t, src, fuel, t2, q);
  }

  lemma SoundIsCopyable(t: Tree)
    requires Sound(t)
    ensures Copyable(t)
  {
    SoundIsPlain(t);
    SoundIsWellFormed(t);
  }

  // ---- whole runs -------------------------------------------------------------------------

  /** The trees met on the way: one step after the other. */
  ghost predicate IsRun(trees: seq<Tree>, ops: seq<Op>, from: Tree)
  {
    |trees| == |ops| + 1 &&
    (ops != [] ==>
       LeadsTo(trees[|ops| - 1], ops[|ops| - 1], from, trees[|ops|]) &&
       IsRun(trees[..|ops|], ops[..|ops| - 1], from))
  }

  ghost predicate AllHarmless(ops: seq<Op>)
  {
    forall i :: 0 <= i < |ops| ==> Harmless(ops[i])
  }

  /** What is under `q` after the operations, read off their list. */
  function Replay(ops: seq<Op>, from: Tree, e: Contents, q: Path): Option<Option<string>>
    decreases |ops|
  {
    if ops == [] then e(q)
    else
      var n := |ops| - 1;
      Change(ops[n], from, q, p => Replay(ops[..n], from, e, p))
  }

  lemma ChangeSame(op: Op, from: Tree, q: Path, e: Contents, e2: Contents)
    requires forall p :: e(p) == e2(p)
    ensures Change(op, from, q, e) == Change(op, from, q, e2)
  {
  }

  /** For every run of assignments, removals, sorts and copies, each from any node, on a data set
      without links: the list of operations says which nodes there are, and the value of each. */
  lemma {:induction false} RunValues(trees: seq<Tree>, ops: seq<Op>, from: Tree, q: Path)
    requires IsRun(trees, ops, from) && Sound(trees[0]) && Copyable(from) && AllHarmless(ops)
    ensures Sound(trees[|ops|])
    ensures Under(trees[|ops|], q) == Replay(ops, from, ContentsOf(trees[0]), q)
    decreases |ops|
  {
    if ops != [] {
      hide Leads, Change;
      var n, e := |ops| - 1, ContentsOf(trees[0]);
      forall p
        ensures Sound(trees[n]) && Under(trees[n], p) == Replay(ops[..n], from, e, p)
      {
        RunValues(trees[..n + 1], ops[..n], from, p);
      }
      RunValues(trees[..n + 1], ops[..n], from, q);
      var fuel :| Leads(trees[n], ops[n], from, fuel, trees[n + 1]);
      OneStep(trees[n], ops[n], from, fuel, trees[n + 1], q);
      ChangeSame(ops[n], from, q, ContentsOf(trees[n]), p => Replay(ops[..n], from, e, p));
    }
  }

  /** The same for lookups by name, from any node that is still there. */
  lemma {:induction false} RunLookups(trees: seq<Tree>, ops: seq<Op>, from: Tree, base: Path, name: string, fuel: nat)
    requires IsRun(trees, ops, from) && Sound(trees[0]) && Copyable(from) && AllHarmless(ops)
    requires Has(trees[|ops|], base)
    ensures var e := Replay(ops, from, ContentsOf(trees[0]), Spelled(base, name));
      && Walk(trees[|ops|], base, name, fuel) == (if e.Some? then Found(Spelled(base, name)) else Missing)
      && GetValue(trees[|ops|], base, name, fuel) == (if e.Some? then e.value else None)
  {
    hide Replay, Sound;
    RunValues(trees, ops, from, Spelled(base, name));
    SoundIsPlain(trees[|ops|]);
    PlainWalk(trees[|ops|], base, name, fuel);
  }

  // ---- runs that can be made --------------------------------------------------------------

  ghost predicate AllOrders(ops: seq<Op>)
  {
    forall i :: 0 <= i < |ops| && ops[i].Sort? ==> IsOrder(ops[i].le)
  }

  /** The nodes an operation is called with are there, and a copy within the data set does not go
      into its own source or over it. */
  ghost predicate Callable(op: Op, from: Tree, e: Contents)
  {
    && e(op.at).Some?
    && (op.Copy? ==> Has(from, op.src))
    && (op.CopyWithin? ==> e(op.src).Some? && (Accepted(op.name) ==> Beside(Spelled(op.at, op.name), op.src)))
  }

  /** Every operation is called with nodes that the ones before it have left there. */
  ghost predicate AllHeld(ops: seq<Op>, from: Tree, e: Contents)
    decreases |ops|
  {
    ops != [] ==> Callable(ops[0], from, e) && AllHeld(ops[1..], from, p => Change(ops[0], from, p, e))
  }

  lemma {:induction false} AllHeldSame(ops: seq<Op>, from: Tree, e: Contents, e2: Contents)
    requires AllHeld(ops, from, e) && forall p :: e(p) == e2(p)
    ensures AllHeld(ops, from, e2)
    decreases |ops|
  {
    if ops != [] {
      forall p
        ensures Change(ops[0], from, p, e) == Change(ops[0], from, p, e2)
      {
        ChangeSame(ops[0], from, p, e, e2);
      }
      AllHeldSame(ops[1..], from, p => Change(ops[0], from, p, e), p => Change(ops[0], from, p, e2));
    }
  }

  lemma HeldAfterwards(t: Tree, ops: seq<Op>, from: Tree, fuel: nat, t2: Tree)
    requires Sound(t) && Copyable(from) && ops != [] && Harmless(ops[0]) && AllHeld(ops, from, ContentsOf(t))
    requires Leads(t, ops[0], from, fuel, t2)
    ensures Sound(t2) && AllHeld(ops[1..], from, ContentsOf(t2))
  {
    hide Leads, Change;
    forall p
      ensures Sound(t2) && Change(ops[0], from, p, ContentsOf(t)) == ContentsOf(t2)(p)
    {
      OneStep(t, ops[0], from, fuel, t2, p);
    }
    OneStep(t, ops[0], from, fuel, t2, []);
    AllHeldSame(ops[1..], from, p => Change(ops[0], from, p, ContentsOf(t)), ContentsOf(t2));
  }

  lemma StepReturns(t: Tree, op: Op, from: Tree, fuel: nat)
    requires Sound(t) && Copyable(from) && Harmless(op) && (op.Sort? ==> IsOrder(op.le))
    requires Callable(op, from, ContentsOf(t))
    ensures Returns(t, op, from, fuel)
  {
    SoundIsPlain(t);
    match op
    case Set(at, name, d) =>
      SoundSet(t, at, name, d, fuel);
    case Remove(_, _) =>
    case Sort(_, _) =>
    case Copy(at, name, src) =>
      PlainWalk(t, at, name, fuel);
      SoundSet(t, at, name, EmptyData, fuel);
    case CopyWithin(at, name, src) =>
      PlainWalk(t, at, name, fuel);
      SetChange(t, at, name, EmptyData, fuel, []);
      if Has(t, Spelled(at, name)) {
        DestAccepted(t, at, name, []);
      }
  }

  /** Without links every run that uses nodes that are there comes to an end. */
  lemma {:induction false} SoundRunReturns(t: Tree, ops: seq<Op>, from: Tree)
    requires Sound(t) && Copyable(from) && AllHarmless(ops) && AllOrders(ops) && AllHeld(ops, from, ContentsOf(t))
    ensures RunReturns(t, ops, from)
    decreases |ops|
  {
    hide Leads, Returns, Sound, Copyable, Callable;
    if ops != [] {
      StepReturns(t, ops[0], from, 0);
      forall t2 {:trigger LeadsTo(t, ops[0], from, t2)} | LeadsTo(t, ops[0], from, t2)
        ensures RunReturns(t2, ops[1..], from)
      {
        var fuel :| Leads(t, ops[0], from, fuel, t2);
        HeldAfterwards(t, ops, from, fuel, t2);
        SoundRunReturns(t2, ops[1..], from);
      }
    }
  }
}
