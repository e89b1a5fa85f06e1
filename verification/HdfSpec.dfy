/** The meaning of the data-set operations on the plain tree: the elementary edits, the
    walk through links, and the assignment. */
module HdfSpec {
  import Seqs
  import opened Options
  import opened HdfTree
  import opened HdfAttrs
  import opened HdfNames

  // ---- elementary edits -------------------------------------------------------------

  function SetData(t: Tree, p: Path, d: Data): Tree
    requires Has(t, p)
  {
    Put(t, p, Get(t, p).value.(data := d))
  }

  function AddKid(t: Tree, p: Path, k: Tree): Tree
    requires Has(t, p)
  {
    Put(t, p, Get(t, p).value.(kids := Get(t, p).value.kids + [k]))
  }

  function SetKids(t: Tree, p: Path, kids: seq<Tree>): Tree
    requires Has(t, p)
  {
    Put(t, p, Get(t, p).value.(kids := kids))
  }

  // ---- walking ----------------------------------------------------------------------

  /** `Stuck` is the walk that never returns because links lead round in circles. */
  datatype WalkResult = Found(path: Path) | Missing | Stuck

  function Target(t: Tree, p: Path): string
    requires Has(t, p)
  {
    match Get(t, p).value.data.value
    case Some(v) => v
    case None => ""
  }

  /** A node itself, or the node its link leads to; `fuel` bounds the nesting of links. */
  function Resolve(t: Tree, p: Path, fuel: nat): (r: WalkResult)
    requires Has(t, p)
    ensures r.Found? ==> Has(t, r.path)
    decreases fuel, 0, 0
  {
    if !Get(t, p).value.data.link then Found(p)
    else if fuel == 0 then Stuck
    else Walk(t, [], Target(t, p), fuel - 1)
  }

  function Steps(t: Tree, p: Path, n: string, fuel: nat): (r: WalkResult)
    requires Has(t, p)
    ensures r.Found? ==> Has(t, r.path)
    decreases fuel, 1, |n|
  {
    var q := p + [Head(n)];
    if !Has(t, q) then Missing
    else
      var r := Resolve(t, q, fuel);
      if HasDot(n) && r.Found? then Steps(t, r.path, Rest(n), fuel) else r
  }

  /** `_walk_hdf` from the node at `base`. Links are resolved from the top. */
  function Walk(t: Tree, base: Path, name: string, fuel: nat): (r: WalkResult)
    requires Has(t, base)
    ensures r.Found? ==> Has(t, r.path)
    decreases fuel, 2, 0
  {
    if name == "" then Found(base)
    else
      var r := Resolve(t, base, fuel);
      if r.Found? then Steps(t, r.path, name, fuel) else r
  }

  /** `hdf_get_value`: what is found, or `None` where the caller's default applies. */
  function GetValue(t: Tree, base: Path, name: string, fuel: nat): Option<string>
    requires Has(t, base)
  {
    match Walk(t, base, name, fuel)
    case Found(p) => Get(t, p).value.data.value
    case Missing => None
    case Stuck => None
  }

  // ---- assigning --------------------------------------------------------------------

  /** `Aborted` is the assignment that never returns, or that dereferences a link without
      a target. */
  datatype SetResult =
    | Done(tree: Tree, path: Path)
    | EmptyComponent(tree: Tree)
    | Aborted

  /** Data of an existing node once `d` has been assigned to it. */
  function Assigned(before: Data, d: Data): Data
  {
    Data(d.value, d.link, Combine(before.attrs, d.attrs))
  }

  /** The empty name sets the node itself and leaves its link flag alone. */
  function SetSelf(t: Tree, base: Path, d: Data): Tree
    requires Has(t, base)
  {
    var before := Get(t, base).value.data;
    SetData(t, base, Data(d.value, before.link, Combine(before.attrs, d.attrs)))
  }

  /** `_set_value` on the node at `base`. Links met on the way are resolved from `base`. */
  function SetValue(t: Tree, base: Path, name: string, d: Data, fuel: nat): (r: SetResult)
    requires Has(t, base)
    decreases fuel, 1, 0
  {
    if name == "" then Done(SetSelf(t, base, d), base)
    else SetSteps(t, base, base, name, d, fuel)
  }

  function SetSteps(t: Tree, base: Path, p: Path, n: string, d: Data, fuel: nat): (r: SetResult)
    requires Has(t, base) && Has(t, p)
    decreases fuel, 0, |n|
  {
    var c := Head(n);
    var q := p + [c];
    if c == "" then EmptyComponent(t)
    else if !Has(t, q) then
      var made := AddKid(t, p, Tree(c, if HasDot(n) then EmptyData else d, []));
      if HasDot(n) then
        AddKidHas(t, p, Tree(c, EmptyData, []), base);
        AddKidHas(t, p, Tree(c, EmptyData, []), q);
        SetSteps(made, base, q, Rest(n), d, fuel)
      else Done(made, q)
    else
      var s := Get(t, q).value;
      if !HasDot(n) then Done(SetData(t, q, Assigned(s.data, d)), q)
      else if !s.data.link then SetSteps(t, base, q, Rest(n), d, fuel)
      else if s.data.value.None? || fuel == 0 then Aborted
      else SetValue(t, base, s.data.value.value + "." + Rest(n), d, fuel - 1)
  }

  /** One round of the assignment, where the child of that name is there. */
  lemma StepsUnfolded(t: Tree, base: Path, p: Path, n: string, d: Data, fuel: nat)
    requires Has(t, base) && Has(t, p) && Head(n) != "" && Has(t, p + [Head(n)])
    ensures var q := p + [Head(n)];
      var s := Get(t, q).value.data;
      SetSteps(t, base, p, n, d, fuel) ==
        if !HasDot(n) then Done(SetData(t, q, Assigned(s, d)), q)
        else if !s.link then SetSteps(t, base, q, Rest(n), d, fuel)
        else if s.value.None? || fuel == 0 then Aborted
        else SetValue(t, base, s.value.value + "." + Rest(n), d, fuel - 1)
  {
  }

  // ---- what an elementary edit changes ----------------------------------------------

  lemma {:induction false} SetDataShallow(t: Tree, p: Path, d: Data, q: Path)
    requires Has(t, p)
    ensures Shallow(SetData(t, p, d), q) ==
            if q == p then Some(Entry(d, Shallow(t, p).value.names)) else Shallow(t, q)
  {
    var s := Get(t, p).value.(data := d);
    if p <= q {
      var r := q[|p|..];
      assert q == p + r;
      GetPutSame(t, p, s, r);
      GetAppend(t, p, r);
      if r == [] {
        assert q == p;
      }
    } else {
      GetPutOther(t, p, s, q);
    }
  }

  lemma AddedIndex(kids: seq<Tree>, k: Tree, c: string)
    requires k.name !in Names(kids)
    ensures IndexOf(kids + [k], c) == if c == k.name then |kids| else IndexOf(kids, c)
  {
    var more := kids + [k];
    assert more[|kids|] == k;
    assert forall i :: 0 <= i < |kids| ==> more[i] == kids[i] && Names(kids)[i] == more[i].name;
  }

  /** At the node that gets the child, and below it. */
  lemma {:induction false} AddKidBelow(t: Tree, p: Path, k: Tree, r: Path)
    requires Has(t, p) && !Has(t, p + [k.name]) && k.kids == []
    ensures var q := p + r;
      Shallow(AddKid(t, p, k), q) ==
        if r == [] then Some(Entry(Get(t, p).value.data, Shallow(t, p).value.names + [k.name]))
        else if r == [k.name] then Some(Entry(k.data, []))
        else Shallow(t, q)
  {
    var s := Get(t, p).value;
    var s2 := s.(kids := s.kids + [k]);
    GetKid(t, p, k.name);
    GetPutSame(t, p, s2, r);
    GetAppend(t, p, r);
    if r == [] {
      NamesAdded(s.kids, k);
    } else {
      AddedIndex(s.kids, k, r[0]);
      if r[0] == k.name {
        Seqs.HeadTail(r);
        NothingInLeaf(k, r[1..]);
        NothingInside(s, k.name, r[1..]);
      }
    }
  }

  lemma NamesAdded(kids: seq<Tree>, k: Tree)
    ensures Names(kids + [k]) == Names(kids) + [k.name]
  {
  }

  lemma NothingInLeaf(k: Tree, r: Path)
    requires k.kids == []
    ensures Get(k, r) == if r == [] then Some(k) else None
  {
  }

  lemma NothingInside(s: Tree, c: string, r: Path)
    requires c !in Names(s.kids)
    ensures Get(s, [c] + r) == None
  {
    assert ([c] + r)[0] == c;
  }

  lemma {:induction false} AddKidShallow(t: Tree, p: Path, k: Tree, q: Path)
    requires Has(t, p) && !Has(t, p + [k.name]) && k.kids == []
    ensures Shallow(AddKid(t, p, k), q) ==
            if q == p then Some(Entry(Get(t, p).value.data, Shallow(t, p).value.names + [k.name]))
            else if q == p + [k.name] then Some(Entry(k.data, []))
            else Shallow(t, q)
  {
    hide Shallow;
    if p <= q {
      var r := q[|p|..];
      assert q == p + r;
      AddKidBelow(t, p, k, r);
      SamePath(p, r, [k.name]);
    } else {
      var s := Get(t, p).value;
      GetPutOther(t, p, s.(kids := s.kids + [k]), q);
      assert p <= p + [k.name];
    }
  }

  lemma SamePath(p: Path, r: Path, x: Path)
    ensures p + r == p + x <==> r == x
    ensures p + r == p <==> r == []
  {
    assert (p + r)[|p|..] == r && (p + x)[|p|..] == x;
  }

  lemma NothingBelow(t: Tree, p: Path, c: string, r: Path)
    requires !Has(t, p + [c])
    ensures !Has(t, p + [c] + r)
  {
    GetAppend(t, p + [c], r);
  }

  lemma AddKidHas(t: Tree, p: Path, k: Tree, q: Path)
    requires Has(t, p) && !Has(t, p + [k.name]) && k.kids == []
    ensures Has(AddKid(t, p, k), q) <==> Has(t, q) || q == p + [k.name]
  {
    AddKidShallow(t, p, k, q);
  }

  /** One round of the assignment, where there is no such child yet. */
  lemma NewUnfolded(t: Tree, base: Path, p: Path, n: string, d: Data, fuel: nat)
    requires Has(t, base) && Has(t, p) && Head(n) != "" && !Has(t, p + [Head(n)])
    ensures var q, k := p + [Head(n)], Tree(Head(n), if HasDot(n) then EmptyData else d, []);
      Has(AddKid(t, p, k), base) && Has(AddKid(t, p, k), q) &&
      SetSteps(t, base, p, n, d, fuel) ==
        if HasDot(n) then SetSteps(AddKid(t, p, k), base, q, Rest(n), d, fuel) else Done(AddKid(t, p, k), q)
  {
    var q, k := p + [Head(n)], Tree(Head(n), if HasDot(n) then EmptyData else d, []);
    AddKidHas(t, p, k, base);
    AddKidHas(t, p, k, q);
  }

  lemma NameUnfolded(t: Tree, base: Path, name: string, d: Data, fuel: nat)
    requires Has(t, base)
    ensures SetValue(t, base, name, d, fuel) ==
            if name == "" then Done(SetSelf(t, base, d), base) else SetSteps(t, base, base, name, d, fuel)
  {
  }
}
