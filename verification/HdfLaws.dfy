/** Laws of looking up and assigning, in trees with links: what an assignment changes, when
    the value just set is the value read back, and why both come to an end. */
module HdfLaws {
  import Seqs
  import opened Options
  import opened HdfTree
  import opened HdfAttrs
  import opened HdfNames
  import opened HdfSpec
  import opened HdfRemove
  import opened HdfCopy

  // ---- what one assignment changes --------------------------------------------------

  /** One place before and after an assignment that ended at `target`: the target has the new
      value and its old children, every other place keeps its data, and a place that is new
      has no value. */
  ghost predicate Changed(t: Tree, t2: Tree, target: Path, d: Data, x: Path)
  {
    if x == target then
      && Has(t2, x)
      && Get(t2, x).value.data.value == d.value && Get(t2, x).value.data.link == d.link
      && Shallow(t2, x).value.names == if Has(t, x) then Shallow(t, x).value.names else []
    else if Has(t, x) then DataAt(t2, x) == DataAt(t, x)
    else DataAt(t2, x) == None || DataAt(t2, x) == Some(EmptyData)
  }

  /** The same for an assignment given up at an empty component. */
  ghost predicate OnlyGrown(t: Tree, t2: Tree, x: Path)
  {
    if Has(t, x) then DataAt(t2, x) == DataAt(t, x)
    else DataAt(t2, x) == None || DataAt(t2, x) == Some(EmptyData)
  }

  ghost predicate Effect(t: Tree, r: SetResult, d: Data, x: Path)
  {
    match r
    case Done(t2, target) => Changed(t, t2, target, d, x)
    case EmptyComponent(t2) => OnlyGrown(t, t2, x)
    case Aborted => true
  }

  lemma {:induction false} SetEffect(t: Tree, base: Path, p: Path, n: string, d: Data, fuel: nat, x: Path)
    requires Has(t, base) && Has(t, p)
    ensures Effect(t, SetSteps(t, base, p, n, d, fuel), d, x)
    decreases fuel, |n|
  {
    var q := p + [Head(n)];
    if Head(n) == "" {
    } else if !Has(t, q) {
      EffectOfNew(t, base, p, n, d, fuel, x);
    } else if !HasDot(n) {
      EffectOfLast(t, q, d, x);
    } else if !Get(t, q).value.data.link {
      SetEffect(t, base, q, Rest(n), d, fuel, x);
    } else if Get(t, q).value.data.value.Some? && fuel > 0 {
      var again := Get(t, q).value.data.value.value + "." + Rest(n);
      SetEffect(t, base, base, again, d, fuel - 1, x);
    }
  }

  lemma {:induction false} EffectOfLast(t: Tree, q: Path, d: Data, x: Path)
    requires Has(t, q)
    ensures Effect(t, Done(SetData(t, q, Assigned(Get(t, q).value.data, d)), q), d, x)
  {
    SetDataShallow(t, q, Assigned(Get(t, q).value.data, d), x);
  }

  lemma {:induction false} EffectOfNew(t: Tree, base: Path, p: Path, n: string, d: Data, fuel: nat, x: Path)
    requires Has(t, base) && Has(t, p) && Head(n) != "" && !Has(t, p + [Head(n)])
    ensures Effect(t, SetSteps(t, base, p, n, d, fuel), d, x)
    decreases fuel, |n|
  {
    var q := p + [Head(n)];
    var k := Tree(Head(n), if HasDot(n) then EmptyData else d, []);
    AddKidShallow(t, p, k, x);
    if HasDot(n) {
      var t1 := AddKid(t, p, k);
      AddKidHas(t, p, k, base);
      AddKidShallow(t, p, k, q);
      NothingBelowNew(t1, q);
      if Head(Rest(n)) != "" {
        EffectOfNew(t1, base, q, Rest(n), d, fuel, x);
      }
      NotAtStart(t1, base, q, Rest(n), d, fuel);
      EffectAfterGrowth(t, t1, SetSteps(t1, base, q, Rest(n), d, fuel), d, q, p, x);
    }
  }

  lemma NothingBelowNew(t: Tree, q: Path)
    requires Shallow(t, q).Some? && Shallow(t, q).value.names == []
    ensures Has(t, q) && Get(t, q).value.kids == [] && forall c :: !Has(t, q + [c])
  {
    forall c
      ensures !Has(t, q + [c])
    {
      GetKid(t, q, c);
    }
  }

  /** Below a node that has just been made, the assignment goes straight down. */
  lemma {:induction false} NotAtStart(t: Tree, base: Path, p: Path, n: string, d: Data, fuel: nat)
    requires Has(t, base) && Has(t, p) && Get(t, p).value.kids == []
    ensures SetSteps(t, base, p, n, d, fuel).Done? ==>
      p < SetSteps(t, base, p, n, d, fuel).path
    ensures !SetSteps(t, base, p, n, d, fuel).Aborted?
    decreases |n|
  {
    var c := Head(n);
    var q := p + [c];
    GetKid(t, p, c);
    var k := Tree(c, if HasDot(n) then EmptyData else d, []);
    if c != "" && HasDot(n) {
      AddKidShallow(t, p, k, q);
      AddKidHas(t, p, k, base);
      NotAtStart(AddKid(t, p, k), base, q, Rest(n), d, fuel);
    }
  }

  lemma EffectAfterGrowth(t: Tree, t1: Tree, r: SetResult, d: Data, q: Path, p: Path, x: Path)
    requires Has(t, p) && !Has(t, q) && |q| > 0 && p == q[..|q| - 1]
    requires t1 == AddKid(t, p, Tree(q[|q| - 1], EmptyData, []))
    requires Effect(t1, r, d, x)
    requires r.Done? ==> q < r.path
    ensures Effect(t, r, d, x)
  {
    assert q == p + [q[|q| - 1]];
    AddKidShallow(t, p, Tree(q[|q| - 1], EmptyData, []), x);
    if r.Done? && x == r.path && Has(t, x) {
      var rest := x[|q|..];
      assert x == q + rest;
      GetAppend(t, q, rest);
    }
  }

  // ---- exactly what one assignment leaves ---------------------------------------------

  /** What the place at `x` shows once every node on the way to `way` has been made that was
      not there: the last one that was there gains one name, at its end. */
  ghost function Grown(t: Tree, way: Path, x: Path): Option<Entry>
  {
    if !Has(t, x) then
      if x <= way then Some(Entry(EmptyData, if x == way then [] else [way[|x|]])) else None
    else if x < way && !Has(t, way[..|x| + 1]) then
      Some(Entry(Get(t, x).value.data, Shallow(t, x).value.names + [way[|x|]]))
    else Shallow(t, x)
  }

  /** The same, with `d` assigned to the node at the end of the way. */
  ghost function SetEntry(t: Tree, target: Path, d: Data, x: Path): Option<Entry>
  {
    if x != target then Grown(t, target, x)
    else Some(Entry(if Has(t, x) then Assigned(Get(t, x).value.data, d) else d, NamesAt(t, x)))
  }

  ghost predicate IsGrown(t: Tree, t2: Tree, way: Path)
  {
    forall x {:trigger Shallow(t2, x)} :: Shallow(t2, x) == Grown(t, way, x)
  }

  ghost predicate IsSet(t: Tree, t2: Tree, target: Path, d: Data)
  {
    forall x {:trigger Shallow(t2, x)} :: Shallow(t2, x) == SetEntry(t, target, d, x)
  }

  ghost predicate ExactEffect(t: Tree, r: SetResult, d: Data, way: Path)
  {
    match r
    case Done(t2, target) => way == target && IsSet(t, t2, target, d)
    case EmptyComponent(t2) => IsGrown(t, t2, way)
    case Aborted => true
  }

  /** One assignment, through however many links, leaves exactly this everywhere: data, attributes,
      and the names of every level in their order. A refused one only makes nodes on one way. */
  lemma {:induction false} SetExactly(t: Tree, base: Path, p: Path, n: string, d: Data, fuel: nat) returns (way: Path)
    requires Has(t, base) && Has(t, p)
    ensures ExactEffect(t, SetSteps(t, base, p, n, d, fuel), d, way)
    decreases fuel, |n|, 1
  {
    var q := p + [Head(n)];
    way := p;
    if Head(n) == "" {
      GrownNowhere(t, p);
    } else if !Has(t, q) {
      way := NewExactly(t, base, p, n, d, fuel);
    } else {
      way := OldExactly(t, base, p, n, d, fuel);
    }
  }

  lemma {:induction false} OldExactly(t: Tree, base: Path, p: Path, n: string, d: Data, fuel: nat) returns (way: Path)
    requires Has(t, base) && Has(t, p) && Head(n) != "" && Has(t, p + [Head(n)])
    ensures ExactEffect(t, SetSteps(t, base, p, n, d, fuel), d, way)
    decreases fuel, |n|, 0
  {
    hide SetSteps, SetValue, IsSet, IsGrown;
    var q := p + [Head(n)];
    way := q;
    StepsUnfolded(t, base, p, n, d, fuel);
    if !HasDot(n) {
      SetLastExactly(t, q, d);
    } else if !Get(t, q).value.data.link {
      way := SetExactly(t, base, q, Rest(n), d, fuel);
    } else if Get(t, q).value.data.value.Some? && fuel > 0 {
      var again := Get(t, q).value.data.value.value + "." + Rest(n);
      NameUnfolded(t, base, again, d, fuel - 1);
      way := SetExactly(t, base, base, again, d, fuel - 1);
    }
  }

  lemma GrownNowhere(t: Tree, p: Path)
    requires Has(t, p)
    ensures IsGrown(t, t, p)
  {
    forall x
      ensures Shallow(t, x) == Grown(t, p, x)
    {
      if x <= p {
        HasPrefix(t, x, p);
      }
      if x < p {
        HasPrefix(t, p[..|x| + 1], p);
      }
    }
  }

  lemma HasPrefix(t: Tree, x: Path, p: Path)
    requires Has(t, p) && x <= p
    ensures Has(t, x)
  {
    assert p == x + p[|x|..];
    GetAppend(t, x, p[|x|..]);
  }

  lemma SetLastExactly(t: Tree, q: Path, d: Data)
    requires Has(t, q)
    ensures IsSet(t, SetData(t, q, Assigned(Get(t, q).value.data, d)), q, d)
  {
    GrownNowhere(t, q);
    var t2 := SetData(t, q, Assigned(Get(t, q).value.data, d));
    forall x
      ensures Shallow(t2, x) == SetEntry(t, q, d, x)
    {
      SetDataShallow(t, q, Assigned(Get(t, q).value.data, d), x);
      assert Shallow(t, x) == Grown(t, q, x);
    }
  }

  lemma {:induction false} NewExactly(t: Tree, base: Path, p: Path, n: string, d: Data, fuel: nat) returns (way: Path)
    requires Has(t, base) && Has(t, p) && Head(n) != "" && !Has(t, p + [Head(n)])
    ensures ExactEffect(t, SetSteps(t, base, p, n, d, fuel), d, way)
    ensures p + [Head(n)] <= way
    decreases fuel, |n|, 0
  {
    var q := p + [Head(n)];
    NewUnfolded(t, base, p, n, d, fuel);
    if HasDot(n) {
      var t1 := AddKid(t, p, Tree(Head(n), EmptyData, []));
      AddKidShallow(t, p, Tree(Head(n), EmptyData, []), q);
      NothingBelowNew(t1, q);
      if Head(Rest(n)) == "" {
        way := q;
        GrownNowhere(t1, q);
      } else {
        way := NewExactly(t1, base, q, Rest(n), d, fuel);
      }
      GrownTwice(t, p, Head(n), way, SetSteps(t1, base, q, Rest(n), d, fuel), d);
    } else {
      way := q;
      AddedExactly(t, p, Head(n), d);
    }
  }

  lemma AddedExactly(t: Tree, p: Path, c: string, d: Data)
    requires Has(t, p) && !Has(t, p + [c])
    ensures IsSet(t, AddKid(t, p, Tree(c, d, [])), p + [c], d)
  {
    var q := p + [c];
    var t2 := AddKid(t, p, Tree(c, d, []));
    forall x
      ensures Shallow(t2, x) == SetEntry(t, q, d, x)
    {
      AddKidShallow(t, p, Tree(c, d, []), x);
      OnTheWay(t, p, c, q, x);
    }
  }

  /** Of the nodes on the way only the last one that is there lacks its next. */
  lemma OnTheWay(t: Tree, p: Path, c: string, way: Path, x: Path)
    requires Has(t, p) && !Has(t, p + [c]) && p + [c] <= way
    ensures x == p ==> x < way && way[..|x| + 1] == p + [c] && way[|x|] == c
    ensures x <= way && Has(t, x) ==> x <= p
    ensures x < p ==> x < way && Has(t, way[..|x| + 1]) && way[..|x| + 1] != p + [c]
    ensures x <= way && !Has(t, x) ==> p + [c] <= x
  {
    var q := p + [c];
    assert way[..|q|] == q && q[..|p|] == p;
    if x <= way && |x| >= |q| {
      assert x[..|q|] == q;
      if Has(t, x) {
        HasPrefix(t, q, x);
      }
    }
    if x <= way && |x| <= |p| {
      assert x == p[..|x|];
      HasPrefix(t, x, p);
    }
    if x < p {
      assert way[..|x| + 1] == p[..|x| + 1];
      HasPrefix(t, p[..|x| + 1], p);
    }
  }

  lemma GrownOnce(t: Tree, p: Path, c: string, way: Path, x: Path)
    requires Has(t, p) && !Has(t, p + [c]) && p + [c] <= way
    ensures Grown(AddKid(t, p, Tree(c, EmptyData, [])), way, x) == Grown(t, way, x)
  {
    hide AddKid;
    var q, k := p + [c], Tree(c, EmptyData, []);
    var t1 := AddKid(t, p, k);
    OnTheWay(t, p, c, way, x);
    AddKidShallow(t, p, k, x);
    AddKidHas(t, p, k, x);
    if x == p {
      AddKidHas(t, p, k, q);
    } else if x == q {
      GrownAtNew(t1, q, way);
    } else if x < p {
      AddKidHas(t, p, k, way[..|x| + 1]);
    } else if Has(t, x) {
      assert !(x <= way);
    }
  }

  lemma GrownAtNew(t: Tree, q: Path, way: Path)
    requires Shallow(t, q) == Some(Entry(EmptyData, [])) && q <= way
    ensures Grown(t, way, q) == Some(Entry(EmptyData, if q == way then [] else [way[|q|]]))
  {
    NothingBelowNew(t, q);
    if q < way {
      assert way[..|q| + 1] == q + [way[|q|]];
      assert Shallow(t, q).value.names + [way[|q|]] == [way[|q|]];
    } else {
      assert q == way;
    }
  }

  lemma GrownTwice(t: Tree, p: Path, c: string, way: Path, r: SetResult, d: Data)
    requires Has(t, p) && !Has(t, p + [c]) && p + [c] <= way
    requires ExactEffect(AddKid(t, p, Tree(c, EmptyData, [])), r, d, way) && (r.Done? ==> p + [c] < way)
    ensures ExactEffect(t, r, d, way)
  {
    var k := Tree(c, EmptyData, []);
    var t1 := AddKid(t, p, k);
    forall x
      ensures Grown(t1, way, x) == Grown(t, way, x)
      ensures r.Done? ==> SetEntry(t1, way, d, x) == SetEntry(t, way, d, x)
    {
      GrownOnce(t, p, c, way, x);
      AddKidHas(t, p, k, x);
      AddKidShallow(t, p, k, x);
    }
  }

  // ---- the node that is set, in words ---------------------------------------------------

  /** One place before and after an assignment of `d` to the node at `target`; the empty name leaves
      the link flag of the node as it was. */
  ghost predicate SetThere(t: Tree, t2: Tree, target: Path, self: bool, d: Data)
  {
    Has(t2, target) && NamesAt(t2, target) == NamesAt(t, target) &&
    var after := Get(t2, target).value.data;
    && after.value == d.value
    && (if Has(t, target) then
          var before := Get(t, target).value.data;
          after.link == (if self then before.link else d.link) && Taken(before.attrs, d.attrs, after.attrs)
        else after == d)
  }

  /** Every name, the empty one included: the node it ends at has the new value, its link flag, its
      children and the attributes as they are given to a node; every other place shows what the way
      leaves, which for the empty name is what was there. */
  lemma SetAnyExactly(t: Tree, base: Path, name: string, d: Data, fuel: nat, x: Path)
    requires Has(t, base) && SetValue(t, base, name, d, fuel).Done?
    ensures var r := SetValue(t, base, name, d, fuel);
      && SetThere(t, r.tree, r.path, name == "", d)
      && (name == "" ==> r.path == base && (x != base ==> Shallow(r.tree, x) == Shallow(t, x)))
      && (x != r.path ==> Shallow(r.tree, x) == Grown(t, r.path, x))
  {
    hide SetSteps, Taken;
    var r := SetValue(t, base, name, d, fuel);
    if name == "" {
      var before := Get(t, base).value.data;
      var after := Data(d.value, before.link, Combine(before.attrs, d.attrs));
      CombineTakes(before.attrs, d.attrs);
      SetDataShallow(t, base, after, x);
      SetDataShallow(t, base, after, base);
      GrownNowhere(t, base);
      assert Shallow(t, x) == Grown(t, base, x);
    } else {
      var way := SetExactly(t, base, base, name, d, fuel);
      assert Shallow(r.tree, x) == SetEntry(t, way, d, x);
      assert Shallow(r.tree, way) == SetEntry(t, way, d, way);
      if Has(t, way) {
        CombineTakes(Get(t, way).value.data.attrs, d.attrs);
      }
    }
  }

  // ---- whole subtrees -----------------------------------------------------------------

  /** Two trees that show the same everywhere are the same. */
  lemma {:induction false} SameTree(a: Tree, b: Tree)
    requires a.name == b.name && AllDistinct(a) && forall r :: Shallow(a, r) == Shallow(b, r)
    ensures a == b
    decreases a
  {
    assert Shallow(a, []) == Shallow(b, []);
    assert Names(a.kids) == Names(b.kids);
    forall i | 0 <= i < |a.kids|
      ensures a.kids[i] == b.kids[i]
    {
      SameKid(a, b, i);
      SameTree(a.kids[i], b.kids[i]);
    }
  }

  lemma SameKid(a: Tree, b: Tree, i: nat)
    requires AllDistinct(a) && (forall r :: Shallow(a, r) == Shallow(b, r)) && i < |a.kids| == |b.kids|
    requires Names(a.kids) == Names(b.kids)
    ensures a.kids[i].name == b.kids[i].name && AllDistinct(a.kids[i])
    ensures forall r :: Shallow(a.kids[i], r) == Shallow(b.kids[i], r)
  {
    var c := a.kids[i].name;
    assert Has(a, []) && Shallow(a, []).value.names == Names(a.kids);
    assert Names(a.kids)[i] == Names(b.kids)[i];
    IndexUnique(a.kids, i);
    IndexUnique(b.kids, i);
    forall r
      ensures Shallow(a.kids[i], r) == Shallow(a, [c] + r) && Shallow(b.kids[i], r) == Shallow(b, [c] + r)
    {
      Seqs.Halves([c], r);
    }
    forall r | Has(a.kids[i], r)
      ensures Distinct(Shallow(a.kids[i], r).value.names)
    {
      assert Has(a, [c] + r) && Shallow(a.kids[i], r) == Shallow(a, [c] + r);
    }
  }

  /** An assignment leaves what is beside its target alone. */
  lemma SetBeside(t: Tree, base: Path, name: string, d: Data, fuel: nat, q: Path)
    requires Has(t, base) && name != "" && Has(t, q) && AllDistinct(t)
    requires SetValue(t, base, name, d, fuel).Done? && Beside(SetValue(t, base, name, d, fuel).path, q)
    ensures Get(SetValue(t, base, name, d, fuel).tree, q) == Get(t, q)
  {
    hide SetSteps, SetValue;
    NameUnfolded(t, base, name, d, fuel);
    var way := SetExactly(t, base, base, name, d, fuel);
    var t2 := SetValue(t, base, name, d, fuel).tree;
    forall r
      ensures Shallow(t2, q + r) == Shallow(t, q + r)
    {
      PrefixOfSum(way, q, r);
      assert Shallow(t2, q + r) == SetEntry(t, way, d, q + r);
    }
    SubtreeSame(t, t2, q);
  }

  lemma PrefixOfSum(p: Path, q: Path, r: Path)
    ensures q + r <= p ==> q <= p
  {
    if q + r <= p {
      assert q == (q + r)[..|q|] == p[..|q|];
    }
  }

  lemma SubtreeSame(t: Tree, t2: Tree, q: Path)
    requires AllDistinct(t) && Has(t, q) && q != [] && forall r :: Shallow(t2, q + r) == Shallow(t, q + r)
    ensures Get(t2, q) == Get(t, q)
  {
    assert q + [] == q;
    assert Shallow(t2, q) == Shallow(t, q);
    var a, b := Get(t, q).value, Get(t2, q).value;
    forall r
      ensures Shallow(a, r) == Shallow(t, q + r) && Shallow(b, r) == Shallow(t2, q + r)
    {
      GetAppend(t, q, r);
      GetAppend(t2, q, r);
    }
    forall r | Has(a, r)
      ensures Distinct(Shallow(a, r).value.names)
    {
      assert Shallow(a, r) == Shallow(t, q + r) && Has(t, q + r);
    }
    SameTree(a, b);
  }
}
