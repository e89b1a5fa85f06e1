/** `hdf_copy` on the plain tree: what a copy leaves at a new place and at an existing one. */
module HdfCopy {
  import Seqs
  import opened Options
  import opened HdfTree
  import opened HdfAttrs
  import opened HdfNames
  import opened HdfSpec
  import opened HdfRemove

  // ---- one child --------------------------------------------------------------------

  /** Setting the child `c` of the node at `p`: overwritten if it is there, else appended. */
  function Place(t: Tree, p: Path, c: string, d: Data): (r: Tree)
    requires Has(t, p)
  {
    var q := p + [c];
    if Has(t, q) then SetData(t, q, Assigned(Get(t, q).value.data, d))
    else AddKid(t, p, Tree(c, d, []))
  }

  lemma SetSingle(t: Tree, p: Path, c: string, d: Data, fuel: nat)
    requires Has(t, p) && IsComponent(c)
    ensures SetValue(t, p, c, d, fuel) == Done(Place(t, p, c, d), p + [c])
  {
    DotOfHead(c, "");
  }

  lemma PlaceShallow(t: Tree, p: Path, c: string, d: Data, q: Path)
    requires Has(t, p)
    ensures var r, target := Place(t, p, c, d), p + [c];
      Shallow(r, q) ==
        if Has(t, target) then
          if q == target then Some(Entry(Assigned(Get(t, q).value.data, d), Shallow(t, q).value.names))
          else Shallow(t, q)
        else if q == p then Some(Entry(Get(t, p).value.data, Shallow(t, p).value.names + [c]))
        else if q == target then Some(Entry(d, []))
        else Shallow(t, q)
  {
    var target := p + [c];
    if Has(t, target) {
      SetDataShallow(t, target, Assigned(Get(t, target).value.data, d), q);
    } else {
      AddKidShallow(t, p, Tree(c, d, []), q);
    }
  }

  // ---- a whole list of children -----------------------------------------------------

  /** A copy never makes a link; the link's target becomes a plain value. */
  function Unlinked(d: Data): Data
  {
    d.(link := false)
  }

  function CopyKids(t: Tree, p: Path, src: seq<Tree>): (r: Tree)
    requires Has(t, p)
    ensures Has(r, p)
    decreases src, 0
  {
    if src == [] then t
    else
      var st := src[0];
      PlaceShallow(t, p, st.name, Unlinked(st.data), p);
      PlaceShallow(t, p, st.name, Unlinked(st.data), p + [st.name]);
      var placed := Place(t, p, st.name, Unlinked(st.data));
      var deep := CopyKids(placed, p + [st.name], st.kids);
      CopyKeeps(placed, p + [st.name], st.kids, p);
      CopyKids(deep, p, src[1..])
  }

  lemma {:induction false} CopyKeeps(t: Tree, p: Path, src: seq<Tree>, q: Path)
    requires Has(t, p) && Has(t, q)
    ensures Has(CopyKids(t, p, src), q)
    decreases src, 1
  {
    if src != [] {
      var st := src[0];
      PlaceShallow(t, p, st.name, Unlinked(st.data), p);
      PlaceShallow(t, p, st.name, Unlinked(st.data), q);
      PlaceShallow(t, p, st.name, Unlinked(st.data), p + [st.name]);
      var placed := Place(t, p, st.name, Unlinked(st.data));
      CopyKeeps(placed, p + [st.name], st.kids, q);
      CopyKeeps(placed, p + [st.name], st.kids, p);
      CopyKeeps(CopyKids(placed, p + [st.name], st.kids), p, src[1..], q);
    }
  }

  // ---- well-formed trees ------------------------------------------------------------

  ghost predicate WellFormed(kids: seq<Tree>)
    decreases kids
  {
    && Distinct(Names(kids))
    && (forall i :: 0 <= i < |kids| ==> IsComponent(kids[i].name))
    && (forall i :: 0 <= i < |kids| ==> WellFormed(kids[i].kids))
  }

  lemma WellFormedRest(kids: seq<Tree>)
    requires WellFormed(kids) && kids != []
    ensures WellFormed(kids[1..]) && WellFormed(kids[0].kids)
    ensures kids[0].name !in Names(kids[1..])
  {
    var names := Names(kids);
    assert forall i :: 0 <= i < |kids[1..]| ==> Names(kids[1..])[i] == names[i + 1];
    assert names[0] == kids[0].name;
  }

  // ---- copying to a new place -------------------------------------------------------

  /** The source with every link turned into a plain value. */
  function Flattened(kids: seq<Tree>): (r: seq<Tree>)
    ensures |r| == |kids|
    decreases kids
  {
    if kids == [] then []
    else [Tree(kids[0].name, Unlinked(kids[0].data), Flattened(kids[0].kids))] + Flattened(kids[1..])
  }

  lemma {:induction false} FlattenedNames(kids: seq<Tree>)
    ensures Names(Flattened(kids)) == Names(kids)
  {
    if kids != [] {
      FlattenedNames(kids[1..]);
      assert Names(kids) == [kids[0].name] + Names(kids[1..]);
      var f := Flattened(kids);
      assert Names(f) == [f[0].name] + Names(f[1..]);
      assert f[1..] == Flattened(kids[1..]);
    }
  }

  ghost predicate LinkFree(kids: seq<Tree>)
    decreases kids
  {
    forall i :: 0 <= i < |kids| ==> !kids[i].data.link && LinkFree(kids[i].kids)
  }

  lemma {:induction false} FlattenedLinkFree(kids: seq<Tree>)
    requires LinkFree(kids)
    ensures Flattened(kids) == kids
    decreases kids
  {
    if kids != [] {
      FlattenedLinkFree(kids[0].kids);
      FlattenedLinkFree(kids[1..]);
    }
  }

  /** Filling in the children of the node that has just been appended. */
  lemma FillLast(t: Tree, p: Path, before: seq<Tree>, k: Tree, kids: seq<Tree>)
    requires Has(t, p) && k.name !in Names(before)
    ensures var t1 := SetKids(t, p, before + [k]);
      Has(t1, p + [k.name]) && Get(t1, p + [k.name]) == Some(k) &&
      SetKids(t1, p + [k.name], kids) == SetKids(t, p, before + [k.(kids := kids)])
  {
    var t1 := SetKids(t, p, before + [k]);
    var s, q := Get(t, p).value, p + [k.name];
    SetKidsAt(t, p, before + [k]);
    AddedIndex(before, k, k.name);
    GetKid(t1, p, k.name);
    PutNested(t1, p, [k.name], k.(kids := kids));
    assert [k.name][1..] == [];
    assert (before + [k])[|before| := k.(kids := kids)] == before + [k.(kids := kids)];
    PutPut(t, p, s.(kids := before + [k]), s.(kids := before + [k.(kids := kids)]));
  }

  lemma PlaceNew(t: Tree, p: Path, before: seq<Tree>, c: string, d: Data)
    requires Has(t, p) && Get(t, p).value.kids == before && c !in Names(before)
    ensures Place(t, p, c, d) == SetKids(t, p, before + [Tree(c, d, [])])
  {
    GetKid(t, p, c);
  }

  lemma SetKidsTwice(t: Tree, p: Path, a: seq<Tree>, b: seq<Tree>)
    requires Has(t, p)
    ensures Has(SetKids(t, p, a), p) && Get(SetKids(t, p, a), p).value.kids == a
    ensures SetKids(SetKids(t, p, a), p, b) == SetKids(t, p, b)
  {
    var s := Get(t, p).value;
    SetKidsAt(t, p, a);
    PutPut(t, p, s.(kids := a), s.(kids := b));
  }

  lemma SetKidsSame(t: Tree, p: Path)
    requires Has(t, p)
    ensures SetKids(t, p, Get(t, p).value.kids) == t
  {
    PutGet(t, p);
  }

  /** The first child and everything below it, given that the children below it are copied
      as they should be. */
  lemma {:induction false} CopyHead(t: Tree, p: Path, before: seq<Tree>, src: seq<Tree>)
    requires Has(t, p) && src != [] && Get(t, p).value.kids == before
    requires src[0].name !in Names(before)
    requires var k := Tree(src[0].name, Unlinked(src[0].data), []);
      var t1, q := SetKids(t, p, before + [k]), p + [src[0].name];
      Has(t1, q) ==> CopyKids(t1, q, src[0].kids) == SetKids(t1, q, Flattened(src[0].kids))
    ensures var t2 := SetKids(t, p, before + [Flattened(src)[0]]);
      Has(t2, p) && CopyKids(t, p, src) == CopyKids(t2, p, src[1..])
  {
    var st := src[0];
    var k := Tree(st.name, Unlinked(st.data), []);
    PlaceNew(t, p, before, st.name, Unlinked(st.data));
    FillLast(t, p, before, k, Flattened(st.kids));
    SetKidsAt(t, p, before + [Flattened(src)[0]]);
  }

  lemma MoveFirst(before: seq<Tree>, s: seq<Tree>)
    requires s != []
    ensures before + [s[0]] + s[1..] == before + s
  {
  }

  /** Copying below a node whose children are all different appends the flattened source,
      in order. */
  lemma {:induction false} CopyAppends(t: Tree, p: Path, before: seq<Tree>, src: seq<Tree>)
    requires Has(t, p) && WellFormed(src)
    requires Get(t, p).value.kids == before
    requires forall c :: c in Names(src) ==> c !in Names(before)
    ensures CopyKids(t, p, src) == SetKids(t, p, before + Flattened(src))
    decreases src, 0
  {
    if src == [] {
      SetKidsSame(t, p);
      assert before + Flattened(src) == before;
    } else {
      var k := Tree(src[0].name, Unlinked(src[0].data), []);
      WellFormedRest(src);
      assert Names(src)[0] == src[0].name;
      CopyBelow(t, p, before, k, src[0].kids);
      CopyHead(t, p, before, src);
      var more := before + [Flattened(src)[0]];
      SetKidsTwice(t, p, more, more + Flattened(src[1..]));
      CopyDisjoint(before, src);
      CopyAppends(SetKids(t, p, more), p, more, src[1..]);
      MoveFirst(before, Flattened(src));
    }
  }

  lemma {:induction false} CopyBelow(t: Tree, p: Path, before: seq<Tree>, k: Tree, src: seq<Tree>)
    requires Has(t, p) && k.name !in Names(before) && k.kids == [] && WellFormed(src)
    ensures var t1, q := SetKids(t, p, before + [k]), p + [k.name];
      Has(t1, q) && CopyKids(t1, q, src) == SetKids(t1, q, Flattened(src))
    decreases src, 1
  {
    FillLast(t, p, before, k, []);
    CopyAppends(SetKids(t, p, before + [k]), p + [k.name], [], src);
    Seqs.Empty(Flattened(src));
  }

  lemma CopyDisjoint(before: seq<Tree>, src: seq<Tree>)
    requires src != [] && WellFormed(src)
    requires forall c :: c in Names(src) ==> c !in Names(before)
    ensures forall k: Tree, c :: k.name == src[0].name && c in Names(src[1..]) ==> c !in Names(before + [k])
  {
    hide Names;
    NamesSplit(src);
    forall k: Tree, c | k.name == src[0].name && c in Names(src[1..])
      ensures c !in Names(before + [k])
    {
      NamesAdded(before, k);
    }
  }

  lemma NamesSplit(src: seq<Tree>)
    requires src != [] && WellFormed(src)
    ensures Names(src) == [src[0].name] + Names(src[1..]) && src[0].name !in Names(src[1..])
  {
  }

  // ---- copying onto an existing place -----------------------------------------------

  function Node(kids: seq<Tree>): Tree
  {
    Tree("", EmptyData, kids)
  }

  function DataAt(t: Tree, q: Path): Option<Data>
  {
    match Get(t, q)
    case Some(s) => Some(s.data)
    case None => None
  }

  /** The names a level gains: those of the source that it does not have, in the source's
      order. */
  function NewOnes(have: seq<string>, names: seq<string>): seq<string>
    decreases |names|
  {
    if names == [] then []
    else if names[0] in have then NewOnes(have, names[1..])
    else [names[0]] + NewOnes(have + [names[0]], names[1..])
  }

  function WithNew(have: seq<string>, names: seq<string>): seq<string>
  {
    have + NewOnes(have, names)
  }

  ghost function NamesAt(t: Tree, q: Path): seq<string>
  {
    if Has(t, q) then Shallow(t, q).value.names else []
  }

  /** What the place at `q` shows after the children `src` have been copied below `p`. Where the
      source has a node, its value is taken over, its attributes are merged in, a link becomes a
      plain value, and the names it has that were not there yet come last, in their order; every
      other place shows what it showed before. */
  ghost function CopyEntry(t: Tree, p: Path, src: seq<Tree>, q: Path): Option<Entry>
    requires Has(t, p)
  {
    if p <= q && Has(Node(src), q[|p|..]) then
      var s := Get(Node(src), q[|p|..]).value;
      var d :=
        if q == p then Get(t, p).value.data
        else if Has(t, q) then Assigned(Get(t, q).value.data, Unlinked(s.data))
        else Unlinked(s.data);
      Some(Entry(d, WithNew(NamesAt(t, q), Names(s.kids))))
    else Shallow(t, q)
  }

  ghost predicate Overlaid(before: Tree, after: Tree, p: Path, src: seq<Tree>, q: Path)
    requires Has(before, p)
  {
    Shallow(after, q) == CopyEntry(before, p, src, q)
  }

  lemma SourceStep(src: seq<Tree>, x: string, r: Path)
    requires src != [] && WellFormed(src)
    ensures Get(Node(src), [x] + r) ==
            if x == src[0].name then Get(src[0], r) else Get(Node(src[1..]), [x] + r)
    ensures !Has(Node(src[1..]), [src[0].name] + r)
    ensures r != [] ==> Get(src[0], r) == Get(Node(src[0].kids), r)
  {
    WellFormedRest(src);
    assert ([x] + r)[0] == x && ([x] + r)[1..] == r;
    assert ([src[0].name] + r)[0] == src[0].name;
  }

  /** Copying onto anything: exactly what every place shows afterwards. */
  lemma {:induction false} CopyOverlays(t: Tree, p: Path, src: seq<Tree>, q: Path)
    requires Has(t, p) && WellFormed(src)
    ensures Overlaid(t, CopyKids(t, p, src), p, src, q)
    decreases src
  {
    if src == [] {
      NothingOverlaid(t, p, q);
    } else {
      var st, d := src[0], Unlinked(src[0].data);
      var t1 := Place(t, p, st.name, d);
      PlaceShallow(t, p, st.name, d, p);
      PlaceShallow(t, p, st.name, d, p + [st.name]);
      var t2 := CopyKids(t1, p + [st.name], st.kids);
      CopyKeeps(t1, p + [st.name], st.kids, p);
      WellFormedRest(src);
      CopyOverlays(t1, p + [st.name], st.kids, q);
      CopyOverlays(t2, p, src[1..], q);
      OverlayHead(t, t1, t2, CopyKids(t2, p, src[1..]), p, src, q);
    }
  }

  lemma NothingOverlaid(t: Tree, p: Path, q: Path)
    requires Has(t, p)
    ensures Overlaid(t, t, p, [], q)
  {
    if p <= q && Has(Node([]), q[|p|..]) {
      assert q == p + q[|p|..] && q[|p|..] == [];
      Seqs.Empty(NamesAt(t, q));
    }
  }

  lemma {:induction false} OverlayHead(t: Tree, t1: Tree, t2: Tree, r: Tree, p: Path, src: seq<Tree>, q: Path)
    requires Has(t, p) && src != [] && WellFormed(src)
    requires t1 == Place(t, p, src[0].name, Unlinked(src[0].data)) && Has(t1, p + [src[0].name]) && Has(t2, p)
    requires Overlaid(t1, t2, p + [src[0].name], src[0].kids, q)
    requires Overlaid(t2, r, p, src[1..], q)
    ensures Overlaid(t, r, p, src, q)
  {
    PlaceShallow(t, p, src[0].name, Unlinked(src[0].data), q);
    if q == p {
      OverlayTop(t, t1, t2, r, p, src);
    } else if !(p < q) {
      assert p < p + [src[0].name];
    } else if q[|p|] == src[0].name {
      OverlayInside(t, t1, t2, r, p, src, q);
    } else {
      Aside(p, src, q);
      assert q != p + [src[0].name];
    }
  }

  lemma OverlayTop(t: Tree, t1: Tree, t2: Tree, r: Tree, p: Path, src: seq<Tree>)
    requires Has(t, p) && src != [] && WellFormed(src)
    requires t1 == Place(t, p, src[0].name, Unlinked(src[0].data)) && Has(t1, p + [src[0].name]) && Has(t2, p)
    requires Overlaid(t1, t2, p + [src[0].name], src[0].kids, p)
    requires Overlaid(t2, r, p, src[1..], p)
    ensures Overlaid(t, r, p, src, p)
  {
    hide Get, Place, WithNew, WellFormed;
    var c := src[0].name;
    PlaceShallow(t, p, c, Unlinked(src[0].data), p);
    GetKid(t, p, c);
    AtSelf(p, c);
    GetHere(Node(src), Node(src[1..]));
    NamesSplit(src);
    NewOnesStep(NamesAt(t, p), c, Names(src[1..]));
  }

  lemma AtSelf(p: Path, c: string)
    ensures p[|p|..] == [] && !(p + [c] <= p) && p != p + [c]
  {
  }

  lemma NewOnesStep(have: seq<string>, c: string, rest: seq<string>)
    ensures WithNew(have, [c] + rest) ==
            if c in have then WithNew(have, rest) else WithNew(have + [c], rest)
  {
    assert ([c] + rest)[1..] == rest;
    Seqs.Assoc(have, [c], NewOnes(have + [c], rest));
  }

  lemma OverlayInside(t: Tree, t1: Tree, t2: Tree, r: Tree, p: Path, src: seq<Tree>, q: Path)
    requires Has(t, p) && src != [] && WellFormed(src) && p < q && q[|p|] == src[0].name
    requires t1 == Place(t, p, src[0].name, Unlinked(src[0].data)) && Has(t1, p + [src[0].name]) && Has(t2, p)
    requires Overlaid(t1, t2, p + [src[0].name], src[0].kids, q)
    requires Overlaid(t2, r, p, src[1..], q)
    ensures Overlaid(t, r, p, src, q)
  {
    hide Get, Place;
    var at, d := p + [src[0].name], Unlinked(src[0].data);
    PlaceShallow(t, p, src[0].name, d, q);
    Inside(p, src, q);
    if q == at {
      GetHere(src[0], Node(src[0].kids));
      assert q[|at|..] == [];
    }
  }

  lemma GetHere(a: Tree, b: Tree)
    ensures Get(a, []) == Some(a) && Get(b, []) == Some(b)
  {
  }

  lemma {:induction false} Inside(p: Path, src: seq<Tree>, q: Path)
    requires src != [] && WellFormed(src) && p < q && q[|p|] == src[0].name
    ensures var at := p + [src[0].name];
      at <= q && (at != q ==> at < q) &&
      Get(Node(src), q[|p|..]) == Get(src[0], q[|at|..]) &&
      (at < q ==> Get(src[0], q[|at|..]) == Get(Node(src[0].kids), q[|at|..])) &&
      !Has(Node(src[1..]), q[|p|..])
  {
    hide WellFormed, Get, Node;
    var rest := q[|p| + 1..];
    OneDown(p, q);
    SourceStep(src, src[0].name, rest);
  }

  lemma OneDown(p: Path, q: Path)
    requires p < q
    ensures q[|p|..] == [q[|p|]] + q[|p| + 1..]
    ensures p + [q[|p|]] <= q && (q[|p| + 1..] == [] <==> p + [q[|p|]] == q)
  {
  }

  lemma Aside(p: Path, src: seq<Tree>, q: Path)
    requires src != [] && WellFormed(src) && p < q && q[|p|] != src[0].name
    ensures !(p + [src[0].name] <= q)
    ensures Get(Node(src), q[|p|..]) == Get(Node(src[1..]), q[|p|..])
  {
    var rest := q[|p| + 1..];
    assert q[|p|..] == [q[|p|]] + rest;
    SourceStep(src, q[|p|], rest);
    assert (p + [src[0].name])[|p|] == src[0].name;
  }

  // ---- what is beside the destination ------------------------------------------------

  /** Neither of the two subtrees contains the other. */
  ghost predicate Beside(p: Path, q: Path)
  {
    !(p <= q) && !(q <= p)
  }

  lemma PrefixOfLonger(p: Path, q: Path, c: string)
    ensures p <= q + [c] ==> p <= q || q <= p
  {
    if p <= q + [c] && |p| <= |q| {
      assert p == (q + [c])[..|p|] == q[..|p|];
    } else if p <= q + [c] {
      assert q == (q + [c])[..|q|] == p[..|q|];
    }
  }

  lemma BesideKid(p: Path, q: Path, c: string)
    requires Beside(p, q)
    ensures Beside(p + [c], q) && Beside(p, q + [c]) && q != []
  {
    assert p <= p + [c] && q <= q + [c];
    PrefixOfLonger(p, q, c);
    PrefixOfLonger(q, p, c);
  }

  lemma PlaceBeside(t: Tree, p: Path, c: string, d: Data, q: Path)
    requires Has(t, p) && Beside(p, q)
    ensures Get(Place(t, p, c, d), q) == Get(t, q)
  {
    var x := p + [c];
    BesideKid(p, q, c);
    if Has(t, x) {
      GetPutOther(t, x, Get(t, x).value.(data := Assigned(Get(t, x).value.data, d)), q);
    } else {
      GetPutOther(t, p, Get(t, p).value.(kids := Get(t, p).value.kids + [Tree(c, d, [])]), q);
    }
  }

  /** A copy leaves what is beside its destination alone. */
  lemma {:induction false} CopyBeside(t: Tree, p: Path, src: seq<Tree>, q: Path)
    requires Has(t, p) && Beside(p, q)
    ensures Get(CopyKids(t, p, src), q) == Get(t, q)
    decreases src
  {
    if src != [] {
      var st, d := src[0], Unlinked(src[0].data);
      var placed := Place(t, p, st.name, d);
      PlaceShallow(t, p, st.name, d, p);
      PlaceShallow(t, p, st.name, d, p + [st.name]);
      PlaceBeside(t, p, st.name, d, q);
      BesideKid(p, q, st.name);
      CopyBeside(placed, p + [st.name], st.kids, q);
      CopyKeeps(placed, p + [st.name], st.kids, p);
      CopyBeside(CopyKids(placed, p + [st.name], st.kids), p, src[1..], q);
    }
  }

  // ---- the whole operation ----------------------------------------------------------

  /** An assignment removes nothing. */
  lemma {:induction false} SetKeeps(t: Tree, base: Path, name: string, d: Data, fuel: nat, q: Path)
    requires Has(t, base)
    ensures var r := SetValue(t, base, name, d, fuel);
      (!r.Aborted? && Has(t, q) ==> Has(r.tree, q)) && (r.Done? ==> Has(r.tree, r.path))
    decreases fuel, 1, 0
  {
    if name == "" {
      var before := Get(t, base).value.data;
      SetDataShallow(t, base, Data(d.value, before.link, Combine(before.attrs, d.attrs)), q);
      SetDataShallow(t, base, Data(d.value, before.link, Combine(before.attrs, d.attrs)), base);
    } else {
      StepsKeep(t, base, base, name, d, fuel, q);
    }
  }

  lemma {:induction false} StepsKeep(t: Tree, base: Path, p: Path, n: string, d: Data, fuel: nat, q: Path)
    requires Has(t, base) && Has(t, p)
    ensures var r := SetSteps(t, base, p, n, d, fuel);
      (!r.Aborted? && Has(t, q) ==> Has(r.tree, q)) && (r.Done? ==> Has(r.tree, r.path))
    decreases fuel, 0, |n|
  {
    var c := Head(n);
    var x := p + [c];
    if c != "" && !Has(t, x) {
      NewStepsKeep(t, base, p, n, d, fuel, q);
    } else if c != "" {
      OldStepsKeep(t, base, p, n, d, fuel, q);
    }
  }

  lemma {:induction false} OldStepsKeep(t: Tree, base: Path, p: Path, n: string, d: Data, fuel: nat, q: Path)
    requires Has(t, base) && Has(t, p) && Head(n) != "" && Has(t, p + [Head(n)])
    ensures var r := SetSteps(t, base, p, n, d, fuel);
      (!r.Aborted? && Has(t, q) ==> Has(r.tree, q)) && (r.Done? ==> Has(r.tree, r.path))
    decreases fuel, 0, |n|, 0
  {
    hide SetSteps, SetValue;
    var x := p + [Head(n)];
    StepsUnfolded(t, base, p, n, d, fuel);
    if !HasDot(n) {
      SetDataShallow(t, x, Assigned(Get(t, x).value.data, d), q);
      SetDataShallow(t, x, Assigned(Get(t, x).value.data, d), x);
    } else if !Get(t, x).value.data.link {
      StepsKeep(t, base, x, Rest(n), d, fuel, q);
    } else if Get(t, x).value.data.value.Some? && fuel > 0 {
      SetKeeps(t, base, Get(t, x).value.data.value.value + "." + Rest(n), d, fuel - 1, q);
    }
  }

  lemma {:induction false} NewStepsKeep(t: Tree, base: Path, p: Path, n: string, d: Data, fuel: nat, q: Path)
    requires Has(t, base) && Has(t, p) && Head(n) != "" && !Has(t, p + [Head(n)])
    ensures var r := SetSteps(t, base, p, n, d, fuel);
      (!r.Aborted? && Has(t, q) ==> Has(r.tree, q)) && (r.Done? ==> Has(r.tree, r.path))
    decreases fuel, 0, |n|, 0
  {
    var x := p + [Head(n)];
    var k := Tree(Head(n), if HasDot(n) then EmptyData else d, []);
    AddKidHas(t, p, k, base);
    AddKidHas(t, p, k, x);
    AddKidHas(t, p, k, q);
    if HasDot(n) {
      StepsKeep(AddKid(t, p, k), base, x, Rest(n), d, fuel, q);
    }
  }

  datatype CopyResult = Copied(tree: Tree) | Rejected(tree: Tree) | Undefined

  /** `hdf_copy`: the destination is looked up through links, created without a value if it is
      missing, and the source's children are set below it one by one. */
  function Copy(t: Tree, base: Path, name: string, src: seq<Tree>, fuel: nat): CopyResult
    requires Has(t, base)
  {
    match Walk(t, base, name, fuel)
    case Stuck => Undefined
    case Found(p) => Copied(CopyKids(t, p, src))
    case Missing =>
      match SetValue(t, base, name, EmptyData, fuel)
      case Aborted => Undefined
      case EmptyComponent(t1) => Rejected(t1)
      case Done(t1, p) =>
        SetKeeps(t, base, name, EmptyData, fuel, p);
        Copied(CopyKids(t1, p, src))
  }

  /** Where a copy goes: where the lookup of the name leads, or where setting it does. */
  function Destination(t: Tree, base: Path, name: string, fuel: nat): Option<Path>
    requires Has(t, base)
  {
    match Walk(t, base, name, fuel)
    case Stuck => None
    case Found(p) => Some(p)
    case Missing =>
      match SetValue(t, base, name, EmptyData, fuel)
      case Done(_, p) => Some(p)
      case _ => None
  }
}
