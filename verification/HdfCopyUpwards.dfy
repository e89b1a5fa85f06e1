/** `hdf_copy` within one data set when the destination is not beside the source: above it, or the
    source itself. Everything arrives; and where no place that is copied to lies in the source, the
    copy is that of a source that stays as it is. */
module HdfCopyUpwards {
  import Seqs
  import opened Options
  import opened HdfTree
  import opened HdfSpec
  import opened HdfRemove
  import opened HdfCopy
  import opened HdfCopyWithin

  // ---- everything arrives ------------------------------------------------------------------

  /** The path of a child that is yet to come, and all below it. */
  lemma {:induction false} KidArrives(t: Tree, p: Path, q: Path, i: nat, steps: nat, c: string, r: Path)
    requires Has(t, p) && Has(t, q) && Coming(t, q, c, i) && Has(t, q + [c] + r)
    requires Live(t, p, q, i, steps).Some?
    ensures Has(Live(t, p, q, i, steps).value, p + [c] + r)
    decreases steps
  {
    hide Live, Placed, KidsAt, Has, Coming, GrownAt, NamesAt;
    LiveUnfolded(t, p, q, i, 0);
    ShownKids(t, q, c, i);
    Round(t, p, q, i, steps - 1);
    var name, placed := KidsAt(t, q)[i].name, Placed(t, p, q, i);
    var deep := Live(placed, p + [name], q + [name], 0, steps - 1);
    if name == c {
      PlacedGrows(t, p, q, i, q + [c] + r);
      Keeps(t, placed, p, q + [c] + r);
      if r == [] {
        Seqs.Empty(p + [c]);
      } else {
        Seqs.HeadTail(r);
        Seqs.Assoc(q + [c], [r[0]], r[1..]);
        Seqs.Assoc(p + [c], [r[0]], r[1..]);
        KidOnTheWay(placed, q + [c], r);
        IsComing(placed, q + [c], r[0]);
        KidArrives(placed, p + [c], q + [c], 0, steps - 1, r[0], r[1..]);
      }
      Stays(placed, p + [c], q + [c], 0, steps - 1, p + [c] + r);
      Stays(deep.value, p, q, i + 1, steps - 1, p + [c] + r);
    } else {
      ToCome(t, deep.value, p, q, c, i);
      PlacedGrows(t, p, q, i, q + [c] + r);
      Keeps(t, placed, p, q + [c] + r);
      Stays(placed, p + [name], q + [name], 0, steps - 1, q + [c] + r);
      KidArrives(deep.value, p, q, i + 1, steps - 1, c, r);
    }
  }

  lemma Keeps(t: Tree, t2: Tree, p: Path, x: Path)
    requires GrownAt(t, t2, p, x)
    ensures Has(t, x) ==> Has(t2, x)
  {
  }

  lemma Stays(t: Tree, p: Path, q: Path, i: nat, steps: nat, x: Path)
    requires Has(t, p) && Has(t, q) && Live(t, p, q, i, steps).Some?
    ensures Has(t, x) ==> Has(Live(t, p, q, i, steps).value, x)
  {
    LiveKeeps(t, p, q, i, steps, x);
  }

  lemma IsComing(t: Tree, q: Path, c: string)
    requires c in NamesAt(t, q)
    ensures Coming(t, q, c, 0)
  {
  }

  /** However source and destination lie to each other: when a copy returns, every path below the
      source is there below the destination as well. */
  lemma Arrives(t: Tree, p: Path, q: Path, steps: nat, r: Path)
    requires Has(t, p) && Has(t, q + r) && Has(t, q)
    requires Live(t, p, q, 0, steps).Some?
    ensures Has(Live(t, p, q, 0, steps).value, p + r)
  {
    hide Live, Has;
    if r == [] {
      Seqs.Empty(p);
      Stays(t, p, q, 0, steps, p);
    } else {
      Seqs.HeadTail(r);
      Seqs.Assoc(q, [r[0]], r[1..]);
      Seqs.Assoc(p, [r[0]], r[1..]);
      KidOnTheWay(t, q, r);
      IsComing(t, q, r[0]);
      KidArrives(t, p, q, 0, steps, r[0], r[1..]);
    }
  }

  /** The first `i` names of the source are names of the destination. */
  ghost predicate TakenOver(t: Tree, p: Path, q: Path, i: nat)
  {
    forall j :: 0 <= j < i && j < |NamesAt(t, q)| ==> NamesAt(t, q)[j] in NamesAt(t, p)
  }

  /** The loop ends when it has come to the end of the list as it is then: what the copy itself has
      added to the source is there at the destination as well. */
  lemma {:induction false} AllTakenOver(t: Tree, p: Path, q: Path, i: nat, steps: nat)
    requires Has(t, p) && Has(t, q) && TakenOver(t, p, q, i) && Live(t, p, q, i, steps).Some?
    ensures var t2 := Live(t, p, q, i, steps).value;
      TakenOver(t2, p, q, |NamesAt(t2, q)|)
    decreases steps
  {
    hide Live, Placed, Has, GrownAt;
    LiveUnfolded(t, p, q, i, 0);
    LiveUnfolded(t, p, q, i, steps - 1);
    if i < |KidsAt(t, q)| {
      hide KidsAt;
      Round(t, p, q, i, steps - 1);
      var c := KidsAt(t, q)[i].name;
      var placed := Placed(t, p, q, i);
      var deep := Live(placed, p + [c], q + [c], 0, steps - 1);
      Stays(placed, p + [c], q + [c], 0, steps - 1, p + [c]);
      OneMoreTaken(t, deep.value, p, q, i);
      AllTakenOver(deep.value, p, q, i + 1, steps - 1);
    }
  }

  lemma OneMoreTaken(t: Tree, t2: Tree, p: Path, q: Path, i: nat)
    requires Has(t, p) && Has(t, q) && TakenOver(t, p, q, i) && i < |KidsAt(t, q)|
    requires GrownAt(t, t2, p, p) && GrownAt(t, t2, p, q) && Has(t2, p + [KidsAt(t, q)[i].name])
    ensures TakenOver(t2, p, q, i + 1)
  {
    hide NamesAt, KidsAt, Has;
    var c := KidsAt(t, q)[i].name;
    NumberIs(t, q, i);
    GrownNames(t, t2, p, q);
    GrownNames(t, t2, p, p);
    KidNamed(t2, p, c);
    NamesStay(NamesAt(t, q), NamesAt(t2, q), NamesAt(t, p), NamesAt(t2, p), i);
  }

  lemma NumberIs(t: Tree, q: Path, i: nat)
    requires Has(t, q) && i < |KidsAt(t, q)|
    ensures i < |NamesAt(t, q)| && NamesAt(t, q)[i] == KidsAt(t, q)[i].name
  {
  }

  lemma GrownNames(t: Tree, t2: Tree, p: Path, x: Path)
    requires Has(t, x) && GrownAt(t, t2, p, x)
    ensures NamesAt(t, x) <= NamesAt(t2, x)
  {
  }

  lemma KidNamed(t: Tree, p: Path, c: string)
    requires Has(t, p + [c])
    ensures c in NamesAt(t, p)
  {
    GetKid(t, p, c);
  }

  lemma NamesStay(before: seq<string>, after: seq<string>, here: seq<string>, there: seq<string>, i: nat)
    requires i < |before| && before <= after && here <= there && before[i] in there
    requires forall j :: 0 <= j < i ==> before[j] in here
    ensures forall j :: 0 <= j < i + 1 ==> after[j] in there
  {
    forall j | 0 <= j < i + 1
      ensures after[j] in there
    {
      assert after[j] == before[j];
    }
  }

  // ---- the same subtree ----------------------------------------------------------------------

  /** Two trees of one name with the same entries under all paths are the same. */
  lemma {:induction false} SameTree(a: Tree, b: Tree)
    requires a.name == b.name && AllDistinct(a) && forall r :: Shallow(a, r) == Shallow(b, r)
    ensures a == b
  {
    assert Shallow(a, []) == Shallow(b, []);
    assert Names(a.kids) == Names(b.kids);
    forall i | 0 <= i < |a.kids|
      ensures a.kids[i] == b.kids[i]
    {
      assert Names(a.kids)[i] == a.kids[i].name && Names(b.kids)[i] == b.kids[i].name;
      assert Distinct(Shallow(a, []).value.names);
      IndexUnique(a.kids, i);
      IndexUnique(b.kids, i);
      forall r
        ensures Shallow(a.kids[i], r) == Shallow(b.kids[i], r)
        ensures Has(a.kids[i], r) ==> Distinct(Shallow(a.kids[i], r).value.names)
      {
        var c := a.kids[i].name;
        assert ([c] + r)[1..] == r;
        assert Shallow(a, [c] + r) == Shallow(b, [c] + r);
        assert Shallow(a.kids[i], r) == Shallow(a, [c] + r);
        assert Has(a, [c] + r) ==> Distinct(Shallow(a, [c] + r).value.names);
      }
      SameTree(a.kids[i], b.kids[i]);
    }
  }

  // ---- no place that is copied to lies in the source -----------------------------------------

  /** None of the places that these children are copied to below `p` is `q` or below it. */
  ghost predicate Clear(p: Path, src: seq<Tree>, q: Path)
    decreases src
  {
    forall i :: 0 <= i < |src| ==> !(q <= p + [src[i].name]) && Clear(p + [src[i].name], src[i].kids, q)
  }

  lemma {:induction false} ClearDeeper(p: Path, src: seq<Tree>, q: Path, c: string)
    requires Clear(p, src, q)
    ensures Clear(p, src, q + [c])
    decreases src
  {
    forall i | 0 <= i < |src|
      ensures !(q + [c] <= p + [src[i].name]) && Clear(p + [src[i].name], src[i].kids, q + [c])
    {
      assert q <= q + [c];
      ClearDeeper(p + [src[i].name], src[i].kids, q, c);
    }
  }

  lemma ClearPlace(t: Tree, p: Path, c: string, d: Data, q: Path, x: Path)
    requires Has(t, p) && !(q <= p + [c]) && q <= x
    ensures Shallow(Place(t, p, c, d), x) == Shallow(t, x)
  {
    hide Place;
    PlaceShallow(t, p, c, d, x);
    assert p <= p + [c];
  }

  lemma {:induction false} ClearCopy(t: Tree, p: Path, src: seq<Tree>, q: Path, x: Path)
    requires Has(t, p) && Clear(p, src, q) && q <= x
    ensures Shallow(CopyKids(t, p, src), x) == Shallow(t, x)
    decreases src
  {
    hide Place;
    if src != [] {
      var st, d := src[0], Unlinked(src[0].data);
      var placed := Place(t, p, st.name, d);
      PlaceShallow(t, p, st.name, d, p);
      PlaceShallow(t, p, st.name, d, p + [st.name]);
      ClearPlace(t, p, st.name, d, q, x);
      assert Clear(p + [st.name], st.kids, q);
      ClearCopy(placed, p + [st.name], st.kids, q, x);
      CopyKeeps(placed, p + [st.name], st.kids, p);
      assert forall i :: 0 <= i < |src[1..]| ==> src[1..][i] == src[i + 1];
      ClearCopy(CopyKids(placed, p + [st.name], st.kids), p, src[1..], q, x);
    }
  }

  /** What shows the same everywhere from a node on has the same subtree there. */
  lemma SameFrom(t: Tree, t2: Tree, q: Path)
    requires Has(t, q) && q != [] && AllDistinct(t) && forall x :: q <= x ==> Shallow(t2, x) == Shallow(t, x)
    ensures Get(t2, q) == Get(t, q)
  {
    assert q <= q && Shallow(t2, q) == Shallow(t, q);
    var a, b := Get(t, q).value, Get(t2, q).value;
    forall r
      ensures Shallow(a, r) == Shallow(b, r)
      ensures Has(a, r) ==> Distinct(Shallow(a, r).value.names)
    {
      GetAppend(t, q, r);
      GetAppend(t2, q, r);
      assert q <= q + r && Shallow(t2, q + r) == Shallow(t, q + r);
      assert Has(t, q + r) ==> Distinct(Shallow(t, q + r).value.names);
    }
    SameTree(a, b);
  }

  lemma ClearRoot(p: Path, src: seq<Tree>, q: Path)
    requires Clear(p, src, q) && src != []
    ensures q != []
  {
    assert [] <= p + [src[0].name];
  }

  /** One round. */
  lemma ClearRound(t: Tree, p: Path, q: Path, i: nat)
    requires Has(t, p) && Has(t, q) && AllDistinct(t) && i < |KidsAt(t, q)| && Clear(p, KidsAt(t, q)[i..], q)
    ensures var k, placed := KidsAt(t, q)[i], Placed(t, p, q, i);
      && AllDistinct(placed) && Get(placed, q + [k.name]) == Some(k)
      && Clear(p + [k.name], k.kids, q + [k.name]) && Clear(p, KidsAt(t, q)[i + 1..], q)
      && var deep := CopyKids(placed, p + [k.name], k.kids);
         Get(deep, q) == Get(t, q) && Has(deep, p) && AllDistinct(deep) &&
         CopyKids(t, p, KidsAt(t, q)[i..]) == CopyKids(deep, p, KidsAt(t, q)[i + 1..])
  {
    hide CopyKids, Place, AllDistinct, Get;
    var kids := KidsAt(t, q);
    var k := kids[i];
    var d, x := Unlinked(k.data), p + [k.name];
    PlacedIs(t, p, q, i);
    var placed := Placed(t, p, q, i);
    KidIs(t, q, i);
    ClearStep(p, kids, i, q);
    ClearRoot(p, kids[i..], q);
    DistinctPlaced(t, p, k.name, d);
    forall y | q <= y
      ensures Shallow(placed, y) == Shallow(t, y)
    {
      ClearPlace(t, p, k.name, d, q, y);
    }
    SameFrom(t, placed, q);
    KidOfSame(t, placed, q, k.name);
    ClearDeeper(x, k.kids, q, k.name);
    forall y | q <= y
      ensures Shallow(CopyKids(placed, x, k.kids), y) == Shallow(t, y)
    {
      ClearCopy(placed, x, k.kids, q, y);
    }
    SameFrom(t, CopyKids(placed, x, k.kids), q);
    CopyKeeps(placed, x, k.kids, p);
    DistinctCopied(placed, x, k.kids);
    CopiedRest(t, p, kids, i);
  }

  lemma KidOfSame(t: Tree, t2: Tree, q: Path, c: string)
    requires Get(t2, q) == Get(t, q)
    ensures Get(t2, q + [c]) == Get(t, q + [c])
  {
    GetAppend(t, q, [c]);
    GetAppend(t2, q, [c]);
  }

  lemma ClearStep(p: Path, kids: seq<Tree>, i: nat, q: Path)
    requires i < |kids| && Clear(p, kids[i..], q)
    ensures !(q <= p + [kids[i].name]) && Clear(p + [kids[i].name], kids[i].kids, q) && Clear(p, kids[i + 1..], q)
  {
    var rest, more := kids[i..], kids[i + 1..];
    assert rest[0] == kids[i];
    forall j | 0 <= j < |more|
      ensures !(q <= p + [more[j].name]) && Clear(p + [more[j].name], more[j].kids, q)
    {
      assert more[j] == rest[j + 1];
    }
  }

  /** The source does not change, and the copy is that of another data set. */
  lemma {:induction false} ClearIsPlain(t: Tree, p: Path, q: Path, i: nat) returns (steps: nat)
    requires Has(t, p) && Has(t, q) && AllDistinct(t) && i <= |KidsAt(t, q)| && Clear(p, KidsAt(t, q)[i..], q)
    ensures Live(t, p, q, i, steps) == Some(CopyKids(t, p, KidsAt(t, q)[i..]))
    decreases Get(t, q).value, |KidsAt(t, q)| - i
  {
    hide Live, Placed, CopyKids, Place, AllDistinct, Clear;
    var kids := KidsAt(t, q);
    if i == |kids| {
      LiveUnfolded(t, p, q, i, 0);
      CopiedNothing(t, p, kids);
      steps := 1;
    } else {
      var k := kids[i];
      ClearRound(t, p, q, i);
      assert k in kids;
      var placed := Placed(t, p, q, i);
      Seqs.Whole(k.kids);
      var a := ClearIsPlain(placed, p + [k.name], q + [k.name], 0);
      var b := ClearIsPlain(CopyKids(placed, p + [k.name], k.kids), p, q, i + 1);
      steps := RoundReturns(t, p, q, i, a, b);
    }
  }

  /** The places below the source at `p + s` that are copied to below `p`, if the source has nothing
      under the path `s`. */
  lemma {:induction false} NothingUnder(t: Tree, p: Path, s: Path, w: Path)
    requires s != [] && !Has(t, p + s + s) && Has(t, p + s + w) && AllDistinct(t)
    ensures Clear(p + w, KidsAt(t, p + s + w), p + s)
    decreases Get(t, p + s + w).value
  {
    hide AllDistinct, Get;
    var q, kids := p + s, KidsAt(t, p + s + w);
    forall i | 0 <= i < |kids|
      ensures !(q <= p + w + [kids[i].name]) && Clear(p + w + [kids[i].name], kids[i].kids, q)
    {
      var w2 := w + [kids[i].name];
      KidIs(t, q + w, i);
      Seqs.Assoc(q, w, [kids[i].name]);
      Seqs.Assoc(p, w, [kids[i].name]);
      assert kids[i] in kids;
      NothingUnder(t, p, s, w2);
      if q <= p + w2 {
        Under(t, p, s, w2);
      }
    }
  }

  lemma Under(t: Tree, p: Path, s: Path, w: Path)
    requires Has(t, p + s + w) && p + s <= p + w
    ensures Has(t, p + s + s)
  {
    assert w == s + w[|s|..] by {
      assert (p + w)[..|p + s|] == p + s;
      assert (p + w)[|p|..|p + s|] == w[..|s|] && (p + s)[|p|..] == s;
    }
    assert p + s + w == p + s + s + w[|s|..];
    GetAppend(t, p + s + s, w[|s|..]);
  }

  /** A copy to a node above the source, which has nothing under the path that leads to it from
      there: the source's children move up as those of another data set would. */
  lemma UpwardsIsPlain(t: Tree, p: Path, s: Path) returns (steps: nat)
    requires s != [] && Has(t, p) && Has(t, p + s) && !Has(t, p + s + s) && AllDistinct(t)
    ensures Live(t, p, p + s, 0, steps) == Some(CopyKids(t, p, KidsAt(t, p + s)))
  {
    hide Live, CopyKids, AllDistinct, Clear;
    Seqs.Empty(p);
    Seqs.Empty(p + s);
    NothingUnder(t, p, s, []);
    Seqs.Whole(KidsAt(t, p + s));
    steps := ClearIsPlain(t, p, p + s, 0);
  }

  // ---- into the source itself: the same node ---------------------------------------------------

  lemma PlacedAgain(t: Tree, p: Path, i: nat)
    requires Has(t, p) && AllDistinct(t) && i < |KidsAt(t, p)|
    ensures var k, placed := KidsAt(t, p)[i], Placed(t, p, p, i);
      && AllDistinct(placed) && KidsAt(placed, p + [k.name]) == k.kids && NamesAt(placed, p) == NamesAt(t, p)
      && forall j :: i < j < |KidsAt(t, p)| ==> Get(placed, p + [KidsAt(t, p)[j].name]) == Some(KidsAt(t, p)[j])
  {
    hide AllDistinct;
    var kids := KidsAt(t, p);
    var k := kids[i];
    var x, d := p + [k.name], Unlinked(k.data);
    KidIs(t, p, i);
    PlacedIs(t, p, p, i);
    DistinctPlaced(t, p, k.name, d);
    PlaceShallow(t, p, k.name, d, p);
    var s := k.(data := Assigned(k.data, d));
    GetPutSame(t, x, s, []);
    Seqs.Empty(x);
    forall j | i < j < |kids|
      ensures Get(Put(t, x, s), p + [kids[j].name]) == Some(kids[j])
    {
      KidIs(t, p, j);
      OtherKid(t, p, i, j);
      GetPutOther(t, x, s, p + [kids[j].name]);
    }
  }

  lemma OtherKid(t: Tree, p: Path, i: nat, j: nat)
    requires Has(t, p) && AllDistinct(t) && i < j < |KidsAt(t, p)|
    ensures Beside(p + [KidsAt(t, p)[i].name], p + [KidsAt(t, p)[j].name])
  {
    var names := Shallow(t, p).value.names;
    assert Distinct(names) && names[i] == KidsAt(t, p)[i].name && names[j] == KidsAt(t, p)[j].name;
    var x, y := p + [names[i]], p + [names[j]];
    assert x[|p|] != y[|p|];
  }

  /** Once child `i` and all below it have been copied to themselves, the children behind it are
      what they were. */
  lemma BehindSame(t: Tree, p: Path, i: nat)
    requires Has(t, p) && AllDistinct(t) && i < |KidsAt(t, p)|
    ensures var k, placed := KidsAt(t, p)[i], Placed(t, p, p, i);
      var deep := CopyKids(placed, p + [k.name], k.kids);
      Has(deep, p) && AllDistinct(deep) && |KidsAt(deep, p)| == |KidsAt(t, p)| &&
      KidsAt(deep, p)[i + 1..] == KidsAt(t, p)[i + 1..]
  {
    hide AllDistinct, CopyKids, Placed, Place, Beside, Get;
    var kids := KidsAt(t, p);
    var k, placed := kids[i], Placed(t, p, p, i);
    var x := p + [k.name];
    var deep := CopyKids(placed, x, k.kids);
    PlacedAgain(t, p, i);
    CopyKeeps(placed, x, k.kids, p);
    DistinctCopied(placed, x, k.kids);
    NamesOutside(placed, x, k.kids, p);
    assert NamesAt(deep, p) == NamesAt(t, p);
    var after := KidsAt(deep, p);
    assert Names(after) == Names(kids);
    forall j | i < j < |kids|
      ensures after[j] == kids[j]
    {
      OtherKid(t, p, i, j);
      CopyBeside(placed, x, k.kids, p + [kids[j].name]);
      assert Names(after)[j] == after[j].name && Names(kids)[j] == kids[j].name;
      KidIs(deep, p, j);
    }
  }

  lemma {:induction false} NamesOutside(t: Tree, p: Path, src: seq<Tree>, x: Path)
    requires Has(t, p) && !(p <= x)
    ensures Shallow(CopyKids(t, p, src), x) == Shallow(t, x)
    decreases src
  {
    hide Place;
    if src != [] {
      var st, d := src[0], Unlinked(src[0].data);
      var placed := Place(t, p, st.name, d);
      PlaceShallow(t, p, st.name, d, p);
      PlaceShallow(t, p, st.name, d, p + [st.name]);
      PlaceShallow(t, p, st.name, d, x);
      assert p <= p + [st.name];
      NamesOutside(placed, p + [st.name], st.kids, x);
      CopyKeeps(placed, p + [st.name], st.kids, p);
      NamesOutside(CopyKids(placed, p + [st.name], st.kids), p, src[1..], x);
    }
  }

  /** A copy of a node to itself is that of another data set with the same children. */
  lemma {:induction false} OntoItselfIsPlain(t: Tree, p: Path, i: nat, kids: seq<Tree>) returns (steps: nat)
    requires Has(t, p) && AllDistinct(t) && i <= |KidsAt(t, p)| && KidsAt(t, p)[i..] == kids
    ensures Live(t, p, p, i, steps) == Some(CopyKids(t, p, kids))
    decreases kids
  {
    hide Live, Placed, CopyKids, Place, AllDistinct, Get;
    if i == |KidsAt(t, p)| {
      LiveUnfolded(t, p, p, i, 0);
      CopiedNothing(t, p, KidsAt(t, p));
      steps := 1;
    } else {
      var k := KidsAt(t, p)[i];
      Seqs.Tail(KidsAt(t, p), i);
      PlacedAgain(t, p, i);
      BehindSame(t, p, i);
      PlacedIs(t, p, p, i);
      CopiedRest(t, p, KidsAt(t, p), i);
      var placed := Placed(t, p, p, i);
      Seqs.Whole(k.kids);
      assert kids[0] == k;
      var a := OntoItselfIsPlain(placed, p + [k.name], 0, k.kids);
      var b := OntoItselfIsPlain(CopyKids(placed, p + [k.name], k.kids), p, i + 1, kids[1..]);
      steps := RoundReturns(t, p, p, i, a, b);
    }
  }

  // ---- what is copied into the source is copied again ------------------------------------------

  ghost function Leaf(name: string): Tree { Tree(name, EmptyData, []) }
  ghost function Inner(): Tree { Tree("b", EmptyData, [Leaf("c")]) }
  ghost function Outer(): Tree { Tree("b", EmptyData, [Inner()]) }

  /** The source `b` has a child `b`, and the destination is the top. */
  ghost function Doubled(): Tree { Tree("", EmptyData, [Outer()]) }

  lemma DoubledPlaces()
    ensures Get(Doubled(), ["b"]) == Some(Outer()) && Get(Doubled(), ["b", "b"]) == Some(Inner())
    ensures Has(Doubled(), ["b", "b", "c"]) && !Has(Doubled(), ["c"])
  {
    assert ["b"][1..] == [] && ["b", "b"][1..] == ["b"] && ["b", "b", "c"][1..] == ["b", "c"];
    assert ["b", "c"][1..] == ["c"] && ["c"][1..] == [];
    assert Get(Inner(), ["c"]) == Some(Leaf("c")) && Get(Outer(), ["b", "c"]) == Some(Leaf("c"));
  }

  /** Reading the source as it grows takes `c` all the way to the top; copying a source that stays as
      it is does not. */
  lemma RisesFurther(steps: nat)
    requires Has(Doubled(), ["b"]) && Live(Doubled(), [], ["b"], 0, steps).Some?
    ensures Has(Live(Doubled(), [], ["b"], 0, steps).value, ["c"])
    ensures !Has(CopyKids(Doubled(), [], Outer().kids), ["c"])
  {
    hide Live, CopyKids;
    var t, t2 := Doubled(), Live(Doubled(), [], ["b"], 0, steps).value;
    DoubledPlaces();
    assert ["b"] + ["b", "c"] == ["b", "b", "c"] && [] + ["b", "c"] == ["b", "c"];
    Arrives(t, [], ["b"], steps, ["b", "c"]);
    assert ["b"] + ["c"] == ["b", "c"] && [] + ["c"] == ["c"];
    GetKid(t2, ["b"], "c");
    AllTakenOver(t, [], ["b"], 0, steps);
    GetKid(t2, [], "c");
    CopiedOnce(t);
  }

  lemma CopiedOnce(t: Tree)
    requires t == Doubled()
    ensures !Has(CopyKids(t, [], Outer().kids), ["c"])
  {
    hide CopyKids;
    DoubledPlaces();
    assert Outer().kids == [Inner()] && WellFormed([Inner()]) by { DoubledFormed(); }
    CopyOverlays(t, [], [Inner()], ["c"]);
    NotCopied();
  }

  lemma DoubledFormed()
    ensures WellFormed([Inner()])
  {
    assert WellFormed([Leaf("c")]) by { assert WellFormed([]); }
  }

  lemma NotCopied()
    ensures ["c"][0..] == ["c"] && !Has(Node([Inner()]), ["c"])
  {
  }
}
