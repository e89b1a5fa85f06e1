/** `hdf_copy` within one data set: the loop reads the source as it stands at each moment, changed
    or not by what has been copied already. It comes to an end exactly if the destination is not
    inside the source. */
module HdfCopyWithin {
  import Seqs
  import opened Options
  import opened HdfTree
  import opened HdfRemove
  import opened HdfCopy

  function KidsAt(t: Tree, q: Path): seq<Tree>
    requires Has(t, q)
  {
    Get(t, q).value.kids
  }

  /** The tree once the value of child `i` of the node at `q` has been set below the one at `p`. */
  function Placed(t: Tree, p: Path, q: Path, i: nat): (r: Tree)
    requires Has(t, p) && Has(t, q) && i < |KidsAt(t, q)|
    ensures var c := KidsAt(t, q)[i].name;
      Has(r, p) && Has(r, q) && Has(r, p + [c]) && Has(r, q + [c])
  {
    PlacedHas(t, p, q, i);
    Place(t, p, KidsAt(t, q)[i].name, Unlinked(KidsAt(t, q)[i].data))
  }

  lemma PlacedHas(t: Tree, p: Path, q: Path, i: nat)
    requires Has(t, p) && Has(t, q) && i < |KidsAt(t, q)|
    ensures var k := KidsAt(t, q)[i];
      var r := Place(t, p, k.name, Unlinked(k.data));
      Has(r, p) && Has(r, q) && Has(r, p + [k.name]) && Has(r, q + [k.name]) && Has(t, q + [k.name])
  {
    hide Place;
    var k := KidsAt(t, q)[i];
    GetKid(t, q, k.name);
    assert Names(KidsAt(t, q))[i] == k.name;
    PlaceShallow(t, p, k.name, Unlinked(k.data), p);
    PlaceShallow(t, p, k.name, Unlinked(k.data), q);
    PlaceShallow(t, p, k.name, Unlinked(k.data), p + [k.name]);
    PlaceShallow(t, p, k.name, Unlinked(k.data), q + [k.name]);
  }

  /** `_copy_nodes` from the node at `q` to the one at `p`, from child `i` on. `None` means that
      `steps` nested and following rounds are not enough. */
  function Live(t: Tree, p: Path, q: Path, i: nat, steps: nat): Option<Tree>
    requires Has(t, p) && Has(t, q)
    decreases steps
  {
    if steps == 0 then None
    else if i >= |KidsAt(t, q)| then Some(t)
    else
      var c := KidsAt(t, q)[i].name;
      match Live(Placed(t, p, q, i), p + [c], q + [c], 0, steps - 1)
      case None => None
      case Some(deep) =>
        // Both nodes are still there, as `LiveKeeps` shows.
        if Has(deep, p) && Has(deep, q) then Live(deep, p, q, i + 1, steps - 1) else Some(deep)
  }

  /** What a copy does once a child and all below it have been copied. */
  function Rest(deep: Option<Tree>, p: Path, q: Path, i: nat, steps: nat): Option<Tree>
  {
    if deep.Some? && Has(deep.value, p) && Has(deep.value, q) then Live(deep.value, p, q, i + 1, steps) else deep
  }

  lemma LiveUnfolded(t: Tree, p: Path, q: Path, i: nat, steps: nat)
    requires Has(t, p) && Has(t, q)
    ensures Live(t, p, q, i, 0) == None
    ensures i >= |KidsAt(t, q)| ==> Live(t, p, q, i, steps + 1) == Some(t)
    ensures i < |KidsAt(t, q)| ==>
      var c := KidsAt(t, q)[i].name;
      Live(t, p, q, i, steps + 1) == Rest(Live(Placed(t, p, q, i), p + [c], q + [c], 0, steps), p, q, i, steps)
  {
  }

  /** Every node stays, its list of children only grows at its end, and nothing changes that is not
      at the destination or below it. */
  ghost predicate GrownAt(t: Tree, t2: Tree, p: Path, x: Path)
  {
    && (Has(t, x) ==> Has(t2, x) && NamesAt(t, x) <= NamesAt(t2, x))
    && (!(p <= x) ==> Shallow(t2, x) == Shallow(t, x))
  }

  lemma PlacedGrows(t: Tree, p: Path, q: Path, i: nat, x: Path)
    requires Has(t, p) && Has(t, q) && i < |KidsAt(t, q)|
    ensures GrownAt(t, Placed(t, p, q, i), p, x)
  {
    hide Place;
    var k := KidsAt(t, q)[i];
    PlaceShallow(t, p, k.name, Unlinked(k.data), x);
  }

  lemma GrownTwice(t: Tree, t1: Tree, t2: Tree, p: Path, c: string, x: Path)
    requires GrownAt(t, t1, p, x) && GrownAt(t1, t2, p + [c], x)
    ensures GrownAt(t, t2, p, x)
  {
    assert p + [c] <= x ==> p <= x;
  }

  lemma {:induction false} LiveKeeps(t: Tree, p: Path, q: Path, i: nat, steps: nat, x: Path)
    requires Has(t, p) && Has(t, q)
    ensures Live(t, p, q, i, steps).Some? ==> GrownAt(t, Live(t, p, q, i, steps).value, p, x)
    decreases steps, 0
  {
    hide GrownAt, Placed, Live, KidsAt, Has;
    if steps == 0 {
      LiveUnfolded(t, p, q, i, 0);
    } else if i < |KidsAt(t, q)| {
      var c, placed := KidsAt(t, q)[i].name, Placed(t, p, q, i);
      var deep := Live(placed, p + [c], q + [c], 0, steps - 1);
      LiveUnfolded(t, p, q, i, steps - 1);
      LiveKeeps(placed, p + [c], q + [c], 0, steps - 1, x);
      PlacedGrows(t, p, q, i, x);
      if deep.Some? {
        GrownTwice(t, placed, deep.value, p, c, x);
        RestKeeps(t, deep.value, p, q, i, steps - 1, x);
      }
    } else {
      LiveUnfolded(t, p, q, i, steps - 1);
      GrownNot(t, p, x);
    }
  }

  lemma {:induction false} RestKeeps(t: Tree, deep: Tree, p: Path, q: Path, i: nat, steps: nat, x: Path)
    requires GrownAt(t, deep, p, x)
    ensures var r := Rest(Some(deep), p, q, i, steps);
      r.Some? ==> GrownAt(t, r.value, p, x)
    decreases steps, 1
  {
    hide GrownAt, Live, Has;
    if Has(deep, p) && Has(deep, q) {
      LiveKeeps(deep, p, q, i + 1, steps, x);
      GrownOn(t, deep, Live(deep, p, q, i + 1, steps), p, x);
    }
  }

  lemma GrownNot(t: Tree, p: Path, x: Path)
    ensures GrownAt(t, t, p, x)
  {
  }

  lemma GrownOn(t: Tree, t1: Tree, r: Option<Tree>, p: Path, x: Path)
    requires GrownAt(t, t1, p, x) && (r.Some? ==> GrownAt(t1, r.value, p, x))
    ensures r.Some? ==> GrownAt(t, r.value, p, x)
  {
  }

  /** One round, with what is behind the recursive call. */
  lemma Round(t: Tree, p: Path, q: Path, i: nat, steps: nat)
    requires Has(t, p) && Has(t, q) && i < |KidsAt(t, q)|
    ensures var c := KidsAt(t, q)[i].name;
      var deep := Live(Placed(t, p, q, i), p + [c], q + [c], 0, steps);
      && (deep.None? ==> Live(t, p, q, i, steps + 1) == None)
      && (deep.Some? ==>
            GrownAt(t, deep.value, p, p) && GrownAt(t, deep.value, p, q) &&
            Has(deep.value, p) && Has(deep.value, q) &&
            Live(t, p, q, i, steps + 1) == Live(deep.value, p, q, i + 1, steps))
  {
    hide Placed, Live;
    LiveUnfolded(t, p, q, i, steps);
    var c, placed := KidsAt(t, q)[i].name, Placed(t, p, q, i);
    var deep := Live(placed, p + [c], q + [c], 0, steps);
    LiveKeeps(placed, p + [c], q + [c], 0, steps, p);
    LiveKeeps(placed, p + [c], q + [c], 0, steps, q);
    PlacedGrows(t, p, q, i, p);
    PlacedGrows(t, p, q, i, q);
    if deep.Some? {
      GrownTwice(t, placed, deep.value, p, c, p);
      GrownTwice(t, placed, deep.value, p, c, q);
    }
  }

  // ---- into its own source: never --------------------------------------------------------

  lemma Rotated(q: Path, r: Path)
    requires r != []
    ensures var x := q + r;
      x[|q|] == r[0] && x + [r[0]] == (q + [r[0]]) + (r[1..] + [r[0]]) && q < x && q + [r[0]] < x + [r[0]]
  {
    assert (q + r)[|q|] == r[0];
    assert q + r + [r[0]] == (q + [r[0]]) + (r[1..] + [r[0]]);
  }

  lemma KidOnTheWay(t: Tree, q: Path, r: Path)
    requires Has(t, q + r) && r != []
    ensures Has(t, q) && Has(t, q + [r[0]])
    ensures r[0] in NamesAt(t, q)
  {
    Seqs.HeadTail(r);
    Seqs.Assoc(q, [r[0]], r[1..]);
    GetAppend(t, q, r);
    GetAppend(t, q + [r[0]], r[1..]);
    GetKid(t, q, r[0]);
  }

  /** The child of that name is number `i` or one that comes later. */
  ghost predicate Coming(t: Tree, q: Path, c: string, i: nat)
  {
    exists j :: i <= j < |NamesAt(t, q)| && NamesAt(t, q)[j] == c
  }

  /** However many rounds: from child `i` on, if the child that leads to the destination is yet to
      come. */
  lemma {:induction false} NeverEnds(t: Tree, q: Path, r: Path, i: nat, steps: nat)
    requires r != [] && Has(t, q + r) && Has(t, q)
    requires Coming(t, q, r[0], i)
    ensures Live(t, q + r, q, i, steps) == None
    decreases steps
  {
    hide Live, Placed, NamesAt, KidsAt, Coming, GrownAt, Has;
    LiveUnfolded(t, q + r, q, i, 0);
    if steps > 0 {
      ShownKids(t, q, r[0], i);
      Round(t, q + r, q, i, steps - 1);
      if KidsAt(t, q)[i].name == r[0] {
        Rotated(q, r);
        Deeper(t, q, r, i);
        NeverEnds(Placed(t, q + r, q, i), q + [r[0]], r[1..] + [r[0]], 0, steps - 1);
      } else {
        var c := KidsAt(t, q)[i].name;
        var deep := Live(Placed(t, q + r, q, i), q + r + [c], q + [c], 0, steps - 1);
        if deep.Some? {
          ToCome(t, deep.value, q + r, q, r[0], i);
          NeverEnds(deep.value, q, r, i + 1, steps - 1);
        }
      }
    }
  }

  lemma ShownKids(t: Tree, q: Path, c: string, i: nat)
    requires Has(t, q) && Coming(t, q, c, i)
    ensures i < |KidsAt(t, q)|
  {
  }

  lemma ToCome(t: Tree, t2: Tree, p: Path, q: Path, c: string, i: nat)
    requires Has(t, q) && GrownAt(t, t2, p, q) && i < |KidsAt(t, q)| && KidsAt(t, q)[i].name != c
    requires Coming(t, q, c, i)
    ensures Coming(t2, q, c, i + 1)
  {
    assert NamesAt(t, q)[i] == KidsAt(t, q)[i].name;
    var j :| i <= j < |NamesAt(t, q)| && NamesAt(t, q)[j] == c;
    assert NamesAt(t2, q)[j] == c;
  }

  /** The round that comes to the child with the destination below it copies that child into
      itself: the destination of the copy below is in its source again. */
  lemma Deeper(t: Tree, q: Path, r: Path, i: nat)
    requires r != [] && Has(t, q + r) && Has(t, q) && i < |KidsAt(t, q)| && KidsAt(t, q)[i].name == r[0]
    ensures var placed, r2 := Placed(t, q + r, q, i), r[1..] + [r[0]];
      && Has(placed, q + [r[0]]) && Has(placed, q + [r[0]] + r2)
      && Coming(placed, q + [r[0]], r2[0], 0)
  {
    hide Placed;
    Rotated(q, r);
    var placed, r2 := Placed(t, q + r, q, i), r[1..] + [r[0]];
    KidOnTheWay(placed, q + [r[0]], r2);
  }

  /** A copy into the source itself never returns. */
  lemma IntoItself(t: Tree, p: Path, q: Path, steps: nat)
    requires Has(t, p) && Has(t, q) && q < p
    ensures Live(t, p, q, 0, steps) == None
  {
    var r := p[|q|..];
    assert p == q + r;
    KidOnTheWay(t, q, r);
    NeverEnds(t, q, r, 0, steps);
  }

  // ---- more rounds change nothing -----------------------------------------------------------

  lemma {:induction false} LiveMono(t: Tree, p: Path, q: Path, i: nat, steps: nat, more: nat)
    requires Has(t, p) && Has(t, q) && steps <= more && Live(t, p, q, i, steps).Some?
    ensures Live(t, p, q, i, more) == Live(t, p, q, i, steps)
    decreases steps
  {
    hide Live, Placed, KidsAt, Has;
    LiveUnfolded(t, p, q, i, if steps > 0 then steps - 1 else 0);
    LiveUnfolded(t, p, q, i, if more > 0 then more - 1 else 0);
    if i < |KidsAt(t, q)| {
      var c, placed := KidsAt(t, q)[i].name, Placed(t, p, q, i);
      LiveMono(placed, p + [c], q + [c], 0, steps - 1, more - 1);
      var deep := Live(placed, p + [c], q + [c], 0, steps - 1);
      if Has(deep.value, p) && Has(deep.value, q) {
        LiveMono(deep.value, p, q, i + 1, steps - 1, more - 1);
      }
    }
  }

  /** One round and then the others, with rounds enough for both. */
  lemma RoundReturns(t: Tree, p: Path, q: Path, i: nat, a: nat, b: nat) returns (steps: nat)
    requires Has(t, p) && Has(t, q) && i < |KidsAt(t, q)|
    requires var c := KidsAt(t, q)[i].name;
      var deep := Live(Placed(t, p, q, i), p + [c], q + [c], 0, a);
      && deep.Some? && Has(deep.value, p) && Has(deep.value, q)
      && Live(deep.value, p, q, i + 1, b).Some?
    ensures var c := KidsAt(t, q)[i].name;
      var deep := Live(Placed(t, p, q, i), p + [c], q + [c], 0, a);
      Live(t, p, q, i, steps) == Live(deep.value, p, q, i + 1, b)
  {
    hide Live, Placed, KidsAt, Has;
    var c, most := KidsAt(t, q)[i].name, if a < b then b else a;
    var deep := Live(Placed(t, p, q, i), p + [c], q + [c], 0, a);
    LiveMono(Placed(t, p, q, i), p + [c], q + [c], 0, a, most);
    LiveMono(deep.value, p, q, i + 1, b, most);
    LiveUnfolded(t, p, q, i, most);
    steps := most + 1;
  }

  // ---- beside the source: the plain copy ------------------------------------------------------

  lemma KidIs(t: Tree, q: Path, i: nat)
    requires Has(t, q) && AllDistinct(t) && i < |KidsAt(t, q)|
    ensures Get(t, q + [KidsAt(t, q)[i].name]) == Some(KidsAt(t, q)[i])
  {
    assert Distinct(Shallow(t, q).value.names);
    IndexUnique(KidsAt(t, q), i);
    GetKid(t, q, KidsAt(t, q)[i].name);
  }

  lemma DistinctPlaced(t: Tree, p: Path, c: string, d: Data)
    requires Has(t, p) && AllDistinct(t)
    ensures AllDistinct(Place(t, p, c, d))
  {
    hide Place;
    forall x | Has(Place(t, p, c, d), x)
      ensures Distinct(Shallow(Place(t, p, c, d), x).value.names)
    {
      PlaceShallow(t, p, c, d, x);
      GetKid(t, p, c);
      assert Has(t, p) && Distinct(Shallow(t, p).value.names);
      assert Has(t, x) ==> Distinct(Shallow(t, x).value.names);
    }
  }

  lemma {:induction false} DistinctCopied(t: Tree, p: Path, src: seq<Tree>)
    requires Has(t, p) && AllDistinct(t)
    ensures AllDistinct(CopyKids(t, p, src))
    decreases src
  {
    if src != [] {
      var st, d := src[0], Unlinked(src[0].data);
      PlaceShallow(t, p, st.name, d, p);
      PlaceShallow(t, p, st.name, d, p + [st.name]);
      DistinctPlaced(t, p, st.name, d);
      var placed := Place(t, p, st.name, d);
      DistinctCopied(placed, p + [st.name], st.kids);
      CopyKeeps(placed, p + [st.name], st.kids, p);
      DistinctCopied(CopyKids(placed, p + [st.name], st.kids), p, src[1..]);
    }
  }

  /** Beside its destination the source does not change, and the copy is that of another data set. */
  lemma {:induction false} BesideIsPlain(t: Tree, p: Path, q: Path, i: nat) returns (steps: nat)
    requires Has(t, p) && Has(t, q) && Beside(p, q) && AllDistinct(t) && i <= |KidsAt(t, q)|
    ensures Live(t, p, q, i, steps) == Some(CopyKids(t, p, KidsAt(t, q)[i..]))
    decreases Get(t, q).value, |KidsAt(t, q)| - i
  {
    hide Live, Placed, CopyKids, Place, AllDistinct, Beside;
    var kids := KidsAt(t, q);
    if i == |kids| {
      LiveUnfolded(t, p, q, i, 0);
      CopiedNothing(t, p, kids);
      steps := 1;
    } else {
      var k := kids[i];
      BesideRound(t, p, q, i);
      assert k in kids;
      var placed := Placed(t, p, q, i);
      var a := BesideIsPlain(placed, p + [k.name], q + [k.name], 0);
      Seqs.Whole(k.kids);
      var b := BesideIsPlain(CopyKids(placed, p + [k.name], k.kids), p, q, i + 1);
      steps := RoundReturns(t, p, q, i, a, b);
    }
  }

  /** One round beside the source. */
  lemma BesideRound(t: Tree, p: Path, q: Path, i: nat)
    requires Has(t, p) && Has(t, q) && Beside(p, q) && AllDistinct(t) && i < |KidsAt(t, q)|
    ensures var k, placed := KidsAt(t, q)[i], Placed(t, p, q, i);
      && Beside(p + [k.name], q + [k.name]) && AllDistinct(placed) && Get(placed, q + [k.name]) == Some(k)
      && var deep := CopyKids(placed, p + [k.name], k.kids);
         Get(deep, q) == Get(t, q) && Has(deep, p) && AllDistinct(deep) &&
         CopyKids(t, p, KidsAt(t, q)[i..]) == CopyKids(deep, p, KidsAt(t, q)[i + 1..])
  {
    hide CopyKids, Place, AllDistinct;
    var k := KidsAt(t, q)[i];
    PlacedIs(t, p, q, i);
    var placed := Placed(t, p, q, i);
    KidIs(t, q, i);
    BesideKid(p, q, k.name);
    BesideKid(q, p, k.name);
    TwoBeside(p, q, k.name);
    PlaceBeside(t, p, k.name, Unlinked(k.data), q);
    PlaceBeside(t, p, k.name, Unlinked(k.data), q + [k.name]);
    DistinctPlaced(t, p, k.name, Unlinked(k.data));
    CopyBeside(placed, p + [k.name], k.kids, q);
    CopyKeeps(placed, p + [k.name], k.kids, p);
    DistinctCopied(placed, p + [k.name], k.kids);
    CopiedRest(t, p, KidsAt(t, q), i);
  }

  lemma PlacedIs(t: Tree, p: Path, q: Path, i: nat)
    requires Has(t, p) && Has(t, q) && i < |KidsAt(t, q)|
    ensures Placed(t, p, q, i) == Place(t, p, KidsAt(t, q)[i].name, Unlinked(KidsAt(t, q)[i].data))
  {
  }

  lemma CopiedNothing(t: Tree, p: Path, kids: seq<Tree>)
    requires Has(t, p)
    ensures CopyKids(t, p, kids[|kids|..]) == t
  {
    assert kids[|kids|..] == [];
  }

  lemma CopiedRest(t: Tree, p: Path, kids: seq<Tree>, i: nat)
    requires Has(t, p) && i < |kids|
    ensures var k := kids[i];
      var placed := Place(t, p, k.name, Unlinked(k.data));
      Has(placed, p + [k.name]) && var deep := CopyKids(placed, p + [k.name], k.kids);
      Has(deep, p) && CopyKids(t, p, kids[i..]) == CopyKids(deep, p, kids[i + 1..])
  {
    var k := kids[i];
    PlaceShallow(t, p, k.name, Unlinked(k.data), p);
    PlaceShallow(t, p, k.name, Unlinked(k.data), p + [k.name]);
    CopyKeeps(Place(t, p, k.name, Unlinked(k.data)), p + [k.name], k.kids, p);
    assert kids[i..][0] == k && kids[i..][1..] == kids[i + 1..];
  }

  lemma TwoBeside(p: Path, q: Path, c: string)
    requires Beside(p, q)
    ensures Beside(p + [c], q + [c])
  {
    BesideKid(p, q, c);
    BesideKid(p + [c], q, c);
  }

  // ---- everywhere else it comes to an end -------------------------------------------------------

  /** All nodes at `q` or below it are among these places. */
  ghost predicate Inside(t: Tree, q: Path, places: set<Path>)
  {
    forall x :: q <= x && Has(t, x) ==> x in places
  }

  /** What the copy of one of the places makes is one of them again, if it is in the source. */
  ghost predicate Closed(p: Path, q: Path, places: set<Path>)
  {
    forall z {:trigger q + z} :: q + z in places && q <= p + z ==> p + z in places
  }

  ghost function Under(places: set<Path>, s: Path): set<Path>
  {
    set x | x in places && s < x
  }

  lemma FewerUnder(places: set<Path>, s: Path, c: string)
    requires s + [c] in places
    ensures |Under(places, s + [c])| < |Under(places, s)|
  {
    var a, b := Under(places, s + [c]), Under(places, s);
    assert s < s + [c] && s + [c] in b && s + [c] !in a;
    assert forall x :: x in a ==> s < x && x in b;
    Smaller(a, b);
  }

  lemma Smaller<T>(a: set<T>, b: set<T>)
    requires a < b
    ensures |a| < |b|
  {
    assert b == a + (b - a) && b - a != {};
  }

  /** A node has no more children than there are places below it. */
  lemma {:induction false} KidsFit(t: Tree, s: Path, names: seq<string>, places: set<Path>)
    requires Distinct(names) && forall j :: 0 <= j < |names| ==> s + [names[j]] in places
    ensures |names| <= |Under(places, s)|
    decreases |names|
  {
    if names != [] {
      var n := |names| - 1;
      var last := s + [names[n]];
      var fewer := places - {last};
      forall j | 0 <= j < n
        ensures s + [names[..n][j]] in fewer
      {
        assert (s + [names[j]])[|s|] == names[j] && last[|s|] == names[n];
      }
      KidsFit(t, s, names[..n], fewer);
      assert last in Under(places, s) && last !in Under(fewer, s);
      assert Under(places, s) == Under(fewer, s) + {last};
    }
  }

  /** Two nodes that the copy from `q` to `p` comes to together. */
  ghost predicate Paired(p: Path, q: Path, p2: Path, q2: Path)
  {
    exists z {:trigger q + z} :: p2 == p + z && q2 == q + z
  }

  lemma PairedKid(p: Path, q: Path, p2: Path, q2: Path, c: string)
    requires Paired(p, q, p2, q2)
    ensures Paired(p, q, p2 + [c], q2 + [c]) && q <= q2 + [c]
  {
    var z :| p2 == p + z && q2 == q + z;
    Seqs.Assoc(p, z, [c]);
    Seqs.Assoc(q, z, [c]);
    assert p2 + [c] == p + (z + [c]) && q2 + [c] == q + (z + [c]);
  }

  lemma PairedIn(p: Path, q: Path, p2: Path, q2: Path, places: set<Path>)
    requires Paired(p, q, p2, q2) && Closed(p, q, places) && q2 in places
    ensures q <= p2 ==> p2 in places
  {
    var z :| p2 == p + z && q2 == q + z;
    assert q + z in places;
  }

  lemma PlacedInside(t: Tree, p: Path, q: Path, p2: Path, q2: Path, i: nat, places: set<Path>)
    requires Has(t, p2) && Has(t, q2) && i < |KidsAt(t, q2)| && AllDistinct(t) && Paired(p, q, p2, q2)
    requires Inside(t, q, places) && Closed(p, q, places)
    ensures AllDistinct(Placed(t, p2, q2, i)) && Inside(Placed(t, p2, q2, i), q, places)
    ensures q2 + [KidsAt(t, q2)[i].name] in places
  {
    var k := KidsAt(t, q2)[i];
    PlacedIs(t, p2, q2, i);
    DistinctPlaced(t, p2, k.name, Unlinked(k.data));
    KidIs(t, q2, i);
    PairedKid(p, q, p2, q2, k.name);
    assert q2 + [k.name] in places;
    PairedIn(p, q, p2 + [k.name], q2 + [k.name], places);
    MadeInside(t, p2, k.name, Unlinked(k.data), q, places);
  }

  lemma MadeInside(t: Tree, p: Path, c: string, d: Data, q: Path, places: set<Path>)
    requires Has(t, p) && Inside(t, q, places) && (q <= p + [c] ==> p + [c] in places)
    ensures Inside(Place(t, p, c, d), q, places)
  {
    hide Place, Get;
    forall x | q <= x && Has(Place(t, p, c, d), x)
      ensures x in places
    {
      PlaceShallow(t, p, c, d, x);
    }
  }

  /** The copy of one pair of nodes, given that it may only make nodes at finitely many places. */
  lemma {:induction false} Ends(t: Tree, p: Path, q: Path, p2: Path, q2: Path, i: nat, places: set<Path>)
    returns (steps: nat)
    requires Has(t, p2) && Has(t, q2) && AllDistinct(t) && Inside(t, q, places) && Closed(p, q, places)
    requires Paired(p, q, p2, q2)
    ensures var r := Live(t, p2, q2, i, steps);
      r.Some? && AllDistinct(r.value) && Inside(r.value, q, places)
    decreases |Under(places, q2)|, if i < |KidsAt(t, q2)| then |Under(places, q2)| + 1 - i else 0
  {
    hide Live, Placed, AllDistinct, Inside, Closed, Under, KidsAt, Paired;
    Fits(t, q, p, p2, q2, places);
    if i >= |KidsAt(t, q2)| {
      LiveUnfolded(t, p2, q2, i, 0);
      steps := 1;
    } else {
      var c := KidsAt(t, q2)[i].name;
      PlacedInside(t, p, q, p2, q2, i, places);
      PairedKid(p, q, p2, q2, c);
      FewerUnder(places, q2, c);
      var a := Ends(Placed(t, p2, q2, i), p, q, p2 + [c], q2 + [c], 0, places);
      Round(t, p2, q2, i, a);
      var deep := Live(Placed(t, p2, q2, i), p2 + [c], q2 + [c], 0, a).value;
      Fits(deep, q, p, p2, q2, places);
      var b := Ends(deep, p, q, p2, q2, i + 1, places);
      steps := RoundReturns(t, p2, q2, i, a, b);
    }
  }

  lemma Fits(t: Tree, q: Path, p: Path, p2: Path, q2: Path, places: set<Path>)
    requires Has(t, q2) && AllDistinct(t) && Inside(t, q, places) && Paired(p, q, p2, q2)
    ensures |KidsAt(t, q2)| <= |Under(places, q2)|
  {
    var names := Shallow(t, q2).value.names;
    forall j | 0 <= j < |names|
      ensures q2 + [names[j]] in places
    {
      KidIs(t, q2, j);
      PairedKid(p, q, p2, q2, names[j]);
    }
    KidsFit(t, q2, names, places);
  }

  // ---- finitely many places ----------------------------------------------------------------------

  ghost function Paths(s: Tree): set<Path>
    decreases s
  {
    {[]} + set i, x | 0 <= i < |s.kids| && x in Paths(s.kids[i]) :: [s.kids[i].name] + x
  }

  lemma {:induction false} PathsAre(s: Tree, x: Path)
    requires Has(s, x)
    ensures x in Paths(s)
    decreases |x|
  {
    if x != [] {
      var i := IndexOf(s.kids, x[0]);
      PathsAre(s.kids[i], x[1..]);
      Seqs.HeadTail(x);
      assert [s.kids[i].name] + x[1..] == x;
    }
  }

  /** The nodes of the source, and all that is left of their paths once something in front has been
      taken off. */
  ghost function Places(t: Tree, q: Path): set<Path>
    requires Has(t, q)
  {
    set w, j | w in Paths(Get(t, q).value) && 0 <= j <= |w| :: q + w[j..]
  }

  lemma PlacesInside(t: Tree, q: Path)
    requires Has(t, q)
    ensures Inside(t, q, Places(t, q))
  {
    forall x | q <= x && Has(t, x)
      ensures x in Places(t, q)
    {
      var w := x[|q|..];
      assert x == q + w && w[0..] == w;
      GetAppend(t, q, w);
      PathsAre(Get(t, q).value, w);
    }
  }

  lemma PlacesClosed(t: Tree, p: Path, q: Path)
    requires Has(t, q) && !(q < p)
    ensures Closed(p, q, Places(t, q))
  {
    forall z | q + z in Places(t, q) && q <= p + z
      ensures p + z in Places(t, q)
    {
      if p != q {
        var w, j :| w in Paths(Get(t, q).value) && 0 <= j <= |w| && q + z == q + w[j..];
        var r := q[|p|..];
        Shorter(p, q, z);
        assert (q + z)[|q|..] == z && (q + w[j..])[|q|..] == w[j..];
        assert w[j + |r|..] == z[|r|..];
        assert p + z == q + w[j + |r|..];
      }
    }
  }

  lemma OneInFront(p: Path, q: Path, x: Path)
    requires p <= x && q <= x
    ensures p <= q || q <= p
  {
    assert p == x[..|p|] && q == x[..|q|];
  }

  lemma Shorter(p: Path, q: Path, z: Path)
    requires q <= p + z && !(q < p) && p != q
    ensures p < q && |q[|p|..]| <= |z| && p + z == q + z[|q[|p|..]|..]
  {
    OneInFront(p, q, p + z);
    var r := q[|p|..];
    assert q == p + r;
    assert (p + z)[|q|..] == z[|r|..];
  }

  /** A copy within one data set comes to an end exactly if the destination is not inside the source. */
  lemma ReturnsIffOutside(t: Tree, p: Path, q: Path)
    requires Has(t, p) && Has(t, q) && AllDistinct(t)
    ensures (exists steps: nat :: Live(t, p, q, 0, steps).Some?) <==> !(q < p)
  {
    hide Live;
    if q < p {
      forall steps: nat
        ensures Live(t, p, q, 0, steps).None?
      {
        IntoItself(t, p, q, steps);
      }
    } else {
      PlacesInside(t, q);
      PlacesClosed(t, p, q);
      Seqs.Empty(p);
      Seqs.Empty(q);
      assert Paired(p, q, p + [], q + []);
      var steps := Ends(t, p, q, p, q, 0, Places(t, q));
      assert Live(t, p, q, 0, steps).Some?;
    }
  }
}
