/** Removing a subtree and reordering a level, on the plain tree. */
module HdfRemove {
  import opened Options
  import opened HdfTree
  import opened HdfNames
  import opened HdfSpec

  function Without<T>(s: seq<T>, i: nat): seq<T>
    requires i < |s|
  {
    s[..i] + s[i + 1..]
  }

  /** The subtree of that path is taken out of its parent's list. */
  function RemoveAt(t: Tree, p: Path, c: string): Tree
    requires Has(t, p)
  {
    var kids := Get(t, p).value.kids;
    var i := IndexOf(kids, c);
    if i == -1 then t else SetKids(t, p, Without(kids, i))
  }

  /** `hdf_remove_tree`: links are not followed, and a missing name changes nothing. */
  function RemoveTree(t: Tree, base: Path, name: string): Tree
    requires Has(t, base)
    decreases |name|
  {
    var q := base + [Head(name)];
    if !Has(t, q) then t
    else if HasDot(name) then RemoveTree(t, q, Rest(name))
    else RemoveAt(t, base, Head(name))
  }

  /** Replacing the list of one level by another arrangement of some of the same children
      changes nothing else. */
  lemma {:induction false} SetKidsElsewhere(t: Tree, p: Path, kids: seq<Tree>, q: Path)
    requires Has(t, p) && !(p <= q)
    ensures Shallow(SetKids(t, p, kids), q) == Shallow(t, q)
  {
    GetPutOther(t, p, Get(t, p).value.(kids := kids), q);
  }

  lemma {:induction false} SetKidsBelow(t: Tree, p: Path, kids: seq<Tree>, c: string, r: Path)
    requires Has(t, p)
    requires var old_ := Get(t, p).value.kids;
      IndexOf(kids, c) != -1 && IndexOf(old_, c) != -1 &&
      kids[IndexOf(kids, c)] == old_[IndexOf(old_, c)]
    ensures Get(SetKids(t, p, kids), p + [c] + r) == Get(t, p + [c] + r)
  {
    assert p + [c] + r == p + ([c] + r);
    GetPutSame(t, p, Get(t, p).value.(kids := kids), [c] + r);
    GetAppend(t, p, [c] + r);
    assert ([c] + r)[0] == c && ([c] + r)[1..] == r;
  }

  lemma {:induction false} SetKidsAt(t: Tree, p: Path, kids: seq<Tree>)
    requires Has(t, p)
    ensures Get(SetKids(t, p, kids), p) == Some(Get(t, p).value.(kids := kids))
  {
    GetPutSame(t, p, Get(t, p).value.(kids := kids), []);
    assert p + [] == p;
  }

  lemma WithoutNames(kids: seq<Tree>, i: nat)
    requires Distinct(Names(kids)) && i < |kids|
    ensures Names(Without(kids, i)) == Without(Names(kids), i)
    ensures Distinct(Names(Without(kids, i)))
  {
    var w, n := Names(Without(kids, i)), Without(Names(kids), i);
    assert forall j :: 0 <= j < |w| ==> w[j] == n[j];
  }

  lemma WithoutOther(kids: seq<Tree>, i: nat, j: nat)
    requires Distinct(Names(kids)) && i < |kids| && j < |kids| && i != j
    ensures var w, k := Without(kids, i), if j < i then j else j - 1;
      w[k] == kids[j] && IndexOf(w, kids[j].name) == k
  {
    WithoutNames(kids, i);
    IndexUnique(Without(kids, i), if j < i then j else j - 1);
  }

  lemma WithoutMiss(kids: seq<Tree>, i: nat, c: string)
    requires Distinct(Names(kids)) && i < |kids|
    requires c == kids[i].name || c !in Names(kids)
    ensures IndexOf(Without(kids, i), c) == -1
  {
    var w, names := Without(kids, i), Names(kids);
    assert forall j :: 0 <= j < |w| ==> w[j] == kids[if j < i then j else j + 1];
    assert forall j :: 0 <= j < |kids| ==> kids[j].name == names[j];
  }

  lemma WithoutIndex(kids: seq<Tree>, i: nat, c: string)
    requires Distinct(Names(kids)) && i < |kids|
    ensures c == kids[i].name ==> IndexOf(Without(kids, i), c) == -1
    ensures c != kids[i].name ==>
      (IndexOf(Without(kids, i), c) == -1 <==> IndexOf(kids, c) == -1) &&
      (IndexOf(kids, c) != -1 ==>
        Without(kids, i)[IndexOf(Without(kids, i), c)] == kids[IndexOf(kids, c)])
  {
    var b := IndexOf(kids, c);
    if c == kids[i].name || b == -1 {
      WithoutMiss(kids, i, c);
    } else {
      WithoutOther(kids, i, b);
    }
  }

  /** Exactly the named subtree is gone: nothing is left at or below its path, its parent
      lists the other children in their order, and every other place is untouched. */
  lemma {:induction false} RemoveShallow(t: Tree, p: Path, c: string, q: Path)
    requires Has(t, p) && IndexOf(Get(t, p).value.kids, c) >= 0 && Distinct(Shallow(t, p).value.names)
    ensures p + [c] <= q ==> !Has(RemoveAt(t, p, c), q)
    ensures !(p + [c] <= q) && q != p ==> Shallow(RemoveAt(t, p, c), q) == Shallow(t, q)
    ensures Shallow(RemoveAt(t, p, c), p) ==
      Some(Entry(Get(t, p).value.data, Without(Shallow(t, p).value.names, IndexOf(Get(t, p).value.kids, c))))
  {
    WithoutNames(Get(t, p).value.kids, IndexOf(Get(t, p).value.kids, c));
    var kids := Get(t, p).value.kids;
    var i := IndexOf(kids, c);
    var kids2 := Without(kids, i);
    WithoutIndex(kids, i, c);
    SetKidsAt(t, p, kids2);
    if !(p <= q) {
      SetKidsElsewhere(t, p, kids2, q);
      assert !(p + [c] <= q) by {
        assert p <= p + [c];
      }
    } else if q != p {
      RemoveBelow(t, p, c, i, q);
    }
  }

  lemma {:induction false} RemoveBelow(t: Tree, p: Path, c: string, i: nat, q: Path)
    requires Has(t, p) && Distinct(Names(Get(t, p).value.kids))
    requires i < |Get(t, p).value.kids| && Get(t, p).value.kids[i].name == c
    requires p < q
    ensures var t2 := SetKids(t, p, Without(Get(t, p).value.kids, i));
      if p + [c] <= q then !Has(t2, q) else Get(t2, q) == Get(t, q)
  {
    var kids := Get(t, p).value.kids;
    var kids2 := Without(kids, i);
    var x, r := q[|p|], q[|p| + 1..];
    assert q == p + [x] + r;
    WithoutIndex(kids, i, x);
    assert p + [c] <= q <==> x == c;
    if IndexOf(kids2, x) != -1 {
      SetKidsBelow(t, p, kids2, x, r);
    } else {
      SetKidsAt(t, p, kids2);
      GetKid(SetKids(t, p, kids2), p, x);
      NothingBelow(SetKids(t, p, kids2), p, x, r);
      GetKid(t, p, x);
      if x != c {
        NothingBelow(t, p, x, r);
      }
    }
  }

  // ---- the whole operation ----------------------------------------------------------

  ghost predicate AllDistinct(t: Tree)
  {
    forall q :: Has(t, q) ==> Distinct(Shallow(t, q).value.names)
  }

  /** The node at `q` keeps its data and has lost exactly the child `c`. */
  ghost predicate OneTakenOut(t: Tree, r: Tree, q: Path, c: string)
    requires Has(t, q) && Has(r, q)
  {
    && Get(r, q).value.data == Get(t, q).value.data
    && exists i :: 0 <= i < |Shallow(t, q).value.names| &&
         Shallow(t, q).value.names[i] == c &&
         Shallow(r, q).value.names == Without(Shallow(t, q).value.names, i)
  }

  lemma PathSplit(base: Path, name: string)
    ensures var target := base + Components(name);
      base + Components(name) ==
        (if HasDot(name) then base + [Head(name)] + Components(Rest(name)) else base + [Head(name)])
  {
    assert !HasDot(name) ==> Head(name) == name;
  }

  /** Removing a name takes out exactly the subtree at the path it spells, for every tree and
      every name: what lies at or below that path is gone, its parent keeps its other children
      in order, all else is as it was; and a name that leads nowhere changes nothing. */
  lemma {:induction false} RemoveTreeExactly(t: Tree, base: Path, name: string, q: Path)
    requires Has(t, base) && AllDistinct(t)
    ensures var target, r := base + Components(name), RemoveTree(t, base, name);
      var parent := target[..|target| - 1];
      if !Has(t, target) then r == t
      else
        (target <= q ==> !Has(r, q)) &&
        (!(target <= q) && q != parent ==> Shallow(r, q) == Shallow(t, q)) &&
        (q == parent ==> Has(t, q) && Has(r, q) && OneTakenOut(t, r, q, target[|target| - 1]))
    decreases |name|
  {
    hide RemoveTree, OneTakenOut, Shallow;
    var at := base + [Head(name)];
    PathSplit(base, name);
    RemoveUnfolded(t, base, name);
    if !HasDot(name) {
      if Has(t, at) {
        RemoveOne(t, base, Head(name), q);
      }
    } else if Has(t, at) {
      RemoveTreeExactly(t, at, Rest(name), q);
    } else {
      GetAppend(t, at, Components(Rest(name)));
    }
  }

  lemma RemoveUnfolded(t: Tree, base: Path, name: string)
    requires Has(t, base)
    ensures var q := base + [Head(name)];
      RemoveTree(t, base, name) ==
        if !Has(t, q) then t else if HasDot(name) then RemoveTree(t, q, Rest(name)) else RemoveAt(t, base, Head(name))
  {
  }

  lemma RemoveOne(t: Tree, base: Path, c: string, q: Path)
    requires Has(t, base) && Has(t, base + [c]) && AllDistinct(t)
    ensures var target, r := base + [c], RemoveAt(t, base, c);
      target[..|target| - 1] == base && target[|target| - 1] == c &&
      (target <= q ==> !Has(r, q)) &&
      (!(target <= q) && q != base ==> Shallow(r, q) == Shallow(t, q)) &&
      Has(r, base) && OneTakenOut(t, r, base, c)
  {
    hide RemoveAt;
    var at := base + [c];
    assert at[..|at| - 1] == base;
    GetKid(t, base, c);
    RemoveShallow(t, base, c, q);
    RemoveShallow(t, base, c, base);
    var i := IndexOf(Get(t, base).value.kids, c);
    assert Shallow(t, base).value.names[i] == c;
  }

  // ---- reordering a level -----------------------------------------------------------

  /** A comparison function is handed two nodes and can read all that is below them. */
  type Order = (Tree, Tree) -> bool

  ghost predicate IsOrder(le: Order)
  {
    (forall a, b :: le(a, b) || le(b, a)) && (forall a, b, c :: le(a, b) && le(b, c) ==> le(a, c))
  }

  ghost predicate OrderedLevel(kids: seq<Tree>, le: Order)
  {
    forall i, j :: 0 <= i < j < |kids| ==> le(kids[i], kids[j])
  }

  ghost predicate IsReordering(names: seq<string>, kids: seq<Tree>)
  {
    |names| == |kids| && Distinct(names) && Distinct(Names(kids)) &&
    forall i :: 0 <= i < |names| ==> names[i] in Names(kids)
  }

  /** The same children in the order of `names`. */
  ghost function Reordered(kids: seq<Tree>, names: seq<string>): (r: seq<Tree>)
    requires IsReordering(names, kids)
    ensures |r| == |kids| && Names(r) == names
    ensures forall i :: 0 <= i < |r| ==> r[i] in kids && r[i] == kids[IndexOf(kids, names[i])]
  {
    seq(|names|, i requires 0 <= i < |names| =>
      assert IndexOf(kids, names[i]) != -1;
      kids[IndexOf(kids, names[i])])
  }

  ghost function Reorder(t: Tree, p: Path, names: seq<string>): Tree
    requires Has(t, p) && IsReordering(names, Get(t, p).value.kids)
  {
    SetKids(t, p, Reordered(Get(t, p).value.kids, names))
  }

  /** The level has been put into an order that `le` allows, and nothing else has changed. */
  ghost predicate Arranged(t: Tree, p: Path, names: seq<string>, le: Order, t2: Tree)
    requires Has(t, p)
  {
    IsReordering(names, Get(t, p).value.kids) && t2 == Reorder(t, p, names) &&
    OrderedLevel(Reordered(Get(t, p).value.kids, names), le)
  }

  /** A duplicate-free list of as many names as there are children leaves none out. */
  lemma ReorderingCovers(names: seq<string>, kids: seq<Tree>, c: string)
    requires IsReordering(names, kids)
    ensures c in names <==> c in Names(kids)
  {
    var a, b := set i | 0 <= i < |names| :: names[i], set i | 0 <= i < |kids| :: Names(kids)[i];
    CardinalityOfDistinct(names);
    CardinalityOfDistinct(Names(kids));
    assert a <= b;
    SubsetOfSameSize(a, b);
    assert c in names <==> c in a;
    assert c in Names(kids) <==> c in b;
  }

  lemma {:induction false} CardinalityOfDistinct(names: seq<string>)
    requires Distinct(names)
    ensures |set i | 0 <= i < |names| :: names[i]| == |names|
  {
    var a := set i | 0 <= i < |names| :: names[i];
    if names == [] {
      assert a == {};
    } else {
      var n := |names| - 1;
      CardinalityOfDistinct(names[..n]);
      var b := set i | 0 <= i < |names[..n]| :: names[..n][i];
      assert a == b + {names[n]};
      assert names[n] !in b;
    }
  }

  lemma SubsetOfSameSize(a: set<string>, b: set<string>)
    requires a <= b && |a| == |b|
    ensures a == b
  {
    assert |b - a| == |b| - |a|;
    assert b - a == {};
  }

  /** Sorting a level changes nothing but the order of that level's names. */
  lemma {:induction false} ReorderShallow(t: Tree, p: Path, names: seq<string>, q: Path)
    requires Has(t, p) && IsReordering(names, Get(t, p).value.kids)
    ensures Shallow(Reorder(t, p, names), q) ==
            if q == p then Some(Entry(Get(t, p).value.data, names)) else Shallow(t, q)
    ensures !(q <= p) ==> Get(Reorder(t, p, names), q) == Get(t, q)
  {
    hide Reordered, IndexOf;
    var kids := Get(t, p).value.kids;
    var kids2 := Reordered(kids, names);
    SetKidsAt(t, p, kids2);
    if !(p <= q) {
      GetPutOther(t, p, Get(t, p).value.(kids := kids2), q);
    } else if q != p {
      var x, r := q[|p|], q[|p| + 1..];
      assert q == p + [x] + r;
      ReorderingCovers(names, kids, x);
      if IndexOf(kids2, x) != -1 {
        SameChild(kids, names, x);
        SetKidsBelow(t, p, kids2, x, r);
      } else {
        GetKid(Reorder(t, p, names), p, x);
        NothingBelow(Reorder(t, p, names), p, x, r);
        GetKid(t, p, x);
        NothingBelow(t, p, x, r);
      }
    }
  }

  /** The child of that name is the same child, wherever it stands now. */
  lemma {:induction false} SameChild(kids: seq<Tree>, names: seq<string>, x: string)
    requires IsReordering(names, kids) && IndexOf(Reordered(kids, names), x) != -1
    ensures IndexOf(kids, x) != -1
    ensures Reordered(kids, names)[IndexOf(Reordered(kids, names), x)] == kids[IndexOf(kids, x)]
  {
    var kids2 := Reordered(kids, names);
    var j := IndexOf(kids2, x);
    assert Names(kids2)[j] == names[j] == x;
  }
}
