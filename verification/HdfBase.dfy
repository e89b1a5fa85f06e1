/** An assignment stays inside its base: it is the assignment to the tree of what is below the
    base, put back there. So links met on the way are resolved from the base, not from the top. */
module HdfBase {
  import Seqs
  import opened HdfTree
  import opened HdfNames
  import opened HdfSpec
  import opened HdfCopy
  import opened HdfRemove

  /** What is below the node at `base`, as a tree of its own. */
  function Below(t: Tree, base: Path): Tree
    requires Has(t, base)
  {
    Node(Get(t, base).value.kids)
  }

  function PutBack(t: Tree, base: Path, r: SetResult): SetResult
    requires Has(t, base)
  {
    match r
    case Done(u, q) => Done(SetKids(t, base, u.kids), base + q)
    case EmptyComponent(u) => EmptyComponent(SetKids(t, base, u.kids))
    case Aborted => Aborted
  }

  lemma PlaceInside(t: Tree, base: Path, kids: seq<Tree>, p: Path)
    requires Has(t, base)
    ensures var tt := SetKids(t, base, kids);
      Has(tt, base) && (Has(tt, base + p) <==> Has(Node(kids), p)) &&
      (p != [] ==> Get(tt, base + p) == Get(Node(kids), p)) &&
      (Has(tt, base + p) ==> Get(tt, base + p).value.kids == Get(Node(kids), p).value.kids)
  {
    SetKidsAt(t, base, kids);
    GetAppend(SetKids(t, base, kids), base, p);
    assert p != [] ==> Get(Get(t, base).value.(kids := kids), p) == Get(Node(kids), p);
  }

  /** A replacement below the base is a replacement of the children there. */
  lemma PutInside(t: Tree, base: Path, kids: seq<Tree>, p: Path, s: Tree)
    requires Has(t, base) && p != [] && Has(Node(kids), p)
    ensures var tt := SetKids(t, base, kids);
      Has(tt, base + p) && Put(tt, base + p, s) == SetKids(t, base, Put(Node(kids), p, s).kids)
  {
    var tt, b := SetKids(t, base, kids), Get(t, base).value;
    PlaceInside(t, base, kids, p);
    SetKidsAt(t, base, kids);
    PutNested(tt, base, p, s);
    var b2 := Put(b.(kids := kids), p, s);
    assert b2 == b.(kids := Put(Node(kids), p, s).kids);
    PutPut(t, base, b.(kids := kids), b2);
  }

  lemma AddInside(t: Tree, base: Path, kids: seq<Tree>, p: Path, k: Tree)
    requires Has(t, base) && Has(Node(kids), p)
    ensures var tt, u := SetKids(t, base, kids), AddKid(Node(kids), p, k);
      Has(tt, base + p) && AddKid(tt, base + p, k) == SetKids(t, base, u.kids) && u == Node(u.kids)
  {
    hide IndexOf, Names;
    var tt, b := SetKids(t, base, kids), Get(t, base).value;
    PlaceInside(t, base, kids, p);
    if p == [] {
      Seqs.Empty(base);
      SetKidsAt(t, base, kids);
      PutPut(t, base, b.(kids := kids), b.(kids := kids + [k]));
    } else {
      var s := Get(tt, base + p).value;
      PutInside(t, base, kids, p, s.(kids := s.kids + [k]));
    }
  }

  lemma DataInside(t: Tree, base: Path, kids: seq<Tree>, p: Path, d: Data)
    requires Has(t, base) && Has(Node(kids), p) && p != []
    ensures var tt := SetKids(t, base, kids);
      Has(tt, base + p) && SetData(tt, base + p, d) == SetKids(t, base, SetData(Node(kids), p, d).kids)
  {
    PlaceInside(t, base, kids, p);
    PutInside(t, base, kids, p, Get(Node(kids), p).value.(data := d));
  }

  /** Whatever the children at the base are: the assignment only sees and changes what is below. */
  lemma {:induction false} StepsInside(t: Tree, base: Path, kids: seq<Tree>, p: Path, n: string, d: Data, f: nat)
    requires Has(t, base) && Has(Node(kids), p)
    ensures var tt := SetKids(t, base, kids);
      Has(tt, base) && Has(tt, base + p) &&
      SetSteps(tt, base, base + p, n, d, f) == PutBack(t, base, SetSteps(Node(kids), [], p, n, d, f))
    decreases f, |n|, 1
  {
    PlaceInside(t, base, kids, p);
    PlaceInside(t, base, kids, p + [Head(n)]);
    Seqs.Assoc(base, p, [Head(n)]);
    if Head(n) != "" && !Has(Node(kids), p + [Head(n)]) {
      NewInside(t, base, kids, p, n, d, f);
    } else if Head(n) != "" {
      OldInside(t, base, kids, p, n, d, f);
    }
  }

  lemma {:induction false} OldInside(t: Tree, base: Path, kids: seq<Tree>, p: Path, n: string, d: Data, f: nat)
    requires Has(t, base) && Has(Node(kids), p) && Head(n) != "" && Has(Node(kids), p + [Head(n)])
    ensures var tt := SetKids(t, base, kids);
      Has(tt, base) && Has(tt, base + p) &&
      SetSteps(tt, base, base + p, n, d, f) == PutBack(t, base, SetSteps(Node(kids), [], p, n, d, f))
    decreases f, |n|, 0
  {
    hide SetSteps, SetValue, SetKids, Get, Node;
    var tt, u, q := SetKids(t, base, kids), Node(kids), p + [Head(n)];
    PlaceInside(t, base, kids, p);
    PlaceInside(t, base, kids, q);
    Seqs.Assoc(base, p, [Head(n)]);
    StepsUnfolded(tt, base, base + p, n, d, f);
    StepsUnfolded(u, [], p, n, d, f);
    var s := Get(u, q).value.data;
    if !HasDot(n) {
      DataInside(t, base, kids, q, Assigned(s, d));
    } else if !s.link {
      StepsInside(t, base, kids, q, Rest(n), d, f);
    } else if s.value.Some? && f > 0 {
      var again := s.value.value + "." + Rest(n);
      NameUnfolded(tt, base, again, d, f - 1);
      NameUnfolded(u, [], again, d, f - 1);
      StepsInside(t, base, kids, [], again, d, f - 1);
      Seqs.Empty(base);
    }
  }

  lemma {:induction false} NewInside(t: Tree, base: Path, kids: seq<Tree>, p: Path, n: string, d: Data, f: nat)
    requires Has(t, base) && Has(Node(kids), p) && Head(n) != "" && !Has(Node(kids), p + [Head(n)])
    ensures var tt := SetKids(t, base, kids);
      Has(tt, base) && Has(tt, base + p) &&
      SetSteps(tt, base, base + p, n, d, f) == PutBack(t, base, SetSteps(Node(kids), [], p, n, d, f))
    decreases f, |n|, 0
  {
    var tt, u, q := SetKids(t, base, kids), Node(kids), p + [Head(n)];
    var k := Tree(Head(n), if HasDot(n) then EmptyData else d, []);
    PlaceInside(t, base, kids, p);
    PlaceInside(t, base, kids, q);
    Seqs.Assoc(base, p, [Head(n)]);
    NewUnfolded(tt, base, base + p, n, d, f);
    NewUnfolded(u, [], p, n, d, f);
    AddInside(t, base, kids, p, k);
    if HasDot(n) {
      hide SetSteps, SetValue, SetKids, Get;
      StepsInside(t, base, AddKid(u, p, k).kids, q, Rest(n), d, f);
    }
  }

  /** An assignment from any node is the assignment to what is below it, put back there. */
  lemma SetInside(t: Tree, base: Path, name: string, d: Data, f: nat)
    requires Has(t, base) && name != ""
    ensures SetValue(t, base, name, d, f) == PutBack(t, base, SetValue(Below(t, base), [], name, d, f))
  {
    StepsInside(t, base, Get(t, base).value.kids, [], name, d, f);
    SetKidsSame(t, base);
    Seqs.Empty(base);
  }

  /** The same for setting one child. */
  lemma PlaceBelow(t: Tree, base: Path, q: Path, c: string, d: Data)
    requires Has(t, base) && Has(Below(t, base), q)
    ensures Has(t, base + q)
    ensures Place(t, base + q, c, d) == SetKids(t, base, Place(Below(t, base), q, c, d).kids)
  {
    var kids, x := Get(t, base).value.kids, q + [c];
    SetKidsSame(t, base);
    PlaceInside(t, base, kids, q);
    PlaceInside(t, base, kids, x);
    Seqs.Assoc(base, q, [c]);
    if Has(Node(kids), x) {
      DataInside(t, base, kids, x, Assigned(Get(Node(kids), x).value.data, d));
    } else {
      AddInside(t, base, kids, q, Tree(c, d, []));
    }
  }
}
