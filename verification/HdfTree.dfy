/** The plain ordered tree that an HDF data set stands for, addressed by the names on the
    way down. Every operation of neo_hdf.c is given its meaning on this tree; the linked
    nodes of HdfStore are proved to follow it. */
module HdfTree {
  import Seqs
  import opened Options

  type Path = seq<string>

  datatype Attr = Attr(key: string, value: string)

  /** What a node carries besides its name and its children. */
  datatype Data = Data(value: Option<string>, link: bool, attrs: seq<Attr>)

  datatype Tree = Tree(name: string, data: Data, kids: seq<Tree>)

  /** One node seen on its own: its data and the names of its children, in order. */
  datatype Entry = Entry(data: Data, names: seq<string>)

  const EmptyData := Data(None, false, [])
  const EmptyRoot := Tree("", EmptyData, [])

  function Names(kids: seq<Tree>): (r: seq<string>)
    ensures |r| == |kids| && forall i :: 0 <= i < |kids| ==> r[i] == kids[i].name
  {
    seq(|kids|, i requires 0 <= i < |kids| => kids[i].name)
  }

  ghost predicate Distinct(names: seq<string>)
  {
    forall i, j :: 0 <= i < j < |names| ==> names[i] != names[j]
  }

  lemma NameThere(kids: seq<Tree>, c: string)
    ensures c in Names(kids) <==> exists j :: 0 <= j < |kids| && kids[j].name == c
  {
    if j :| 0 <= j < |kids| && kids[j].name == c {
      assert Names(kids)[j] == c;
    }
  }

  lemma FoundIsThere(kids: seq<Tree>, c: string, i: int)
    requires -1 <= i < |kids|
    requires i >= 0 ==> kids[i].name == c
    requires i == -1 ==> forall j :: 0 <= j < |kids| ==> kids[j].name != c
    ensures i == -1 <==> c !in Names(kids)
  {
    NameThere(kids, c);
  }

  /** The first child of that name, or -1. */
  function IndexOf(kids: seq<Tree>, c: string): (i: int)
    ensures -1 <= i < |kids|
    ensures i >= 0 ==> kids[i].name == c && forall j :: 0 <= j < i ==> kids[j].name != c
    ensures i == -1 ==> forall j :: 0 <= j < |kids| ==> kids[j].name != c
    ensures i == -1 <==> c !in Names(kids)
  {
    var i :=
      if kids == [] then -1
      else if kids[0].name == c then 0
      else
        var r := IndexOf(kids[1..], c);
        if r == -1 then -1 else r + 1;
    FoundIsThere(kids, c, i);
    i
  }

  lemma IndexFound(kids: seq<Tree>, j: nat)
    requires j < |kids|
    ensures var i := IndexOf(kids, kids[j].name);
      i >= 0 && Names(kids)[i] == Names(kids)[j]
  {
    assert Names(kids)[j] == kids[j].name;
  }

  lemma OnlyOnce(names: seq<string>, i: nat, j: nat)
    requires Distinct(names) && i < |names| && j < |names| && names[i] == names[j]
    ensures i == j
  {
  }

  lemma IndexUnique(kids: seq<Tree>, j: nat)
    requires Distinct(Names(kids)) && j < |kids|
    ensures IndexOf(kids, kids[j].name) == j
  {
    hide IndexOf, Names, Distinct;
    IndexFound(kids, j);
    OnlyOnce(Names(kids), IndexOf(kids, kids[j].name), j);
  }

  function Get(t: Tree, p: Path): (r: Option<Tree>)
    ensures p == [] ==> r == Some(t)
    ensures r.Some? && p != [] ==> r.value.name == p[|p| - 1]
    decreases |p|
  {
    if p == [] then Some(t)
    else
      var i := IndexOf(t.kids, p[0]);
      if i == -1 then None else Get(t.kids[i], p[1..])
  }

  predicate Has(t: Tree, p: Path)
  {
    Get(t, p).Some?
  }

  /** The tree with the node at `p` replaced by `s`. */
  function Put(t: Tree, p: Path, s: Tree): (r: Tree)
    requires Has(t, p)
    ensures p != [] ==> r.name == t.name && r.data == t.data
    decreases |p|
  {
    if p == [] then s
    else
      var i := IndexOf(t.kids, p[0]);
      t.(kids := t.kids[i := Put(t.kids[i], p[1..], s)])
  }

  ghost function Shallow(t: Tree, p: Path): Option<Entry>
  {
    match Get(t, p)
    case None => None
    case Some(s) => Some(Entry(s.data, Names(s.kids)))
  }

  /** A replacement keeps the name, so that the place it is put at still has that path. */
  ghost predicate Fits(t: Tree, p: Path, s: Tree)
  {
    Has(t, p) && (p != [] ==> s.name == Get(t, p).value.name)
  }

  lemma {:induction false} IndexOfReplaced(kids: seq<Tree>, i: nat, s: Tree, c: string)
    requires i < |kids| && s.name == kids[i].name
    ensures IndexOf(kids[i := s], c) == IndexOf(kids, c)
  {
    var kids2 := kids[i := s];
    assert forall j :: 0 <= j < |kids| ==> kids2[j].name == kids[j].name;
  }

  lemma {:induction false} GetAppend(t: Tree, p: Path, q: Path)
    ensures Get(t, p + q) == if Has(t, p) then Get(Get(t, p).value, q) else None
  {
    if p == [] {
      assert p + q == q;
    } else {
      assert (p + q)[0] == p[0] && (p + q)[1..] == p[1..] + q;
      var i := IndexOf(t.kids, p[0]);
      if i != -1 {
        GetAppend(t.kids[i], p[1..], q);
      }
    }
  }

  lemma GetKid(t: Tree, p: Path, c: string)
    ensures Get(t, p + [c]) ==
            if Has(t, p) && IndexOf(Get(t, p).value.kids, c) != -1
            then Some(Get(t, p).value.kids[IndexOf(Get(t, p).value.kids, c)]) else None
    ensures Has(t, p + [c]) <==> Has(t, p) && c in Names(Get(t, p).value.kids)
  {
    GetAppend(t, p, [c]);
    if Has(t, p) {
      var s := Get(t, p).value;
      assert [c][1..] == [];
      var i := IndexOf(s.kids, c);
      if i != -1 {
        assert Get(s.kids[i], []) == Some(s.kids[i]);
      }
    }
  }

  lemma {:induction false} GetPutSame(t: Tree, p: Path, s: Tree, q: Path)
    requires Fits(t, p, s)
    ensures Get(Put(t, p, s), p + q) == Get(s, q)
  {
    if p == [] {
      assert p + q == q;
    } else {
      assert (p + q)[0] == p[0] && (p + q)[1..] == p[1..] + q;
      var i := IndexOf(t.kids, p[0]);
      var k := Put(t.kids[i], p[1..], s);
      FitsBelow(t, p, s);
      IndexOfReplaced(t.kids, i, k, p[0]);
      GetPutSame(t.kids[i], p[1..], s, q);
    }
  }

  lemma {:induction false} FitsBelow(t: Tree, p: Path, s: Tree)
    requires p != [] && Fits(t, p, s)
    ensures var i := IndexOf(t.kids, p[0]);
      i != -1 && (p[1..] != [] ==> Fits(t.kids[i], p[1..], s)) &&
      Has(t.kids[i], p[1..]) && Put(t.kids[i], p[1..], s).name == t.kids[i].name
  {
    var i := IndexOf(t.kids, p[0]);
    assert Get(t, p) == Get(t.kids[i], p[1..]);
  }

  lemma PrefixStep(p: Path, q: Path)
    requires p != [] && q != [] && p[0] == q[0]
    ensures p <= q <==> p[1..] <= q[1..]
  {
    assert p == [p[0]] + p[1..] && q == [q[0]] + q[1..];
  }

  lemma {:induction false} GetPutOther(t: Tree, p: Path, s: Tree, q: Path)
    requires Fits(t, p, s) && !(p <= q)
    ensures Shallow(Put(t, p, s), q) == Shallow(t, q)
    ensures !(q <= p) ==> Get(Put(t, p, s), q) == Get(t, q)
  {
    var i := IndexOf(t.kids, p[0]);
    FitsBelow(t, p, s);
    var k := Put(t.kids[i], p[1..], s);
    var r := Put(t, p, s);
    if q == [] {
      assert Names(r.kids) == Names(t.kids);
    } else {
      IndexOfReplaced(t.kids, i, k, q[0]);
      var j := IndexOf(t.kids, q[0]);
      if j == i {
        PrefixStep(p, q);
        PrefixStep(q, p);
        GetPutOther(t.kids[i], p[1..], s, q[1..]);
      }
    }
  }

  lemma {:induction false} PutPut(t: Tree, p: Path, a: Tree, b: Tree)
    requires Fits(t, p, a)
    ensures Has(Put(t, p, a), p) && Put(Put(t, p, a), p, b) == Put(t, p, b)
  {
    GetPutSame(t, p, a, []);
    assert p + [] == p;
    if p != [] {
      var i := IndexOf(t.kids, p[0]);
      FitsBelow(t, p, a);
      var k := Put(t.kids[i], p[1..], a);
      IndexOfReplaced(t.kids, i, k, p[0]);
      PutPut(t.kids[i], p[1..], a, b);
    }
  }

  lemma PutDown(t: Tree, p: Path, s: Tree)
    requires Has(t, p) && p != []
    ensures var i := IndexOf(t.kids, p[0]);
      i != -1 && Has(t.kids[i], p[1..]) && Get(t, p) == Get(t.kids[i], p[1..]) &&
      Put(t, p, s) == t.(kids := t.kids[i := Put(t.kids[i], p[1..], s)])
  {
  }

  lemma {:induction false} PutNested(t: Tree, p: Path, q: Path, s: Tree)
    requires Has(t, p + q)
    ensures Has(t, p) && Has(Get(t, p).value, q)
    ensures Put(t, p + q, s) == Put(t, p, Put(Get(t, p).value, q, s))
  {
    GetAppend(t, p, q);
    if p == [] {
      assert p + q == q;
    } else {
      Seqs.Halves(p, q);
      Seqs.TailOfSum(p, q);
      PutDown(t, p + q, s);
      PutDown(t, p, Put(Get(t, p).value, q, s));
      hide Put, Get, IndexOf;
      PutNested(t.kids[IndexOf(t.kids, p[0])], p[1..], q, s);
    }
  }

  lemma {:induction false} PutGet(t: Tree, p: Path)
    requires Has(t, p)
    ensures Put(t, p, Get(t, p).value) == t
  {
    if p != [] {
      PutGet(t.kids[IndexOf(t.kids, p[0])], p[1..]);
    }
  }
}
