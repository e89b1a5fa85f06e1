/** What printing and reading does to the trees that it does not give back. */
module HdfNormal {
  import Seqs
  import opened Options
  import opened HdfTree
  import opened HdfLex
  import opened HdfDump
  import opened HdfRead
  import opened HdfRoundTrip
  import opened HdfRoundTripDotted

  function EndedLine(v: string): string
  {
    if v != "" && v[|v| - 1] != '\n' then v + "\n" else v
  }

  /** A multi-line value gains a final newline and is no link any more; a node without a value
      keeps neither attributes nor a link flag. */
  function NormalData(d: Data): Data
  {
    match d.value
    case None => EmptyData
    case Some(v) => if '\n' in v then Data(Some(EndedLine(v)), false, d.attrs) else d
  }

  function Normal(kids: seq<Tree>): (r: seq<Tree>)
    ensures |r| == |kids|
    decreases kids
  {
    if kids == [] then []
    else [Tree(kids[0].name, NormalData(kids[0].data), Normal(kids[0].kids))] + Normal(kids[1..])
  }

  lemma EndedLinePart(v: string, link: bool)
    requires '\n' in v
    ensures '\n' in EndedLine(v) && ValuePart(EndedLine(v), false) == ValuePart(v, link)
  {
    if v[|v| - 1] != '\n' {
      assert EndedLine(v)[|v|] == '\n';
      assert " << EOM\n" + (v + "\n") + "EOM\n" == " << EOM\n" + v + "\nEOM\n";
    } else {
      assert EndedLine(v) == v;
    }
  }

  lemma NormalValueText(prefix: Option<string>, name: string, d: Data, fmt: Format, lvl: nat)
    ensures ValueText(prefix, name, NormalData(d), fmt, lvl) == ValueText(prefix, name, d, fmt, lvl)
  {
    if d.value.Some? && '\n' in d.value.value {
      EndedLinePart(d.value.value, d.link);
    }
  }

  /** A tree and its normal form are printed alike. */
  lemma {:induction false} NormalText(kids: seq<Tree>, prefix: Option<string>, fmt: Format, lvl: nat)
    ensures Dump(Normal(kids), prefix, fmt, lvl) == Dump(kids, prefix, fmt, lvl)
    decreases kids, 0
  {
    if kids != [] {
      NormalHead(kids);
      hide Dump, Normal;
      DumpUnfolded(kids, prefix, fmt, lvl);
      DumpUnfolded(Normal(kids), prefix, fmt, lvl);
      NormalValueText(prefix, kids[0].name, kids[0].data, fmt, lvl);
      NormalBlockText(kids[0], prefix, fmt, lvl);
      NormalText(kids[1..], prefix, fmt, lvl);
    }
  }

  function NormalOne(k: Tree): Tree
  {
    Tree(k.name, NormalData(k.data), Normal(k.kids))
  }

  lemma NormalHead(kids: seq<Tree>)
    requires kids != []
    ensures Normal(kids) != [] && Normal(kids)[0] == NormalOne(kids[0]) && Normal(kids)[1..] == Normal(kids[1..])
  {
  }

  lemma {:induction false} NormalBlockText(k: Tree, prefix: Option<string>, fmt: Format, lvl: nat)
    ensures BlockText(NormalOne(k), prefix, fmt, lvl) == BlockText(k, prefix, fmt, lvl)
    decreases k, 1
  {
    hide Dump;
    NormalText(k.kids, Some(Below(prefix, k.name)), fmt, lvl + 1);
    NormalText(k.kids, Some(k.name), fmt, lvl + 1);
  }

  /** Whatever is printed, the normal form is read, in every format, without the nodes that nothing
      is printed for; and the tree comes back as it was exactly if it is printable. */
  lemma {:induction false} ReadsNormal(kids: seq<Tree>, fmt: Format, strict: bool, fuel: nat)
    requires Legible(Normal(kids))
    ensures var r := ReadText(EmptyRoot, [], Dump(kids, None, fmt, 0), strict, fuel);
      r == Read(Tree("", EmptyData, Back(Normal(kids), fmt)), "") &&
      (r == Read(Tree("", EmptyData, kids), "") <==> Printable(kids))
  {
    NormalText(kids, None, fmt, 0);
    ReadsLegible(Normal(kids), fmt, strict, fuel);
    BackIsSame(Normal(kids), fmt);
    if Printable(kids) {
      LegibleTreeIsNormal(kids);
    }
    if Back(Normal(kids), fmt) == kids {
      BackOfNormal(kids, fmt);
    }
  }

  lemma {:induction false} LegibleTreeIsNormal(kids: seq<Tree>)
    requires Legible(kids)
    ensures Normal(kids) == kids
    decreases kids
  {
    if kids != [] {
      LegibleRest(kids);
      LegibleIsNormal(kids[0].data);
      hide Legible, LegibleData;
      LegibleTreeIsNormal(kids[0].kids);
      LegibleTreeIsNormal(kids[1..]);
      Seqs.HeadTail(kids);
    }
  }

  lemma LegibleIsNormal(d: Data)
    requires LegibleData(d)
    ensures NormalData(d) == d
  {
  }

  /** Only a normal form comes back from its own text. */
  lemma {:induction false} BackOfNormal(kids: seq<Tree>, fmt: Format)
    requires Back(Normal(kids), fmt) == kids
    ensures Normal(kids) == kids
    decreases kids, 0
  {
    if kids != [] {
      var n := Normal(kids);
      assert n[1..] == Normal(kids[1..]) && n[0] == Tree(kids[0].name, NormalData(kids[0].data), Normal(kids[0].kids));
      BackShorter(n[1..], fmt);
      OneOrNone(n[0], fmt);
      var one, more := BackOne(n[0], fmt), Back(n[1..], fmt);
      assert one + more == kids;
      assert |one| == 1 && one[0] == kids[0] && more == kids[1..];
      BackOfNormal(kids[1..], fmt);
      BackOfNormal(kids[0].kids, fmt);
      NormalDataBack(kids[0].data);
      assert kids == [kids[0]] + kids[1..];
    }
  }

  lemma NormalDataBack(d: Data)
    requires BackData(NormalData(d)) == d
    ensures NormalData(d) == d
  {
    BareReadIsIdentity(d.attrs);
  }

  /** A tree whose normal form is legible never needs a random terminator. */
  lemma {:induction false} NormalIsDumpable(kids: seq<Tree>)
    requires Legible(Normal(kids))
    ensures Dumpable(kids)
    decreases kids
  {
    forall i | 0 <= i < |kids|
      ensures Dumpable(kids[i].kids)
      ensures kids[i].data.value.Some? && '\n' in kids[i].data.value.value ==> AcceptsEom(kids[i].data.value.value)
    {
      NormalAt(kids, i);
      assert LegibleData(Normal(kids)[i].data) && Legible(Normal(kids)[i].kids);
      NormalIsDumpable(kids[i].kids);
      if kids[i].data.value.Some? && '\n' in kids[i].data.value.value {
        var v := kids[i].data.value.value;
        EndedLinePart(v, false);
        PrintableAcceptsEom(EndedLine(v));
        EndedAcceptsEom(v);
      }
    }
  }

  lemma {:induction false} NormalAt(kids: seq<Tree>, i: nat)
    requires i < |kids|
    ensures Normal(kids)[i] == Tree(kids[i].name, NormalData(kids[i].data), Normal(kids[i].kids))
  {
    if i > 0 {
      NormalAt(kids[1..], i - 1);
    }
  }

  lemma EndedAcceptsEom(v: string)
    requires AcceptsEom(EndedLine(v))
    ensures AcceptsEom(v)
  {
    var e := EndedLine(v);
    forall i: nat | i < |v|
      ensures !ClosingLineAt(v, i)
    {
      assert i + 5 <= |v| ==> e[i..i + 5] == v[i..i + 5];
      assert !ClosingLineAt(e, i);
    }
    if |v| > 5 && v[|v| - 4..] == "\nEOM" {
      assert e[|v| - 4..|v| + 1] == "\nEOM" + "\n" && "\nEOM" + "\n" == "\nEOM\n";
      assert !ClosingLineAt(e, |v| - 4);
    }
  }
}
