/** The dotted format rebuilds the same tree by assignments with long names, where the nested
    ones use blocks. */
module HdfRoundTripDotted {
  import Seqs
  import opened Options
  import opened HdfTree
  import opened HdfNames
  import opened HdfSpec
  import opened HdfRemove
  import opened HdfCopy
  import opened HdfLex
  import opened HdfLine
  import opened HdfDump
  import opened HdfRead
  import opened HdfRoundTrip
  import opened HdfWays

  // ---- dotted names -----------------------------------------------------------------

  ghost predicate Spellable(path: Path)
  {
    forall i :: 0 <= i < |path| ==> PrintableName(path[i])
  }

  lemma SpellableComponents(path: Path)
    requires Spellable(path)
    ensures AllComponents(path)
  {
    forall i | 0 <= i < |path|
      ensures IsComponent(path[i])
    {
      NameIsLabel(path[i]);
    }
  }

  lemma {:induction false} JoinIsLabel(path: Path)
    requires path != [] && Spellable(path)
    ensures IsLabel(Join(path))
    decreases |path|
  {
    if |path| > 1 {
      JoinIsLabel(path[1..]);
    }
  }

  /** Making an empty node first makes no difference to an assignment that passes through it. */
  lemma {:induction false} MadeOnTheWay(t: Tree, base: Path, p: Path, c: string, rest: string, d: Data, fuel: nat)
    requires Has(t, base) && Has(t, p) && !Has(t, p + [c]) && IsComponent(c)
    ensures var t1 := AddKid(t, p, Tree(c, EmptyData, []));
      Has(t1, base) && Has(t1, p) &&
      SetSteps(t, base, p, c + "." + rest, d, fuel) == SetSteps(t1, base, p, c + "." + rest, d, fuel)
  {
    var k := Tree(c, EmptyData, []);
    DotOfHead(c, rest);
    AddKidShallow(t, p, k, base);
    AddKidShallow(t, p, k, p);
    AddKidShallow(t, p, k, p + [c]);
  }

  // ---- labels -----------------------------------------------------------------------

  function PrefixOf(path: Path): Option<string>
  {
    if path == [] then None else Some(Join(path))
  }

  lemma LabelOf(path: Path, c: string, lvl: nat)
    ensures Label(PrefixOf(path), c, Dotted, lvl) == Join(path + [c])
    ensures Some(Below(PrefixOf(path), c)) == PrefixOf(path + [c])
  {
    if path == [] {
      assert path + [c] == [c];
      Seqs.Empty(c);
    } else {
      JoinSnoc(path, c);
    }
  }

  /** Assigning to a child of the node at the end of a clear way. */
  lemma SetAtLabel(t: Tree, base: Path, path: Path, c: string, d: Data, fuel: nat)
    requires ClearWay(t, base, path) && Spellable(path) && PrintableName(c)
    ensures Has(t, base) && Has(t, base + path)
    ensures SetValue(t, base, Join(path + [c]), d, fuel) == Done(Place(t, base + path, c, d), base + path + [c])
  {
    ClearEnds(t, base, path);
    NameIsLabel(c);
    DotOfHead(c, "");
    if path == [] {
      assert path + [c] == [c] && base + path == base;
      SetSingle(t, base, c, d, fuel);
    } else {
      JoinSnoc(path, c);
      SpellableComponents(path);
      SetAlong(t, base, base, path, c, d, fuel);
    }
  }

  ghost function WithEmpty(t: Tree, p: Path, c: string): (r: Tree)
    requires Has(t, p)
  {
    AddKid(t, p, Tree(c, EmptyData, []))
  }

  lemma WithEmptyClear(t: Tree, base: Path, path: Path, c: string)
    requires ClearWay(t, base, path) && Has(t, base + path) && !Has(t, base + path + [c])
    ensures ClearWay(WithEmpty(t, base + path, c), base, path)
  {
    var t1 := WithEmpty(t, base + path, c);
    forall i | 0 <= i <= |path|
      ensures Has(t1, base + path[..i]) && (i > 0 ==> !Get(t1, base + path[..i]).value.data.link)
    {
      AddKidShallow(t, base + path, Tree(c, EmptyData, []), base + path[..i]);
    }
  }

  /** A label that passes through a node still to be made sets the same thing whether or not
      the node has been made. */
  lemma SetThroughMissing(t: Tree, base: Path, path: Path, c: string, tail: Path, d: Data, fuel: nat)
    requires ClearWay(t, base, path) && Spellable(path) && PrintableName(c) && tail != []
    requires Has(t, base + path) && !Has(t, base + path + [c]) && Has(t, base)
    ensures var t1, spelled := WithEmpty(t, base + path, c), Join(path + [c] + tail);
      Has(t1, base) && SetValue(t, base, spelled, d, fuel) == SetValue(t1, base, spelled, d, fuel)
  {
    var t1, rest := WithEmpty(t, base + path, c), Join(tail);
    NameIsLabel(c);
    MadeOnTheWay(t, base, base + path, c, rest, d, fuel);
    JoinSplit(path + [c], tail);
    if path == [] {
      assert path + [c] == [c] && base + path == base;
    } else {
      JoinSnoc(path, c);
      Dots(Join(path), c, rest);
      WithEmptyClear(t, base, path, c);
      SpellableComponents(path);
      SetAlong(t, base, base, path, c + "." + rest, d, fuel);
      SetAlong(t1, base, base, path, c + "." + rest, d, fuel);
    }
  }

  // ---- the dotted dump --------------------------------------------------------------

  lemma SpellableMore(path: Path, c: string)
    requires Spellable(path) && PrintableName(c)
    ensures Spellable(path + [c])
  {
  }

  /** The value line of one child under its dotted label. */
  lemma ReadLabel(t: Tree, base: Path, path: Path, c: string, d: Data, lvl: nat, y: string, strict: bool, fuel: nat)
    requires Has(t, base) && Spellable(path) && PrintableName(c) && LegibleData(d) && d.value.Some?
    ensures var r := SetValue(t, base, Join(path + [c]), BackData(d), fuel);
      (r.Done? ==> Has(r.tree, base)) &&
      ReadText(t, base, ValueText(PrefixOf(path), c, d, Dotted, lvl) + y, strict, fuel)
        == Then(r, base, y, strict, fuel)
  {
    LabelOf(path, c, lvl);
    SpellableMore(path, c);
    JoinIsLabel(path + [c]);
    Seqs.Empty(Join(path + [c]));
    ReadValue(t, base, "", Join(path + [c]), d, y, strict, fuel);
  }

  /** What the text does not give back is not in the text either. */
  lemma {:induction false} NothingPrinted(kids: seq<Tree>, prefix: Option<string>, lvl: nat)
    requires Back(kids, Dotted) == []
    ensures Dump(kids, prefix, Dotted, lvl) == ""
    decreases kids
  {
    if kids != [] {
      NothingBlock(kids[0], prefix, lvl);
      NothingPrinted(kids[1..], prefix, lvl);
    }
  }

  lemma {:induction false} NothingBlock(k: Tree, prefix: Option<string>, lvl: nat)
    requires BackOne(k, Dotted) == []
    ensures k.data.value.None? && BlockText(k, prefix, Dotted, lvl) == ""
    decreases k
  {
    NothingPrinted(k.kids, Some(Below(prefix, k.name)), lvl + 1);
  }

  /** A node without a value is made by the first line below it; reading would go on in just the
      same way had it been there before. */
  lemma {:induction false} MadeByFirstLine(t: Tree, base: Path, path: Path, c: string, deeper: Path, kids: seq<Tree>,
                                           lvl: nat, y: string, strict: bool, fuel: nat)
    requires ClearWay(t, base, path) && Spellable(path) && PrintableName(c) && Spellable(deeper)
    requires Has(t, base + path) && !Has(t, base + path + [c]) && Has(t, base)
    requires Back(kids, Dotted) != [] && Legible(kids)
    ensures var t1 := WithEmpty(t, base + path, c);
      var s := Dump(kids, PrefixOf(path + [c] + deeper), Dotted, lvl) + y;
      Has(t1, base) && ReadText(t, base, s, strict, fuel) == ReadText(t1, base, s, strict, fuel)
    decreases kids
  {
    SomethingBack(kids);
    hide ReadText, Back, Dump;
    var k, at, t1 := kids[0], path + [c] + deeper, WithEmpty(t, base + path, c);
    var block, rest := BlockText(k, PrefixOf(at), Dotted, lvl), Dump(kids[1..], PrefixOf(at), Dotted, lvl) + y;
    LegibleRest(kids);
    DumpShape(kids, PrefixOf(at), Dotted, lvl, y);
    SpellableMore(path, c);
    MoreSpellable(path + [c], deeper);
    assert path + [c] + (deeper + [k.name]) == at + [k.name];
    if k.data.value.Some? {
      SetThroughMissing(t, base, path, c, deeper + [k.name], BackData(k.data), fuel);
      ReadLabel(t, base, at, k.name, k.data, lvl, block + rest, strict, fuel);
      ReadLabel(t1, base, at, k.name, k.data, lvl, block + rest, strict, fuel);
    } else if BackOne(k, Dotted) != [] {
      LabelOf(at, k.name, lvl);
      BlockBelow(k, PrefixOf(at), lvl);
      Seqs.Empty(block + rest);
      SpellableMore(deeper, k.name);
      MadeByFirstLine(t, base, path, c, deeper + [k.name], k.kids, lvl + 1, rest, strict, fuel);
    } else {
      NothingBlock(k, PrefixOf(at), lvl);
      Seqs.Empty(rest);
      BackRest(kids);
      MadeByFirstLine(t, base, path, c, deeper, kids[1..], lvl, y, strict, fuel);
    }
  }

  lemma SomethingBack(kids: seq<Tree>)
    requires Back(kids, Dotted) != []
    ensures kids != []
  {
  }

  lemma BlockBelow(k: Tree, prefix: Option<string>, lvl: nat)
    requires BackOne(k, Dotted) != [] && k.data.value.None?
    ensures Back(k.kids, Dotted) != []
    ensures BlockText(k, prefix, Dotted, lvl) == Dump(k.kids, Some(Below(prefix, k.name)), Dotted, lvl + 1)
  {
    hide Dump;
  }

  lemma BackRest(kids: seq<Tree>)
    requires kids != [] && BackOne(kids[0], Dotted) == []
    ensures Back(kids, Dotted) == Back(kids[1..], Dotted)
  {
    Seqs.Empty(Back(kids[1..], Dotted));
  }

  lemma MoreSpellable(a: Path, b: Path)
    requires Spellable(a) && Spellable(b)
    ensures Spellable(a + b)
  {
  }

  lemma StartedClear(t: Tree, base: Path, path: Path, before: seq<Tree>, k: Tree)
    requires ClearWay(t, base, path) && Has(t, base + path) && Get(t, base + path).value.kids == before
    requires k.name !in Names(before) && !k.data.link
    ensures var t1 := Started(t, base + path, before, k);
      ClearWay(t1, base, path + [k.name]) && ClearWay(t1, base, path) &&
      Get(t1, base + path + [k.name]) == Some(Tree(k.name, k.data, [])) &&
      SetKids(t1, base + path + [k.name], k.kids) == SetKids(t, base + path, before + [k])
  {
    hide SetKids, Get;
    var p, leaf := base + path, Tree(k.name, k.data, []);
    var t1 := Started(t, p, before, k);
    StartedAt(t, p, before, k);
    LongerPath(base, path, k.name);
    FilledClear(t, base, path, before + [leaf]);
    ClearLonger(t1, base, path, k.name);
  }

  lemma StartedAt(t: Tree, p: Path, before: seq<Tree>, k: Tree)
    requires Has(t, p) && Get(t, p).value.kids == before && k.name !in Names(before)
    ensures var t1, leaf := Started(t, p, before, k), Tree(k.name, k.data, []);
      t1 == SetKids(t, p, before + [leaf]) && Has(t1, p) && Get(t1, p + [k.name]) == Some(leaf) &&
      SetKids(t1, p + [k.name], k.kids) == SetKids(t, p, before + [k])
  {
    var leaf := Tree(k.name, k.data, []);
    FillLast(t, p, before, leaf, k.kids);
    assert leaf.(kids := k.kids) == k;
    SetKidsAt(t, p, before + [leaf]);
  }

  lemma LongerPath(base: Path, path: Path, c: string)
    ensures base + (path + [c]) == base + path + [c]
    ensures (path + [c])[..|path| + 1] == path + [c]
    ensures forall i :: 0 <= i <= |path| ==> (path + [c])[..i] == path[..i]
  {
  }

  lemma ClearLonger(t: Tree, base: Path, path: Path, c: string)
    requires ClearWay(t, base, path) && Has(t, base + path + [c]) && !Get(t, base + path + [c]).value.data.link
    ensures ClearWay(t, base, path + [c])
  {
    LongerPath(base, path, c);
    forall i | 0 <= i <= |path| + 1
      ensures Has(t, base + (path + [c])[..i])
      ensures i > 0 ==> !Get(t, base + (path + [c])[..i]).value.data.link
    {
    }
  }

  lemma KidsKeepClear(t: Tree, base: Path, path: Path, kids: seq<Tree>, i: nat)
    requires ClearWay(t, base, path) && Has(t, base + path) && i <= |path|
    ensures Has(t, base + path[..i])
    ensures DataAt(SetKids(t, base + path, kids), base + path[..i]) == Some(Get(t, base + path[..i]).value.data)
  {
    if i == |path| {
      assert path[..i] == path;
      SetKidsAt(t, base + path, kids);
    } else {
      assert |base + path[..i]| < |base + path|;
      SetKidsElsewhere(t, base + path, kids, base + path[..i]);
    }
  }

  lemma FilledClear(t: Tree, base: Path, path: Path, kids: seq<Tree>)
    requires ClearWay(t, base, path) && Has(t, base + path)
    ensures ClearWay(SetKids(t, base + path, kids), base, path)
  {
    forall i | 0 <= i <= |path|
      ensures Has(SetKids(t, base + path, kids), base + path[..i])
      ensures i > 0 ==> !Get(SetKids(t, base + path, kids), base + path[..i]).value.data.link
    {
      KidsKeepClear(t, base, path, kids, i);
    }
  }

  /** The value of a child, or the node made by the first line below it. */
  lemma {:induction false} DottedStart(t: Tree, base: Path, path: Path, before: seq<Tree>, k: Tree, lvl: nat,
                    y: string, strict: bool, fuel: nat)
    requires ClearWay(t, base, path) && Spellable(path) && LegibleKid(k) && BackOne(k, Dotted) != []
    requires Has(t, base) && Has(t, base + path) && Get(t, base + path).value.kids == before && k.name !in Names(before)
    ensures var t1 := Started(t, base + path, before, Again(k, Dotted));
      var s := BlockText(k, PrefixOf(path), Dotted, lvl) + y;
      Has(t1, base) &&
      ReadText(t, base, ValueText(PrefixOf(path), k.name, k.data, Dotted, lvl) + s, strict, fuel)
        == ReadText(t1, base, s, strict, fuel)
  {
    hide ReadText, Back, Dump;
    var p, d := base + path, BackData(k.data);
    var s := BlockText(k, PrefixOf(path), Dotted, lvl) + y;
    KidsKeepClear(t, base, path, before + [Tree(k.name, d, [])], 0);
    assert base + path[..0] == base;
    PlaceNew(t, p, before, k.name, d);
    AgainFacts(k, Dotted);
    if k.data.value.Some? {
      ReadLabel(t, base, path, k.name, k.data, lvl, s, strict, fuel);
      SetAtLabel(t, base, path, k.name, d, fuel);
    } else {
      GetKid(t, p, k.name);
      LabelOf(path, k.name, lvl);
      Seqs.Empty(s);
      assert path + [k.name] + [] == path + [k.name];
      MadeByFirstLine(t, base, path, k.name, [], k.kids, lvl + 1, y, strict, fuel);
    }
  }

  /** One child with all that is below it, or nothing at all. */
  lemma {:induction false} ReadDottedKid(t: Tree, base: Path, path: Path, before: seq<Tree>, k: Tree, lvl: nat,
                                         y: string, strict: bool, fuel: nat)
    requires ClearWay(t, base, path) && Spellable(path) && LegibleKid(k)
    requires Has(t, base) && Has(t, base + path) && Get(t, base + path).value.kids == before && k.name !in Names(before)
    ensures var t2 := SetKids(t, base + path, before + BackOne(k, Dotted));
      Has(t2, base) &&
      ReadText(t, base, ValueText(PrefixOf(path), k.name, k.data, Dotted, lvl) +
        (BlockText(k, PrefixOf(path), Dotted, lvl) + y), strict, fuel) == ReadText(t2, base, y, strict, fuel)
    decreases k, 3
  {
    hide ReadText, Back, Dump;
    AgainFacts(k, Dotted);
    if BackOne(k, Dotted) == [] {
      NothingBlock(k, PrefixOf(path), lvl);
      Seqs.Empty(y);
      Seqs.Empty(before);
      SetKidsSame(t, base + path);
    } else {
      DottedStart(t, base, path, before, k, lvl, y, strict, fuel);
      ReadDottedBlock(t, base, path, before, k, lvl, y, strict, fuel);
    }
  }

  /** All the children of the node at `base + path` that the text says something about, set by
      their dotted labels. */
  lemma {:induction false} ReadDotted(t: Tree, base: Path, path: Path, before: seq<Tree>, kids: seq<Tree>, lvl: nat,
                                      x: string, strict: bool, fuel: nat)
    requires ClearWay(t, base, path) && Spellable(path) && Legible(kids)
    requires Has(t, base) && Has(t, base + path) && Get(t, base + path).value.kids == before
    requires forall c :: c in Names(kids) ==> c !in Names(before)
    ensures var t2 := SetKids(t, base + path, before + Back(kids, Dotted));
      Has(t2, base) &&
      ReadText(t, base, Dump(kids, PrefixOf(path), Dotted, lvl) + x, strict, fuel)
        == ReadText(t2, base, x, strict, fuel)
    decreases kids, 0
  {
    var p := base + path;
    if kids == [] {
      Seqs.Empty(before);
      SetKidsSame(t, p);
      Seqs.Empty(x);
    } else {
      hide ReadText, BackOne;
      var k, y := kids[0], Dump(kids[1..], PrefixOf(path), Dotted, lvl) + x;
      var one, more := BackOne(k, Dotted), Back(kids[1..], Dotted);
      LegibleRest(kids);
      DumpShape(kids, PrefixOf(path), Dotted, lvl, x);
      OthersDisjoint(before, kids, Dotted);
      ReadDottedKid(t, base, path, before, k, lvl, y, strict, fuel);
      FilledClear(t, base, path, before + one);
      SetKidsAt(t, p, before + one);
      ReadDotted(SetKids(t, p, before + one), base, path, before + one, kids[1..], lvl, x, strict, fuel);
      SetKidsTwice(t, p, before + one, before + one + more);
      Seqs.Assoc(before, one, more);
    }
  }

  lemma {:induction false} ReadDottedBlock(t: Tree, base: Path, path: Path, before: seq<Tree>, k: Tree, lvl: nat,
                                           y: string, strict: bool, fuel: nat)
    requires ClearWay(t, base, path) && Spellable(path) && LegibleKid(k)
    requires Has(t, base) && Has(t, base + path) && Get(t, base + path).value.kids == before && k.name !in Names(before)
    ensures var k2 := Again(k, Dotted);
      var t1, t2 := Started(t, base + path, before, k2), SetKids(t, base + path, before + [k2]);
      Has(t1, base) && Has(t2, base) &&
      ReadText(t1, base, BlockText(k, PrefixOf(path), Dotted, lvl) + y, strict, fuel)
        == ReadText(t2, base, y, strict, fuel)
    decreases k, 2
  {
    hide ReadText, Back, Dump, Get, SetKids;
    var p, q, k2 := base + path, base + path + [k.name], Again(k, Dotted);
    var t1 := Started(t, p, before, k2);
    KidsKeepClear(t, base, path, before + [Tree(k.name, k2.data, [])], 0);
    KidsKeepClear(t, base, path, before + [k2], 0);
    assert base + path[..0] == base;
    AgainFacts(k, Dotted);
    if k.kids == [] {
      Seqs.Empty(y);
      assert Tree(k.name, k2.data, []) == k2;
    } else {
      StartedClear(t, base, path, before, k2);
      LabelOf(path, k.name, lvl);
      SpellableMore(path, k.name);
      assert base + (path + [k.name]) == q;
      ReadDotted(t1, base, path + [k.name], [], k.kids, lvl + 1, y, strict, fuel);
      Seqs.Empty(k2.kids);
    }
  }

  // ---- the round trip ---------------------------------------------------------------

  /** Reading the text of a legible tree into an empty data set gives back all that the text says:
      names, sibling order, values, links and attributes; in all three formats, whatever is done
      about includes. */
  lemma {:induction false} ReadsLegible(kids: seq<Tree>, fmt: Format, strict: bool, fuel: nat)
    requires Legible(kids)
    ensures ReadText(EmptyRoot, [], Dump(kids, None, fmt, 0), strict, fuel) ==
            Read(Tree("", EmptyData, Back(kids, fmt)), "")
  {
    hide ReadText, Dump, Back, Legible;
    var text := Dump(kids, None, fmt, 0);
    Seqs.Empty(text);
    Seqs.Empty(Back(kids, fmt));
    if fmt == Dotted {
      ReadDotted(EmptyRoot, [], [], [], kids, 0, "", strict, fuel);
    } else {
      ReadKids(EmptyRoot, [], [], kids, None, fmt, 0, "", strict, fuel);
    }
    ReadNothing(Tree("", EmptyData, Back(kids, fmt)), strict, fuel);
  }

  lemma ReadNothing(t: Tree, strict: bool, fuel: nat)
    ensures ReadText(t, [], "", strict, fuel) == Read(t, "")
  {
  }

  /** The text says everything about a tree exactly if no leaf is without a value and no
      attribute has the value `1`. */
  lemma {:induction false} BackIsSame(kids: seq<Tree>, fmt: Format)
    ensures Back(kids, fmt) == kids <==> Complete(kids)
    decreases kids, 0
  {
    if kids != [] {
      BackOneIsSame(kids[0], fmt);
      BackIsSame(kids[1..], fmt);
      CompleteRest(kids);
      SameParts(kids, fmt);
    }
  }

  lemma {:induction false} BackOneIsSame(k: Tree, fmt: Format)
    ensures BackOne(k, fmt) == [k] <==>
            Exact(k.data) && (k.kids == [] ==> k.data.value.Some?) && Complete(k.kids)
    decreases k, 1
  {
    hide BackData, Exact, Complete, Back;
    BackDataIsSame(k.data);
    BackIsSame(k.kids, fmt);
    NothingBack(k, fmt);
    if BackOne(k, fmt) == [k] {
      assert BackOne(k, fmt)[0] == k;
    }
  }

  lemma BackDataIsSame(d: Data)
    ensures BackData(d) == d <==> Exact(d)
  {
    hide Strip, BareReadAll;
    BareReadIsIdentity(d.attrs);
    if d.value.Some? {
      StripIsIdentity(d.value.value);
    }
  }

  lemma NothingBack(k: Tree, fmt: Format)
    ensures k.kids == [] ==> Back(k.kids, fmt) == []
  {
  }

  lemma CompleteRest(kids: seq<Tree>)
    requires kids != []
    ensures var k := kids[0];
      Complete(kids) <==>
        Exact(k.data) && (k.kids == [] ==> k.data.value.Some?) && Complete(k.kids) && Complete(kids[1..])
  {
    assert kids == [kids[0]] + kids[1..];
  }

  lemma {:induction false} BackShorter(kids: seq<Tree>, fmt: Format)
    ensures |Back(kids, fmt)| <= |kids|
    decreases kids
  {
    if kids != [] {
      BackShorter(kids[1..], fmt);
    }
  }

  lemma SameParts(kids: seq<Tree>, fmt: Format)
    requires kids != []
    ensures Back(kids, fmt) == kids <==> BackOne(kids[0], fmt) == [kids[0]] && Back(kids[1..], fmt) == kids[1..]
  {
    hide BackOne;
    BackShorter(kids[1..], fmt);
    var one, more := BackOne(kids[0], fmt), Back(kids[1..], fmt);
    assert Back(kids, fmt) == one + more;
    if one + more == kids {
      OneOrNone(kids[0], fmt);
      assert |one| == 1 && one[0] == kids[0] && more == kids[1..];
    } else if one == [kids[0]] && more == kids[1..] {
      Seqs.HeadTail(kids);
    }
  }

  lemma OneOrNone(k: Tree, fmt: Format)
    ensures |BackOne(k, fmt)| <= 1
  {
  }

  /** What is read is what was printed, for every printable tree. */
  lemma RoundTrip(kids: seq<Tree>, fmt: Format, strict: bool, fuel: nat)
    requires Printable(kids)
    ensures ReadText(EmptyRoot, [], Dump(kids, None, fmt, 0), strict, fuel) == Read(Tree("", EmptyData, kids), "")
  {
    ReadsLegible(kids, fmt, strict, fuel);
    BackIsSame(kids, fmt);
  }
}
