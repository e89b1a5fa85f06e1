/** Reading undoes printing: the text of a printable tree, in any of the three formats, reads
    back to the same tree. */
module HdfRoundTrip {
  import Seqs
  import opened Options
  import opened HdfTree
  import opened HdfAttrs
  import opened HdfNames
  import opened HdfSpec
  import opened HdfRemove
  import opened HdfCopy
  import opened HdfLex
  import opened HdfLine
  import opened HdfHeredoc
  import opened HdfDump
  import opened HdfRead

  // ---- one printed line -------------------------------------------------------------

  lemma {:induction false} LineOf(line: string, x: string)
    requires '\n' !in line
    ensures NextLine(line + "\n" + x) == FirstLine(line, x)
  {
    var s := line + "\n" + x;
    if line == "" {
      assert s == "\n" + x && s[1..] == x;
    } else {
      assert s[0] == line[0] && s[1..] == line[1..] + "\n" + x;
      LineOf(line[1..], x);
      assert [line[0]] + line[1..] == line;
    }
  }

  lemma {:induction false} EscapedOnOneLine(v: string)
    ensures '\n' !in EscapeAll(v)
  {
    if v != "" {
      EscapedOnOneLine(v[1..]);
      assert '\n' !in Escape(v[0]);
    }
  }

  lemma {:induction false} AttrsOnOneLine(attrs: seq<Attr>)
    requires forall i :: 0 <= i < |attrs| ==> PrintableAttr(attrs[i])
    ensures '\n' !in AttrsText(attrs)
  {
    if attrs != [] {
      AttrOnOneLine(attrs[0]);
      AttrsOnOneLine(attrs[1..]);
    }
  }

  lemma AttrOnOneLine(a: Attr)
    requires PrintableAttr(a)
    ensures '\n' !in AttrText(a)
  {
    EscapedOnOneLine(a.value);
    assert forall i :: 0 <= i < |a.key| ==> IsAlnum(a.key[i]);
  }

  lemma {:induction false} HeadOnOneLine(w: string, name: string, attrs: seq<Attr>)
    requires IsIndent(w) && IsLabel(name)
    requires forall i :: 0 <= i < |attrs| ==> PrintableAttr(attrs[i])
    ensures '\n' !in w + name + AttrPart(attrs)
  {
    AttrsOnOneLine(attrs);
    assert '\n' !in w;
    assert forall i :: 0 <= i < |name| ==> IsNameChar(name[i]);
    assert '\n' !in name;
    assert '\n' !in AttrPart(attrs);
  }

  /** Everything that follows an assignment while reading. */
  ghost function Then(r: SetResult, p: Path, x: string, strict: bool, fuel: nat): ReadResult
    requires r.Done? ==> Has(r.tree, p)
  {
    match r
    case Aborted => Lost
    case EmptyComponent(t1) => Failed(t1)
    case Done(t1, q) => ReadText(t1, p, x, strict, fuel)
  }

  lemma {:induction false} ReadSetLine(t: Tree, p: Path, line: string, st: Stmt, x: string, y: string,
                                       strict: bool, fuel: nat)
    requires Has(t, p) && '\n' !in line && ParseLine(line) == st
    requires st.Assign? || st.Link? || (st.Heredoc? && st.term != "")
    requires y == AfterLine(st, x)
    ensures var r := SetLine(t, p, st, x, fuel);
      (r.Done? ==> Has(r.tree, p)) && ReadText(t, p, line + "\n" + x, strict, fuel) == Then(r, p, y, strict, fuel)
  {
    hide ReadText, NextLine, ParseLine, SetLine, AfterLine;
    LineOf(line, x);
    SetLineKeeps(t, p, st, x, fuel);
    ReadValueLine(t, p, line + "\n" + x, st, strict, fuel);
  }

  lemma ReadValueLine(t: Tree, p: Path, s: string, st: Stmt, strict: bool, fuel: nat)
    requires Has(t, p) && s != "" && ParseLine(NextLine(s).line) == st
    requires st.Assign? || st.Link? || (st.Heredoc? && st.term != "")
    ensures var r, rest := SetLine(t, p, st, NextLine(s).rest, fuel), NextLine(s).rest;
      (r.Done? ==> Has(r.tree, p)) &&
      ReadText(t, p, s, strict, fuel) == Then(r, p, AfterLine(st, rest), strict, fuel)
  {
    hide NextLine, ParseLine, SetLine, AfterLine;
    SetLineKeeps(t, p, st, NextLine(s).rest, fuel);
  }

  /** The text of one value, put together differently: the line that is parsed, its newline,
      and the body of a multi-line value. */
  lemma SingleLineShape(head: string, sign: string, v: string, x: string)
    ensures head + (" " + sign + " " + v + "\n") + x == head + (" " + (sign + " " + v)) + "\n" + x
  {
  }

  lemma MultiLineShape(head: string, v: string, x: string)
    ensures head + (" << EOM\n" + v + "EOM\n") + x ==
            head + (" " + "<< EOM") + "\n" + (v + "EOM" + "\n" + x)
  {
    assert " << EOM\n" == " " + "<< EOM" + "\n";
    assert "EOM\n" == "EOM" + "\n";
  }

  lemma SignShape(v: string)
    ensures "=" + " " + v == "= " + v && ":" + " " + v == ": " + v
  {
    assert "=" + " " == "= " && ":" + " " == ": ";
  }

  lemma {:induction false} ReadSingle(t: Tree, p: Path, w: string, name: string, d: Data, x: string, strict: bool,
                                      fuel: nat)
    requires Has(t, p) && IsIndent(w) && IsLabel(name) && LegibleData(d)
    requires d.value.Some? && '\n' !in d.value.value
    ensures var r := SetValue(t, p, name, BackData(d), fuel);
      (r.Done? ==> Has(r.tree, p)) &&
      ReadText(t, p, w + name + AttrPart(d.attrs) + ValuePart(d.value.value, d.link) + x, strict, fuel)
        == Then(r, p, x, strict, fuel)
  {
    hide ParseLine, ReadText, ValuePart, LegibleData, SetLine, AfterLine, AttrPart, SetValue, IsLabel;
    hide BareReadAll, ParseRest, Strip;
    var v, head := d.value.value, w + name + AttrPart(d.attrs);
    var sign := if d.link then ":" else "=";
    var body := sign + " " + v;
    var attrs, back := BareReadAll(d.attrs), Strip(v);
    var st := if d.link then Link(name, back, attrs) else Assign(name, back, attrs);
    SingleFacts(d);
    SingleLineShape(head, sign, v, x);
    SignShape(v);
    HeadOnOneLine(w, name, d.attrs);
    SignFirst(sign, v);
    LineRead(w, name, d.attrs, body);
    AssignRead(name, attrs, v);
    LinkRead(name, attrs, v);
    SetSingleLine(t, p, name, BackData(d), x, fuel);
    ReadSetLine(t, p, head + (" " + body), st, x, x, strict, fuel);
  }

  lemma SignFirst(sign: string, v: string)
    requires sign == ":" || sign == "="
    ensures var body := sign + " " + v;
      body != "" && body[0] == sign[0] && !IsSpace(body[0]) && body[0] != '['
    ensures '\n' !in v ==> '\n' !in sign + " " + v
  {
  }

  lemma SingleFacts(d: Data)
    requires LegibleData(d) && d.value.Some? && '\n' !in d.value.value
    ensures ValuePart(d.value.value, d.link) == " " + (if d.link then ":" else "=") + " " + d.value.value + "\n"
    ensures forall i :: 0 <= i < |d.attrs| ==> PrintableAttr(d.attrs[i])
  {
  }

  lemma SetSingleLine(t: Tree, p: Path, name: string, d: Data, x: string, fuel: nat)
    requires Has(t, p) && d.value.Some?
    ensures var v := d.value.value;
      var st := if d.link then Link(name, v, d.attrs) else Assign(name, v, d.attrs);
      SetLine(t, p, st, x, fuel) == SetValue(t, p, name, d, fuel) && AfterLine(st, x) == x
  {
    hide SetValue;
  }

  lemma {:induction false} ReadMulti(t: Tree, p: Path, w: string, name: string, d: Data, x: string, strict: bool,
                                     fuel: nat)
    requires Has(t, p) && IsIndent(w) && IsLabel(name) && LegibleData(d)
    requires d.value.Some? && '\n' in d.value.value
    ensures var r := SetValue(t, p, name, BackData(d), fuel);
      (r.Done? ==> Has(r.tree, p)) &&
      ReadText(t, p, w + name + AttrPart(d.attrs) + ValuePart(d.value.value, d.link) + x, strict, fuel)
        == Then(r, p, x, strict, fuel)
  {
    hide ParseLine, ReadText, ValuePart, LegibleData, SetLine, AfterLine, AttrPart, SetValue, IsLabel, BareReadAll;
    var v, head := d.value.value, w + name + AttrPart(d.attrs);
    MultiFacts(d);
    MultiLineShape(head, v, x);
    HeadOnOneLine(w, name, d.attrs);
    LineRead(w, name, d.attrs, "<< EOM");
    HeredocRead(name, BareReadAll(d.attrs));
    SetHeredoc(t, p, name, BackData(d), x, fuel);
    EomOnOneLine(head);
    ReadSetLine(t, p, head + (" " + "<< EOM"), Heredoc(name, "EOM", BareReadAll(d.attrs)), v + "EOM" + "\n" + x, x,
      strict, fuel);
  }

  lemma EomOnOneLine(head: string)
    requires '\n' !in head
    ensures '\n' !in head + (" " + "<< EOM")
  {
    assert '\n' !in " " + "<< EOM";
  }

  lemma MultiFacts(d: Data)
    requires LegibleData(d) && d.value.Some? && '\n' in d.value.value
    ensures !d.link && Uncut(d.value.value, "EOM") && EndsLine(d.value.value)
    ensures ValuePart(d.value.value, d.link) == " << EOM\n" + d.value.value + "EOM\n"
    ensures forall i :: 0 <= i < |d.attrs| ==> PrintableAttr(d.attrs[i])
  {
  }

  lemma SetHeredoc(t: Tree, p: Path, name: string, d: Data, x: string, fuel: nat)
    requires Has(t, p) && d.value.Some? && !d.link && Uncut(d.value.value, "EOM") && EndsLine(d.value.value)
    ensures var st, y := Heredoc(name, "EOM", d.attrs), d.value.value + "EOM" + "\n" + x;
      SetLine(t, p, st, y, fuel) == SetValue(t, p, name, d, fuel) && AfterLine(st, y) == x
  {
    hide SetValue, ReadBody, Uncut, EndsLine;
    ReadBodyInverse(d.value.value, "EOM", x);
  }

  /** The text printed for a value sets that value, link flag and attributes. */
  lemma {:induction false} ReadValue(t: Tree, p: Path, w: string, name: string, d: Data, x: string, strict: bool,
                                     fuel: nat)
    requires Has(t, p) && IsIndent(w) && IsLabel(name) && LegibleData(d) && d.value.Some?
    ensures var r := SetValue(t, p, name, BackData(d), fuel);
      (r.Done? ==> Has(r.tree, p)) &&
      ReadText(t, p, w + name + AttrPart(d.attrs) + ValuePart(d.value.value, d.link) + x, strict, fuel)
        == Then(r, p, x, strict, fuel)
  {
    if '\n' in d.value.value {
      ReadMulti(t, p, w, name, d, x, strict, fuel);
    } else {
      ReadSingle(t, p, w, name, d, x, strict, fuel);
    }
  }

  // ---- one child --------------------------------------------------------------------

  lemma NameIsLabel(c: string)
    requires PrintableName(c)
    ensures IsLabel(c) && IsComponent(c)
  {
  }

  lemma LegibleRest(kids: seq<Tree>)
    requires Legible(kids) && kids != []
    ensures Legible(kids[1..]) && LegibleKid(kids[0])
    ensures kids[0].name !in Names(kids[1..])
  {
    var names := Names(kids);
    assert forall i :: 0 <= i < |kids[1..]| ==> Names(kids[1..])[i] == names[i + 1];
    assert names[0] == kids[0].name;
  }

  /** The tree once the value of the child `k`, but none of its children, has been read. */
  function Started(t: Tree, p: Path, before: seq<Tree>, k: Tree): (r: Tree)
    requires Has(t, p)
    ensures Has(r, p)
  {
    SetKidsAt(t, p, before + [Tree(k.name, k.data, [])]);
    SetKids(t, p, before + [Tree(k.name, k.data, [])])
  }

  ghost predicate Ready(t: Tree, p: Path, before: seq<Tree>)
  {
    Has(t, p) && !Get(t, p).value.data.link && Get(t, p).value.kids == before
  }

  lemma StartedFacts(t: Tree, p: Path, before: seq<Tree>, k: Tree)
    requires Ready(t, p, before) && k.name !in Names(before)
    ensures var t1, q := Started(t, p, before, k), p + [k.name];
      && Has(t1, p) && Has(t1, q) && Get(t1, q).value == Tree(k.name, k.data, [])
      && !Get(t1, p).value.data.link
      && SetKids(t1, q, k.kids) == SetKids(t, p, before + [k])
  {
    var leaf := Tree(k.name, k.data, []);
    FillLast(t, p, before, leaf, k.kids);
    SetKidsAt(t, p, before + [leaf]);
    assert leaf.(kids := k.kids) == k;
  }

  /** Opening a block of the child `k`: its node is there already if it has a value, and is made
      otherwise. */
  lemma OpenKid(t: Tree, p: Path, before: seq<Tree>, k: Tree, fuel: nat)
    requires Ready(t, p, before) && k.name !in Names(before) && IsComponent(k.name)
    requires (k.data.value.None? ==> k.data == EmptyData) && !k.data.link
    ensures var t1, q := Started(t, p, before, k), p + [k.name];
      if k.data.value.Some? then OpenLine(t1, p, k.name, [], fuel) == Done(t1, q)
      else OpenLine(t, p, k.name, [], fuel) == Done(t1, q)
  {
    var t1, q := Started(t, p, before, k), p + [k.name];
    StartedFacts(t, p, before, k);
    DotOfHead(k.name, "");
    if k.data.value.Some? {
      assert Resolve(t1, p, fuel) == Found(p) && Resolve(t1, q, fuel) == Found(q);
      assert Steps(t1, p, k.name, fuel) == Found(q);
      assert Walk(t1, p, k.name, fuel) == Found(q);
      SetNothing(t1, q, fuel);
    } else {
      GetKid(t, p, k.name);
      assert Walk(t, p, k.name, fuel) == Missing;
      SetSingle(t, p, k.name, EmptyData, fuel);
      PlaceNew(t, p, before, k.name, EmptyData);
    }
  }

  /** Setting a node to its own value without attributes changes nothing. */
  lemma SetNothing(t: Tree, q: Path, fuel: nat)
    requires Has(t, q)
    ensures SetValue(t, q, "", Data(Get(t, q).value.data.value, false, []), fuel) == Done(t, q)
  {
    var d := Get(t, q).value.data;
    assert Combine(d.attrs, []) == d.attrs;
    PutGet(t, q);
  }

  lemma OpenShape(w: string, name: string, inner: string, close: string, y: string)
    ensures w + name + " {\n" + inner + close + y ==
      w + name + AttrPart([]) + (" " + "{") + "\n" + (inner + (close + y))
  {
    assert " {\n" == " " + "{" + "\n";
    Seqs.Empty(w + name);
  }

  /** The line that opens a block, and everything up to the brace that closes it. */
  lemma {:induction false} ReadBlock(t: Tree, p: Path, w: string, name: string, inner: string, y: string,
                  t1: Tree, q: Path, strict: bool, fuel: nat)
    requires Has(t, p) && IsIndent(w) && PrintableName(name)
    requires OpenLine(t, p, name, [], fuel) == Done(t1, q) && Has(t1, q) && Has(t1, p)
    ensures ReadText(t, p, w + name + " {\n" + inner + (w + "}\n") + y, strict, fuel) ==
      match ReadText(t1, q, inner + ((w + "}\n") + y), strict, fuel)
      case Lost => Lost
      case Failed(t2) => Failed(t2)
      case Read(t2, rest) => ReadText(t2, p, rest, strict, fuel)
  {
    hide ReadText, NextLine, ParseLine, ParseRest, OpenLine, AttrPart, PrintableName;
    var head, more := w + name + AttrPart([]) + (" " + "{"), inner + ((w + "}\n") + y);
    OpenShape(w, name, inner, w + "}\n", y);
    NameIsLabel(name);
    HeadOnOneLine(w, name, []);
    BraceOnOneLine(w + name + AttrPart([]));
    LineRead(w, name, [], "{");
    NoAttrs();
    OpenRead(name);
    LineOf(head, more);
    ReadOpen(t, p, head + "\n" + more, name, t1, q, strict, fuel);
  }

  lemma NoAttrs()
    ensures BareReadAll([]) == []
  {
  }

  lemma BraceOnOneLine(head: string)
    requires '\n' !in head
    ensures '\n' !in head + (" " + "{")
  {
    assert '\n' !in " " + "{";
  }

  lemma {:induction false} ReadOpen(t: Tree, p: Path, s: string, name: string, t1: Tree, q: Path, strict: bool,
                                    fuel: nat)
    requires Has(t, p) && s != "" && ParseLine(NextLine(s).line) == Open(name, [])
    requires OpenLine(t, p, name, [], fuel) == Done(t1, q) && Has(t1, q) && Has(t1, p)
    ensures ReadText(t, p, s, strict, fuel) ==
      match ReadText(t1, q, NextLine(s).rest, strict, fuel)
      case Lost => Lost
      case Failed(t2) => Failed(t2)
      case Read(t2, rest) => ReadText(t2, p, rest, strict, fuel)
  {
    hide ParseLine, NextLine, OpenLine;
  }

  lemma {:induction false} ReadClose(t: Tree, q: Path, w: string, y: string, strict: bool, fuel: nat)
    requires Has(t, q) && IsIndent(w)
    ensures ReadText(t, q, (w + "}\n") + y, strict, fuel) == Read(t, y)
  {
    hide ReadText, ParseLine, NextLine;
    CloseShape(w, y);
    LineOf(w + "}", y);
    CloseRead(w);
    ReadStop(t, q, (w + "}") + "\n" + y, strict, fuel);
  }

  lemma CloseShape(w: string, y: string)
    requires IsIndent(w)
    ensures (w + "}\n") + y == (w + "}") + "\n" + y && '\n' !in w + "}"
  {
    assert "}\n" == "}" + "\n";
  }

  lemma {:induction false} ReadStop(t: Tree, q: Path, s: string, strict: bool, fuel: nat)
    requires Has(t, q) && s != "" && ParseLine(NextLine(s).line) == Close
    ensures ReadText(t, q, s, strict, fuel) == Read(t, NextLine(s).rest)
  {
    hide ParseLine, NextLine;
  }

  // ---- the nested formats -----------------------------------------------------------

  ghost predicate LegibleKid(k: Tree)
  {
    PrintableName(k.name) && LegibleData(k.data) && Legible(k.kids) && (k.data.link ==> k.kids == [])
  }

  /** The child as its text gives it back. */
  function Again(k: Tree, fmt: Format): Tree
  {
    Tree(k.name, BackData(k.data), Back(k.kids, fmt))
  }

  lemma AgainFacts(k: Tree, fmt: Format)
    requires LegibleKid(k)
    ensures BackOne(k, fmt) == if Leaves(k, Back(k.kids, fmt), fmt) then [Again(k, fmt)] else []
    ensures k.data.value.None? ==> Again(k, fmt).data == EmptyData
    ensures k.kids == [] ==> Again(k, fmt).kids == []
  {
  }

  /** The value line of a child, or nothing when it has none. */
  lemma {:induction false} ReadKidValue(t: Tree, p: Path, before: seq<Tree>, k: Tree, prefix: Option<string>,
                                        fmt: Format, lvl: nat, y: string, strict: bool, fuel: nat)
    requires Ready(t, p, before) && k.name !in Names(before) && LegibleKid(k) && fmt != Dotted
    requires k.data.value.Some?
    ensures var t1 := Started(t, p, before, Again(k, fmt));
      Has(t1, p) &&
      ReadText(t, p, ValueText(prefix, k.name, k.data, fmt, lvl) + y, strict, fuel) == ReadText(t1, p, y, strict, fuel)
  {
    StartedFacts(t, p, before, Again(k, fmt));
    NameIsLabel(k.name);
    SetSingle(t, p, k.name, BackData(k.data), fuel);
    PlaceNew(t, p, before, k.name, BackData(k.data));
    ReadValue(t, p, Indent(fmt, lvl), k.name, k.data, y, strict, fuel);
  }

  /** The block of a child, read where its value has been read (or where there was none). */
  lemma {:induction false} ReadKidBlock(t: Tree, p: Path, before: seq<Tree>, k: Tree, prefix: Option<string>,
                                        fmt: Format, lvl: nat, y: string, strict: bool, fuel: nat)
    requires Ready(t, p, before) && k.name !in Names(before) && LegibleKid(k) && fmt != Dotted
    requires k.kids != []
    ensures var t1, t2 := Started(t, p, before, Again(k, fmt)), SetKids(t, p, before + [Again(k, fmt)]);
      var now := if k.data.value.Some? then t1 else t;
      Has(t2, p) &&
      ReadText(now, p, BlockText(k, prefix, fmt, lvl) + y, strict, fuel) == ReadText(t2, p, y, strict, fuel)
    decreases k, 2
  {
    var k2 := Again(k, fmt);
    var t1, q, w := Started(t, p, before, k2), p + [k.name], Indent(fmt, lvl);
    var inner := Dump(k.kids, Some(k.name), fmt, lvl + 1);
    var now := if k.data.value.Some? then t1 else t;
    NameIsLabel(k.name);
    AgainFacts(k, fmt);
    StartedFacts(t, p, before, k2);
    OpenKid(t, p, before, k2, fuel);
    ReadBlock(now, p, w, k.name, inner, y, t1, q, strict, fuel);
    ReadKids(t1, q, [], k.kids, Some(k.name), fmt, lvl + 1, (w + "}\n") + y, strict, fuel);
    Seqs.Empty(k2.kids);
    SetKidsAt(t1, q, k2.kids);
    SetKidsAt(t, p, before + [k2]);
    ReadClose(SetKids(t1, q, k2.kids), q, w, y, strict, fuel);
  }

  /** One child with all that is below it. */
  lemma {:induction false} ReadKid(t: Tree, p: Path, before: seq<Tree>, k: Tree, prefix: Option<string>,
                                   fmt: Format, lvl: nat, y: string, strict: bool, fuel: nat)
    requires Ready(t, p, before) && k.name !in Names(before) && LegibleKid(k) && fmt != Dotted
    ensures var t2 := SetKids(t, p, before + BackOne(k, fmt));
      Has(t2, p) &&
      ReadText(t, p, ValueText(prefix, k.name, k.data, fmt, lvl) + (BlockText(k, prefix, fmt, lvl) + y), strict, fuel)
        == ReadText(t2, p, y, strict, fuel)
    decreases k, 3
  {
    hide ReadText, Back;
    var block := BlockText(k, prefix, fmt, lvl);
    SetKidsAt(t, p, before + BackOne(k, fmt));
    AgainFacts(k, fmt);
    if k.data.value.Some? {
      ReadKidValue(t, p, before, k, prefix, fmt, lvl, block + y, strict, fuel);
    } else {
      Seqs.Empty(block + y);
    }
    if k.kids != [] {
      ReadKidBlock(t, p, before, k, prefix, fmt, lvl, y, strict, fuel);
    } else {
      Seqs.Empty(y);
      Seqs.Empty(before);
      SetKidsSame(t, p);
    }
  }

  /** All the children of a node that the text says something about, appended to those it has. */
  lemma {:induction false} ReadKids(t: Tree, p: Path, before: seq<Tree>, kids: seq<Tree>, prefix: Option<string>,
                                    fmt: Format, lvl: nat, x: string, strict: bool, fuel: nat)
    requires Ready(t, p, before) && Legible(kids) && fmt != Dotted
    requires forall c :: c in Names(kids) ==> c !in Names(before)
    ensures var t2 := SetKids(t, p, before + Back(kids, fmt));
      Has(t2, p) &&
      ReadText(t, p, Dump(kids, prefix, fmt, lvl) + x, strict, fuel) == ReadText(t2, p, x, strict, fuel)
    decreases kids, 0
  {
    if kids == [] {
      Seqs.Empty(before);
      SetKidsSame(t, p);
      Seqs.Empty(x);
    } else {
      hide ReadText, BackOne;
      var k, y := kids[0], Dump(kids[1..], prefix, fmt, lvl) + x;
      var one, more := BackOne(k, fmt), Back(kids[1..], fmt);
      LegibleRest(kids);
      DumpShape(kids, prefix, fmt, lvl, x);
      OthersDisjoint(before, kids, fmt);
      ReadKid(t, p, before, k, prefix, fmt, lvl, y, strict, fuel);
      SetKidsAt(t, p, before + one);
      ReadKids(SetKids(t, p, before + one), p, before + one, kids[1..], prefix, fmt, lvl, x, strict, fuel);
      SetKidsTwice(t, p, before + one, before + one + more);
      Seqs.Assoc(before, one, more);
    }
  }

  lemma OthersDisjoint(before: seq<Tree>, kids: seq<Tree>, fmt: Format)
    requires kids != [] && kids[0].name !in Names(kids[1..])
    requires forall c :: c in Names(kids) ==> c !in Names(before)
    ensures kids[0].name !in Names(before)
    ensures forall c :: c in Names(kids[1..]) ==> c !in Names(before + BackOne(kids[0], fmt))
  {
    hide Back;
    assert Names(kids) == [kids[0].name] + Names(kids[1..]);
    var one := BackOne(kids[0], fmt);
    forall c | c in Names(before + one)
      ensures c in Names(before) || c == kids[0].name
    {
      var i :| 0 <= i < |before + one| && Names(before + one)[i] == c;
      assert i < |before| ==> Names(before)[i] == c;
    }
  }

  lemma DumpUnfolded(kids: seq<Tree>, prefix: Option<string>, fmt: Format, lvl: nat)
    requires kids != []
    ensures Dump(kids, prefix, fmt, lvl) ==
            ValueText(prefix, kids[0].name, kids[0].data, fmt, lvl)
            + (BlockText(kids[0], prefix, fmt, lvl) + Dump(kids[1..], prefix, fmt, lvl))
  {
    hide ValueText, BlockText;
  }

  lemma DumpShape(kids: seq<Tree>, prefix: Option<string>, fmt: Format, lvl: nat, x: string)
    requires kids != []
    ensures Dump(kids, prefix, fmt, lvl) + x ==
            ValueText(prefix, kids[0].name, kids[0].data, fmt, lvl)
            + (BlockText(kids[0], prefix, fmt, lvl) + (Dump(kids[1..], prefix, fmt, lvl) + x))
  {
    hide Dump, ValueText, BlockText;
    DumpUnfolded(kids, prefix, fmt, lvl);
    Seqs.Assoc4(ValueText(prefix, kids[0].name, kids[0].data, fmt, lvl), BlockText(kids[0], prefix, fmt, lvl),
           Dump(kids[1..], prefix, fmt, lvl), x);
  }
}
