/** How a data set is laid out: which lines are printed, and how far each is moved in. */
module HdfLayout {
  import Seqs
  import opened Options
  import opened HdfTree
  import opened HdfLex
  import opened HdfLine
  import opened HdfDump

  /** A line, or a value on several lines, without what is in front of it. */
  datatype Piece = Piece(depth: nat, text: string)

  /** The lines for the children of a node at that depth. */
  function Pieces(kids: seq<Tree>, prefix: Option<string>, dotted: bool, depth: nat): seq<Piece>
    decreases kids, 1
  {
    if kids == [] then []
    else
      ValuePieces(kids[0], prefix, dotted, depth)
      + (BlockPieces(kids[0], prefix, dotted, depth) + Pieces(kids[1..], prefix, dotted, depth))
  }

  function ValuePieces(k: Tree, prefix: Option<string>, dotted: bool, depth: nat): seq<Piece>
  {
    match k.data.value
    case None => []
    case Some(v) =>
      var front := if dotted && prefix.Some? then prefix.value + "." + k.name else k.name;
      [Piece(depth, front + AttrPart(k.data.attrs) + ValuePart(v, k.data.link))]
  }

  function BlockPieces(k: Tree, prefix: Option<string>, dotted: bool, depth: nat): seq<Piece>
    decreases k, 0
  {
    if k.kids == [] then []
    else if dotted then
      Pieces(k.kids, Some(if prefix.Some? then prefix.value + "." + k.name else k.name), dotted, depth + 1)
    else
      [Piece(depth, k.name + " {\n")] + (Pieces(k.kids, Some(k.name), dotted, depth + 1) + [Piece(depth, "}\n")])
  }

  function Blanks(n: nat): (r: string)
    ensures |r| == n && forall i :: 0 <= i < n ==> r[i] == ' '
  {
    seq(n, i => ' ')
  }

  /** Two blanks for each level in the pretty format, for at most 127 levels; none in the others. */
  function MovedIn(fmt: Format, depth: nat): string
  {
    match fmt
    case Dotted => ""
    case Compact => ""
    case Pretty => Blanks(if depth < 127 then 2 * depth else 254)
  }

  function Laid(pieces: seq<Piece>, fmt: Format): string
  {
    if pieces == [] then "" else MovedIn(fmt, pieces[0].depth) + pieces[0].text + Laid(pieces[1..], fmt)
  }

  lemma {:induction false} LaidSum(a: seq<Piece>, b: seq<Piece>, fmt: Format)
    ensures Laid(a + b, fmt) == Laid(a, fmt) + Laid(b, fmt)
    decreases |a|
  {
    if a == [] {
      Seqs.Empty(b);
      Seqs.Empty(Laid(b, fmt));
    } else {
      Seqs.Halves(a, b);
      Seqs.TailOfSum(a, b);
      LaidSum(a[1..], b, fmt);
      Seqs.Assoc(MovedIn(fmt, a[0].depth) + a[0].text, Laid(a[1..], fmt), Laid(b, fmt));
    }
  }

  lemma LaidOne(p: Piece, fmt: Format)
    ensures Laid([p], fmt) == MovedIn(fmt, p.depth) + p.text
  {
    assert [p][1..] == [];
    Seqs.Empty(MovedIn(fmt, p.depth) + p.text);
  }

  lemma {:induction false} SpacesAreBlanks(n: nat)
    ensures Spaces(n) == Blanks(n)
  {
    if n > 0 {
      SpacesAreBlanks(n - 1);
      assert Blanks(n) == " " + Blanks(n - 1);
    }
  }

  lemma IndentIs(fmt: Format, lvl: nat)
    ensures Indent(fmt, lvl) == MovedIn(fmt, lvl)
  {
    SpacesAreBlanks(if lvl < 127 then 2 * lvl else 254);
  }

  /** What is printed in front of a value is what the line is moved in by, and then its label. */
  lemma ValueLaid(k: Tree, prefix: Option<string>, fmt: Format, lvl: nat)
    ensures ValueText(prefix, k.name, k.data, fmt, lvl) == Laid(ValuePieces(k, prefix, fmt == Dotted, lvl), fmt)
  {
    IndentIs(fmt, lvl);
    if k.data.value.Some? {
      var p := ValuePieces(k, prefix, fmt == Dotted, lvl)[0];
      LaidOne(p, fmt);
      var v := k.data.value.value;
      var front := if fmt == Dotted && prefix.Some? then prefix.value + "." + k.name else k.name;
      FourParts(MovedIn(fmt, lvl), front, AttrPart(k.data.attrs), ValuePart(v, k.data.link));
      Seqs.Empty(front);
    }
  }

  lemma FourParts(a: string, b: string, c: string, d: string)
    ensures a + (b + c + d) == a + b + c + d
  {
  }

  /** The text of a data set is its lines, each moved in as its depth says, for every tree. */
  lemma {:induction false} DumpIsLaid(kids: seq<Tree>, prefix: Option<string>, fmt: Format, lvl: nat)
    ensures Dump(kids, prefix, fmt, lvl) == Laid(Pieces(kids, prefix, fmt == Dotted, lvl), fmt)
    decreases kids, 1
  {
    if kids != [] {
      hide Laid, ValuePieces, BlockPieces, ValueText, BlockText;
      var k, dotted := kids[0], fmt == Dotted;
      ValueLaid(k, prefix, fmt, lvl);
      BlockLaid(k, prefix, fmt, lvl);
      DumpIsLaid(kids[1..], prefix, fmt, lvl);
      LaidSum(BlockPieces(k, prefix, dotted, lvl), Pieces(kids[1..], prefix, dotted, lvl), fmt);
      LaidSum(ValuePieces(k, prefix, dotted, lvl),
              BlockPieces(k, prefix, dotted, lvl) + Pieces(kids[1..], prefix, dotted, lvl), fmt);
    }
  }

  lemma {:induction false} BlockLaid(k: Tree, prefix: Option<string>, fmt: Format, lvl: nat)
    ensures BlockText(k, prefix, fmt, lvl) == Laid(BlockPieces(k, prefix, fmt == Dotted, lvl), fmt)
    decreases k, 0
  {
    hide Pieces, Dump, Indent, MovedIn;
    IndentIs(fmt, lvl);
    if k.kids != [] && fmt == Dotted {
      DumpIsLaid(k.kids, Some(Below(prefix, k.name)), fmt, lvl + 1);
    } else if k.kids != [] {
      hide Laid;
      var inner := Pieces(k.kids, Some(k.name), false, lvl + 1);
      var open, close := Piece(lvl, k.name + " {\n"), Piece(lvl, "}\n");
      DumpIsLaid(k.kids, Some(k.name), fmt, lvl + 1);
      LaidOne(open, fmt);
      LaidOne(close, fmt);
      LaidSum(inner, [close], fmt);
      LaidSum([open], inner + [close], fmt);
      Braces(MovedIn(fmt, lvl), k.name, Laid(inner, fmt), MovedIn(fmt, lvl) + "}\n");
    }
  }

  lemma Braces(w: string, name: string, inner: string, close: string)
    ensures w + name + " {\n" + inner + close == w + (name + " {\n") + (inner + close)
  {
  }

  /** No line begins with white space of its own. */
  ghost predicate BeginsBlack(p: Piece)
  {
    p.text != "" && !IsSpace(p.text[0])
  }

  lemma {:induction false} PiecesBeginBlack(kids: seq<Tree>, prefix: Option<string>, dotted: bool, depth: nat, i: nat)
    requires Legible(kids) && i < |Pieces(kids, prefix, dotted, depth)|
    requires prefix.Some? ==> prefix.value != "" && !IsSpace(prefix.value[0])
    ensures BeginsBlack(Pieces(kids, prefix, dotted, depth)[i]) && Pieces(kids, prefix, dotted, depth)[i].depth >= depth
    decreases kids, 1
  {
    var k := kids[0];
    var values, block := ValuePieces(k, prefix, dotted, depth), BlockPieces(k, prefix, dotted, depth);
    assert PrintableName(k.name) && Legible(k.kids);
    FirstBlack(k.name, prefix);
    if i < |values| {
    } else if i < |values| + |block| {
      BlockBeginsBlack(k, prefix, dotted, depth, i - |values|);
    } else {
      LegibleTail(kids);
      PiecesBeginBlack(kids[1..], prefix, dotted, depth, i - |values| - |block|);
    }
  }

  lemma LegibleTail(kids: seq<Tree>)
    requires Legible(kids) && kids != []
    ensures Legible(kids[1..])
  {
    assert forall i :: 0 <= i < |kids[1..]| ==> Names(kids[1..])[i] == Names(kids)[i + 1];
  }

  lemma FirstBlack(name: string, prefix: Option<string>)
    requires PrintableName(name)
    ensures name != "" && !IsSpace(name[0])
    ensures prefix.Some? && prefix.value != "" ==> (prefix.value + "." + name)[0] == prefix.value[0]
  {
    assert IsNameChar(name[0]);
  }

  lemma {:induction false} BlockBeginsBlack(k: Tree, prefix: Option<string>, dotted: bool, depth: nat, i: nat)
    requires PrintableName(k.name) && Legible(k.kids) && i < |BlockPieces(k, prefix, dotted, depth)|
    requires prefix.Some? ==> prefix.value != "" && !IsSpace(prefix.value[0])
    ensures BeginsBlack(BlockPieces(k, prefix, dotted, depth)[i])
    ensures BlockPieces(k, prefix, dotted, depth)[i].depth >= depth
    decreases k, 0
  {
    hide Pieces, Legible;
    FirstBlack(k.name, prefix);
    if dotted {
      var below := if prefix.Some? then prefix.value + "." + k.name else k.name;
      PiecesBeginBlack(k.kids, Some(below), dotted, depth + 1, i);
    } else if 0 < i < |BlockPieces(k, prefix, dotted, depth)| - 1 {
      PiecesBeginBlack(k.kids, Some(k.name), dotted, depth + 1, i - 1);
    }
  }

  // ---- one data set in the three formats ------------------------------------------------------

  const SAMPLE_B := Tree("b", Data(Some("1"), false, []), [])
  const SAMPLE_C := Tree("c", Data(Some("x"), true, [Attr("k", "v"), Attr("l", "1")]), [])
  const SAMPLE_A := Tree("a", EmptyData, [SAMPLE_B, SAMPLE_C])
  const SAMPLE_D := Tree("d", Data(Some("p\nq"), false, []), [])

  lemma SampleAttrs()
    ensures AttrPart(SAMPLE_C.data.attrs) == " [k=\"v\", l] "
  {
    var attrs := SAMPLE_C.data.attrs;
    assert attrs[1..] == [attrs[1]] && "v"[1..] == "";
    assert EscapeAll("") == "" && EscapeAll("v") == "v" + "";
    assert AttrText(attrs[0]) == "k=\"v\"" && AttrText(attrs[1]) == "l";
    assert AttrsText([attrs[1]]) == "l";
    assert AttrsText(attrs) == "k=\"v\"" + ", " + "l";
  }

  lemma SampleValues(prefix: Option<string>, fmt: Format, lvl: nat)
    ensures ValueText(prefix, "b", SAMPLE_B.data, fmt, lvl) == Label(prefix, "b", fmt, lvl) + " = 1\n"
    ensures ValueText(prefix, "c", SAMPLE_C.data, fmt, lvl) == Label(prefix, "c", fmt, lvl) + " [k=\"v\", l]  : x\n"
    ensures ValueText(prefix, "d", SAMPLE_D.data, fmt, lvl) == Label(prefix, "d", fmt, lvl) + " << EOM\np\nq\nEOM\n"
  {
    hide Label, AttrsText;
    SampleAttrs();
    var b, c, d := Label(prefix, "b", fmt, lvl), Label(prefix, "c", fmt, lvl), Label(prefix, "d", fmt, lvl);
    assert "p\nq"[1] == '\n';
    assert " << EOM\n" + "p\nq" + "\nEOM\n" == " << EOM\np\nq\nEOM\n";
    assert " = " + "1" + "\n" == " = 1\n" && " : " + "x" + "\n" == " : x\n";
    assert b + "" + " = 1\n" == b + " = 1\n";
    assert c + " [k=\"v\", l] " + " : x\n" == c + " [k=\"v\", l]  : x\n";
    assert d + "" + " << EOM\np\nq\nEOM\n" == d + " << EOM\np\nq\nEOM\n";
  }

  lemma SampleLabels()
    ensures Label(Some("a"), "b", Dotted, 1) == "a.b" && Label(Some("a"), "c", Dotted, 1) == "a.c"
    ensures Label(Some("a"), "b", Compact, 1) == "b" && Label(Some("a"), "c", Compact, 1) == "c"
    ensures Label(Some("a"), "b", Pretty, 1) == "  b" && Label(Some("a"), "c", Pretty, 1) == "  c"
    ensures forall fmt :: Label(None, "d", fmt, 0) == "d" && Indent(fmt, 0) == ""
  {
    assert Spaces(2) == " " + Spaces(1) == "  " by {
      assert Spaces(1) == " " + Spaces(0);
    }
  }

  /** The children of `a`, whatever is in front of them. */
  lemma SampleInner(fmt: Format)
    ensures Dump(SAMPLE_A.kids, Some("a"), fmt, 1) ==
            Label(Some("a"), "b", fmt, 1) + " = 1\n" + (Label(Some("a"), "c", fmt, 1) + " [k=\"v\", l]  : x\n")
  {
    hide Label, ValueText;
    SampleValues(Some("a"), fmt, 1);
    var kids := SAMPLE_A.kids;
    assert kids[1..] == [SAMPLE_C] && kids[1..][1..] == [];
    assert Dump([SAMPLE_C], Some("a"), fmt, 1) == ValueText(Some("a"), "c", SAMPLE_C.data, fmt, 1) + ("" + "");
    Seqs.Empty(Dump([SAMPLE_C], Some("a"), fmt, 1));
  }

  /** One data set in the three formats: two levels, a link with attributes, and a value on several
      lines. */
  lemma SampleDump()
    ensures var kids := [SAMPLE_A, SAMPLE_D];
      && Dump(kids, None, Dotted, 0) ==
           "a.b = 1\n" + "a.c [k=\"v\", l]  : x\n" + "d << EOM\np\nq\nEOM\n"
      && Dump(kids, None, Compact, 0) ==
           "a {\n" + ("b = 1\n" + "c [k=\"v\", l]  : x\n") + "}\n" + "d << EOM\np\nq\nEOM\n"
      && Dump(kids, None, Pretty, 0) ==
           "a {\n" + ("  b = 1\n" + "  c [k=\"v\", l]  : x\n") + "}\n" + "d << EOM\np\nq\nEOM\n"
  {
    hide Dump, Label, Indent;
    SampleLabels();
    SampleFormat(Dotted);
    SampleFormat(Compact);
    SampleFormat(Pretty);
    PlainLines();
    LinkLines();
  }

  lemma PlainLines()
    ensures "a.b" + " = 1\n" == "a.b = 1\n" && "  b" + " = 1\n" == "  b = 1\n" && "b" + " = 1\n" == "b = 1\n"
  {
  }

  lemma LinkLines()
    ensures "a.c" + " [k=\"v\", l]  : x\n" == "a.c [k=\"v\", l]  : x\n"
    ensures "  c" + " [k=\"v\", l]  : x\n" == "  c [k=\"v\", l]  : x\n"
    ensures "c" + " [k=\"v\", l]  : x\n" == "c [k=\"v\", l]  : x\n"
  {
  }

  lemma SampleFormat(fmt: Format)
    ensures Dump([SAMPLE_A, SAMPLE_D], None, fmt, 0) ==
      var inner := Label(Some("a"), "b", fmt, 1) + " = 1\n" + (Label(Some("a"), "c", fmt, 1) + " [k=\"v\", l]  : x\n");
      (if fmt == Dotted then inner else "a {\n" + inner + "}\n") + "d << EOM\np\nq\nEOM\n"
  {
    hide Label, Indent, Dump, ValueText, BlockText;
    SampleLabels();
    SampleValues(None, fmt, 0);
    LeafD(Label(None, "d", fmt, 0));
    SampleBlock(fmt);
    SampleParts(fmt);
  }

  lemma LeafD(front: string)
    requires front == "d"
    ensures front + " << EOM\np\nq\nEOM\n" == "d << EOM\np\nq\nEOM\n"
  {
  }

  lemma SampleBlock(fmt: Format)
    ensures BlockText(SAMPLE_A, None, fmt, 0) ==
      var inner := Label(Some("a"), "b", fmt, 1) + " = 1\n" + (Label(Some("a"), "c", fmt, 1) + " [k=\"v\", l]  : x\n");
      if fmt == Dotted then inner else "a {\n" + inner + "}\n"
  {
    hide Label, Indent, Dump;
    SampleLabels();
    SampleInner(fmt);
    assert "" + "a" + " {\n" == "a {\n" && "" + "}\n" == "}\n";
  }

  /** A node without a value but with children, and then a leaf. */
  lemma SampleParts(fmt: Format)
    ensures Dump([SAMPLE_A, SAMPLE_D], None, fmt, 0) ==
            BlockText(SAMPLE_A, None, fmt, 0) + ValueText(None, "d", SAMPLE_D.data, fmt, 0)
  {
    hide Label, Indent;
    var kids, block := [SAMPLE_A, SAMPLE_D], BlockText(SAMPLE_A, None, fmt, 0);
    var last := ValueText(None, "d", SAMPLE_D.data, fmt, 0);
    assert kids[1..] == [SAMPLE_D] && [SAMPLE_D][1..] == [];
    assert Dump([SAMPLE_D], None, fmt, 0) == last + ("" + "");
    Seqs.Empty(last);
    assert Dump(kids, None, fmt, 0) == "" + (block + last);
    Seqs.Empty(block + last);
  }
}
