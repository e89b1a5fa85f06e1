/** The printer of a data set in its three formats, and the conditions under which what it
    prints says everything about the tree. */
module HdfDump {
  import opened Options
  import opened HdfTree
  import opened HdfLex
  import opened HdfLine
  import opened HdfHeredoc

  datatype Format = Dotted | Compact | Pretty

  function Spaces(n: nat): (r: string)
    ensures IsIndent(r) && |r| == n
  {
    if n == 0 then "" else " " + Spaces(n - 1)
  }

  /** Two blanks a level, for at most 127 levels, and only in the pretty format. */
  function Indent(fmt: Format, lvl: nat): (r: string)
    ensures IsIndent(r)
  {
    if fmt == Pretty then Spaces(2 * if lvl > 127 then 127 else lvl) else ""
  }

  /** What stands in front of a value. */
  function Label(prefix: Option<string>, name: string, fmt: Format, lvl: nat): string
  {
    if fmt == Dotted && prefix.Some? then prefix.value + "." + name else Indent(fmt, lvl) + name
  }

  function ValuePart(v: string, link: bool): string
  {
    if '\n' in v then
      " << EOM\n" + v + (if v[|v| - 1] != '\n' then "\nEOM\n" else "EOM\n")
    else " " + (if link then ":" else "=") + " " + v + "\n"
  }

  function ValueText(prefix: Option<string>, name: string, d: Data, fmt: Format, lvl: nat): string
  {
    match d.value
    case None => ""
    case Some(v) => Label(prefix, name, fmt, lvl) + AttrPart(d.attrs) + ValuePart(v, d.link)
  }

  /** The prefix of the children in the dotted format. */
  function Below(prefix: Option<string>, name: string): string
  {
    if prefix.Some? then prefix.value + "." + name else name
  }

  /** What is printed for the children of a node, with the braces around it except in the
      dotted format. */
  function BlockText(k: Tree, prefix: Option<string>, fmt: Format, lvl: nat): string
    decreases k, 0
  {
    if k.kids == [] then ""
    else if fmt == Dotted then Dump(k.kids, Some(Below(prefix, k.name)), fmt, lvl + 1)
    else
      Indent(fmt, lvl) + k.name + " {\n"
      + Dump(k.kids, Some(k.name), fmt, lvl + 1)
      + (Indent(fmt, lvl) + "}\n")
  }

  /** `hdf_dump_cb` below a node whose children are `kids`. */
  function Dump(kids: seq<Tree>, prefix: Option<string>, fmt: Format, lvl: nat): string
    decreases kids, 1
  {
    if kids == [] then ""
    else
      ValueText(prefix, kids[0].name, kids[0].data, fmt, lvl)
      + (BlockText(kids[0], prefix, fmt, lvl) + Dump(kids[1..], prefix, fmt, lvl))
  }

  // ---- terminators ------------------------------------------------------------------

  predicate ClosingLineAt(v: string, i: nat)
  {
    i + 5 <= |v| && v[i..i + 5] == "\nEOM\n"
  }

  /** `EOM` serves as terminator unless the value contains its closing line. */
  predicate AcceptsEom(v: string)
  {
    && (forall i: nat :: i < |v| ==> !ClosingLineAt(v, i))
    && !(|v| > 5 && v[|v| - 4..] == "\nEOM")
  }

  /** The values that it does not serve: the closing line stands somewhere in them, or they end
      in one that has lost its newline, with two characters or more in front. */
  lemma EomRefused(v: string)
    ensures !AcceptsEom(v) <==>
            (exists a, b :: v == a + "\nEOM\n" + b) || (exists a :: |a| >= 2 && v == a + "\nEOM")
  {
    if a, b :| v == a + "\nEOM\n" + b {
      ClosingInside(a, b);
    }
    if a :| |a| >= 2 && v == a + "\nEOM" {
      ClosingBehind(a);
    }
    if !AcceptsEom(v) {
      RefusedParts(v);
    }
  }

  lemma ClosingInside(a: string, b: string)
    ensures !AcceptsEom(a + "\nEOM\n" + b)
  {
    var v := a + "\nEOM\n" + b;
    assert v[|a|..|a| + 5] == "\nEOM\n";
    assert ClosingLineAt(v, |a|);
  }

  lemma ClosingBehind(a: string)
    requires |a| >= 2
    ensures !AcceptsEom(a + "\nEOM")
  {
    var v := a + "\nEOM";
    assert v[|v| - 4..] == "\nEOM";
  }

  lemma RefusedParts(v: string)
    requires !AcceptsEom(v)
    ensures (exists a, b :: v == a + "\nEOM\n" + b) || (exists a :: |a| >= 2 && v == a + "\nEOM")
  {
    if i: nat :| i < |v| && ClosingLineAt(v, i) {
      assert v == v[..i] + "\nEOM\n" + v[i + 5..];
    } else {
      assert v == v[..|v| - 4] + "\nEOM";
    }
  }

  /** No value needs one of the random terminators. */
  ghost predicate Dumpable(kids: seq<Tree>)
    decreases kids
  {
    forall i :: 0 <= i < |kids| ==>
      Dumpable(kids[i].kids) &&
      (kids[i].data.value.Some? && '\n' in kids[i].data.value.value ==> AcceptsEom(kids[i].data.value.value))
  }

  // ---- trees that can be read back ------------------------------------------------------

  ghost predicate PrintableName(c: string)
  {
    c != "" && forall i :: 0 <= i < |c| ==> IsNameChar(c[i]) && c[i] != '.'
  }

  ghost predicate PrintableValue(v: string, link: bool)
  {
    '\n' in v ==> !link && EndsLine(v) && Uncut(v, "EOM")
  }

  ghost predicate LegibleData(d: Data)
  {
    match d.value
    case None => d == EmptyData
    case Some(v) =>
      PrintableValue(v, d.link) && forall i :: 0 <= i < |d.attrs| ==> PrintableAttr(d.attrs[i])
  }

  /** Links have no children, and names and values survive printing. */
  ghost predicate Legible(kids: seq<Tree>)
    decreases kids
  {
    && Distinct(Names(kids))
    && forall i :: 0 <= i < |kids| ==>
         && PrintableName(kids[i].name) && LegibleData(kids[i].data) && Legible(kids[i].kids)
         && (kids[i].data.link ==> kids[i].kids == [])
  }

  /** The text says everything about the data: no attribute is written as a bare key, and a value on
      one line has no white space around it. */
  ghost predicate Exact(d: Data)
  {
    && (forall i :: 0 <= i < |d.attrs| ==> d.attrs[i].value != "1")
    && (d.value.Some? && '\n' !in d.value.value ==> Trimmed(d.value.value))
  }

  /** Every leaf has a value, and the data of every node is read back as it is. */
  ghost predicate Complete(kids: seq<Tree>)
    decreases kids
  {
    forall i :: 0 <= i < |kids| ==>
      Exact(kids[i].data) && (kids[i].kids == [] ==> kids[i].data.value.Some?) && Complete(kids[i].kids)
  }

  /** The text says everything about such a tree. */
  ghost predicate Printable(kids: seq<Tree>)
  {
    Legible(kids) && Complete(kids)
  }

  // ---- what the text of a legible tree says about it ------------------------------------

  function BackData(d: Data): Data
  {
    Data(BackValue(d.value), d.link, BareReadAll(d.attrs))
  }

  /** A value on one line loses the white space around it. */
  function BackValue(v: Option<string>): Option<string>
  {
    if v.Some? && '\n' !in v.value then Some(Strip(v.value)) else v
  }

  /** Whether anything is printed for a node: its value, its braces, or something below it. */
  predicate Leaves(k: Tree, below: seq<Tree>, fmt: Format)
  {
    k.data.value.Some? || (if fmt == Dotted then below != [] else k.kids != [])
  }

  function BackOne(k: Tree, fmt: Format): seq<Tree>
    decreases k, 0
  {
    var below := Back(k.kids, fmt);
    if Leaves(k, below, fmt) then [Tree(k.name, BackData(k.data), below)] else []
  }

  /** The tree without the nodes that nothing is printed for, with the data that is read back. */
  function Back(kids: seq<Tree>, fmt: Format): seq<Tree>
    decreases kids, 1
  {
    if kids == [] then [] else BackOne(kids[0], fmt) + Back(kids[1..], fmt)
  }

  /** Printable values never need a random terminator. */
  lemma PrintableAcceptsEom(v: string)
    requires '\n' in v && PrintableValue(v, false)
    ensures AcceptsEom(v)
  {
    UncutLines(v, "EOM");
    forall i: nat | i < |v|
      ensures !ClosingLineAt(v, i)
    {
      ClosingIsStray(v, i);
    }
    assert |v| > 5 ==> v[|v| - 1] == v[|v| - 4..][3];
  }

  lemma ClosingIsStray(v: string, i: nat)
    ensures ClosingLineAt(v, i) ==> StrayAt(v, "EOM", i + 1) && AtLineStart(v, i + 1)
  {
    if ClosingLineAt(v, i) {
      var c := v[i..i + 5];
      assert c[0] == v[i] && c[1] == v[i + 1] && c[2] == v[i + 2] && c[3] == v[i + 3] && c[4] == v[i + 4];
      var w := v[i + 1..i + 1 + |"EOM"|];
      assert w[0] == 'E' && w[1] == 'O' && w[2] == 'M';
      assert w == "EOM";
    }
  }

  lemma {:induction false} LegibleIsDumpable(kids: seq<Tree>)
    requires Legible(kids)
    ensures Dumpable(kids)
    decreases kids
  {
    forall i | 0 <= i < |kids|
      ensures Dumpable(kids[i].kids)
      ensures kids[i].data.value.Some? && '\n' in kids[i].data.value.value ==>
        AcceptsEom(kids[i].data.value.value)
    {
      LegibleIsDumpable(kids[i].kids);
      if kids[i].data.value.Some? && '\n' in kids[i].data.value.value {
        PrintableAcceptsEom(kids[i].data.value.value);
      }
    }
  }
}
