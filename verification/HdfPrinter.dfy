/** Printing a data set of linked nodes: the loops of `hdf_dump_cb` write exactly the text of the
    tree. */
module HdfPrinter {
  import Seqs
  import opened Options
  import opened HdfTree
  import opened HdfLevel
  import opened HdfStore
  import opened HdfLex
  import opened HdfDump
  import C = HdfStoreCopy

  /** The attribute list, with a comma and a blank between its members. */
  method PrintAttrs(attrs: seq<Attr>) returns (out: string)
    ensures out == AttrsText(attrs)
  {
    out := "";
    var i := 0;
    while i < |attrs|
      invariant 0 <= i <= |attrs|
      invariant out + AttrsText(attrs[i..]) == AttrsText(attrs)
    {
      AttrsHead(attrs, i);
      out := out + AttrText(attrs[i]);
      if i + 1 < |attrs| {
        out := out + ", ";
      }
      i := i + 1;
    }
    assert attrs[|attrs|..] == [] && out + "" == out;
  }

  lemma AttrsHead(attrs: seq<Attr>, i: nat)
    requires i < |attrs|
    ensures AttrsText(attrs[i..]) ==
            AttrText(attrs[i]) + (if i + 1 < |attrs| then ", " else "") + AttrsText(attrs[i + 1..])
  {
    assert attrs[i..][1..] == attrs[i + 1..];
    if i + 1 == |attrs| {
      assert AttrText(attrs[i]) + "" + "" == AttrText(attrs[i]);
    }
  }

  /** Name, attributes and value of one node; nothing when it has no value. */
  method PrintValue(prefix: Option<string>, n: Hdf, fmt: Format, lvl: nat) returns (out: string)
    ensures out == ValueText(prefix, n.name, Data(n.value, n.link, n.attr), fmt, lvl)
  {
    out := "";
    if n.value.Some? {
      var v := n.value.value;
      out := Label(prefix, n.name, fmt, lvl);
      if n.attr != [] {
        var attrs := PrintAttrs(n.attr);
        out := out + (" [" + attrs + "] ");
      } else {
        assert out + "" == out;
      }
      out := out + ValuePart(v, n.link);
    }
  }

  lemma DumpRound(kids: seq<Tree>, i: nat, prefix: Option<string>, fmt: Format, lvl: nat)
    requires i < |kids|
    ensures var k := kids[i];
      Dump(kids[i..], prefix, fmt, lvl) ==
      ValueText(prefix, k.name, k.data, fmt, lvl) +
        (BlockText(k, prefix, fmt, lvl) + Dump(kids[i + 1..], prefix, fmt, lvl))
  {
    assert kids[i..][1..] == kids[i + 1..];
  }

  /** The children of one node, in their braces or under their longer prefix. */
  method PrintBlock(h: HdfStore, n: Hdf, prefix: Option<string>, fmt: Format, lvl: nat) returns (out: string)
    requires h.Valid() && n in h.nodes && Has(h.T, n.path)
    requires Dumpable(Get(h.T, n.path).value.kids) && n.name == Get(h.T, n.path).value.name
    ensures out == BlockText(Get(h.T, n.path).value, prefix, fmt, lvl)
    decreases Get(h.T, n.path).value, 1
  {
    C.SourceWidth(h, n);
    if n.child == null {
      return "";
    }
    if fmt == Dotted {
      out := PrintNodes(h, n, Some(Below(prefix, n.name)), fmt, lvl + 1);
    } else {
      var inner := PrintNodes(h, n, Some(n.name), fmt, lvl + 1);
      out := Indent(fmt, lvl) + n.name + " {\n" + inner + (Indent(fmt, lvl) + "}\n");
    }
  }

  /** `hdf_dump_cb`: all the children of a node, for data sets whose multi-line values accept
      the terminator `EOM`. */
  method PrintNodes(h: HdfStore, hdf: Hdf, prefix: Option<string>, fmt: Format, lvl: nat) returns (out: string)
    requires h.Valid() && hdf in h.nodes && Has(h.T, hdf.path)
    requires Dumpable(Get(h.T, hdf.path).value.kids)
    ensures out == Dump(Get(h.T, hdf.path).value.kids, prefix, fmt, lvl)
    decreases Get(h.T, hdf.path).value, 0
  {
    hide HdfStore.Valid, Dump;
    DumpNothing(prefix, fmt, lvl);
    ghost var kids := Get(h.T, hdf.path).value.kids;
    ghost var rest := Dump(kids, prefix, fmt, lvl);
    C.SourceWidth(h, hdf);
    Seqs.Empty(rest);
    Seqs.Whole(kids);
    out := "";
    var n := hdf.child;
    ghost var i := 0;
    while n != null
      invariant 0 <= i <= |hdf.kids| && |hdf.kids| == |kids|
      invariant n == if i < |hdf.kids| then hdf.kids[i] else null
      invariant rest == Dump(kids[i..], prefix, fmt, lvl)
      invariant out + rest == Dump(kids, prefix, fmt, lvl)
      decreases |kids| - i
    {
      C.SourceKid(h, hdf, i);
      DumpRound(kids, i, prefix, fmt, lvl);
      var value := PrintValue(prefix, n, fmt, lvl);
      var block := PrintBlock(h, n, prefix, fmt, lvl);
      rest := Dump(kids[i + 1..], prefix, fmt, lvl);
      Seqs.Assoc4(out, value, block, rest);
      out := out + value + block;
      n, i := n.next, i + 1;
    }
    Seqs.Empty(out);
  }

  lemma DumpNothing(prefix: Option<string>, fmt: Format, lvl: nat)
    ensures Dump([], prefix, fmt, lvl) == ""
  {
  }
}
