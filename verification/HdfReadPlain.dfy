/** Reading a text without link lines into a data set without links always comes to an end. */
module HdfReadPlain {
  import opened Options
  import opened HdfTree
  import opened HdfAttrs
  import opened HdfSpec
  import opened HdfLine
  import opened HdfHeredoc
  import opened HdfRead
  import opened HdfPlain

  /** No line that the reader comes to, in any block, makes a link. The lines of a multi-line
      value are not read as lines, and nothing is read behind a broken one. */
  predicate NoLinkLines(s: string)
    decreases |s|
  {
    s == "" ||
    var first := NextLine(s);
    match ParseLine(first.line)
    case Link(_, _, _) => false
    case Bad => true
    case Heredoc(name, term, attrs) => NoLinkLines(AfterLine(Heredoc(name, term, attrs), first.rest))
    case _ => NoLinkLines(first.rest)
  }

  lemma PlainSet(t: Tree, p: Path, name: string, d: Data, fuel: nat)
    requires Plain(t) && Has(t, p) && !d.link
    ensures var r := SetValue(t, p, name, d, fuel);
      !r.Aborted? && Plain(r.tree)
  {
    if name != "" {
      PlainKept(t, p, name, d, fuel);
    } else {
      var before := Get(t, p).value.data;
      forall q | Has(SetSelf(t, p, d), q)
        ensures !Get(SetSelf(t, p, d), q).value.data.link
      {
        SetDataShallow(t, p, Data(d.value, before.link, Combine(before.attrs, d.attrs)), q);
      }
    }
  }

  lemma PlainLine(t: Tree, p: Path, st: Stmt, text: string, fuel: nat)
    requires Plain(t) && Has(t, p) && (st.Assign? || st.CopyOf? || (st.Heredoc? && st.term != ""))
    ensures var r := SetLine(t, p, st, text, fuel);
      !r.Aborted? && Plain(r.tree)
  {
    hide SetValue, Plain;
    match st
    case Assign(name, v, attrs) => PlainSet(t, p, name, Data(Some(v), false, attrs), fuel);
    case Heredoc(name, term, attrs) =>
      PlainSet(t, p, name, Data(Some(ReadBody(text, term).text), false, attrs), fuel);
    case CopyOf(name, source, attrs) =>
      PlainWalk(t, [], source, fuel);
      PlainSet(t, p, name, Data(Source(t, source, fuel), false, attrs), fuel);
  }

  lemma PlainOpen(t: Tree, p: Path, name: string, attrs: seq<Attr>, fuel: nat)
    requires Plain(t) && Has(t, p)
    ensures var r := OpenLine(t, p, name, attrs, fuel);
      !r.Aborted? && Plain(r.tree) && (r.Done? ==> Has(r.tree, r.path))
  {
    hide SetValue, Plain;
    OpenLineKeeps(t, p, name, attrs, fuel);
    PlainWalk(t, p, name, fuel);
    var w := Walk(t, p, name, fuel);
    if w.Found? {
      PlainSet(t, w.path, "", Data(Get(t, w.path).value.data.value, false, attrs), fuel);
    } else {
      PlainSet(t, p, name, Data(None, false, attrs), fuel);
    }
  }

  /** With any fuel, whatever the blocks, and whether or not a line is refused. */
  lemma {:induction false} PlainReadEnds(t: Tree, p: Path, s: string, strict: bool, fuel: nat)
    requires Plain(t) && Has(t, p) && NoLinkLines(s)
    ensures var r := ReadText(t, p, s, strict, fuel);
      !r.Lost? && Plain(r.tree) && (r.Read? ==> NoLinkLines(r.rest))
    decreases |s|
  {
    if s != "" {
      var first := NextLine(s);
      var st := ParseLine(first.line);
      if st.Blank? || st.Include? {
        PlainReadEnds(t, p, first.rest, strict, fuel);
      } else if st.Open? {
        PlainBlockEnds(t, p, s, st.name, st.attrs, strict, fuel);
      } else if st.Assign? || st.CopyOf? || st.Heredoc? {
        PlainLine(t, p, st, first.rest, fuel);
        SetLineKeeps(t, p, st, first.rest, fuel);
        var r := SetLine(t, p, st, first.rest, fuel);
        if r.Done? {
          PlainReadEnds(r.tree, p, AfterLine(st, first.rest), strict, fuel);
        }
      }
    }
  }

  lemma {:induction false} PlainBlockEnds(t: Tree, p: Path, s: string, name: string, attrs: seq<Attr>,
    strict: bool, fuel: nat)
    requires Plain(t) && Has(t, p) && NoLinkLines(s) && s != "" && ParseLine(NextLine(s).line) == Open(name, attrs)
    ensures var r := ReadText(t, p, s, strict, fuel);
      !r.Lost? && Plain(r.tree) && (r.Read? ==> NoLinkLines(r.rest))
    decreases |s|, 0
  {
    hide ParseLine, NextLine, OpenLine, Plain;
    var rest, r := NextLine(s).rest, OpenLine(t, p, name, attrs, fuel);
    PlainOpen(t, p, name, attrs, fuel);
    OpenLineKeeps(t, p, name, attrs, fuel);
    if r.Done? {
      PlainReadEnds(r.tree, r.path, rest, strict, fuel);
      var inner := ReadText(r.tree, r.path, rest, strict, fuel);
      if inner.Read? {
        PlainReadEnds(inner.tree, p, inner.rest, strict, fuel);
      }
    }
  }
}
