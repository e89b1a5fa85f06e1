/** The meaning of reading a data-set text: one line after the other, each executed on the tree
    at once, with blocks read recursively. */
module HdfRead {
  import opened Options
  import opened HdfTree
  import opened HdfSpec
  import opened HdfCopy
  import opened HdfLine
  import opened HdfHeredoc

  /** `Read` leaves the text behind a closing brace unread; `Failed` keeps what had been read;
      `Lost` is the reader that never returns because links go round in circles. */
  datatype ReadResult = Read(tree: Tree, rest: string) | Failed(tree: Tree) | Lost

  datatype FirstLine = FirstLine(line: string, rest: string)

  /** `_copy_line_advance`: the text up to the newline, which is dropped. */
  function NextLine(s: string): (r: FirstLine)
    ensures |r.rest| <= |s| && (s != "" ==> |r.rest| < |s|)
    ensures '\n' !in r.line
  {
    if s == "" then FirstLine("", "")
    else if s[0] == '\n' then FirstLine("", s[1..])
    else
      var r := NextLine(s[1..]);
      FirstLine([s[0]] + r.line, r.rest)
  }

  ghost predicate Keeps(t: Tree, t2: Tree)
  {
    forall x :: Has(t, x) ==> Has(t2, x)
  }

  lemma SetKeepsAll(t: Tree, base: Path, name: string, d: Data, fuel: nat)
    requires Has(t, base)
    ensures var r := SetValue(t, base, name, d, fuel);
      (!r.Aborted? ==> Keeps(t, r.tree)) && (r.Done? ==> Has(r.tree, r.path))
  {
    forall x | Has(t, x)
      ensures !SetValue(t, base, name, d, fuel).Aborted? ==> Has(SetValue(t, base, name, d, fuel).tree, x)
    {
      SetKeeps(t, base, name, d, fuel, x);
    }
    SetKeeps(t, base, name, d, fuel, base);
  }

  /** The value a `:=` line copies, looked up from the top. */
  function Source(t: Tree, source: string, fuel: nat): Option<string>
  {
    match Walk(t, [], source, fuel)
    case Stuck => None
    case Missing => Some("")
    case Found(q) =>
      match Get(t, q).value.data.value
      case Some(v) => Some(v)
      case None => Some("")
  }

  /** The assignment that a line with a value makes; `text` is what follows the line. */
  function SetLine(t: Tree, p: Path, st: Stmt, text: string, fuel: nat): (r: SetResult)
    requires Has(t, p)
    requires st.Assign? || st.CopyOf? || st.Link? || (st.Heredoc? && st.term != "")
  {
    match st
    case Assign(name, v, attrs) => SetValue(t, p, name, Data(Some(v), false, attrs), fuel)
    case Link(name, v, attrs) => SetValue(t, p, name, Data(Some(v), true, attrs), fuel)
    case Heredoc(name, term, attrs) =>
      SetValue(t, p, name, Data(Some(ReadBody(text, term).text), false, attrs), fuel)
    case CopyOf(name, source, attrs) =>
      match Source(t, source, fuel)
      case None => Aborted
      case Some(v) => SetValue(t, p, name, Data(Some(v), false, attrs), fuel)
  }

  lemma SetLineKeeps(t: Tree, p: Path, st: Stmt, text: string, fuel: nat)
    requires Has(t, p)
    requires st.Assign? || st.CopyOf? || st.Link? || (st.Heredoc? && st.term != "")
    ensures var r := SetLine(t, p, st, text, fuel); !r.Aborted? ==> Keeps(t, r.tree)
  {
    match st
    case Assign(name, v, attrs) => SetKeepsAll(t, p, name, Data(Some(v), false, attrs), fuel);
    case Link(name, v, attrs) => SetKeepsAll(t, p, name, Data(Some(v), true, attrs), fuel);
    case Heredoc(name, term, attrs) =>
      SetKeepsAll(t, p, name, Data(Some(ReadBody(text, term).text), false, attrs), fuel);
    case CopyOf(name, source, attrs) =>
      var v := Source(t, source, fuel);
      if v.Some? {
        SetKeepsAll(t, p, name, Data(v, false, attrs), fuel);
      }
  }

  /** The text behind a line with a value. */
  function AfterLine(st: Stmt, text: string): (r: string)
    requires st.Heredoc? ==> st.term != ""
    ensures |r| <= |text|
  {
    if st.Heredoc? then ReadBody(text, st.term).rest else text
  }

  /** The node a block is read into: an existing one only takes the attributes. */
  function OpenLine(t: Tree, p: Path, name: string, attrs: seq<Attr>, fuel: nat): SetResult
    requires Has(t, p)
  {
    match Walk(t, p, name, fuel)
    case Stuck => Aborted
    case Found(q) => SetValue(t, q, "", Data(Get(t, q).value.data.value, false, attrs), fuel)
    case Missing => SetValue(t, p, name, Data(None, false, attrs), fuel)
  }

  lemma OpenLineKeeps(t: Tree, p: Path, name: string, attrs: seq<Attr>, fuel: nat)
    requires Has(t, p)
    ensures var r := OpenLine(t, p, name, attrs, fuel);
      (!r.Aborted? ==> Keeps(t, r.tree)) && (r.Done? ==> Has(r.tree, r.path))
  {
    var w := Walk(t, p, name, fuel);
    if w.Found? {
      SetKeepsAll(t, w.path, "", Data(Get(t, w.path).value.data.value, false, attrs), fuel);
    } else {
      SetKeepsAll(t, p, name, Data(None, false, attrs), fuel);
    }
  }

  /** `_hdf_read_string` into the node at `p`; `#include` is an error or passed over. */
  function ReadText(t: Tree, p: Path, s: string, includesFail: bool, fuel: nat): (r: ReadResult)
    requires Has(t, p)
    ensures r.Read? ==> Keeps(t, r.tree) && |r.rest| <= |s|
    decreases |s|
  {
    if s == "" then Read(t, "")
    else
      var first := NextLine(s);
      var st := ParseLine(first.line);
      match st
      case Blank => ReadText(t, p, first.rest, includesFail, fuel)
      case Include => if includesFail then Failed(t) else ReadText(t, p, first.rest, includesFail, fuel)
      case Bad => Failed(t)
      case Close => Read(t, first.rest)
      case Open(name, attrs) =>
        (match OpenLine(t, p, name, attrs, fuel)
         case Aborted => Lost
         case EmptyComponent(t1) => Failed(t1)
         case Done(t1, q) =>
           OpenLineKeeps(t, p, name, attrs, fuel);
           match ReadText(t1, q, first.rest, includesFail, fuel)
           case Lost => Lost
           case Failed(t2) => Failed(t2)
           case Read(t2, rest) => ReadText(t2, p, rest, includesFail, fuel))
      case _ =>
        match SetLine(t, p, st, first.rest, fuel)
        case Aborted => Lost
        case EmptyComponent(t1) => Failed(t1)
        case Done(t1, q) =>
          SetLineKeeps(t, p, st, first.rest, fuel);
          ReadText(t1, p, AfterLine(st, first.rest), includesFail, fuel)
  }
}
