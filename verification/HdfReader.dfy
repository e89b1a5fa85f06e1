/** Reading a text into a data set of linked nodes, line by line. */
module HdfReader {
  import opened Options
  import opened HdfTree
  import opened HdfLevel
  import opened HdfStore
  import opened HdfLine
  import opened HdfScanner
  import R = HdfRead

  /** A line with a value: the assignment it makes and where reading goes on. */
  method ReadValueLine(h: HdfStore, hdf: Hdf, st: Stmt, str: string, pos: nat, ghost fuel: nat)
    returns (ok: bool, next: nat)
    requires h.Valid() && hdf in h.nodes && Has(h.T, hdf.path) && pos <= |str|
    requires st.Assign? || st.CopyOf? || st.Link? || (st.Heredoc? && st.term != "")
    requires !R.SetLine(h.T, hdf.path, st, str[pos..], fuel).Aborted?
    modifies h`T, h`nodes, h.nodes
    ensures h.Valid() && old(h.nodes) <= h.nodes && fresh(h.nodes - old(h.nodes))
    ensures var r := R.SetLine(old(h.T), hdf.path, st, str[pos..], fuel); ok == r.Done? && h.T == r.tree
    ensures pos <= next <= |str| && str[next..] == R.AfterLine(st, str[pos..])
  {
    next := pos;
    var node: Hdf? := null;
    match st {
      case Assign(name, v, attrs) => ok, node := h.SetValue(hdf, name, Data(Some(v), false, attrs), fuel);
      case Link(name, v, attrs) => ok, node := h.SetValue(hdf, name, Data(Some(v), true, attrs), fuel);
      case CopyOf(name, source, attrs) =>
        h.Shown(h.root);
        var from := h.Walk(h.root, source, fuel);
        var v := "";
        if from != null {
          h.Shown(from);
          if from.value.Some? {
            v := from.value.value;
          }
        }
        ok, node := h.SetValue(hdf, name, Data(Some(v), false, attrs), fuel);
      case Heredoc(name, term, attrs) =>
        var text;
        text, next := TakeBody(str, pos, term);
        ok, node := h.SetValue(hdf, name, Data(Some(text), false, attrs), fuel);
    }
  }

  /** A line that opens a block: the node to read it into. */
  method OpenBlock(h: HdfStore, hdf: Hdf, name: string, attrs: seq<Attr>, ghost fuel: nat)
    returns (ok: bool, lower: Hdf?)
    requires h.Valid() && hdf in h.nodes && Has(h.T, hdf.path)
    requires !R.OpenLine(h.T, hdf.path, name, attrs, fuel).Aborted?
    modifies h`T, h`nodes, h.nodes
    ensures h.Valid() && old(h.nodes) <= h.nodes && fresh(h.nodes - old(h.nodes))
    ensures var r := R.OpenLine(old(h.T), hdf.path, name, attrs, fuel);
      ok == r.Done? && h.T == r.tree && (ok ==> lower != null && lower in h.nodes && lower.path == r.path)
  {
    lower := h.Walk(hdf, name, fuel);
    if lower == null {
      ok, lower := h.SetValue(hdf, name, Data(None, false, attrs), fuel);
    } else {
      h.Shown(lower);
      ok, lower := h.SetValue(lower, "", Data(lower.value, false, attrs), fuel);
    }
  }

  /** What remains of reading once one line has been read. */
  ghost predicate Goes(h: HdfStore, p: Path, str: string, pos: nat, strict: bool, fuel: nat, goal: R.ReadResult)
    reads h
  {
    pos <= |str| && Has(h.T, p) && R.ReadText(h.T, p, str[pos..], strict, fuel) == goal
  }

  /** How reading stands after one line: over, one way or the other, or going on. */
  datatype Outcome = Going | Stopped | Broken

  ghost predicate Stands(h: HdfStore, p: Path, str: string, pos: nat, next: nat, strict: bool, fuel: nat,
                         goal: R.ReadResult, o: Outcome)
    reads h
  {
    match o
    case Going => pos < next && Goes(h, p, str, next, strict, fuel, goal)
    case Stopped => pos <= next <= |str| && goal == R.Read(h.T, str[next..])
    case Broken => pos <= next <= |str| && goal == R.Failed(h.T)
  }

  lemma SimpleLine(t: Tree, p: Path, s: string, strict: bool, fuel: nat)
    requires Has(t, p) && s != ""
    ensures var first, goal := R.NextLine(s), R.ReadText(t, p, s, strict, fuel);
      match ParseLine(first.line)
      case Blank => goal == R.ReadText(t, p, first.rest, strict, fuel)
      case Include => goal == if strict then R.Failed(t) else R.ReadText(t, p, first.rest, strict, fuel)
      case Bad => goal == R.Failed(t)
      case Close => goal == R.Read(t, first.rest)
      case _ => true
  {
    hide R.NextLine, ParseLine, R.OpenLine, R.SetLine, R.AfterLine;
  }

  lemma {:induction false} BlockLine(t: Tree, p: Path, s: string, name: string, attrs: seq<Attr>, strict: bool,
                                     fuel: nat)
    requires Has(t, p) && s != "" && !R.ReadText(t, p, s, strict, fuel).Lost?
    requires ParseLine(R.NextLine(s).line) == Open(name, attrs)
    ensures var rest, goal := R.NextLine(s).rest, R.ReadText(t, p, s, strict, fuel);
      var r := R.OpenLine(t, p, name, attrs, fuel);
      !r.Aborted? &&
      (r.EmptyComponent? ==> goal == R.Failed(r.tree)) &&
      (r.Done? ==> Has(r.tree, r.path)) &&
      (r.Done? ==> !R.ReadText(r.tree, r.path, rest, strict, fuel).Lost?)
  {
    hide R.NextLine, ParseLine, R.OpenLine, R.SetLine, R.AfterLine;
    R.OpenLineKeeps(t, p, name, attrs, fuel);
  }

  lemma {:induction false} ValueLine(t: Tree, p: Path, s: string, st: Stmt, strict: bool, fuel: nat)
    requires Has(t, p) && s != "" && !R.ReadText(t, p, s, strict, fuel).Lost?
    requires st == ParseLine(R.NextLine(s).line)
    requires st.Assign? || st.CopyOf? || st.Link? || st.Heredoc?
    ensures var rest, goal := R.NextLine(s).rest, R.ReadText(t, p, s, strict, fuel);
      var r := R.SetLine(t, p, st, rest, fuel);
      !r.Aborted? &&
      (r.EmptyComponent? ==> goal == R.Failed(r.tree)) &&
      (r.Done? ==> Has(r.tree, p)) &&
      (r.Done? ==> goal == R.ReadText(r.tree, p, R.AfterLine(st, rest), strict, fuel))
  {
    hide R.NextLine, ParseLine, R.OpenLine, R.SetLine, R.AfterLine;
    R.SetLineKeeps(t, p, st, R.NextLine(s).rest, fuel);
  }

  /** After a block that was read to its end. */
  lemma {:induction false} AfterBlock(t: Tree, p: Path, s: string, name: string, attrs: seq<Attr>, strict: bool,
                                      fuel: nat)
    requires Has(t, p) && s != "" && ParseLine(R.NextLine(s).line) == Open(name, attrs)
    requires R.OpenLine(t, p, name, attrs, fuel).Done?
    ensures var r, goal := R.OpenLine(t, p, name, attrs, fuel), R.ReadText(t, p, s, strict, fuel);
      Has(r.tree, r.path) &&
      match R.ReadText(r.tree, r.path, R.NextLine(s).rest, strict, fuel)
      case Lost => goal.Lost?
      case Failed(t2) => goal == R.Failed(t2)
      case Read(t2, rest) => Has(t2, p) && goal == R.ReadText(t2, p, rest, strict, fuel)
  {
    hide R.NextLine, ParseLine, R.OpenLine, R.SetLine, R.AfterLine;
    R.OpenLineKeeps(t, p, name, attrs, fuel);
  }

  method ReadBlock(h: HdfStore, hdf: Hdf, name: string, attrs: seq<Attr>, str: string, pos: nat, at: nat,
                   strict: bool, ghost fuel: nat, ghost goal: R.ReadResult)
    returns (o: Outcome, next: nat)
    requires h.Valid() && hdf in h.nodes && pos < at <= |str| && !goal.Lost?
    requires Goes(h, hdf.path, str, pos, strict, fuel, goal)
    requires R.NextLine(str[pos..]).rest == str[at..]
    requires ParseLine(R.NextLine(str[pos..]).line) == Open(name, attrs)
    modifies h`T, h`nodes, h.nodes
    ensures h.Valid() && old(h.nodes) <= h.nodes && fresh(h.nodes - old(h.nodes))
    ensures Stands(h, hdf.path, str, pos, next, strict, fuel, goal, o)
    decreases |str| - pos, 0
  {
    hide HdfStore.Valid, R.ReadText, R.NextLine, ParseLine, R.OpenLine, R.SetLine, R.AfterLine;
    BlockLine(h.T, hdf.path, str[pos..], name, attrs, strict, fuel);
    ghost var t := h.T;
    next := at;
    var ok, lower := OpenBlock(h, hdf, name, attrs, fuel);
    if !ok {
      return Broken, at;
    }
    AfterBlock(t, hdf.path, str[pos..], name, attrs, strict, fuel);
    ok, next := ReadLines(h, lower, str, at, strict, fuel);
    o := if ok then Going else Broken;
  }

  lemma PosInside(str: string, pos: nat)
    requires pos < |str|
    ensures str[pos..] != ""
  {
  }

  /** One round of the loop of `_hdf_read_string`. */
  method ReadOne(h: HdfStore, hdf: Hdf, str: string, pos: nat, strict: bool, ghost fuel: nat, ghost goal: R.ReadResult)
    returns (o: Outcome, next: nat)
    requires h.Valid() && hdf in h.nodes && pos < |str| && !goal.Lost?
    requires Goes(h, hdf.path, str, pos, strict, fuel, goal)
    modifies h`T, h`nodes, h.nodes
    ensures h.Valid() && old(h.nodes) <= h.nodes && fresh(h.nodes - old(h.nodes))
    ensures Stands(h, hdf.path, str, pos, next, strict, fuel, goal, o)
    decreases |str| - pos, 1
  {
    hide HdfStore.Valid, R.ReadText, R.NextLine, ParseLine, R.OpenLine, R.SetLine, R.AfterLine;
    PosInside(str, pos);
    SimpleLine(h.T, hdf.path, str[pos..], strict, fuel);
    var line, at := TakeLine(str, pos);
    var st := ScanLine(line);
    next := at;
    match st {
      case Blank => o := Going;
      case Include => o := if strict then Broken else Going;
      case Bad => o := Broken;
      case Close => o := Stopped;
      case Open(name, attrs) =>
        o, next := ReadBlock(h, hdf, name, attrs, str, pos, at, strict, fuel, goal);
      case _ =>
        ValueLine(h.T, hdf.path, str[pos..], st, strict, fuel);
        var ok;
        ok, next := ReadValueLine(h, hdf, st, str, at, fuel);
        o := if ok then Going else Broken;
    }
  }

  /** `_hdf_read_string`. It may be called whenever no link met on the way leads round in
      circles; the position it returns is behind the closing brace, or at the end. */
  method ReadLines(h: HdfStore, hdf: Hdf, str: string, start: nat, strict: bool, ghost fuel: nat)
    returns (ok: bool, pos: nat)
    requires h.Valid() && hdf in h.nodes && Has(h.T, hdf.path) && start <= |str|
    requires !R.ReadText(h.T, hdf.path, str[start..], strict, fuel).Lost?
    modifies h`T, h`nodes, h.nodes
    ensures h.Valid() && old(h.nodes) <= h.nodes && fresh(h.nodes - old(h.nodes))
    ensures start <= pos <= |str|
    ensures R.ReadText(old(h.T), hdf.path, str[start..], strict, fuel) ==
      if ok then R.Read(h.T, str[pos..]) else R.Failed(h.T)
    decreases |str| - start, 2
  {
    hide HdfStore.Valid, R.NextLine, ParseLine, R.OpenLine, R.SetLine, R.AfterLine;
    ghost var goal := R.ReadText(h.T, hdf.path, str[start..], strict, fuel);
    pos := start;
    while pos < |str|
      invariant h.Valid() && hdf in h.nodes && start <= pos
      invariant old(h.nodes) <= h.nodes && fresh(h.nodes - old(h.nodes))
      invariant Goes(h, hdf.path, str, pos, strict, fuel, goal)
      decreases |str| - pos
    {
      var o, next := ReadOne(h, hdf, str, pos, strict, fuel, goal);
      pos := next;
      if o == Stopped {
        return true, pos;
      } else if o == Broken {
        return false, pos;
      }
    }
    assert str[pos..] == "";
    ok := true;
  }
}
