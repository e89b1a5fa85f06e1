/** From the driver's buffer to the table: the walk over the NUL-terminated modelines and the
    keys read off each. */
module ModelineReader {
  import Seqs
  import opened Options
  import opened Text
  import opened Tokens
  import opened Modelines

  const NUL := '\0'

  // ---- the buffer -----------------------------------------------------------------------------

  /** The modelines of a buffer: up to the first empty one; what no NUL ends is not read. */
  function Pieces(buffer: string): (r: seq<string>)
    decreases |buffer|
  {
    var i := Find(buffer, NUL);
    if i == 0 || i == |buffer| then [] else [buffer[..i]] + Pieces(buffer[i + 1..])
  }

  function Terminated(pieces: seq<string>): string
  {
    if pieces == [] then "" else pieces[0] + [NUL] + Terminated(pieces[1..])
  }

  /** From any list of modelines laid out one after the other, with an empty one at the end, the
      same list is read, whatever follows. */
  lemma {:induction false} PiecesOfTerminated(pieces: seq<string>, rest: string)
    requires forall i :: 0 <= i < |pieces| ==> pieces[i] != "" && Free(pieces[i], NUL)
    ensures Pieces(Terminated(pieces) + [NUL] + rest) == pieces
  {
    if pieces == [] {
      assert (Terminated(pieces) + [NUL] + rest)[0] == NUL;
    } else {
      var more := Terminated(pieces[1..]) + [NUL] + rest;
      Seqs.Assoc4(pieces[0] + [NUL], Terminated(pieces[1..]), [NUL], rest);
      hide Pieces;
      FirstOfPieces(pieces[0], more);
      PiecesOfTerminated(pieces[1..], rest);
      Seqs.HeadTail(pieces);
    }
  }

  lemma FirstOfPieces(piece: string, more: string)
    requires piece != "" && Free(piece, NUL)
    ensures Pieces(piece + [NUL] + more) == [piece] + Pieces(more)
  {
    var s := piece + [NUL] + more;
    FindFirst(piece, NUL, more);
    assert s[..|piece|] == piece && s[|piece| + 1..] == more;
  }

  // ---- one modeline -----------------------------------------------------------------------------

  function Contains(s: string, part: string): bool
  {
    |part| <= |s| && (s[..|part|] == part || (s != "" && Contains(s[1..], part)))
  }

  function Lower(s: string): (r: string)
    ensures |r| == |s|
  {
    seq(|s|, i requires 0 <= i < |s| => if 'A' <= s[i] <= 'Z' then s[i] - 'A' + 'a' else s[i])
  }

  /** Blanks taken off at both ends. */
  function Trim(s: string): string
    decreases |s|
  {
    if s != "" && s[0] == ' ' then Trim(s[1..])
    else if s != "" && s[|s| - 1] == ' ' then Trim(s[..|s| - 1])
    else s
  }

  /** The refresh rate from clock, horizontal and vertical total, doubled for interlace and halved
      for doublescan: floating-point arithmetic that is not looked into. */
  type Rate = (string, string, string, bool, bool) -> int

  /** The last part between colons, where the timing is. */
  function Timing(s: string): string
    requires Words(s, ":") != []
  {
    Words(s, ":")[|Words(s, ":")| - 1]
  }

  /** A modeline as the driver writes it: name, clock and eight numbers at least. */
  predicate Complete(s: string)
  {
    Words(s, ":") != [] && |Words(Timing(s), " ")| >= 10
  }

  predicate Flagged(tokens: seq<string>, flag: string)
  {
    exists i :: 10 <= i < |tokens| && Lower(tokens[i]) == flag
  }

  /** The text of the modeline behind its name. */
  function TextOf(timing: string, name: string): string
  {
    if |name| + 1 <= |timing| then Trim(timing[|name| + 1..]) else ""
  }

  function EntryOf(s: string, rate: Rate): Entry
    requires Complete(s)
  {
    var tokens := Words(Timing(s), " ");
    var interlace, doublescan := Flagged(tokens, "interlace"), Flagged(tokens, "doublescan");
    var hz := rate(tokens[1], tokens[5], tokens[9], interlace, doublescan);
    Entry(tokens[2] + "x" + tokens[6],
          Printed(hz) + (if interlace then "i" else "") + (if doublescan then "d" else ""),
          Mode(Trim(Substr(tokens[0], if tokens[0] == "" then 0 else 1, |tokens[0]| - 2)),
               Bool(Contains(Words(s, ":")[0], "source=edid")), TextOf(Timing(s), tokens[0]), tokens[2], tokens[6],
               interlace, doublescan, tokens[1..10], hz))
  }

  predicate AllComplete(pieces: seq<string>)
  {
    forall i :: 0 <= i < |pieces| ==> Complete(pieces[i])
  }

  function EntriesOf(pieces: seq<string>, rate: Rate): (r: seq<Entry>)
    requires AllComplete(pieces)
    ensures |r| == |pieces|
  {
    seq(|pieces|, i requires 0 <= i < |pieces| => EntryOf(pieces[i], rate))
  }

  /** Which of the option words occur. */
  method ReadFlags(tokens: seq<string>) returns (interlace: bool, doublescan: bool)
    requires |tokens| >= 10
    ensures interlace == Flagged(tokens, "interlace") && doublescan == Flagged(tokens, "doublescan")
  {
    interlace, doublescan := false, false;
    for i := 10 to |tokens|
      invariant interlace <==> exists j :: 10 <= j < i && Lower(tokens[j]) == "interlace"
      invariant doublescan <==> exists j :: 10 <= j < i && Lower(tokens[j]) == "doublescan"
    {
      var token := Lower(tokens[i]);
      if token == "doublescan" {
        doublescan := true;
      } else if token == "interlace" {
        interlace := true;
      }
    }
  }

  lemma TimingHoldsName(s: string)
    requires |Words(s, " ")| >= 2
    ensures |Words(s, " ")[0]| + 1 <= |s|
  {
    var start := FirstNotOf(s, " ", Some(0));
    var end := FirstOf(s, " ", start);
    assert Words(s, " ")[0] == s[start.value..end.value];
  }

  /** The body of the loop up to the table. */
  method ReadEntry(s: string, rate: Rate) returns (e: Entry)
    requires Complete(s)
    ensures e == EntryOf(s, rate)
  {
    var parts := Tokenize(s, ":");
    var tokens := Tokenize(parts[|parts| - 1], " ");
    var isEDIDMode := Contains(parts[0], "source=edid");
    var resolution := tokens[2] + "x" + tokens[6];
    var interlace, doublescan := ReadFlags(tokens);
    var frequency := rate(tokens[1], tokens[5], tokens[9], interlace, doublescan);
    var freq := Printed(frequency) + (if interlace then "i" else "") + (if doublescan then "d" else "");
    TimingHoldsName(parts[|parts| - 1]);
    var mode := Mode(Trim(Substr(tokens[0], 1, |tokens[0]| - 2)), Bool(isEDIDMode),
                     Trim(parts[|parts| - 1][|tokens[0]| + 1..]), tokens[2], tokens[6], interlace, doublescan,
                     tokens[1..10], frequency);
    e := Entry(resolution, freq, mode);
  }

  lemma ResolutionHasX(s: string, rate: Rate)
    requires Complete(s)
    ensures 'x' in EntryOf(s, rate).resolution && EntryOf(s, rate).mode.isedid.Bool?
  {
    var tokens := Words(Timing(s), " ");
    assert (tokens[2] + "x" + tokens[6])[|tokens[2]|] == 'x';
  }

  lemma PiecesStep(buffer: string, start: nat, k: nat)
    requires start <= k < |buffer| && buffer[k] == NUL && NUL !in buffer[start..k]
    ensures Pieces(buffer[start..]) ==
            if start == k then [] else [buffer[start..k]] + Pieces(buffer[k + 1..])
  {
    var s := buffer[start..];
    assert s == buffer[start..k] + [NUL] + buffer[k + 1..];
    FindFirst(buffer[start..k], NUL, buffer[k + 1..]);
    assert s[..k - start] == buffer[start..k] && s[k - start + 1..] == buffer[k + 1..];
  }

  lemma NoMorePieces(buffer: string, start: nat)
    requires start <= |buffer| && (NUL !in buffer[start..] || buffer[start] == NUL)
    ensures Pieces(buffer[start..]) == []
  {
    if NUL !in buffer[start..] {
      FindFirst(buffer[start..], NUL, "");
    }
  }

  /** What has been filed so far and what is still to come make up the whole stream. */
  ghost predicate OnTheWay(table: Table, todo: seq<string>, all: seq<string>, rate: Rate)
    reads table
    requires AllComplete(all)
  {
    |todo| <= |all| && todo == all[|all| - |todo|..] && table.seen == EntriesOf(all, rate)[..|all| - |todo|]
  }

  lemma OneFiled(seen: seq<Entry>, todo: seq<string>, all: seq<string>, rate: Rate)
    requires AllComplete(all)
    requires |todo| <= |all| && todo == all[|all| - |todo|..] && seen == EntriesOf(all, rate)[..|all| - |todo|]
    requires todo != []
    ensures Complete(todo[0]) && todo[1..] == all[|all| - |todo[1..]|..]
    ensures seen + [EntryOf(todo[0], rate)] == EntriesOf(all, rate)[..|all| - |todo[1..]|]
  {
    hide EntryOf, Complete;
    var n := |all| - |todo|;
    assert todo[0] == all[n];
    OneLonger(EntriesOf(all, rate), n);
  }

  lemma OneLonger(es: seq<Entry>, n: nat)
    requires n < |es|
    ensures es[..n] + [es[n]] == es[..n + 1]
  {
  }

  /** The modeline between `start` and the NUL at `k`. */
  method FileOne(str: string, start: nat, k: nat, table: Table, rate: Rate, ghost todo: seq<string>,
                 ghost all: seq<string>)
    requires table.Valid() && start < k < |str| && str[k] == NUL && NUL !in str[start..k]
    requires AllComplete(all)
    requires todo == Pieces(str[start..]) && OnTheWay(table, todo, all, rate)
    modifies table
    ensures table.Valid() && todo != [] && todo[1..] == Pieces(str[k + 1..]) && OnTheWay(table, todo[1..], all, rate)
  {
    hide Pieces, EntryOf, EntriesOf, Complete, Table.Valid;
    PiecesStep(str, start, k);
    OneFiled(table.seen, todo, all, rate);
    ResolutionHasX(str[start..k], rate);
    var e := ReadEntry(str[start..k], rate);
    table.Add(e);
  }

  /** No NUL since `start`, or the walk is held up by an empty modeline. */
  ghost predicate NoneSince(str: string, start: nat, k: nat)
    requires start <= k <= |str|
  {
    NUL !in str[start..k] || str[start] == NUL
  }

  lemma NoneSinceStep(str: string, start: nat, k: nat)
    requires start <= k < |str| && NoneSince(str, start, k)
    ensures str[k] != NUL || str[start] == NUL ==> NoneSince(str, start, k + 1)
    ensures str[k] == NUL && str[start] != NUL ==> start < k && NUL !in str[start..k]
    ensures NoneSince(str, k + 1, k + 1)
  {
    assert str[start..k + 1] == str[start..k] + [str[k]];
  }

  /** The loop over the buffer: the table has seen exactly the modelines of the buffer. */
  method ReadTable(str: string, table: Table, rate: Rate)
    requires table.Valid() && table.seen == []
    requires AllComplete(Pieces(str))
    modifies table
    ensures table.Valid() && table.seen == EntriesOf(Pieces(str), rate)
  {
    hide Pieces, EntriesOf, AllComplete, OnTheWay, Table.Valid, NoneSince;
    ghost var all := Pieces(str);
    ghost var todo := all;
    var start := 0;
    var k := 0;
    Start(str, table, all, rate);
    while k < |str|
      invariant start <= k <= |str| && table.Valid()
      invariant todo == Pieces(str[start..]) && OnTheWay(table, todo, all, rate)
      invariant NoneSince(str, start, k)
    {
      NoneSinceStep(str, start, k);
      if str[k] == NUL && str[start] != NUL {
        FileOne(str, start, k, table, rate, todo, all);
        start := k + 1;
        todo := todo[1..];
      }
      k := k + 1;
    }
    Finish(str, start, table, all, rate);
  }

  lemma Start(str: string, table: Table, all: seq<string>, rate: Rate)
    requires AllComplete(all) && all == Pieces(str) && table.seen == []
    ensures all == Pieces(str[0..]) && OnTheWay(table, all, all, rate) && NoneSince(str, 0, 0)
  {
    assert str[0..] == str && all[0..] == all;
  }

  lemma Finish(str: string, start: nat, table: Table, all: seq<string>, rate: Rate)
    requires AllComplete(all)
    requires start <= |str| && NoneSince(str, start, |str|) && OnTheWay(table, Pieces(str[start..]), all, rate)
    ensures table.seen == EntriesOf(all, rate)
  {
    assert str[start..|str|] == str[start..];
    NoMorePieces(str, start);
  }

  // ---- the whole display ------------------------------------------------------------------------

  /** A display that is off offers to stay off, or to let the driver choose. */
  function FirstRows(enabled: bool): seq<Row>
  {
    if enabled then []
    else [
      Row("disabled", map["0" := Mode("", Null, "", "0", "0", false, false, [], 0)]),
      Row(AUTO, map["auto" := Mode("", Null, AUTO, "0", "0", false, false, [], 0)])
    ]
  }

  /** What the finished table promises its readers. */
  ghost predicate Answers(rows: seq<Row>, known: map<string, nat>, es: seq<Entry>, enabled: bool)
  {
    && FirstRows(enabled) <= rows
    && (forall i, j :: 0 <= i < j < |rows| ==> rows[i].id != rows[j].id)
    && (forall r :: r in known <==> exists e :: e in es && e.resolution == r)
    && (forall r :: r in known ==> known[r] < |rows| && rows[known[r]].id == r)
    && (forall r, f :: r in known ==> Slot(rows[known[r]], f) == Holder(es, r, f, enabled))
  }

  /** Every slot holds the modeline it was meant for. */
  ghost predicate AnswersAsIntended(rows: seq<Row>, known: map<string, nat>, es: seq<Entry>, enabled: bool)
    requires forall r :: r in known ==> known[r] < |rows|
  {
    forall r, f :: r in known ==> Slot(rows[known[r]], f) == Intended(es, r, f, enabled)
  }

  lemma AnsweredAsIntended(rows: seq<Row>, known: map<string, nat>, es: seq<Entry>, enabled: bool)
    requires Answers(rows, known, es, enabled)
    ensures EdidLeads(es, enabled) <==> AnswersAsIntended(rows, known, es, enabled)
  {
    hide Holder, Intended, EdidLeads, Slot;
    AllHeldAsIntended(es, enabled);
    forall r, f
      ensures r !in known ==> Holder(es, r, f, enabled) == Intended(es, r, f, enabled)
    {
      if r !in known {
        UnseenAsIntended(es, r, f, enabled);
      }
    }
    assert forall r, f :: r in known ==> Slot(rows[known[r]], f) == Holder(es, r, f, enabled);
  }

  lemma UnseenAsIntended(es: seq<Entry>, r: string, f: string, enabled: bool)
    requires !exists e :: e in es && e.resolution == r
    ensures Holder(es, r, f, enabled) == Intended(es, r, f, enabled)
  {
    forall i | 0 <= i < |es|
      ensures es[i].resolution != r
    {
      assert es[i] in es;
    }
    UnseenHasNone(es, r, f, enabled, true);
  }

  lemma {:induction false} Answered(table: Table, enabled: bool)
    requires table.Valid() && table.base == FirstRows(enabled) && table.skipAuto == enabled
    ensures Answers(table.modelines, table.known, table.seen, enabled)
  {
    hide Table.Valid, FirstRows, Holder, Slot;
    var rows := table.modelines;
    BaseComesFirst(table);
    forall i, j | 0 <= i < j < |rows|
      ensures rows[i].id != rows[j].id
    {
      table.IdsDistinct(i, j);
    }
    forall r
      ensures r in table.known <==> exists e :: e in table.seen && e.resolution == r
      ensures r in table.known ==> table.known[r] < |rows| && rows[table.known[r]].id == r
    {
      table.Lookups(r, "");
    }
    forall r, f | r in table.known
      ensures Slot(rows[table.known[r]], f) == Holder(table.seen, r, f, enabled)
    {
      table.Lookups(r, f);
    }
  }

  lemma BaseComesFirst(table: Table)
    requires table.Valid()
    ensures table.base <= table.modelines
  {
  }

  lemma FirstRowsFit(enabled: bool)
    ensures IsBase(FirstRows(enabled))
  {
  }

  /** A mode of no size, with this text and nothing else. */
  predicate Sizeless(m: Mode, text: string)
  {
    && m.modeline == text && m.x == "0" && m.y == "0" && !m.interlace && !m.doublescan
    && m.id == "" && m.isedid == Null && m.clock == [] && m.hz == 0
  }

  /** The rows that stand for no modeline: none for a display that is on, and two for one that is
      off, to stay off or to let the driver choose. */
  ghost predicate ExtraRows(rows: seq<Row>, known: map<string, nat>, enabled: bool)
  {
    if enabled then
      |rows| == |known| && forall i :: 0 <= i < |rows| ==> rows[i].id in known
    else
      && |rows| == |known| + 2 && (forall i :: 2 <= i < |rows| ==> rows[i].id in known)
      && rows[0].id == "disabled" && rows[0].id !in known
      && rows[0].modes.Keys == {"0"} && Sizeless(rows[0].modes["0"], "")
      && rows[1].id == "nvidia-auto-select" && rows[1].id !in known
      && rows[1].modes.Keys == {"auto"} && Sizeless(rows[1].modes["auto"], "nvidia-auto-select")
  }

  /** No slot of a display that is on holds the automatic mode. */
  ghost predicate NoAutomatic(rows: seq<Row>, known: map<string, nat>)
    requires forall r :: r in known ==> known[r] < |rows|
  {
    forall r, f :: r in known && f in rows[known[r]].modes ==> rows[known[r]].modes[f].id != "nvidia-auto-select"
  }

  lemma KnownIds(ids: seq<string>, known: map<string, nat>)
    requires forall i, j :: 0 <= i < j < |ids| ==> ids[i] != ids[j]
    requires forall r :: r in known <==> r in ids
    ensures |known| == |ids|
  {
    var keys := set i | 0 <= i < |ids| :: ids[i];
    assert known.Keys == keys;
    SizeOfDistinct(ids);
  }

  lemma {:induction false} SizeOfDistinct(ids: seq<string>)
    requires forall i, j :: 0 <= i < j < |ids| ==> ids[i] != ids[j]
    ensures |set i | 0 <= i < |ids| :: ids[i]| == |ids|
    decreases |ids|
  {
    var all := set i | 0 <= i < |ids| :: ids[i];
    if ids == [] {
      assert all == {};
    } else {
      var n := |ids| - 1;
      SizeOfDistinct(ids[..n]);
      var fewer := set i | 0 <= i < |ids[..n]| :: ids[..n][i];
      assert all == fewer + {ids[n]} && ids[n] !in fewer;
    }
  }

  lemma RowsBehind(base: seq<Row>, rows: seq<Row>, known: map<string, nat>, ids: seq<string>, i: nat)
    requires Indexed(base, rows, known, ids) && i < |rows|
    ensures i < |base| ==> rows[i] == base[i]
    ensures i >= |base| ==> rows[i].id in known
  {
    if i < |base| {
      assert rows[..|base|][i] == rows[i];
    } else {
      assert rows[|base| + (i - |base|)].id == ids[i - |base|];
    }
  }

  lemma IndexedSizes(base: seq<Row>, rows: seq<Row>, known: map<string, nat>, ids: seq<string>)
    requires Indexed(base, rows, known, ids)
    ensures |rows| == |base| + |ids| && forall r :: r in known <==> r in ids
  {
  }

  lemma FirstRowsAre(enabled: bool)
    ensures var base := FirstRows(enabled);
      if enabled then base == []
      else
        && |base| == 2 && base[0].id == "disabled" && base[1].id == "nvidia-auto-select"
        && base[0].modes.Keys == {"0"} && Sizeless(base[0].modes["0"], "")
        && base[1].modes.Keys == {"auto"} && Sizeless(base[1].modes["auto"], "nvidia-auto-select")
  {
  }

  lemma NoResolution(table: Table, id: string)
    requires table.Valid() && Free(id, 'x')
    ensures id !in table.known
  {
    hide Slotted, IsBase;
    var ids := Appearances(table.seen);
    if id in ids {
      var j :| 0 <= j < |ids| && ids[j] == id;
      AppearanceHasX(table.seen, j);
    }
  }

  lemma Extras(table: Table, enabled: bool)
    requires table.Valid() && table.base == FirstRows(enabled)
    ensures ExtraRows(table.modelines, table.known, enabled)
  {
    hide Indexed, Slotted, FirstRows, IsBase, Appearances, Stored, Sizeless, Free;
    var ids, rows := Appearances(table.seen), table.modelines;
    IndexedSizes(table.base, rows, table.known, ids);
    KnownIds(ids, table.known);
    FirstRowsAre(enabled);
    forall i | 0 <= i < |rows|
      ensures i < |table.base| ==> rows[i] == table.base[i]
      ensures i >= |table.base| ==> rows[i].id in table.known
    {
      RowsBehind(table.base, rows, table.known, ids, i);
    }
    assert Free("disabled", 'x') && Free("nvidia-auto-select", 'x') by { FreeOfX(); }
    NoResolution(table, "disabled");
    NoResolution(table, "nvidia-auto-select");
  }

  lemma FreeOfX()
    ensures Free("disabled", 'x') && Free("nvidia-auto-select", 'x')
  {
  }

  lemma Automatic(rows: seq<Row>, known: map<string, nat>, es: seq<Entry>)
    requires Answers(rows, known, es, true)
    ensures NoAutomatic(rows, known)
  {
    forall r, f | r in known && f in rows[known[r]].modes
      ensures rows[known[r]].modes[f].id != "nvidia-auto-select"
    {
      var i := HolderOf(es, r, f, true);
      assert Slot(rows[known[r]], f) == Holder(es, r, f, true);
    }
  }

  /** For every buffer of complete modelines: each resolution has exactly one row, `known` points
      at it, no two rows share an id, and each slot holds the first modeline of its key; a display
      that is on leaves the automatic mode out. So each slot holds the first EDID modeline of its
      key, where there is one, exactly if the EDID modelines come first. */
  method ModelinesOf(str: string, enabled: bool, rate: Rate) returns (table: Table)
    requires AllComplete(Pieces(str))
    ensures fresh(table)
    ensures Answers(table.modelines, table.known, EntriesOf(Pieces(str), rate), enabled)
    ensures ExtraRows(table.modelines, table.known, enabled)
    ensures enabled ==> NoAutomatic(table.modelines, table.known)
    ensures EdidLeads(EntriesOf(Pieces(str), rate), enabled) <==>
      AnswersAsIntended(table.modelines, table.known, EntriesOf(Pieces(str), rate), enabled)
  {
    hide Pieces, EntriesOf, AllComplete, Answers, FirstRows, Table.Valid, ExtraRows, NoAutomatic;
    FirstRowsFit(enabled);
    table := new Table(FirstRows(enabled), enabled);
    ReadTable(str, table, rate);
    Answered(table, enabled);
    Extras(table, enabled);
    if enabled {
      Automatic(table.modelines, table.known, EntriesOf(Pieces(str), rate));
    }
    AnsweredAsIntended(table.modelines, table.known, EntriesOf(Pieces(str), rate), enabled);
  }
}
