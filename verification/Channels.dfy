/** The channel list: reading channels.conf into records, writing it again, and numbering. */
module Channels {
  import opened Options
  import opened Text

  /** `data.number`, which only numbered groups have. */
  datatype GroupNumber = Undefined | Parsed(number: Number)

  /** What a line of the file says, without the derived fields. */
  datatype Row =
    | Group(name: string, number: GroupNumber)
    | Channel(name: string, provider: Option<string>,
              frequency: Option<string>, modulation: Option<string>, source: Option<string>,
              symbolrate: Option<string>, vpid: Option<string>, apid: Option<string>,
              tpid: Option<string>, caid: Option<string>, sid: Option<string>,
              nid: Option<string>, tid: Option<string>, rid: Option<string>)

  /** A record of the store; renumbering updates it in place. */
  class Record {
    const row: Row
    const channelOrig: Option<Number>
    var channel: Option<Number>

    constructor (row: Row, channel: Option<Number>)
      ensures this.row == row && this.channel == channel && channelOrig == channel
    {
      this.row, this.channel, channelOrig := row, channel, channel;
    }
  }

  function RowsOf(records: seq<Record>): (r: seq<Row>)
    ensures |r| == |records| && forall i :: 0 <= i < |r| ==> r[i] == records[i].row
  {
    seq(|records|, i requires 0 <= i < |records| => records[i].row)
  }

  // ---- one line -------------------------------------------------------------------------

  function At(columns: seq<string>, i: nat): Option<string>
  {
    if i < |columns| then Some(columns[i]) else None
  }

  /** The second column of a group line. The number of a numbered group is read from the text
      up to and with the first blank, and the name is what follows; without a blank there is
      no number and the name is the whole column. */
  function ReadGroup(column: string): Row
  {
    if column != "" && column[0] == '@' then
      var position := Find(column, ' ');
      if position < |column| then
        Group(column[position + 1..], Parsed(ParseInt(column[1..position + 1])))
      else Group(column, Parsed(NaN))
    else Group(column, Undefined)
  }

  function ReadChannel(columns: seq<string>): Row
    requires columns != []
  {
    var names := Split(columns[0], ';');
    Channel(names[0], At(names, 1), At(columns, 1), At(columns, 2), At(columns, 3), At(columns, 4), At(columns, 5),
            At(columns, 6), At(columns, 7), At(columns, 8), At(columns, 9), At(columns, 10), At(columns, 11),
            At(columns, 12))
  }

  lemma GroupLine(line: string)
    requires line != "" && Split(line, ':')[0] == ""
    ensures |Split(line, ':')| >= 2
  {
  }

  function ReadLine(line: string): Row
    requires line != ""
  {
    var columns := Split(line, ':');
    if columns[0] == "" then
      GroupLine(line);
      ReadGroup(columns[1])
    else ReadChannel(columns)
  }

  function ReadLines(lines: seq<string>): seq<Row>
  {
    if lines == [] then []
    else if lines[0] == "" then ReadLines(lines[1..])
    else [ReadLine(lines[0])] + ReadLines(lines[1..])
  }

  /** What concatenating a field prints. */
  function Shown(field: Option<string>): string
  {
    match field
    case Some(s) => s
    case None => "undefined"
  }

  function ColumnsOf(row: Row): seq<string>
    requires row.Channel?
  {
    [row.name + ";" + Shown(row.provider), Shown(row.frequency), Shown(row.modulation), Shown(row.source),
     Shown(row.symbolrate), Shown(row.vpid), Shown(row.apid), Shown(row.tpid), Shown(row.caid), Shown(row.sid),
     Shown(row.nid), Shown(row.tid), Shown(row.rid)]
  }

  /** Only a positive number is written. */
  predicate Numbered(row: Row)
  {
    row.Group? && row.number.Parsed? && row.number.number.Int? && row.number.number.value > 0
  }

  function LineOf(row: Row): (s: string)
    ensures s != ""
  {
    if row.Channel? then Join(ColumnsOf(row), ':')
    else if Numbered(row) then ":@" + Decimal(row.number.number.value) + " " + row.name
    else ":" + row.name
  }

  function LinesOf(rows: seq<Row>): (r: seq<string>)
    ensures |r| == |rows| && forall i :: 0 <= i < |r| ==> r[i] == LineOf(rows[i])
  {
    seq(|rows|, i requires 0 <= i < |rows| => LineOf(rows[i]))
  }

  // ---- numbering ------------------------------------------------------------------------

  function Next(n: Number): Number
  {
    match n
    case NaN => NaN
    case Int(v) => Int(v + 1)
  }

  /** The reader's running number after these rows: every group number replaces it. */
  function ReaderCounter(rows: seq<Row>): Number
  {
    if rows == [] then Int(1)
    else
      var before, row := ReaderCounter(rows[..|rows| - 1]), rows[|rows| - 1];
      if row.Channel? then Next(before)
      else if row.number.Parsed? then row.number.number
      else before
  }

  /** The running number of the renumbering: a group number only ever raises it. */
  function StoreCounter(rows: seq<Row>): (n: int)
    ensures n >= 1
  {
    if rows == [] then 1
    else
      var before, row := StoreCounter(rows[..|rows| - 1]), rows[|rows| - 1];
      if row.Channel? then before + 1
      else if row.number.Parsed? && row.number.number.Int? && row.number.number.value > before
      then row.number.number.value
      else before
  }

  lemma CounterStep(rows: seq<Row>, i: nat)
    requires i < |rows|
    ensures rows[..i + 1][..i] == rows[..i] && rows[..i + 1][i] == rows[i]
  {
  }

  // ---- the loops ------------------------------------------------------------------------

  /** The records carry the numbers that the reader gave them. */
  ghost predicate ReadAs(records: seq<Record>, rows: seq<Row>)
    reads records
  {
    && RowsOf(records) == rows
    && forall j :: 0 <= j < |records| ==>
         records[j].channel == records[j].channelOrig &&
         records[j].channel == if rows[j].Channel? then Some(ReaderCounter(rows[..j])) else None
  }

  lemma RowsGrow(records: seq<Record>, r: Record)
    ensures RowsOf(records + [r]) == RowsOf(records) + [r.row]
  {
  }

  lemma ReadLinesStep(lines: seq<string>, i: nat, done: seq<Row>)
    requires i < |lines|
    ensures lines[i] == "" ==> done + ReadLines(lines[i..]) == done + ReadLines(lines[i + 1..])
    ensures lines[i] != "" ==> done + ReadLines(lines[i..]) == done + [ReadLine(lines[i])] + ReadLines(lines[i + 1..])
  {
    assert lines[i..][1..] == lines[i + 1..];
  }

  lemma ReadGrows(records: seq<Record>, r: Record)
    requires ReadAs(records, RowsOf(records))
    requires r.channel == r.channelOrig
    requires r.channel == if r.row.Channel? then Some(ReaderCounter(RowsOf(records))) else None
    ensures ReadAs(records + [r], RowsOf(records + [r]))
  {
    RowsGrow(records, r);
    var rows, more := RowsOf(records), RowsOf(records + [r]);
    forall j | 0 <= j < |more|
      ensures (records + [r])[j].channel == (records + [r])[j].channelOrig
      ensures (records + [r])[j].channel == if more[j].Channel? then Some(ReaderCounter(more[..j])) else None
    {
      assert more[..j] == rows[..j];
      assert rows[..|rows|] == rows;
    }
  }

  function Advance(channel: Number, row: Row): Number
  {
    if row.Channel? then Next(channel)
    else if row.number.Parsed? then row.number.number
    else channel
  }

  /** The record of one line, and the number that the next channel gets. */
  method ReadRecord(line: string, channel: Number) returns (r: Record, next: Number)
    requires line != ""
    ensures fresh(r) && r.row == ReadLine(line) && r.channel == r.channelOrig
    ensures r.channel == if r.row.Channel? then Some(channel) else None
    ensures next == Advance(channel, r.row)
  {
    var row := ReadLine(line);
    next := channel;
    if row.Group? {
      r := new Record(row, None);
      if row.number.Parsed? {
        next := row.number.number;
      }
    } else {
      r := new Record(row, Some(channel));
      next := Next(channel);
    }
  }

  lemma CounterGrows(rows: seq<Row>, row: Row)
    ensures ReaderCounter(rows + [row]) == Advance(ReaderCounter(rows), row)
  {
    assert (rows + [row])[..|rows|] == rows;
  }

  ghost predicate Distinct(records: seq<Record>)
  {
    forall i, j :: 0 <= i < j < |records| ==> records[i] != records[j]
  }

  /** `readRecords`. */
  method ReadRecords(doc: string) returns (records: seq<Record>)
    ensures fresh(records) && Distinct(records)
    ensures ReadAs(records, ReadLines(Split(doc, '\n')))
  {
    hide ReadAs, ReadLines, ReaderCounter, ReadLine, RowsOf, Split;
    var lines := Split(doc, '\n');
    records := [];
    var channel := Int(1);
    var i := 0;
    ghost var goal := ReadLines(lines);
    Beginning(lines);
    while i < |lines|
      invariant 0 <= i <= |lines| && fresh(records) && Distinct(records)
      invariant RowsOf(records) + ReadLines(lines[i..]) == goal
      invariant ReadAs(records, RowsOf(records)) && channel == ReaderCounter(RowsOf(records))
    {
      ReadLinesStep(lines, i, RowsOf(records));
      if lines[i] != "" {
        var r, next := ReadRecord(lines[i], channel);
        RowsGrow(records, r);
        CounterGrows(RowsOf(records), r.row);
        ReadGrows(records, r);
        records, channel := records + [r], next;
      }
      i := i + 1;
    }
    Ending(lines, RowsOf(records));
  }

  lemma Ending(lines: seq<string>, done: seq<Row>)
    ensures done + ReadLines(lines[|lines|..]) == done
  {
    assert lines[|lines|..] == [];
  }

  lemma Beginning(lines: seq<string>)
    ensures RowsOf([]) + ReadLines(lines[0..]) == ReadLines(lines)
    ensures ReadAs([], RowsOf([])) && ReaderCounter(RowsOf([])) == Int(1)
  {
    assert lines[0..] == lines;
  }

  function Config(rows: seq<Row>): string
  {
    Join(LinesOf(rows), '\n')
  }

  /** `generateConfig`. */
  method GenerateConfig(records: seq<Record>) returns (text: string)
    ensures text == Config(RowsOf(records))
  {
    var channels: seq<string> := [];
    var i := 0;
    while i < |records|
      invariant 0 <= i <= |records| && |channels| == i
      invariant forall j :: 0 <= j < i ==> channels[j] == LineOf(records[j].row)
    {
      channels, i := channels + [LineOf(records[i].row)], i + 1;
    }
    assert channels == LinesOf(RowsOf(records));
    text := Join(channels, '\n');
  }

  /** `_asyncResortChannelNo`: every channel gets the running number, in place. */
  method Resort(records: seq<Record>)
    requires Distinct(records)
    modifies records
    ensures forall j :: 0 <= j < |records| ==>
      records[j].channel ==
        if records[j].row.Channel? then Some(Int(StoreCounter(RowsOf(records)[..j]))) else old(records[j].channel)
  {
    hide RowsOf;
    var channel := 1;
    var i := 0;
    ghost var rows := RowsOf(records);
    while i < |records|
      invariant 0 <= i <= |records| && channel == StoreCounter(rows[..i])
      invariant forall j :: 0 <= j < i ==>
        records[j].channel ==
          if records[j].row.Channel? then Some(Int(StoreCounter(rows[..j]))) else old(records[j].channel)
      invariant forall j :: i <= j < |records| ==> records[j].channel == old(records[j].channel)
    {
      CounterStep(rows, i);
      var row := records[i].row;
      if row.Group? {
        if row.number.Parsed? && row.number.number.Int? && row.number.number.value > channel {
          channel := row.number.number.value;
        }
      } else {
        records[i].channel := Some(Int(channel));
        channel := channel + 1;
      }
      i := i + 1;
    }
  }
}
