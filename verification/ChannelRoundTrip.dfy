/** Exactly which channel lists survive being written and read again. */
module ChannelRoundTrip {
  import opened Options
  import opened Text
  import opened Channels

  function Fields(row: Row): seq<Option<string>>
    requires row.Channel?
  {
    [row.frequency, row.modulation, row.source, row.symbolrate, row.vpid, row.apid, row.tpid, row.caid, row.sid,
     row.nid, row.tid, row.rid]
  }

  predicate FreeName(name: string)
  {
    Free(name, ':') && Free(name, '\n')
  }

  predicate FreeItem(name: string)
  {
    FreeName(name) && Free(name, ';')
  }

  /** What is written for a field avoids the separators. */
  predicate FreeRow(row: Row)
  {
    if row.Group? then FreeName(row.name)
    else
      FreeItem(row.name) && FreeItem(Shown(row.provider)) &&
      forall i :: 0 <= i < |Fields(row)| ==> FreeName(Shown(Fields(row)[i]))
  }

  /** The rows that survive: what is written avoids the separators, no field is missing, a group
      number is positive, and a group name starting with `@` has no number and no blank. */
  predicate Clean(row: Row)
  {
    FreeRow(row) &&
    if row.Group? then
      var marked := row.name != "" && row.name[0] == '@';
      if row.number.Undefined? then !marked
      else if row.number.number.NaN? then marked && Free(row.name, ' ')
      else row.number.number.value > 0
    else
      row.provider.Some? && forall i :: 0 <= i < |Fields(row)| ==> Fields(row)[i].Some?
  }

  // ---- one line ---------------------------------------------------------------------------

  /** A channel as it reads back: missing fields have become the word that was printed. */
  function Filled(row: Row): Row
    requires row.Channel?
  {
    Channel(row.name, Some(Shown(row.provider)), Some(Shown(row.frequency)), Some(Shown(row.modulation)),
            Some(Shown(row.source)), Some(Shown(row.symbolrate)), Some(Shown(row.vpid)), Some(Shown(row.apid)),
            Some(Shown(row.tpid)), Some(Shown(row.caid)), Some(Shown(row.sid)), Some(Shown(row.nid)),
            Some(Shown(row.tid)), Some(Shown(row.rid)))
  }

  lemma ColumnsFree(row: Row, c: char)
    requires row.Channel? && FreeRow(row) && (c == ':' || c == '\n')
    ensures forall i :: 0 <= i < |ColumnsOf(row)| ==> Free(ColumnsOf(row)[i], c)
  {
    forall i | 0 <= i < |ColumnsOf(row)|
      ensures Free(ColumnsOf(row)[i], c)
    {
      if i > 0 {
        assert ColumnsOf(row)[i] == Shown(Fields(row)[i - 1]);
      }
    }
  }

  lemma FirstColumn(row: Row)
    requires row.Channel? && FreeRow(row)
    ensures var first := ColumnsOf(row)[0];
      first != "" && Split(first, ';') == [row.name, Shown(row.provider)]
  {
    var provider := Shown(row.provider);
    SplitStep(row.name, ';', provider);
    SplitWhole(provider, ';');
    assert ColumnsOf(row)[0] == row.name + [';'] + provider;
  }

  lemma ReadFilled(row: Row)
    requires row.Channel? && Split(ColumnsOf(row)[0], ';') == [row.name, Shown(row.provider)]
    ensures ReadChannel(ColumnsOf(row)) == Filled(row)
  {
  }

  lemma ReadColumns(line: string, columns: seq<string>)
    requires line != "" && Split(line, ':') == columns && columns != [] && columns[0] != ""
    ensures ReadLine(line) == ReadChannel(columns)
  {
  }

  lemma ChannelLine(row: Row)
    requires row.Channel? && FreeRow(row)
    ensures ReadLine(LineOf(row)) == Filled(row) && Free(LineOf(row), '\n')
  {
    hide Split, FreeRow, ReadChannel, ReadLine, Join, Filled;
    var columns := ColumnsOf(row);
    ColumnsFree(row, ':');
    ColumnsFree(row, '\n');
    SplitJoin(columns, ':');
    JoinFree(columns, ':', '\n');
    FirstColumn(row);
    ReadFilled(row);
    ReadColumns(LineOf(row), columns);
  }

  lemma GroupText(text: string)
    requires FreeName(text)
    ensures ReadLine(":" + text) == ReadGroup(text) && Free(":" + text, '\n')
  {
    assert ":" + text == "" + [':'] + text;
    SplitStep("", ':', text);
    SplitWhole(text, ':');
  }

  lemma NumberedColumn(n: nat, name: string)
    requires FreeName(name)
    ensures var text := "@" + Decimal(n) + " " + name;
      FreeName(text) && ReadGroup(text) == Group(name, Parsed(Int(n)))
  {
    hide Find, ParseInt;
    var digits := Decimal(n);
    var text := "@" + digits + " " + name;
    assert text == "@" + digits + [' '] + name;
    assert Free("@" + digits, ' ');
    FindFirst("@" + digits, ' ', name);
    assert text[1..|digits| + 2] == digits + " " && text[|digits| + 2..] == name;
    ParsePrinted(n, " ");
  }

  lemma NumberedLine(row: Row)
    requires Numbered(row) && FreeRow(row)
    ensures ReadLine(LineOf(row)) == row && Free(LineOf(row), '\n')
  {
    hide ReadLine, Free, Decimal;
    var text := "@" + Decimal(row.number.number.value) + " " + row.name;
    assert LineOf(row) == ":" + text;
    NumberedColumn(row.number.number.value, row.name);
    GroupText(text);
  }

  lemma NamedGroup(name: string)
    ensures var r, marked := ReadGroup(name), name != "" && name[0] == '@';
      if !marked then r == Group(name, Undefined)
      else if Free(name, ' ') then r == Group(name, Parsed(NaN))
      else r.name != name
  {
    if Free(name, ' ') {
      FindFirst(name, ' ', "");
    } else {
      var i := Find(name, ' ');
      assert i < |name| && |name[i + 1..]| < |name|;
    }
  }

  /** One line, written and read: it gives back the row exactly when the row is clean. */
  lemma LineRoundTrip(row: Row)
    requires FreeRow(row)
    ensures (ReadLine(LineOf(row)) == row <==> Clean(row)) && Free(LineOf(row), '\n')
  {
    hide Filled, Split, Join, ReadChannel, Find;
    if row.Channel? {
      ChannelLine(row);
      FilledIsSame(row);
    } else if Numbered(row) {
      NumberedLine(row);
    } else {
      GroupText(row.name);
      NamedGroup(row.name);
    }
  }

  lemma FilledIsSame(row: Row)
    requires row.Channel?
    ensures Filled(row) == row <==>
            row.provider.Some? && forall i :: 0 <= i < |Fields(row)| ==> Fields(row)[i].Some?
  {
    var f := Fields(row);
    assert f[0] == row.frequency && f[1] == row.modulation && f[2] == row.source && f[3] == row.symbolrate;
    assert f[4] == row.vpid && f[5] == row.apid && f[6] == row.tpid && f[7] == row.caid;
    assert f[8] == row.sid && f[9] == row.nid && f[10] == row.tid && f[11] == row.rid;
  }

  // ---- the fields of a line, in words --------------------------------------------------------

  /** A channel line as channels.conf has it: name and provider with a semicolon between them, then
      frequency, modulation, source, symbol rate, the four pids, and the four ids. */
  function ChannelText(name: string, provider: string, fields: seq<string>): string
  {
    Join([name + ";" + provider] + fields, ':')
  }

  /** Which field of such a line is which. */
  lemma FieldsRead(name: string, provider: string, fields: seq<string>)
    requires FreeItem(name) && FreeItem(provider) && |fields| == 12 && forall i :: 0 <= i < 12 ==> FreeName(fields[i])
    ensures var line := ChannelText(name, provider, fields);
      line != "" && var row := ReadLine(line);
      && row.Channel? && row.name == name && row.provider == Some(provider)
      && row.frequency == Some(fields[0]) && row.modulation == Some(fields[1]) && row.source == Some(fields[2])
      && row.symbolrate == Some(fields[3]) && row.vpid == Some(fields[4]) && row.apid == Some(fields[5])
      && row.tpid == Some(fields[6]) && row.caid == Some(fields[7]) && row.sid == Some(fields[8])
      && row.nid == Some(fields[9]) && row.tid == Some(fields[10]) && row.rid == Some(fields[11])
      && LineOf(row) == line
  {
    hide Join, Split, Find;
    var columns := [name + ";" + provider] + fields;
    SplitStep(name, ';', provider);
    SplitWhole(provider, ';');
    assert name + ";" + provider == name + [';'] + provider;
    forall i | 0 <= i < |columns|
      ensures Free(columns[i], ':')
    {
    }
    SplitJoin(columns, ':');
    JoinNotEmpty(columns);
    ReadColumns(ChannelText(name, provider, fields), columns);
    var row := ReadChannel(columns);
    assert ColumnsOf(row) == columns;
  }

  lemma JoinNotEmpty(parts: seq<string>)
    requires parts != [] && parts[0] != ""
    ensures Join(parts, ':') != ""
  {
  }

  /** A numbered group, one without a number, and how they are written. */
  lemma GroupsRead(n: nat, name: string)
    requires FreeName(name)
    ensures ReadLine(":@" + Decimal(n) + " " + name) == Group(name, Parsed(Int(n)))
    ensures name == "" || name[0] != '@' ==> ReadLine(":" + name) == Group(name, Undefined)
    ensures LineOf(Group(name, Undefined)) == ":" + name
    ensures n > 0 ==> LineOf(Group(name, Parsed(Int(n)))) == ":@" + Decimal(n) + " " + name
  {
    hide ReadLine, Find, Decimal, ParseInt;
    var text := "@" + Decimal(n) + " " + name;
    assert ":@" + Decimal(n) + " " + name == ":" + text;
    NumberedColumn(n, name);
    GroupText(text);
    GroupText(name);
  }

  /** A line without a semicolon in its first column has no provider, and the fields behind its
      last column are missing. */
  lemma ShortLineRead(name: string, fields: seq<string>)
    requires name != "" && FreeItem(name) && |fields| <= 12
    requires forall i :: 0 <= i < |fields| ==> FreeName(fields[i])
    ensures var line := Join([name] + fields, ':');
      line != "" && var row := ReadLine(line);
      && row.Channel? && row.name == name && row.provider == None
      && forall i :: 0 <= i < 12 ==> Fields(row)[i] == if i < |fields| then Some(fields[i]) else None
  {
    hide Join, Split, Find, ReadLine, Free, Fields, ReadChannel;
    var columns := [name] + fields;
    assert forall i :: 0 <= i < |columns| ==> Free(columns[i], ':') by {
      assert forall i :: 0 <= i < |columns| ==> FreeName(columns[i]);
    }
    SplitWhole(name, ';');
    SplitJoin(columns, ':');
    JoinNotEmpty(columns);
    ReadColumns(Join(columns, ':'), columns);
    ColumnsTaken(name, fields);
  }

  lemma ColumnsTaken(name: string, fields: seq<string>)
    requires Split(name, ';') == [name]
    ensures var row := ReadChannel([name] + fields);
      && row.Channel? && row.name == name && row.provider == None
      && forall i :: 0 <= i < 12 ==> Fields(row)[i] == if i < |fields| then Some(fields[i]) else None
  {
    hide Split;
    var columns := [name] + fields;
    forall i | 0 <= i < 12
      ensures At(columns, i + 1) == if i < |fields| then Some(fields[i]) else None
    {
    }
  }

  /** A text is read line by line, and an empty line says nothing. */
  lemma LineByLine(line: string, rest: string)
    requires Free(line, '\n')
    ensures ReadLines(Split(line + "\n" + rest, '\n')) ==
            (if line == "" then [] else [ReadLine(line)]) + ReadLines(Split(rest, '\n'))
  {
    hide ReadLine;
    SplitStep(line, '\n', rest);
    assert line + "\n" + rest == line + ['\n'] + rest;
  }

  /** A field that is missing is written out as a word, and is there when it is read again. */
  lemma MissingReadsAsWord(row: Row)
    requires row.Channel? && FreeRow(row)
    ensures var again := ReadLine(LineOf(row));
      && again.Channel? && again.name == row.name
      && again.provider == (if row.provider.Some? then row.provider else Some("undefined"))
      && forall i :: 0 <= i < 12 ==>
           Fields(again)[i] == if Fields(row)[i].Some? then Fields(row)[i] else Some("undefined")
  {
    hide ReadLine, LineOf, FreeRow;
    ChannelLine(row);
  }

  // ---- whole lists ------------------------------------------------------------------------

  lemma LinesStep(rows: seq<Row>)
    requires rows != []
    ensures LinesOf(rows)[0] == LineOf(rows[0]) && LinesOf(rows)[1..] == LinesOf(rows[1..])
  {
    hide LineOf;
  }

  lemma {:induction false} ReadLinesOf(rows: seq<Row>)
    ensures |ReadLines(LinesOf(rows))| == |rows|
    ensures forall i :: 0 <= i < |rows| ==> ReadLines(LinesOf(rows))[i] == ReadLine(LineOf(rows[i]))
  {
    hide LineOf, ReadLine;
    if rows != [] {
      LinesStep(rows);
      ReadLinesOf(rows[1..]);
    }
  }

  lemma ConfigLines(rows: seq<Row>)
    requires forall i :: 0 <= i < |rows| ==> FreeRow(rows[i])
    ensures ReadLines(Split(Config(rows), '\n')) == ReadLines(LinesOf(rows))
  {
    if rows == [] {
      SplitWhole("", '\n');
      assert [""][1..] == [];
    } else {
      forall i | 0 <= i < |rows|
        ensures Free(LinesOf(rows)[i], '\n')
      {
        LineRoundTrip(rows[i]);
      }
      SplitJoin(LinesOf(rows), '\n');
    }
  }

  lemma ReadChannelFree(columns: seq<string>)
    requires columns != [] && forall i :: 0 <= i < |columns| ==> FreeName(columns[i])
    ensures FreeRow(ReadChannel(columns))
  {
    SplitFree(columns[0], ';', '\n');
    SplitFree(columns[0], ';', ':');
    SplitPieces(columns[0], ';');
    var fields := Fields(ReadChannel(columns));
    forall i | 0 <= i < |fields|
      ensures FreeName(Shown(fields[i]))
    {
      assert fields[i] == At(columns, i + 1);
    }
  }

  lemma ReadGroupFree(column: string)
    requires FreeName(column)
    ensures FreeRow(ReadGroup(column))
  {
  }

  /** What the reader can produce. */
  lemma ReadRowIsFree(line: string)
    requires line != "" && Free(line, '\n')
    ensures FreeRow(ReadLine(line))
  {
    var columns := Split(line, ':');
    SplitFree(line, ':', '\n');
    SplitPieces(line, ':');
    if columns[0] == "" {
      GroupLine(line);
      ReadGroupFree(columns[1]);
    } else {
      ReadChannelFree(columns);
    }
  }

  lemma {:induction false} ReadRowsAreFree(lines: seq<string>)
    requires forall i :: 0 <= i < |lines| ==> Free(lines[i], '\n')
    ensures forall i :: 0 <= i < |ReadLines(lines)| ==> FreeRow(ReadLines(lines)[i])
  {
    if lines != [] {
      ReadRowsAreFree(lines[1..]);
      if lines[0] != "" {
        ReadRowIsFree(lines[0]);
      }
    }
  }

  /** Writing a list of rows and reading it gives the same list back exactly when every row is
      clean. */
  lemma {:induction false} RoundTripExactly(rows: seq<Row>)
    ensures ReadLines(Split(Config(rows), '\n')) == rows <==> forall i :: 0 <= i < |rows| ==> Clean(rows[i])
  {
    var again := ReadLines(Split(Config(rows), '\n'));
    if again == rows {
      SplitPieces(Config(rows), '\n');
      ReadRowsAreFree(Split(Config(rows), '\n'));
    }
    if forall i :: 0 <= i < |rows| ==> FreeRow(rows[i]) {
      ConfigLines(rows);
      ReadLinesOf(rows);
      forall i | 0 <= i < |rows|
        ensures again[i] == rows[i] <==> Clean(rows[i])
      {
        LineRoundTrip(rows[i]);
      }
    }
  }

  /** The store written out and loaded again. */
  method SaveAndLoad(records: seq<Record>) returns (loaded: seq<Record>)
    ensures fresh(loaded)
    ensures RowsOf(loaded) == RowsOf(records) <==> forall i :: 0 <= i < |records| ==> Clean(records[i].row)
    ensures (forall i :: 0 <= i < |records| ==> FreeRow(records[i].row)) ==>
      |loaded| == |records| && forall i :: 0 <= i < |records| ==> loaded[i].row == ReadLine(LineOf(records[i].row))
  {
    var text := GenerateConfig(records);
    loaded := ReadRecords(text);
    RoundTripExactly(RowsOf(records));
    if forall i :: 0 <= i < |records| ==> FreeRow(records[i].row) {
      ConfigLines(RowsOf(records));
      ReadLinesOf(RowsOf(records));
      assert forall i :: 0 <= i < |loaded| ==> loaded[i].row == RowsOf(loaded)[i];
    }
  }
}
