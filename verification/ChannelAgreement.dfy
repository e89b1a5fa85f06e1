/** The two readers of channel lines agree. */
module ChannelAgreement {
  import opened Options
  import opened Text
  import opened ChannelJson
  import C = Channels

  /** A reply line of the server: a status of four characters, the channel number and a blank,
      then the line of the file and what ends it. */
  function Reply(status: string, number: string, line: string, end: string): string
  {
    status + (number + " " + (line + end))
  }

  /** A line that describes a channel: it does not start with a colon and has all columns. */
  predicate ChannelLine(line: string)
  {
    |Split(line, ':')| >= 13 && Split(line, ':')[0] != ""
  }

  predicate ReplyParts(status: string, number: string, line: string, end: string)
  {
    && |status| == 4 && end != ""
    && Free(number, ' ') && Free(number, ':') && Free(number, ';')
    && ChannelLine(line)
  }

  lemma FindBehind(a: string, b: string, c: char)
    requires Free(a, c)
    ensures Find(a + b, c) == |a| + Find(b, c)
  {
    if a == "" {
      assert a + b == b;
    } else {
      assert (a + b)[0] == a[0] && (a + b)[1..] == a[1..] + b;
      FindBehind(a[1..], b, c);
    }
  }

  lemma Behind(a: string, b: string, x: nat, y: nat)
    requires x <= y <= |b|
    ensures (a + b)[|a| + x..|a| + y] == b[x..y]
  {
  }

  lemma InFront(b: string, c: string, x: nat, y: nat)
    requires x <= y <= |b|
    ensures (b + c)[x..y] == b[x..y]
  {
  }

  lemma WithoutLast(b: string, c: string)
    requires c != ""
    ensures (b + c)[..|b + c| - 1] == b + c[..|c| - 1]
  {
  }

  /** A piece of the line as a piece of the buffer. */
  lemma PieceOfLine(status: string, number: string, line: string, end: string, x: nat, y: nat)
    requires |status| == 4 && x <= y <= |line|
    ensures var k := |number| + 5;
      Reply(status, number, line, end)[k + x..k + y] == line[x..y]
  {
    var head := number + " ";
    Behind(status, head + (line + end), |head| + x, |head| + y);
    Behind(head, line + end, x, y);
    InFront(line, end, x, y);
  }

  lemma BodyOfReply(status: string, number: string, line: string, end: string)
    requires |status| == 4 && end != ""
    ensures Body(Reply(status, number, line, end)) == number + " " + (line + end[..|end| - 1])
  {
    var head := number + " ";
    var rest := head + (line + end);
    Behind(status, rest, 0, |rest| - 1);
    WithoutLast(line, end);
    WithoutLast(head, line + end);
  }

  lemma LineHasColon(line: string)
    requires ChannelLine(line)
    ensures Find(line, ':') < |line| && Split(line, ':')[0] == line[..Find(line, ':')] != ""
    ensures Split(line, ':')[1..] == Split(line[Find(line, ':') + 1..], ':')
  {
    SplitHead(line, ':');
  }

  lemma BlankIn(number: string, rest: string)
    requires Free(number, ' ')
    ensures Find(number + " " + rest, ' ') == |number|
  {
    FindFirst(number, ' ', rest);
  }

  lemma ColonIn(number: string, line: string, tail: string)
    requires Free(number, ':') && Find(line, ':') < |line|
    ensures Find(number + " " + (line + tail), ':') == |number| + 1 + Find(line, ':')
  {
    hide Find;
    FindInSum(line, tail, ':');
    FindBehind(number + " ", line + tail, ':');
  }

  lemma SemicolonIn(number: string, line: string, tail: string)
    requires Free(number, ';') && Find(line, ':') < |line|
    ensures var i, j, r := Find(line, ':'), Find(line, ';'), Find(number + " " + (line + tail), ';');
      if j < i then r == |number| + 1 + j else r > |number| + 1 + i
  {
    FindBehind(number + " ", line + tail, ';');
    var i := Find(line, ':');
    if Find(line, ';') < i {
      FindInSum(line, tail, ';');
    } else {
      FindNotBefore(line, tail, i);
    }
  }

  lemma FindNotBefore(line: string, tail: string, i: nat)
    requires i < |line| && line[i] == ':' && Find(line, ';') >= i
    ensures Find(line + tail, ';') > i
  {
    assert forall n :: 0 <= n <= i ==> (line + tail)[n] == line[n];
  }

  /** Where the searches of the offset walk end up. */
  lemma {:induction false} MarksOfReply(status: string, number: string, line: string, end: string)
    requires ReplyParts(status, number, line, end)
    ensures var buffer, i, j, k := Reply(status, number, line, end), Find(line, ':'), Find(line, ';'), |number| + 1;
      i < |line| && Blank(buffer) == k + 3 && FindOf(Body(buffer), ':') == Some(k + i) &&
      if j < i then FindOf(Body(buffer), ';') == Some(k + j)
      else FindOf(Body(buffer), ';').Some? ==> FindOf(Body(buffer), ';').value > k + i
  {
    hide Find, Split, Reply, Body;
    LineHasColon(line);
    var tail := end[..|end| - 1];
    BodyOfReply(status, number, line, end);
    BlankIn(number, line + tail);
    ColonIn(number, line, tail);
    SemicolonIn(number, line, tail);
    assert |number + " " + (line + tail)| == |number| + 1 + |line| + |tail|;
  }

  lemma ReplyLength(status: string, number: string, line: string, end: string)
    ensures |Reply(status, number, line, end)| == |status| + |number| + 1 + |line| + |end|
  {
  }

  /** Name and provider, seen from the line alone. */
  lemma {:induction false} NameOfReply(status: string, number: string, line: string, end: string)
    requires ReplyParts(status, number, line, end)
    ensures var buffer, i, j := Reply(status, number, line, end), Find(line, ':'), Find(line, ';');
      Blank(buffer) < |buffer| && i < |line| &&
      NameOf(buffer, Blank(buffer)) == line[..if j < i then j else i] &&
      ProviderOf(buffer) == if j < i then line[j + 1..i] else ""
  {
    hide Find, Split, Reply, Body;
    MarksOfReply(status, number, line, end);
    ReplyLength(status, number, line, end);
    var i, j := Find(line, ':'), Find(line, ';');
    PieceOfLine(status, number, line, end, 0, if j < i then j else i);
    if j < i {
      PieceOfLine(status, number, line, end, j + 1, i);
    }
  }

  /** The name is cut out from behind whichever place the caller names, as long as that is a place
      behind the first character. */
  lemma {:induction false} NameFrom(status: string, number: string, line: string, end: string, begin: nat)
    requires ReplyParts(status, number, line, end) && begin <= |number| + 4
    ensures var buffer, i, j := Reply(status, number, line, end), Find(line, ':'), Find(line, ';');
      begin < |buffer| && i < |line| &&
      NameOf(buffer, begin) ==
        if begin == 0 then "unknown" else buffer[begin + 1..|number| + 5 + if j < i then j else i]
  {
    hide Find, Split, Reply, Body;
    MarksOfReply(status, number, line, end);
    ReplyLength(status, number, line, end);
  }

  lemma ReadsChannel(line: string)
    requires ChannelLine(line)
    ensures var names, row := Split(Split(line, ':')[0], ';'), C.ReadLine(line);
      row.Channel? && row.name == names[0] && row.provider == if |names| > 1 then Some(names[1]) else None
  {
  }

  lemma {:induction false} NamesIn(line: string, i: nat)
    requires i == Find(line, ':') < |line|
    ensures var j, names := Find(line, ';'), Split(line[..i], ';');
      if j < i then names == [line[..j]] + Split(line[j + 1..i], ';') else names == [line[..i]]
  {
    hide Split, Find;
    var j, first := Find(line, ';'), line[..i];
    FindInCut(line, i, ';');
    SplitHead(first, ';');
    if j < i {
      CutAround(line, i, j);
    } else {
      SplitWhole(first, ';');
    }
  }

  lemma CutAround(line: string, i: nat, j: nat)
    requires j < i <= |line|
    ensures line[..i][..j] == line[..j] && line[..i][j + 1..] == line[j + 1..i]
  {
  }

  /** The same of the reader that splits. */
  lemma {:induction false} NamesOfLine(line: string)
    requires ChannelLine(line)
    ensures var i, j, row := Find(line, ':'), Find(line, ';'), C.ReadLine(line);
      i < |line| && row.Channel? && row.name == line[..if j < i then j else i] &&
      if j < i then row.provider == Some(Split(line[j + 1..i], ';')[0]) else row.provider == None
  {
    hide Split, Find, C.ReadLine;
    LineHasColon(line);
    ReadsChannel(line);
    NamesIn(line, Find(line, ':'));
  }

  lemma FirstPiece(s: string, c: char)
    ensures Split(s, c)[0] == s <==> |Split(s, c)| == 1
  {
  }

  /** At most one semicolon before the first colon. */
  predicate OneSemicolon(line: string)
  {
    |Split(Split(line, ':')[0], ';')| <= 2
  }

  lemma SemicolonsOfLine(line: string)
    requires ChannelLine(line)
    ensures var i, j := Find(line, ':'), Find(line, ';');
      i < |line| && (OneSemicolon(line) <==> (j < i ==> |Split(line[j + 1..i], ';')| == 1))
  {
    hide Split, Find;
    LineHasColon(line);
    NamesIn(line, Find(line, ':'));
  }

  /** A reply that holds neither a semicolon nor a colon: the name is all behind the second blank,
      there is no provider, and every column is all behind the status. */
  lemma UnmarkedReply(status: string, number: string, word: string, end: string)
    requires |status| == 4 && end != ""
    requires Free(number, ' ') && Free(number + word + end, ':') && Free(number + word + end, ';')
    ensures var buffer := Reply(status, number, word, end);
      && |buffer| >= 4 && Blank(buffer) == |number| + 4 < |buffer|
      && NameOf(buffer, Blank(buffer)) == word + end && ProviderOf(buffer) == "" && NameOf(buffer, 0) == "unknown"
      && forall i :: 0 <= i < 11 ==>
           Scan(buffer, FirstColumn(buffer), Limit(buffer), 11)[i] == number + " " + (word + end)
  {
    hide Find, Scan, Free, Reply, Body, FindOf;
    var buffer, rest := Reply(status, number, word, end), number + " " + (word + end);
    BodyOfReply(status, number, word, end);
    ReplyLength(status, number, word, end);
    Unmarked(number, word, end, ':');
    Unmarked(number, word, end, ';');
    ReplyParted(status, number, word, end);
    NotFound(Body(buffer), ':');
    NotFound(Body(buffer), ';');
    BlankFound(number, word + end[..|end| - 1]);
    NoMoreColons(buffer, 4, |buffer| - 1, 11);
  }

  lemma BlankFound(number: string, tail: string)
    requires Free(number, ' ')
    ensures FindOf(number + " " + tail, ' ') == Some(|number|)
  {
    hide Find;
    BlankIn(number, tail);
  }

  lemma ReplyParted(status: string, number: string, word: string, end: string)
    requires |status| == 4 && end != ""
    ensures var buffer, rest := Reply(status, number, word, end), number + " " + (word + end);
      && buffer[4..] == rest && buffer[4..|buffer| - 1] == number + " " + (word + end[..|end| - 1])
      && buffer[|number| + 5..] == word + end
  {
    var head, rest := number + " ", number + " " + (word + end);
    Behind(status, rest, 0, |rest|);
    Behind(status, rest, 0, |rest| - 1);
    WithoutLast(word, end);
    WithoutLast(head, word + end);
    Behind(status, rest, |head|, |rest|);
    Behind(head, word + end, 0, |word + end|);
  }

  lemma Unmarked(number: string, word: string, end: string, c: char)
    requires end != "" && Free(number + word + end, c) && c != ' '
    ensures Free(number + " " + (word + end[..|end| - 1]), c)
  {
    var whole := number + word + end;
    assert forall i :: 0 <= i < |number| ==> whole[i] == number[i];
    assert forall i :: 0 <= i < |word| ==> whole[|number| + i] == word[i];
    assert forall i :: 0 <= i < |end| ==> whole[|number| + |word| + i] == end[i];
  }

  // ---- the other columns --------------------------------------------------------------------

  lemma RestOfReply(status: string, number: string, line: string, end: string)
    requires ReplyParts(status, number, line, end)
    ensures var buffer, i := Reply(status, number, line, end), Find(line, ':');
      i < |line| && FirstColumn(buffer) == |number| + i + 6 && Limit(buffer) == |buffer| - 1 &&
      buffer[FirstColumn(buffer)..Limit(buffer)] == line[i + 1..] + end[..|end| - 1]
  {
    hide Split, Find, Body;
    MarksOfReply(status, number, line, end);
    var i, head := Find(line, ':'), number + " ";
    Behind(status, head + (line + end), |head| + i + 1, |head| + |line + end| - 1);
    Behind(head, line + end, i + 1, |line + end| - 1);
    CutEnds(line, end, i + 1);
  }

  lemma CutEnds(line: string, end: string, i: nat)
    requires i <= |line| && end != ""
    ensures (line + end)[i..|line + end| - 1] == line[i..] + end[..|end| - 1]
  {
  }

  lemma Shifted(columns: seq<string>)
    requires |columns| >= 13
    ensures columns[1..][..11] == columns[1..12] && columns[1..][11] == columns[12]
  {
  }

  lemma {:induction false} ColumnsOfReply(status: string, number: string, line: string, end: string)
    requires ReplyParts(status, number, line, end)
    ensures var buffer, columns := Reply(status, number, line, end), Split(line, ':');
      var first, limit := FirstColumn(buffer), Limit(buffer);
      Scan(buffer, first, limit, 11) == columns[1..12] &&
      (|columns| == 13 && |end| == 2 ==>
        Substr(buffer, ScanEnd(buffer, first, limit, 11), |buffer| - 2 - ScanEnd(buffer, first, limit, 11)) ==
          columns[12])
  {
    hide Split, Find, Reply, Body, Scan, ScanEnd, Substr, FirstColumn, Limit;
    var buffer, columns := Reply(status, number, line, end), Split(line, ':');
    RestOfReply(status, number, line, end);
    LineHasColon(line);
    Shifted(columns);
    var i, first, limit := Find(line, ':'), FirstColumn(buffer), Limit(buffer);
    var a, b := line[i + 1..], end[..|end| - 1];
    ScanIsSplit(buffer, first, limit, a, b, 11);
    if |columns| == 13 && |end| == 2 {
      LastColumn(buffer, ScanEnd(buffer, first, limit, 11), columns[12], b);
    }
  }

  lemma LastColumn(buffer: string, start: nat, a: string, b: string)
    requires start <= |buffer| - 1 && |b| == 1 && buffer[start..|buffer| - 1] == a + b
    ensures Substr(buffer, start, |buffer| - 2 - start) == a
  {
    assert |a + b| == |buffer| - 1 - start;
    assert buffer[start..|buffer| - 2] == buffer[start..|buffer| - 1][..|a|];
  }

  /** Name, provider and the columns of one channel line, as both readers see them. */
  ghost predicate SameColumns(json: Json, row: C.Row)
    requires row.Channel?
  {
    && json.name == row.name
    && Some(json.freq) == MapAtoi(row.frequency) && Some(json.mod) == row.modulation && Some(json.src) == row.source
    && Some(json.symb) == MapAtoi(row.symbolrate) && Some(json.vpid) == row.vpid && Some(json.apid) == row.apid
    && Some(json.tpid) == row.tpid && Some(json.caid) == row.caid && Some(json.sid) == MapAtoi(row.sid)
    && Some(json.nid) == MapAtoi(row.nid) && Some(json.tid) == row.tid
  }

  function MapAtoi(s: Option<string>): Option<int>
  {
    match s
    case Some(x) => Some(Atoi(x))
    case None => None
  }

  lemma ColumnsAgree(json: Json, line: string, c: seq<string>)
    requires ChannelLine(line) && c == Split(line, ':')[1..12]
    requires json.name == C.ReadLine(line).name
    requires json.freq == Atoi(c[0]) && json.mod == c[1] && json.src == c[2] && json.symb == Atoi(c[3])
    requires json.vpid == c[4] && json.apid == c[5] && json.tpid == c[6] && json.caid == c[7]
    requires json.sid == Atoi(c[8]) && json.nid == Atoi(c[9]) && json.tid == c[10]
    ensures C.ReadLine(line).Channel? && SameColumns(json, C.ReadLine(line))
    ensures C.ReadLine(line).rid == Some(Split(line, ':')[12])
  {
    hide Split, Atoi;
    var columns := Split(line, ':');
    assert forall k :: 0 <= k < 11 ==> c[k] == columns[k + 1];
  }

  /** For every channel line, however long its number and whatever its fields hold, the two
      readers extract the same name and columns; they see the same provider, a missing one
      counting as empty, exactly when the first column has at most one semicolon; and the last
      column is the same when the reply ends in a carriage return and a line feed. */
  method ReadBothWays(status: string, number: string, line: string, end: string)
    returns (json: Option<Json>, row: C.Row)
    requires ReplyParts(status, number, line, end)
    ensures json.Some? && row.Channel? && SameColumns(json.value, row)
    ensures (if row.provider.Some? then row.provider.value == json.value.prov else json.value.prov == "") <==>
            OneSemicolon(line)
    ensures |Split(line, ':')| == 13 && |end| == 2 ==> Some(json.value.rid) == MapAtoi(row.rid)
  {
    hide Find, Split, Reply, Body, Scan, ScanEnd, Substr, FirstColumn, Limit, NameOf, ProviderOf, C.ReadLine;
    var buffer := Reply(status, number, line, end);
    NameOfReply(status, number, line, end);
    NamesOfLine(line);
    ColumnsOfReply(status, number, line, end);
    json := Convert(buffer, Blank(buffer));
    row := C.ReadLine(line);
    ColumnsAgree(json.value, line, Split(line, ':')[1..12]);
    SemicolonsOfLine(line);
    var i, j := Find(line, ':'), Find(line, ';');
    if j < i {
      FirstPiece(line[j + 1..i], ';');
    }
  }
}
