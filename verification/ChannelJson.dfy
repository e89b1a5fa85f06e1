/** The second reader of channel lines: it walks through one SVDRP reply line with offsets into
    a single buffer. */
module ChannelJson {
  import Seqs
  import opened Options
  import opened Text

  datatype Json = Json(
    name: string, prov: string, freq: int, mod: string, src: string, symb: int, vpid: string, apid: string,
    tpid: string, caid: string, sid: int, nid: int, tid: string, rid: int)

  // ---- std::string ------------------------------------------------------------------------

  /** `find_first_of` one character; `None` is npos. */
  function FindOf(s: string, c: char): (r: Option<nat>)
    ensures r.Some? ==> r.value < |s|
  {
    if Find(s, c) < |s| then Some(Find(s, c)) else None
  }

  /** An offset added to a position; npos plus `k` wraps round to `k - 1`. */
  function Plus(marker: Option<nat>, k: nat): nat
    requires k > 0
  {
    match marker
    case Some(m) => m + k
    case None => k - 1
  }

  // ---- the walk over the columns ------------------------------------------------------------

  /** One column from `start` on: the text up to the next colon before `limit`, or, if there is
      none, everything to the end of the buffer, and then `start` stays. */
  function Column(s: string, start: nat, limit: nat): string
    requires start <= limit <= |s|
  {
    match FindOf(s[start..limit], ':')
    case Some(m) => s[start..start + m]
    case None => s[start..]
  }

  function Onward(s: string, start: nat, limit: nat): (next: nat)
    requires start <= limit <= |s|
    ensures start <= next <= limit
  {
    start + Plus(FindOf(s[start..limit], ':'), 1)
  }

  function Scan(s: string, start: nat, limit: nat, k: nat): (r: seq<string>)
    requires start <= limit <= |s|
    ensures |r| == k
    decreases k
  {
    if k == 0 then [] else [Column(s, start, limit)] + Scan(s, Onward(s, start, limit), limit, k - 1)
  }

  function ScanEnd(s: string, start: nat, limit: nat, k: nat): (next: nat)
    requires start <= limit <= |s|
    ensures start <= next <= limit
    decreases k
  {
    if k == 0 then start else ScanEnd(s, Onward(s, start, limit), limit, k - 1)
  }

  lemma SliceOfSlice(s: string, start: nat, limit: nat, i: nat)
    requires start + i + 1 <= limit <= |s|
    ensures s[start..limit][..i] == s[start..start + i]
    ensures s[start..limit][i + 1..] == s[start + i + 1..limit]
  {
  }

  lemma SliceOfSum(a: string, b: string, i: nat)
    requires i < |a|
    ensures (a + b)[..i] == a[..i] && (a + b)[i + 1..] == a[i + 1..] + b
  {
  }

  lemma FindInSum(a: string, b: string, c: char)
    requires Find(a, c) < |a|
    ensures Find(a + b, c) == Find(a, c)
  {
    assert forall j :: 0 <= j < |a| ==> (a + b)[j] == a[j];
  }

  lemma {:induction false} OneColumn(s: string, start: nat, limit: nat, a: string, b: string)
    requires start <= limit <= |s| && s[start..limit] == a + b && Find(a, ':') < |a|
    ensures var i := Find(a, ':');
      Column(s, start, limit) == a[..i] && Onward(s, start, limit) == start + i + 1 <= limit &&
      s[start + i + 1..limit] == a[i + 1..] + b
  {
    hide Find;
    var i := Find(a, ':');
    FindInSum(a, b, ':');
    SliceOfSlice(s, start, limit, i);
    SliceOfSum(a, b, i);
  }

  lemma HeadAndTail(x: string, tail: seq<string>, k: nat)
    requires k < |tail|
    ensures ([x] + tail)[..k + 1] == [x] + tail[..k] && ([x] + tail)[k + 1] == tail[k]
  {
  }

  lemma ScanSteps(s: string, start: nat, limit: nat, k: nat)
    requires start <= limit <= |s|
    ensures Scan(s, start, limit, k + 1) == [Column(s, start, limit)] + Scan(s, Onward(s, start, limit), limit, k)
    ensures ScanEnd(s, start, limit, k + 1) == ScanEnd(s, Onward(s, start, limit), limit, k)
  {
  }

  /** The walk finds the columns that splitting finds, as long as more are to come. */
  lemma {:induction false} ScanIsSplit(s: string, start: nat, limit: nat, a: string, b: string, k: nat)
    requires start <= limit <= |s| && s[start..limit] == a + b && k < |Split(a, ':')|
    ensures Scan(s, start, limit, k) == Split(a, ':')[..k]
    ensures k + 1 == |Split(a, ':')| ==> s[ScanEnd(s, start, limit, k)..limit] == Split(a, ':')[k] + b
    decreases k
  {
    hide Split, Scan, ScanEnd, Column, Onward, Find;
    SplitHead(a, ':');
    if k == 0 {
      ScanNothing(s, start, limit);
    } else {
      var i := Find(a, ':');
      OneColumn(s, start, limit, a, b);
      ScanIsSplit(s, start + i + 1, limit, a[i + 1..], b, k - 1);
      ScanSteps(s, start, limit, k - 1);
      HeadAndTail(a[..i], Split(a[i + 1..], ':'), k - 1);
    }
  }

  lemma ScanNothing(s: string, start: nat, limit: nat)
    requires start <= limit <= |s|
    ensures Scan(s, start, limit, 0) == [] && ScanEnd(s, start, limit, 0) == start
  {
  }

  /** Behind the last colon every further column is all that is left of the buffer. */
  lemma {:induction false} NoMoreColons(s: string, start: nat, limit: nat, k: nat)
    requires start <= limit <= |s| && Free(s[start..limit], ':')
    ensures ScanEnd(s, start, limit, k) == start
    ensures forall i :: 0 <= i < k ==> Scan(s, start, limit, k)[i] == s[start..]
    decreases k
  {
    if k > 0 {
      NotFound(s[start..limit], ':');
      NoMoreColons(s, start, limit, k - 1);
    }
  }

  lemma {:induction false} NotFound(s: string, c: char)
    requires Free(s, c)
    ensures FindOf(s, c) == None
  {
  }

  // ---- one reply line -----------------------------------------------------------------------

  /** The part of the buffer that is searched: behind the status, without the last character. */
  function Body(buffer: string): string
    requires |buffer| >= 4
  {
    Substr(buffer, 4, |buffer| - 5)
  }

  /** The end of the searched part. */
  function Limit(buffer: string): (n: nat)
    requires |buffer| >= 4
    ensures 4 <= n <= |buffer|
  {
    if |buffer| > 4 then |buffer| - 1 else 4
  }

  /** Where the blank in front of the channel name is. */
  function Blank(buffer: string): nat
    requires |buffer| >= 4
  {
    Plus(FindOf(Body(buffer), ' '), 4)
  }

  function NameOf(buffer: string, begin: nat): string
    requires 4 <= |buffer| && begin < |buffer|
  {
    var semicolon, colon := FindOf(Body(buffer), ';'), FindOf(Body(buffer), ':');
    var cut := if semicolon.Some? && colon.Some? && semicolon.value > colon.value then colon else semicolon;
    var end := Plus(if cut.Some? then cut else colon, 3);
    if end > 0 && begin > 0 then Substr(buffer, begin + 1, end - begin) else "unknown"
  }

  function ProviderOf(buffer: string): string
    requires |buffer| >= 4
  {
    var semicolon, colon := FindOf(Body(buffer), ';'), FindOf(Body(buffer), ':');
    if semicolon.Some? && colon.Some? && semicolon.value <= colon.value
    then Substr(buffer, semicolon.value + 5, colon.value - 1 - semicolon.value)
    else ""
  }

  function FirstColumn(buffer: string): (start: nat)
    requires |buffer| >= 4
    ensures start <= Limit(buffer)
  {
    Plus(FindOf(Body(buffer), ':'), 5)
  }

  method TakeColumn(buffer: string, start: nat, limit: nat) returns (column: string, next: nat)
    requires start <= limit <= |buffer|
    ensures column == Column(buffer, start, limit) && next == Onward(buffer, start, limit)
  {
    var marker := FindOf(buffer[start..limit], ':');
    column := if marker.Some? then buffer[start..start + marker.value] else buffer[start..];
    next := start + Plus(marker, 1);
  }

  /** The columns of the line, by the walk. */
  ghost predicate ReadFrom(json: Json, buffer: string, start: nat, limit: nat)
    requires start <= limit <= |buffer|
  {
    var c, end := Scan(buffer, start, limit, 11), ScanEnd(buffer, start, limit, 11);
    && json.freq == Atoi(c[0]) && json.mod == c[1] && json.src == c[2] && json.symb == Atoi(c[3])
    && json.vpid == c[4] && json.apid == c[5] && json.tpid == c[6] && json.caid == c[7]
    && json.sid == Atoi(c[8]) && json.nid == Atoi(c[9]) && json.tid == c[10]
    && json.rid == Atoi(Substr(buffer, end, |buffer| - 2 - end))
  }

  lemma {:induction false} ScanJoined(s: string, start: nat, limit: nat, m: nat, n: nat)
    requires start <= limit <= |s|
    ensures var end := ScanEnd(s, start, limit, m);
      Scan(s, start, limit, m + n) == Scan(s, start, limit, m) + Scan(s, end, limit, n) &&
      ScanEnd(s, start, limit, m + n) == ScanEnd(s, end, limit, n)
    decreases m
  {
    hide Column, Onward, Scan, ScanEnd;
    if m == 0 {
      ScanNothing(s, start, limit);
      Seqs.Empty(Scan(s, start, limit, n));
    } else {
      ScanSteps(s, start, limit, m - 1);
      ScanSteps(s, start, limit, m - 1 + n);
      ScanJoined(s, Onward(s, start, limit), limit, m - 1, n);
      var end := ScanEnd(s, start, limit, m);
      Seqs.Assoc([Column(s, start, limit)], Scan(s, Onward(s, start, limit), limit, m - 1), Scan(s, end, limit, n));
    }
  }

  lemma ThreeColumns(s: string, start: nat, limit: nat)
    requires start <= limit <= |s|
    ensures var second := Onward(s, start, limit);
      var third := Onward(s, second, limit);
      Scan(s, start, limit, 3) == [Column(s, start, limit), Column(s, second, limit), Column(s, third, limit)] &&
      ScanEnd(s, start, limit, 3) == Onward(s, third, limit)
  {
    var second := Onward(s, start, limit);
    ScanSteps(s, start, limit, 2);
    ScanSteps(s, second, limit, 1);
    ScanSteps(s, Onward(s, second, limit), limit, 0);
  }

  /** Three columns, one after the other. */
  method TakeThree(buffer: string, first: nat, limit: nat) returns (a: string, b: string, c: string, start: nat)
    requires first <= limit <= |buffer|
    ensures [a, b, c] == Scan(buffer, first, limit, 3) && start == ScanEnd(buffer, first, limit, 3)
  {
    ThreeColumns(buffer, first, limit);
    a, start := TakeColumn(buffer, first, limit);
    b, start := TakeColumn(buffer, start, limit);
    c, start := TakeColumn(buffer, start, limit);
  }

  lemma Grouped(c: seq<string>, x: seq<string>, y: seq<string>, z: seq<string>, u: string, v: string)
    requires |x| == |y| == |z| == 3 && c == x + (y + (z + [u, v]))
    ensures c[0] == x[0] && c[1] == x[1] && c[2] == x[2] && c[3] == y[0] && c[4] == y[1] && c[5] == y[2]
    ensures c[6] == z[0] && c[7] == z[1] && c[8] == z[2] && c[9] == u && c[10] == v
  {
  }

  lemma {:induction false} ElevenColumns(s: string, start: nat, limit: nat)
    requires start <= limit <= |s|
    ensures var p := ScanEnd(s, start, limit, 3);
      var q := ScanEnd(s, p, limit, 3);
      var r := ScanEnd(s, q, limit, 3);
      var t := Onward(s, r, limit);
      Scan(s, start, limit, 11) ==
        Scan(s, start, limit, 3) +
        (Scan(s, p, limit, 3) + (Scan(s, q, limit, 3) + [Column(s, r, limit), Column(s, t, limit)])) &&
      ScanEnd(s, start, limit, 11) == Onward(s, t, limit)
  {
    hide Column, Onward;
    var p := ScanEnd(s, start, limit, 3);
    var q := ScanEnd(s, p, limit, 3);
    var r := ScanEnd(s, q, limit, 3);
    ScanJoined(s, start, limit, 3, 8);
    ScanJoined(s, p, limit, 3, 5);
    ScanJoined(s, q, limit, 3, 2);
    ScanSteps(s, r, limit, 1);
    ScanSteps(s, Onward(s, r, limit), limit, 0);
    ScanNothing(s, Onward(s, Onward(s, r, limit), limit), limit);
  }

  /** Provider and name, cut out around the first semicolon and the first colon. */
  method TakeName(buffer: string, begin: nat) returns (name: string, prov: string)
    requires |buffer| >= 4 && begin < |buffer|
    ensures name == NameOf(buffer, begin) && prov == ProviderOf(buffer)
  {
    var semicolon := FindOf(Body(buffer), ';');
    var marker := FindOf(Body(buffer), ':');
    prov := "";
    if semicolon.Some? && marker.Some? {
      if semicolon.value > marker.value {
        semicolon := marker;
      } else {
        prov := Substr(buffer, semicolon.value + 5, marker.value - 1 - semicolon.value);
      }
    }
    var end := if semicolon.Some? then Plus(semicolon, 3) else Plus(marker, 3);
    name := "unknown";
    if end > 0 && begin > 0 {
      name := Substr(buffer, begin + 1, end - begin);
    }
  }

  /** All that comes behind the first colon. */
  method TakeColumns(buffer: string, first: nat, limit: nat, name: string, prov: string) returns (json: Json)
    requires first <= limit <= |buffer|
    ensures json.name == name && json.prov == prov && ReadFrom(json, buffer, first, limit)
  {
    hide Column, Onward, Scan, ScanEnd, Atoi, Substr;
    ElevenColumns(buffer, first, limit);
    var frequency, modulation, source, start := TakeThree(buffer, first, limit);
    var symbol, vpid, apid;
    symbol, vpid, apid, start := TakeThree(buffer, start, limit);
    var tpid, caid, sid;
    tpid, caid, sid, start := TakeThree(buffer, start, limit);
    var nid, tid;
    nid, start := TakeColumn(buffer, start, limit);
    tid, start := TakeColumn(buffer, start, limit);
    Grouped(Scan(buffer, first, limit, 11), [frequency, modulation, source], [symbol, vpid, apid],
            [tpid, caid, sid], nid, tid);
    var rid := Substr(buffer, start, |buffer| - 2 - start);
    json := Json(name, prov, Atoi(frequency), modulation, source, Atoi(symbol), vpid, apid, tpid, caid,
                 Atoi(sid), Atoi(nid), tid, Atoi(rid));
  }

  /** `convertSingleRawChannelDataToJSON`. There is no result when std::out_of_range is thrown. */
  method Convert(buffer: string, begin: nat) returns (r: Option<Json>)
    ensures r.None? <==> |buffer| < 4 || begin >= |buffer|
    ensures r.Some? ==>
      r.value.name == NameOf(buffer, begin) && r.value.prov == ProviderOf(buffer) &&
      ReadFrom(r.value, buffer, FirstColumn(buffer), Limit(buffer))
  {
    if |buffer| < 4 || begin >= |buffer| {
      return None;
    }
    var name, prov := TakeName(buffer, begin);
    var json := TakeColumns(buffer, FirstColumn(buffer), Limit(buffer), name, prov);
    r := Some(json);
  }
}
