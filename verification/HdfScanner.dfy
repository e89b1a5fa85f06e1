/** The reader's loops over a line and over the text, each proved against the function of
    HdfLex, HdfHeredoc or HdfRead that says what it computes. */
module HdfScanner {
  import Seqs
  import opened Options
  import opened HdfTree
  import opened HdfLex
  import opened HdfLine
  import opened HdfHeredoc
  import opened HdfRead

  lemma SkipStep(s: string, j: nat)
    requires j <= |s|
    ensures SkipWs(s[j..]) == if j < |s| && IsSpace(s[j]) then SkipWs(s[j + 1..]) else s[j..]
  {
    if j < |s| {
      Seqs.Tail(s, j);
    }
  }

  /** SKIPWS. */
  method SkipBlanks(s: string, i: nat) returns (j: nat)
    requires i <= |s|
    ensures i <= j <= |s| && s[j..] == SkipWs(s[i..])
  {
    hide SkipWs;
    j := i;
    while j < |s| && IsSpace(s[j])
      invariant i <= j <= |s| && SkipWs(s[j..]) == SkipWs(s[i..])
    {
      SkipStep(s, j);
      j := j + 1;
    }
    SkipStep(s, j);
  }

  method TakeName(s: string, i: nat) returns (j: nat)
    requires i <= |s|
    ensures i <= j <= |s| && j == i + NameLen(s[i..])
  {
    j := i;
    while j < |s| && IsNameChar(s[j])
      invariant i <= j <= |s| && NameLen(s[i..]) == j - i + NameLen(s[j..])
    {
      assert s[j..][1..] == s[j + 1..];
      j := j + 1;
    }
  }

  method TakeAlnum(s: string, i: nat) returns (j: nat)
    requires i <= |s|
    ensures i <= j <= |s| && j == i + AlnumLen(s[i..])
  {
    j := i;
    while j < |s| && IsAlnum(s[j])
      invariant i <= j <= |s| && AlnumLen(s[i..]) == j - i + AlnumLen(s[j..])
    {
      assert s[j..][1..] == s[j + 1..];
      j := j + 1;
    }
  }

  method TakeBare(s: string, i: nat) returns (j: nat)
    requires i <= |s|
    ensures i <= j <= |s| && j == i + BareLen(s[i..])
  {
    j := i;
    while j < |s| && !EndsBare(s[j])
      invariant i <= j <= |s| && BareLen(s[i..]) == j - i + BareLen(s[j..])
    {
      assert s[j..][1..] == s[j + 1..];
      j := j + 1;
    }
  }

  /** What has been read so far, put in front of what the rest yields. */
  ghost function Before(text: string, r: Option<Text>): Option<Text>
  {
    match r
    case None => None
    case Some(q) => Some(Text(text + q.text, q.rest))
  }

  lemma BeforeNone(r: Option<Text>)
    ensures Before("", r) == r
  {
    if r.Some? {
      assert "" + r.value.text == r.value.text;
    }
  }

  lemma BeforeMore(text: string, c: char, r: Option<Text>)
    ensures Before(text, Before([c], r)) == Before(text + [c], r)
  {
    if r.Some? {
      assert text + ([c] + r.value.text) == text + [c] + r.value.text;
    }
  }

  lemma QuotedStep(s: string)
    requires s != "" && s[0] != '"'
    ensures s[0] != '\\' ==> Quoted(s) == Before([s[0]], Quoted(s[1..]))
    ensures s[0] == '\\' && |s| > 1 ==>
      Quoted(s) == Before([Unescape(s[1..]).c], Quoted(Unescape(s[1..]).rest))
    ensures s == "\\" ==> Quoted(s) == None
  {
  }

  /** The escape sequence behind the backslash at `i - 1`. */
  method TakeEscape(s: string, i: nat) returns (c: char, j: nat)
    requires i < |s|
    ensures i < j <= |s| && Unescape(s[i..]) == Char1(c, s[j..])
  {
    ghost var rest := s[i..];
    j := i;
    if IsDigit(s[j]) {
      var n := DigitVal(s[j]);
      if j + 1 < |s| && IsDigit(s[j + 1]) {
        j := j + 1;
        n := n * 8 + DigitVal(s[j]);
        if j + 1 < |s| && IsDigit(s[j + 1]) {
          j := j + 1;
          n := n * 8 + DigitVal(s[j]);
        }
      }
      c := (n % 256) as char;
    } else if s[j] == 'n' {
      c := '\n';
    } else if s[j] == 't' {
      c := '\t';
    } else if s[j] == 'r' {
      c := '\r';
    } else {
      c := s[j];
    }
    j := j + 1;
    assert rest[j - i..] == s[j..];
  }

  /** The inner loop of `parse_attr`: the quoted value that starts at `i`. */
  method TakeQuoted(s: string, i: nat) returns (ok: bool, text: string, j: nat)
    requires i <= |s|
    ensures ok <==> Quoted(s[i..]).Some?
    ensures i <= j <= |s| && (ok ==> Quoted(s[i..]) == Some(Text(text, s[j..])))
  {
    hide Quoted, Unescape;
    j, text := i, "";
    BeforeNone(Quoted(s[i..]));
    while j < |s| && s[j] != '"'
      invariant i <= j <= |s| && Quoted(s[i..]) == Before(text, Quoted(s[j..]))
    {
      QuotedStep(s[j..]);
      Seqs.Tail(s, j);
      var c := s[j];
      var next := j + 1;
      if s[j] == '\\' {
        if next == |s| {
          assert s[j..] == "\\";
          return false, "", |s|;
        }
        c, next := TakeEscape(s, next);
      }
      BeforeMore(text, c, Quoted(s[next..]));
      text, j := text + [c], next;
    }
    QuotedStop(s, j);
    if j == |s| {
      return false, "", j;
    }
    Seqs.Empty(text);
    return true, text, j + 1;
  }

  lemma QuotedStop(s: string, j: nat)
    requires j <= |s| && (j < |s| ==> s[j] == '"')
    ensures Quoted(s[j..]) == if j == |s| then None else Some(Text("", s[j + 1..]))
  {
    if j < |s| {
      Seqs.Tail(s, j);
    }
  }

  lemma NoQuote(s: string, i: nat)
    requires i <= |s| && (i < |s| ==> s[i] != '"')
    ensures !StartsWith(s[i..], '"')
  {
  }

  method TakeAssigned(s: string, i: nat) returns (ok: bool, text: string, j: nat)
    requires i <= |s|
    ensures ok <==> ParseAssigned(s[i..]).Some?
    ensures i <= j <= |s| && (ok ==> ParseAssigned(s[i..]) == Some(Text(text, s[j..])))
  {
    hide Quoted, BareLen, UpToNul;
    if i < |s| && s[i] == '"' {
      Seqs.Tail(s, i);
      ok, text, j := TakeQuoted(s, i + 1);
      text := UpToNul(text);
    } else {
      NoQuote(s, i);
      j := TakeBare(s, i);
      Seqs.Part(s, i, j);
      ok, text := j < |s|, s[i..j];
    }
  }

  lemma StartsAt(s: string, j: nat, c: char)
    requires j <= |s|
    ensures StartsWith(s[j..], c) <==> j < |s| && s[j] == c
    ensures j < |s| ==> s[j..][1..] == s[j + 1..]
  {
  }

  method TakeValue(s: string, i: nat) returns (ok: bool, text: string, j: nat)
    requires i <= |s|
    ensures ok <==> ParseValue(SkipWs(s[i..])).Some?
    ensures i <= j <= |s| && (ok ==> ParseValue(SkipWs(s[i..])) == Some(Text(text, s[j..])))
  {
    hide SkipWs, ParseAssigned, StartsWith;
    j := SkipBlanks(s, i);
    StartsAt(s, j, '=');
    if j < |s| && s[j] == '=' {
      j := SkipBlanks(s, j + 1);
      ok, text, j := TakeAssigned(s, j);
    } else {
      ok, text := true, "";
    }
  }

  method TakeComma(s: string, i: nat) returns (j: nat)
    requires i <= |s|
    ensures i <= j <= |s| && s[j..] == SkipComma(s[i..])
  {
    hide SkipWs, StartsWith;
    j := SkipBlanks(s, i);
    StartsAt(s, j, ',');
    if j < |s| && s[j] == ',' {
      j := SkipBlanks(s, j + 1);
    }
  }

  ghost function AttrsBefore(attrs: seq<Attr>, r: Option<AttrList>): Option<AttrList>
  {
    match r
    case None => None
    case Some(l) => Some(AttrList(attrs + l.attrs, l.rest))
  }

  lemma AttrsBeforeMore(attrs: seq<Attr>, a: Attr, r: Option<AttrList>)
    ensures AttrsBefore(attrs, AttrsBefore([a], r)) == AttrsBefore(attrs + [a], r)
  {
    if r.Some? {
      assert attrs + ([a] + r.value.attrs) == attrs + [a] + r.value.attrs;
    }
  }

  lemma AttrsStep(s: string)
    requires s != "" && s[0] != ']'
    ensures var k := AlnumLen(s);
      if k == 0 || k == |s| then ParseAttrs(s) == None
      else
        var v := ParseValue(SkipWs(s[k..]));
        ParseAttrs(s) ==
          if v == None then None
          else AttrsBefore([Attr(s[..k], v.value.text)], ParseAttrs(SkipComma(v.value.rest)))
  {
  }

  /** One round of `parse_attr`: a key, its value and the comma. */
  method TakeAttr(s: string, i: nat) returns (ok: bool, a: Attr, j: nat)
    requires i < |s| && s[i] != ']'
    ensures i <= j <= |s| && (ok ==> i < j)
    ensures if ok then ParseAttrs(s[i..]) == AttrsBefore([a], ParseAttrs(s[j..])) else ParseAttrs(s[i..]) == None
  {
    hide ParseAttrs, ParseValue, SkipWs, SkipComma, AlnumLen;
    Seqs.Tail(s, i);
    AttrsStep(s[i..]);
    j := TakeAlnum(s, i);
    Seqs.Part(s, i, j);
    a := Attr(s[i..j], "");
    if j == i || j == |s| {
      return false, a, j;
    }
    var text, v;
    ok, text, v := TakeValue(s, j);
    if ok {
      a := a.(value := text);
      j := TakeComma(s, v);
    }
  }

  /** `parse_attr`. */
  method TakeAttrs(s: string, i: nat) returns (ok: bool, attrs: seq<Attr>, j: nat)
    requires i <= |s|
    ensures ok <==> ParseAttrs(s[i..]).Some?
    ensures i <= j <= |s| && (ok ==> ParseAttrs(s[i..]) == Some(AttrList(attrs, s[j..])))
  {
    hide ParseAttrs;
    j, attrs := i, [];
    AttrsBeforeNone(ParseAttrs(s[i..]));
    while j < |s| && s[j] != ']'
      invariant i <= j <= |s| && ParseAttrs(s[i..]) == AttrsBefore(attrs, ParseAttrs(s[j..]))
      decreases |s| - j
    {
      var good, a, next := TakeAttr(s, j);
      if !good {
        return false, [], j;
      }
      AttrsBeforeMore(attrs, a, ParseAttrs(s[next..]));
      attrs, j := attrs + [a], next;
    }
    AttrsStop(s, j);
    if j == |s| {
      return false, [], j;
    }
    Seqs.Empty(attrs);
    return true, attrs, j + 1;
  }

  lemma AttrsStop(s: string, j: nat)
    requires j <= |s| && (j < |s| ==> s[j] == ']')
    ensures ParseAttrs(s[j..]) == if j == |s| then None else Some(AttrList([], s[j + 1..]))
  {
    if j < |s| {
      Seqs.Tail(s, j);
    }
  }

  lemma AttrsBeforeNone(r: Option<AttrList>)
    ensures AttrsBefore([], r) == r
  {
    if r.Some? {
      assert [] + r.value.attrs == r.value.attrs;
    }
  }

  // ---- lines ------------------------------------------------------------------------

  lemma {:induction false} NextLineAt(s: string, k: nat)
    requires k <= |s| && '\n' !in s[..k] && (k < |s| ==> s[k] == '\n')
    ensures NextLine(s) == FirstLine(s[..k], if k < |s| then s[k + 1..] else "")
    decreases |s|
  {
    if k > 0 {
      assert s[0] == s[..k][0];
      assert s[1..][..k - 1] == s[..k][1..];
      NextLineAt(s[1..], k - 1);
      assert s[..k] == [s[0]] + s[1..][..k - 1];
    }
  }

  lemma LineUpTo(s: string, i: nat, j: nat)
    requires i <= j <= |s| && '\n' !in s[i..j] && (j < |s| ==> s[j] == '\n')
    ensures NextLine(s[i..]) == FirstLine(s[i..j], if j < |s| then s[j + 1..] else s[j..])
  {
    Seqs.Part(s, i, j);
    NextLineAt(s[i..], j - i);
    if j < |s| {
      Seqs.Part(s, i, j + 1);
    }
  }

  /** `_copy_line_advance`. */
  method TakeLine(s: string, i: nat) returns (line: string, j: nat)
    requires i <= |s|
    ensures i <= j <= |s| && (i < |s| ==> i < j) && NextLine(s[i..]) == FirstLine(line, s[j..])
  {
    hide NextLine;
    j := i;
    while j < |s| && s[j] != '\n'
      invariant i <= j <= |s| && '\n' !in s[i..j]
    {
      Seqs.Longer(s, i, j);
      j := j + 1;
    }
    line := s[i..j];
    Seqs.Part(s, i, j);
    LineUpTo(s, i, j);
    if j < |s| {
      j := j + 1;
    }
  }

  /** The part of `_hdf_read_string` that takes one line apart. */
  method ScanLine(line: string) returns (st: Stmt)
    ensures st == ParseLine(line)
  {
    assert line[0..] == line;
    var i := SkipBlanks(line, 0);
    if "#include " <= line[i..] {
      st := Include;
    } else if i == |line| || line[i] == '#' {
      st := Blank;
    } else if line[i] == '}' {
      st := if Strip(line[i..]) == "}" then Close else Bad;
    } else {
      st := ScanNamed(line, i);
    }
  }

  method ScanNamed(line: string, i: nat) returns (st: Stmt)
    requires i <= |line|
    ensures var s := line[i..]; st == ParseNamed(s[..NameLen(s)], SkipWs(s[NameLen(s)..]))
  {
    hide NameLen, SkipWs, ParseNamed;
    var k := TakeName(line, i);
    Seqs.Part(line, i, k);
    var j := SkipBlanks(line, k);
    st := ScanAttrs(line[i..k], line, j);
  }

  method ScanAttrs(name: string, line: string, i: nat) returns (st: Stmt)
    requires i <= |line|
    ensures st == ParseNamed(name, line[i..])
  {
    if i < |line| && line[i] == '[' {
      assert line[i..][1..] == line[i + 1..];
      var ok, attrs, j := TakeAttrs(line, i + 1);
      if !ok {
        return Bad;
      }
      j := SkipBlanks(line, j);
      st := ParseRest(name, attrs, line[j..]);
    } else {
      st := ParseRest(name, [], line[i..]);
    }
  }

  // ---- the buffer of a multi-line value -----------------------------------------------

  lemma {:induction false} CopyLineAt(s: string, n: nat, k: nat)
    requires k <= |s| && k <= n && '\n' !in s[..k]
    requires k == n || k == |s| || s[k] == '\n'
    ensures CopyLine(s, n) == if k < n && k < |s| then s[..k + 1] else s[..k]
    decreases k
  {
    if k == 0 {
      if n > 0 && s != "" {
        assert s[..1] == "\n";
      }
    } else {
      CopyLineStep(s, n);
      hide CopyLine;
      Unrolled(s, k);
      CopyLineAt(s[1..], n - 1, k - 1);
      if k < |s| {
        Unrolled(s, k + 1);
      }
    }
  }

  lemma CopyLineStep(s: string, n: nat)
    requires s != "" && s[0] != '\n' && n > 0
    ensures CopyLine(s, n) == [s[0]] + CopyLine(s[1..], n - 1)
  {
  }

  lemma Unrolled(s: string, k: nat)
    requires 0 < k <= |s|
    ensures s[..k] == [s[0]] + s[1..][..k - 1] && s[1..][..k - 1] == s[..k][1..] && s[..k][0] == s[0]
    ensures k < |s| ==> s[1..][k - 1] == s[k]
  {
  }

  /** A piece ends behind its newline, or because the text or the room is at its end. */
  ghost predicate IsPiece(s: string, n: nat, x: nat)
  {
    && x <= |s| && x <= n
    && (x > 0 ==> '\n' !in s[..x - 1])
    && ((x > 0 && s[x - 1] == '\n') || x == n || x == |s|)
  }

  lemma PieceIsCopyLine(s: string, n: nat, x: nat)
    requires IsPiece(s, n, x)
    ensures CopyLine(s, n) == s[..x]
  {
    if x > 0 && s[x - 1] == '\n' {
      CopyLineAt(s, n, x - 1);
    } else {
      assert x > 0 ==> s[..x] == s[..x - 1] + [s[x - 1]];
      CopyLineAt(s, n, x);
    }
  }

  /** The loop of `_copy_line`. */
  method FillPiece(s: string, i: nat, m: array<char>, at: nat) returns (x: nat)
    requires i <= |s| && at < m.Length
    modifies m
    ensures at + x < m.Length && i + x <= |s| && IsPiece(s[i..], m.Length - at - 1, x)
    ensures m[..at] == old(m[..at]) && m[at..at + x] == s[i..i + x]
  {
    ghost var rest := s[i..];
    x := 0;
    while i + x < |s| && at + x + 1 < m.Length
      invariant at + x < m.Length && i + x <= |s| && '\n' !in rest[..x]
      invariant m[..at] == old(m[..at]) && m[at..at + x] == s[i..i + x]
    {
      assert rest[..x + 1] == rest[..x] + [s[i + x]];
      m[at + x] := s[i + x];
      assert m[at..at + (x + 1)] == m[at..at + x] + [m[at + x]];
      x := x + 1;
      if s[i + x - 1] == '\n' {
        return;
      }
    }
    assert x > 0 ==> '\n' !in rest[..x - 1];
  }

  /** `_copy_line`: a piece of the text goes into the buffer at `at`, with a zero behind it; the
      buffer is never written beyond its end. */
  method CopyPiece(s: string, i: nat, m: array<char>, at: nat) returns (x: nat)
    requires i <= |s| && at < m.Length
    modifies m
    ensures at + x < m.Length && i + x <= |s| && s[i..i + x] == CopyLine(s[i..], m.Length - at - 1)
    ensures m[..at] == old(m[..at]) && m[at..at + x] == s[i..i + x] && m[at + x] == '\0'
  {
    x := FillPiece(s, i, m, at);
    PieceIsCopyLine(s[i..], m.Length - at - 1, x);
    assert s[i..][..x] == s[i..i + x];
    m[at + x] := '\0';
  }

  /** The buffer with a further block behind it (realloc). */
  method Enlarge(m: array<char>, msize: nat) returns (m2: array<char>)
    requires msize <= m.Length
    ensures fresh(m2) && m2.Length == m.Length + CHUNK && m2[..msize] == m[..msize]
  {
    m2 := new char[m.Length + CHUNK](_ => '\0');
    for k := 0 to msize
      invariant m2[..k] == m[..k]
    {
      m2[k] := m[k];
    }
  }

  /** One round: a piece is copied behind what the buffer holds and looked at. */
  method BodyRound(s: string, j: nat, term: string, m: array<char>, msize: nat) returns (x: nat, stop: bool)
    requires j <= |s| && term != "" && msize + 2 <= m.Length
    modifies m
    ensures j + x <= |s| && msize + x < m.Length
    ensures m[..msize] == old(m[..msize]) && m[..msize + x] == old(m[..msize]) + s[j..j + x]
    ensures s[j..j + x] == CopyLine(s[j..], m.Length - msize - 1)
    ensures stop <==> x == 0 || Closes(term, s[j..j + x])
  {
    x := CopyPiece(s, j, m, msize);
    stop := x == 0 || Closes(term, m[msize..msize + x]);
    assert m[..msize + x] == m[..msize] + m[msize..msize + x];
  }

  lemma CollectRound(s: string, j: nat, term: string, acc: string, mmax: nat, x: nat)
    requires term != "" && |acc| + 2 <= mmax && j + x <= |s|
    requires s[j..j + x] == CopyLine(s[j..], mmax - |acc| - 1)
    ensures Collect(s[j..], term, acc, mmax) ==
            if x == 0 || Closes(term, s[j..j + x]) then Body(acc, s[j + x..])
            else Collect(s[j + x..], term, acc + s[j..j + x], Grown(mmax, |acc| + x, |term|))
  {
    assert s[j..][x..] == s[j + x..];
    assert x == 0 ==> s[j + x..] == s[j..];
  }

  /** A round and the growth of the buffer after it. */
  method BodyStep(s: string, j: nat, term: string, m: array<char>, msize: nat)
    returns (m2: array<char>, x: nat, stop: bool)
    requires j <= |s| && term != "" && msize + 2 <= m.Length
    modifies m
    ensures m2 == m || fresh(m2)
    ensures j + x <= |s| && s[j..j + x] == CopyLine(s[j..], m.Length - msize - 1)
    ensures stop <==> x == 0 || Closes(term, s[j..j + x])
    ensures stop ==> m[..msize] == old(m[..msize])
    ensures !stop ==> m2.Length == Grown(m.Length, msize + x, |term|) && msize + x + 2 <= m2.Length
    ensures !stop ==> m2[..msize + x] == old(m[..msize]) + s[j..j + x]
  {
    x, stop := BodyRound(s, j, term, m, msize);
    m2 := m;
    if !stop && msize + x + |term| + 10 > m.Length {
      m2 := Enlarge(m, msize + x);
    }
  }

  /** What is still to be collected, given what the buffer holds. */
  ghost predicate Pending(s: string, j: nat, term: string, acc: string, mmax: nat, goal: Body)
  {
    term != "" && j <= |s| && |acc| + 2 <= mmax && Collect(s[j..], term, acc, mmax) == goal
  }

  lemma PendingFirst(s: string, i: nat, term: string)
    requires i <= |s| && term != ""
    ensures Pending(s, i, term, "", CHUNK, ReadBody(s[i..], term))
  {
  }

  lemma PendingStep(s: string, j: nat, term: string, acc: string, mmax: nat, goal: Body, x: nat)
    requires Pending(s, j, term, acc, mmax, goal) && j + x <= |s|
    requires s[j..j + x] == CopyLine(s[j..], mmax - |acc| - 1)
    ensures if x == 0 || Closes(term, s[j..j + x]) then goal == Body(acc, s[j + x..])
            else Pending(s, j + x, term, acc + s[j..j + x], Grown(mmax, |acc| + x, |term|), goal)
  {
    CollectRound(s, j, term, acc, mmax, x);
  }

  /** The multi-line assignment of `_hdf_read_string`: pieces are copied into a buffer that
      grows ahead of them until one of them is the closing line. */
  method TakeBody(s: string, i: nat, term: string) returns (text: string, j: nat)
    requires i <= |s| && term != ""
    ensures i <= j <= |s| && ReadBody(s[i..], term) == Body(text, s[j..])
  {
    hide Collect, Pending, Closes, Grown, CopyLine;
    var m := new char[CHUNK](_ => '\0');
    var msize: nat := 0;
    j := i;
    ghost var acc := "";
    ghost var goal := ReadBody(s[i..], term);
    PendingFirst(s, i, term);
    assert m[..0] == "";
    while true
      invariant fresh(m) && msize + 2 <= m.Length && i <= j <= |s| && acc == m[..msize]
      invariant Pending(s, j, term, acc, m.Length, goal)
      decreases |s| - j
    {
      var m2, x, stop := BodyStep(s, j, term, m, msize);
      PendingStep(s, j, term, acc, m.Length, goal, x);
      if stop {
        return m[..msize], j + x;
      }
      acc := acc + s[j..j + x];
      m, msize, j := m2, msize + x, j + x;
    }
  }
}
