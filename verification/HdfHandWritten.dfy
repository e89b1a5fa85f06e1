/** Lines that the printer never writes, as people write them: comments, any white space, attributes
    without quotes, attributes in front of a block, copies, and lines that are refused. */
module HdfHandWritten {
  import Seqs
  import opened Options
  import opened HdfTree
  import opened HdfAttrs
  import opened HdfSpec
  import opened HdfCopy
  import opened HdfLaws
  import opened HdfLex
  import opened HdfLine
  import opened HdfHeredoc
  import opened HdfRead
  import opened HdfRoundTrip

  /** White space on a line. */
  predicate IsWhite(w: string)
  {
    forall i :: 0 <= i < |w| ==> IsSpace(w[i]) && w[i] != '\n'
  }

  // ---- one line is read ---------------------------------------------------------------

  /** What follows a block that was read to its end. */
  ghost function AfterBlock(r: ReadResult, p: Path, strict: bool, fuel: nat): ReadResult
    requires r.Read? ==> Has(r.tree, p)
  {
    match r
    case Lost => Lost
    case Failed(t2) => Failed(t2)
    case Read(t2, rest) => ReadText(t2, p, rest, strict, fuel)
  }

  lemma {:induction false} PassedLine(t: Tree, p: Path, line: string, x: string, strict: bool, fuel: nat)
    requires Has(t, p) && '\n' !in line
    ensures var st, all := ParseLine(line), ReadText(t, p, line + "\n" + x, strict, fuel);
      && (st.Blank? ==> all == ReadText(t, p, x, strict, fuel))
      && (st.Include? ==> all == if strict then Failed(t) else ReadText(t, p, x, strict, fuel))
      && (st.Bad? ==> all == Failed(t))
      && (st.Close? ==> all == Read(t, x))
  {
    hide NextLine, ParseLine, OpenLine, SetLine, AfterLine;
    LineOf(line, x);
  }

  lemma {:induction false} SettingLine(t: Tree, p: Path, line: string, x: string, strict: bool, fuel: nat)
    requires Has(t, p) && '\n' !in line
    requires var st := ParseLine(line); st.Assign? || st.Link? || st.CopyOf? || st.Heredoc?
    ensures var st := ParseLine(line);
      var r := SetLine(t, p, st, x, fuel);
      (r.Done? ==> Has(r.tree, p)) &&
      ReadText(t, p, line + "\n" + x, strict, fuel) == Then(r, p, AfterLine(st, x), strict, fuel)
  {
    hide NextLine, ParseLine, OpenLine, SetLine, AfterLine;
    LineOf(line, x);
    SetLineKeeps(t, p, ParseLine(line), x, fuel);
  }

  lemma {:induction false} OpeningLine(t: Tree, p: Path, line: string, x: string, t1: Tree, q: Path, strict: bool,
                                       fuel: nat)
    requires Has(t, p) && '\n' !in line && ParseLine(line).Open?
    requires OpenLine(t, p, ParseLine(line).name, ParseLine(line).attrs, fuel) == Done(t1, q)
    ensures Has(t1, p) && Has(t1, q)
    ensures var inner := ReadText(t1, q, x, strict, fuel);
      (inner.Read? ==> Has(inner.tree, p)) &&
      ReadText(t, p, line + "\n" + x, strict, fuel) == AfterBlock(inner, p, strict, fuel)
  {
    hide NextLine, ParseLine, OpenLine, SetLine, AfterLine;
    LineOf(line, x);
    OpenLineKeeps(t, p, ParseLine(line).name, ParseLine(line).attrs, fuel);
  }

  lemma {:induction false} SameFirst(t: Tree, p: Path, a: string, b: string, strict: bool, fuel: nat)
    requires Has(t, p) && a != "" && b != "" && NextLine(a) == NextLine(b)
    ensures ReadText(t, p, a, strict, fuel) == ReadText(t, p, b, strict, fuel)
  {
    hide NextLine, ParseLine, OpenLine, SetLine, AfterLine, Keeps, Has;
  }

  lemma NoText(t: Tree, p: Path, strict: bool, fuel: nat)
    requires Has(t, p)
    ensures ReadText(t, p, "", strict, fuel) == ReadText(t, p, "\n", strict, fuel)
  {
    hide OpenLine, SetLine, AfterLine, Keeps, Has;
    assert NextLine("\n") == FirstLine("", "") && ParseLine("").Blank?;
  }

  /** The last line need not be ended. */
  lemma LastLine(t: Tree, p: Path, line: string, strict: bool, fuel: nat)
    requires Has(t, p) && '\n' !in line
    ensures ReadText(t, p, line, strict, fuel) == ReadText(t, p, line + "\n", strict, fuel)
  {
    hide NextLine, ReadText, Has;
    LineOf(line, "");
    assert line + "\n" + "" == line + "\n";
    if line == "" {
      assert line + "\n" == "\n";
      NoText(t, p, strict, fuel);
    } else {
      Unended(line);
      SameFirst(t, p, line, line + "\n", strict, fuel);
    }
  }

  lemma {:induction false} Unended(line: string)
    requires '\n' !in line && line != ""
    ensures NextLine(line) == FirstLine(line, "")
  {
    if |line| > 1 {
      Unended(line[1..]);
    }
    assert line == [line[0]] + line[1..];
  }

  // ---- lines without a statement ---------------------------------------------------------

  lemma {:induction false} WhiteSkipped(w: string, s: string)
    requires IsWhite(w) && (s != "" ==> !IsSpace(s[0]))
    ensures SkipWs(w + s) == s
  {
    SkipSpaces(w, s);
  }

  /** A comment is passed over, wherever it begins on its line. */
  lemma CommentPassed(t: Tree, p: Path, w: string, c: string, x: string, strict: bool, fuel: nat)
    requires Has(t, p) && IsWhite(w) && '\n' !in c && !("include " <= c)
    ensures ReadText(t, p, w + "#" + c + "\n" + x, strict, fuel) == ReadText(t, p, x, strict, fuel)
  {
    hide ReadText;
    var s := "#" + c;
    assert w + "#" + c == w + s;
    WhiteSkipped(w, s);
    NotIncluding(c);
    assert ParseLine(w + s) == Blank;
    PassedLine(t, p, w + s, x, strict, fuel);
  }

  lemma NotIncluding(c: string)
    ensures "#include " <= "#" + c ==> "include " <= c
  {
    if "#include " <= "#" + c {
      assert "#include "[1..] == "include " && ("#" + c)[1..] == c;
    }
  }

  /** A line with nothing on it but white space is passed over. */
  lemma BlankPassed(t: Tree, p: Path, w: string, x: string, strict: bool, fuel: nat)
    requires Has(t, p) && IsWhite(w)
    ensures ReadText(t, p, w + "\n" + x, strict, fuel) == ReadText(t, p, x, strict, fuel)
  {
    hide ReadText;
    Seqs.Empty(w);
    WhiteSkipped(w, "");
    assert !("#include " <= "");
    assert ParseLine(w) == Blank;
    PassedLine(t, p, w, x, strict, fuel);
  }

  /** An include is an error or passed over. */
  lemma IncludeRead(t: Tree, p: Path, w: string, c: string, x: string, strict: bool, fuel: nat)
    requires Has(t, p) && IsWhite(w) && '\n' !in c
    ensures ReadText(t, p, w + ("#include " + c) + "\n" + x, strict, fuel) ==
            if strict then Failed(t) else ReadText(t, p, x, strict, fuel)
  {
    hide ReadText, ParseLine;
    Including(w, "#include " + c);
    assert '\n' !in "#include ";
    PassedLine(t, p, w + ("#include " + c), x, strict, fuel);
  }

  lemma Including(w: string, s: string)
    requires IsWhite(w) && "#include " <= s
    ensures ParseLine(w + s) == Include
  {
    hide SkipWs;
    assert s[0] == "#include "[0];
    WhiteSkipped(w, s);
  }

  /** A brace alone ends the block. */
  lemma BraceCloses(t: Tree, p: Path, w: string, behind: string, x: string, strict: bool, fuel: nat)
    requires Has(t, p) && IsWhite(w) && IsWhite(behind)
    ensures ReadText(t, p, w + ("}" + behind) + "\n" + x, strict, fuel) == Read(t, x)
  {
    hide ReadText, Strip, SkipWs;
    WhiteSkipped(w, "}" + behind);
    StripExactly("", "}", behind);
    assert "" + "}" + behind == "}" + behind;
    NotInclude("}" + behind);
    PassedLine(t, p, w + ("}" + behind), x, strict, fuel);
  }

  /** A brace with something behind it is an error. */
  lemma BraceRefused(t: Tree, p: Path, w: string, c: string, i: nat, x: string, strict: bool, fuel: nat)
    requires Has(t, p) && IsWhite(w) && '\n' !in c && i < |c| && !IsSpace(c[i])
    ensures ReadText(t, p, w + ("}" + c) + "\n" + x, strict, fuel) == Failed(t)
  {
    hide ReadText, Strip, SkipWs;
    WhiteSkipped(w, "}" + c);
    BraceAlone(c);
    NotInclude("}" + c);
    PassedLine(t, p, w + ("}" + c), x, strict, fuel);
  }

  lemma BraceAlone(c: string)
    ensures (exists i :: 0 <= i < |c| && !IsSpace(c[i])) ==> Strip("}" + c) != "}"
  {
    if i :| 0 <= i < |c| && !IsSpace(c[i]) {
      TrimStops("}" + c, i + 1);
      var r := TrimEnd("}" + c);
      assert r[0] == '}';
    }
  }

  lemma {:induction false} TrimStops(s: string, i: nat)
    requires i < |s| && !IsSpace(s[i])
    ensures |TrimEnd(s)| > i
    decreases |s|
  {
    if IsSpace(s[|s| - 1]) {
      TrimStops(s[..|s| - 1], i);
    }
  }

  /** Exactly the white space at both ends goes. */
  lemma StripExactly(before: string, core: string, behind: string)
    requires forall i :: 0 <= i < |before| ==> IsSpace(before[i])
    requires forall i :: 0 <= i < |behind| ==> IsSpace(behind[i])
    requires Trimmed(core)
    ensures Strip(before + core + behind) == core
  {
    if core == "" {
      Seqs.Empty(before);
      assert before + core + behind == "" + (before + behind);
      TrimSpaces("", before + behind);
      assert SkipWs("") == "";
    } else {
      assert (before + core)[|before + core| - 1] == core[|core| - 1];
      TrimSpaces(before + core, behind);
      SkipSpaces(before, core);
    }
  }

  // ---- attributes as they are written ------------------------------------------------------

  /** What stands behind an attribute: white space, a comma or none, white space. */
  datatype Gap = Gap(white: string, comma: bool, more: string)

  datatype Item =
    | Bare(key: string, gap: Gap)
    | InQuotes(key: string, before: string, behind: string, value: string, gap: Gap)
    | Plain(key: string, before: string, behind: string, value: string, gap: Gap)

  ghost predicate IsGap(g: Gap)
  {
    IsWhite(g.white) && IsWhite(g.more)
  }

  function GapText(g: Gap): string
  {
    if g.comma then g.white + ("," + g.more) else g.white + g.more
  }

  ghost predicate GoodItem(a: Item, last: bool)
  {
    && IsKey(a.key) && IsGap(a.gap)
    && match a
       case Bare(_, gap) => GapText(gap) == "" ==> last
       case InQuotes(_, before, behind, value, _) => IsWhite(before) && IsWhite(behind) && IsByteString(value)
       case Plain(_, before, behind, value, gap) =>
         && IsWhite(before) && IsWhite(behind) && '\n' !in value
         && value != "" && !IsSpace(value[0]) && value[0] != '"'
         && (forall i :: 0 <= i < |value| ==> value[i] != ' ' && value[i] != ',' && value[i] != ']')
         && (if GapText(gap) == "" then last else GapText(gap)[0] == ' ' || GapText(gap)[0] == ',')
  }

  ghost predicate GoodItems(items: seq<Item>)
  {
    forall i :: 0 <= i < |items| ==> GoodItem(items[i], i == |items| - 1)
  }

  function ItemText(a: Item): string
  {
    match a
    case Bare(key, _) => key
    case InQuotes(key, before, behind, value, _) => key + (before + ("=" + (behind + ("\"" + EscapeAll(value) + "\""))))
    case Plain(key, before, behind, value, _) => key + (before + ("=" + (behind + value)))
  }

  function ItemsText(items: seq<Item>): string
  {
    if items == [] then "" else ItemText(items[0]) + (GapText(items[0].gap) + ItemsText(items[1..]))
  }

  /** What is meant; a key alone stands for the empty value, as the code has it. */
  function Meant(items: seq<Item>): (r: seq<Attr>)
    ensures |r| == |items|
  {
    seq(|items|, i requires 0 <= i < |items| => Attr(items[i].key, if items[i].Bare? then "" else items[i].value))
  }

  lemma GapSkipped(g: Gap, more: string)
    requires IsGap(g) && more != "" && !IsSpace(more[0]) && more[0] != ','
    ensures SkipComma(GapText(g) + more) == more && SkipComma(SkipWs(GapText(g) + more)) == more
    ensures more[0] != '=' ==> SkipWs(GapText(g) + more) != "" && SkipWs(GapText(g) + more)[0] != '='
  {
    hide SkipWs, SkipComma;
    WhiteSkipped("", more);
    Seqs.Empty(more);
    if g.comma {
      var tail := "," + (g.more + more);
      CommaMoved(g.white, g.more, more);
      CommaGap(GapText(g) + more, g.white, tail, g.more, more);
    } else {
      WhiteSkipped(g.white + g.more, more);
      NothingTaken(GapText(g) + more, more);
      NothingTaken(more, more);
    }
  }

  lemma CommaGap(s: string, w: string, tail: string, w2: string, more: string)
    requires s == w + tail && IsWhite(w) && IsWhite(w2) && more != "" && !IsSpace(more[0])
    requires tail != "" && tail[0] == ',' && tail[1..] == w2 + more
    ensures SkipComma(s) == more && SkipComma(SkipWs(s)) == more && SkipWs(s) == tail
  {
    hide SkipWs, SkipComma;
    WhiteSkipped(w, tail);
    WhiteSkipped("", tail);
    Seqs.Empty(tail);
    WhiteSkipped(w2, more);
    CommaTaken(s, tail, more);
    CommaTaken(tail, tail, more);
  }

  lemma CommaMoved(w: string, w2: string, more: string)
    ensures w + ("," + w2) + more == w + ("," + (w2 + more))
    ensures ("," + (w2 + more))[1..] == w2 + more
  {
  }

  lemma CommaTaken(s: string, tail: string, more: string)
    requires SkipWs(s) == tail && tail != "" && tail[0] == ',' && SkipWs(tail[1..]) == more
    ensures SkipComma(s) == more
  {
    hide SkipWs;
  }

  lemma NothingTaken(s: string, more: string)
    requires SkipWs(s) == more && more != "" && more[0] != ','
    ensures SkipComma(s) == more
  {
    hide SkipWs;
  }

  lemma {:induction false} BareRun(v: string, s: string)
    requires forall i :: 0 <= i < |v| ==> !EndsBare(v[i])
    requires s != "" && EndsBare(s[0])
    ensures BareLen(v + s) == |v|
  {
    assert forall j :: 0 <= j < |v| ==> (v + s)[j] == v[j];
    assert (v + s)[|v|] == s[0];
  }

  /** The value of one attribute, and what is behind it. */
  ghost predicate ValueThere(tail: string, value: string, more: string)
  {
    tail != "" && !IsAlnum(tail[0]) &&
    var r := ParseValue(SkipWs(tail));
    r.Some? && r.value.text == value && SkipComma(r.value.rest) == more
  }

  lemma {:induction false} ItemValue(a: Item, last: bool, more: string)
    requires GoodItem(a, last) && more != "" && !IsSpace(more[0]) && more[0] != ',' && more[0] != '='
    requires last ==> more[0] == ']'
    ensures |a.key| <= |ItemText(a)| && ItemText(a)[..|a.key|] == a.key
    ensures ValueThere(ItemText(a)[|a.key|..] + (GapText(a.gap) + more), if a.Bare? then "" else a.value, more)
  {
    hide ValueThere, EscapeAll;
    match a
    case Bare(key, gap) =>
      assert key[|key|..] == "" && "" + (GapText(gap) + more) == GapText(gap) + more;
      BareThere(gap, more);
    case InQuotes(key, before, behind, value, gap) =>
      var q := "\"" + EscapeAll(value) + "\"";
      BehindKey(key, before + ("=" + (behind + q)));
      Signed(before, behind, q, GapText(gap) + more);
      QuotedThere(before, behind, value, gap, more);
    case Plain(key, before, behind, value, gap) =>
      BehindKey(key, before + ("=" + (behind + value)));
      Signed(before, behind, value, GapText(gap) + more);
      PlainThere(before, behind, value, gap, more);
  }

  lemma BehindKey(key: string, rest: string)
    ensures (key + rest)[..|key|] == key && (key + rest)[|key|..] == rest
  {
  }

  lemma Signed(before: string, behind: string, v: string, g: string)
    ensures before + ("=" + (behind + v)) + g == before + ("=" + (behind + (v + g)))
  {
  }

  lemma BareThere(gap: Gap, more: string)
    requires IsGap(gap) && more != "" && !IsSpace(more[0]) && more[0] != ',' && more[0] != '='
    requires GapText(gap) == "" ==> more[0] == ']'
    ensures ValueThere(GapText(gap) + more, "", more)
  {
    hide SkipWs, SkipComma, ParseAssigned;
    GapSkipped(gap, more);
    var g := GapText(gap);
    assert (g + more)[0] == if g == "" then more[0] else g[0];
    GapStarts(gap);
  }

  lemma GapStarts(gap: Gap)
    requires IsGap(gap)
    ensures GapText(gap) != "" ==> !IsAlnum(GapText(gap)[0])
  {
  }

  lemma QuotedThere(before: string, behind: string, value: string, gap: Gap, more: string)
    requires IsWhite(before) && IsWhite(behind) && IsByteString(value) && IsGap(gap)
    requires more != "" && !IsSpace(more[0]) && more[0] != ','
    ensures ValueThere(before + ("=" + (behind + ("\"" + EscapeAll(value) + "\"" + (GapText(gap) + more)))),
                       value, more)
  {
    hide SkipWs, SkipComma, Quoted, EscapeAll, UpToNul, ParseValue, GapText;
    GapSkipped(gap, more);
    var g := GapText(gap) + more;
    var rest := "\"" + EscapeAll(value) + "\"" + g;
    EqualsFound(before, behind, rest);
    assert rest[1..] == EscapeAll(value) + "\"" + g;
    QuotedInverse(value, g);
    NoNul(value);
  }

  lemma PlainThere(before: string, behind: string, value: string, gap: Gap, more: string)
    requires IsWhite(before) && IsWhite(behind) && IsGap(gap)
    requires more != "" && !IsSpace(more[0]) && more[0] != ','
    requires value != "" && !IsSpace(value[0]) && value[0] != '"'
    requires forall i :: 0 <= i < |value| ==> value[i] != ' ' && value[i] != ',' && value[i] != ']'
    requires var g := GapText(gap); if g == "" then more[0] == ']' else g[0] == ' ' || g[0] == ','
    ensures ValueThere(before + ("=" + (behind + (value + (GapText(gap) + more)))), value, more)
  {
    hide SkipWs, SkipComma, BareLen, ParseValue, GapText;
    GapSkipped(gap, more);
    var g := GapText(gap) + more;
    var rest := value + g;
    EqualsFound(before, behind, rest);
    assert rest[0] == value[0] && g[0] == if GapText(gap) == "" then more[0] else GapText(gap)[0];
    BareRun(value, g);
    assert rest[..|value|] == value && rest[|value|..] == g;
  }

  lemma EqualsFound(before: string, behind: string, rest: string)
    requires IsWhite(before) && IsWhite(behind) && rest != "" && !IsSpace(rest[0])
    ensures var s := before + ("=" + (behind + rest));
      s != "" && !IsAlnum(s[0]) && ParseValue(SkipWs(s)) == ParseAssigned(rest)
  {
    hide ParseAssigned, SkipWs;
    var s := "=" + (behind + rest);
    assert s[1..] == behind + rest;
    EqualsTaken(before, s, behind, rest);
  }

  lemma EqualsTaken(before: string, s: string, behind: string, rest: string)
    requires IsWhite(before) && IsWhite(behind) && rest != "" && !IsSpace(rest[0])
    requires s != "" && s[0] == '=' && s[1..] == behind + rest
    ensures var all := before + s;
      all != "" && !IsAlnum(all[0]) && ParseValue(SkipWs(all)) == ParseAssigned(rest)
  {
    hide ParseAssigned, SkipWs;
    WhiteSkipped(before, s);
    WhiteSkipped(behind, rest);
    NotLetter(before, s);
  }

  lemma NotLetter(before: string, s: string)
    requires IsWhite(before) && s != "" && s[0] == '='
    ensures !IsAlnum((before + s)[0])
  {
    assert (before + s)[0] == if before != "" then before[0] else s[0];
  }

  lemma ItemsStart(items: seq<Item>, s: string)
    requires GoodItems(items)
    ensures var more := ItemsText(items) + ("]" + s);
      more != "" && !IsSpace(more[0]) && more[0] != ',' && more[0] != '='
    ensures items == [] ==> (ItemsText(items) + ("]" + s))[0] == ']'
    ensures items != [] ==> (ItemsText(items) + ("]" + s))[0] != ']'
  {
    if items == [] {
      Seqs.Empty("]" + s);
    } else {
      assert GoodItem(items[0], 0 == |items| - 1);
      assert (ItemsText(items) + ("]" + s))[0] == items[0].key[0] && IsAlnum(items[0].key[0]);
    }
  }

  /** A written attribute list means its keys and values, however it is spaced. */
  lemma {:induction false} ItemsRead(items: seq<Item>, s: string)
    requires GoodItems(items)
    ensures ParseAttrs(ItemsText(items) + ("]" + s)) == Some(AttrList(Meant(items), s))
  {
    if items == [] {
      Seqs.Empty("]" + s);
      BracketEnds(s);
    } else {
      hide ParseAttrs, ParseValue, SkipComma, SkipWs, AlnumLen, ItemText, GoodItem, Meant;
      var a, rest := items[0], items[1..];
      var more := ItemsText(rest) + ("]" + s);
      RestGood(items);
      ItemsStart(rest, s);
      ItemsRead(rest, s);
      ItemValue(a, rest == [], more);
      MeantStep(items);
      OneItem(ItemText(a), a.key, GapText(a.gap), ItemsText(rest), "]" + s, if a.Bare? then "" else a.value,
              AttrList(Meant(rest), s));
    }
  }

  lemma RestGood(items: seq<Item>)
    requires GoodItems(items) && items != []
    ensures GoodItem(items[0], items[1..] == []) && GoodItems(items[1..]) && IsKey(items[0].key)
  {
    var rest := items[1..];
    assert forall i :: 0 <= i < |rest| ==> rest[i] == items[i + 1];
    assert GoodItem(items[0], 0 == |items| - 1);
  }

  lemma MeantStep(items: seq<Item>)
    requires items != []
    ensures Meant(items) == [Attr(items[0].key, if items[0].Bare? then "" else items[0].value)] + Meant(items[1..])
  {
  }

  lemma OneItem(text: string, key: string, gap: string, others: string, end: string, value: string, l: AttrList)
    requires IsKey(key) && |key| <= |text| && text[..|key|] == key
    requires ValueThere(text[|key|..] + (gap + (others + end)), value, others + end)
    requires ParseAttrs(others + end) == Some(l)
    ensures ParseAttrs(text + (gap + others) + end) == Some(AttrList([Attr(key, value)] + l.attrs, l.rest))
  {
    hide ParseAttrs, ParseValue, SkipComma, SkipWs, AlnumLen;
    var tail := text[|key|..] + (gap + (others + end));
    ItemShape(text, key, gap, others, end);
    AlnumRun(key, tail);
    var s := key + tail;
    assert s[0] == key[0] && IsAlnum(key[0]);
    ParseOne(s, key, value, ParseValue(SkipWs(tail)).value.rest, l);
  }

  lemma ItemShape(text: string, key: string, gap: string, others: string, end: string)
    requires |key| <= |text| && text[..|key|] == key
    ensures var tail := text[|key|..] + (gap + (others + end));
      text + (gap + others) + end == key + tail && (key + tail)[..|key|] == key && (key + tail)[|key|..] == tail
  {
    assert text == key + text[|key|..];
  }

  // ---- the front of a line ------------------------------------------------------------------

  /** What stands in front of the sign of a line. */
  datatype Front = Front(indent: string, name: string, gap: string, items: Option<seq<Item>>, behind: string)

  ghost predicate GoodFront(f: Front)
  {
    && IsWhite(f.indent) && IsLabel(f.name) && IsWhite(f.gap) && IsWhite(f.behind)
    && (f.items.Some? ==> GoodItems(f.items.value))
  }

  function FrontText(f: Front): string
  {
    f.indent + f.name + (f.gap + AttrsOf(f) + f.behind)
  }

  function AttrsOf(f: Front): string
  {
    match f.items
    case None => ""
    case Some(items) => "[" + (ItemsText(items) + "]")
  }

  function Given(f: Front): seq<Attr>
  {
    match f.items
    case None => []
    case Some(items) => Meant(items)
  }

  /** What begins with such a character is no part of the front. */
  predicate IsSign(c: char)
  {
    c == '=' || c == ':' || c == '{' || c == '<'
  }

  lemma {:induction false} OneLineItem(a: Item, last: bool)
    requires GoodItem(a, last)
    ensures '\n' !in ItemText(a) + GapText(a.gap)
  {
    hide IsWhite, IsKey, IsByteString, EscapeAll, GapText, IsGap;
    GapOnLine(a.gap);
    KeyOnLine(a.key);
    match a
    case Bare(_, _) =>
    case InQuotes(_, before, behind, value, _) =>
      EscapedOnOneLine(value);
      WhiteOnLine(before);
      WhiteOnLine(behind);
    case Plain(_, before, behind, value, _) =>
      WhiteOnLine(before);
      WhiteOnLine(behind);
  }

  lemma KeyOnLine(key: string)
    requires IsKey(key)
    ensures '\n' !in key
  {
    assert forall i :: 0 <= i < |key| ==> IsAlnum(key[i]);
  }

  lemma WhiteOnLine(w: string)
    requires IsWhite(w)
    ensures '\n' !in w
  {
  }

  lemma GapOnLine(g: Gap)
    requires IsGap(g)
    ensures '\n' !in GapText(g)
  {
    WhiteOnLine(g.white);
    WhiteOnLine(g.more);
  }

  lemma {:induction false} OneLineItems(items: seq<Item>)
    requires GoodItems(items)
    ensures '\n' !in ItemsText(items)
  {
    if items != [] {
      hide GoodItem;
      RestGood(items);
      OneLineItem(items[0], items[1..] == []);
      OneLineItems(items[1..]);
      Seqs.Assoc(ItemText(items[0]), GapText(items[0].gap), ItemsText(items[1..]));
    }
  }

  lemma OneLineFront(f: Front)
    requires GoodFront(f)
    ensures '\n' !in FrontText(f)
  {
    assert forall i :: 0 <= i < |f.name| ==> IsNameChar(f.name[i]);
    assert '\n' !in f.name && '\n' !in f.indent && '\n' !in f.gap && '\n' !in f.behind;
    if f.items.Some? {
      OneLineItems(f.items.value);
    }
  }

  /** The name is taken off a line. */
  lemma {:induction false} FrontNamed(f: Front, x: string)
    requires GoodFront(f) && x != "" && !IsSpace(x[0]) && !IsNameChar(x[0])
    ensures ParseLine(FrontText(f) + x) == ParseNamed(f.name, SkipWs(f.gap + AttrsOf(f) + f.behind + x))
  {
    hide ParseLine, ParseNamed, SkipWs, NameLen, GoodItems;
    var tail := f.gap + AttrsOf(f) + f.behind + x;
    var s := f.name + tail;
    FrontShape(f, x);
    assert s[0] == f.name[0] && IsNameChar(f.name[0]);
    WhiteSkipped(f.indent, s);
    TailStarts(f.gap, AttrsOf(f), f.behind, x);
    NameRun(f.name, tail);
    assert s[..|f.name|] == f.name && s[|f.name|..] == tail;
    NamedLine(f.indent + s, s);
  }

  /** The front is taken off a line, whatever sign follows. */
  lemma {:induction false} FrontRead(f: Front, x: string)
    requires GoodFront(f) && x != "" && IsSign(x[0])
    ensures ParseLine(FrontText(f) + x) == ParseRest(f.name, Given(f), x)
  {
    hide ParseLine, ParseNamed, ParseRest, SkipWs, NameLen, GoodItems;
    FrontNamed(f, x);
    match f.items
    case None => NoItemsRead(f.name, f.gap, f.behind, x);
    case Some(items) => WithItemsRead(f.name, f.gap, items, f.behind, x);
  }

  lemma FrontShape(f: Front, x: string)
    ensures FrontText(f) + x == f.indent + (f.name + (f.gap + AttrsOf(f) + f.behind + x))
  {
    Seqs.Assoc(f.indent + f.name, f.gap + AttrsOf(f) + f.behind, x);
    Seqs.Assoc(f.indent, f.name, f.gap + AttrsOf(f) + f.behind + x);
  }

  lemma TailStarts(gap: string, attrs: string, behind: string, x: string)
    requires IsWhite(gap) && IsWhite(behind) && x != "" && !IsNameChar(x[0]) && (attrs != "" ==> attrs[0] == '[')
    ensures var tail := gap + attrs + behind + x; tail != "" && !IsNameChar(tail[0])
  {
    var tail := gap + attrs + behind + x;
    assert tail[0] ==
      if gap != "" then gap[0] else if attrs != "" then attrs[0] else if behind != "" then behind[0] else x[0];
  }

  lemma NoItemsRead(name: string, gap: string, behind: string, x: string)
    requires IsWhite(gap) && IsWhite(behind) && x != "" && IsSign(x[0])
    ensures ParseNamed(name, SkipWs(gap + "" + behind + x)) == ParseRest(name, [], x)
  {
    hide ParseRest, SkipWs;
    assert gap + "" + behind + x == (gap + behind) + x;
    WhiteSkipped(gap + behind, x);
  }

  lemma {:induction false} WithItemsRead(name: string, gap: string, items: seq<Item>, behind: string, x: string)
    requires IsWhite(gap) && GoodItems(items) && IsWhite(behind) && x != "" && IsSign(x[0])
    ensures ParseNamed(name, SkipWs(gap + ("[" + (ItemsText(items) + "]")) + behind + x)) ==
            ParseRest(name, Meant(items), x)
  {
    hide ParseRest, SkipWs, ParseAttrs, GoodItems, Meant, ItemsText;
    var s := "[" + (ItemsText(items) + ("]" + (behind + x)));
    Bracketed(gap, ItemsText(items), behind, x);
    WhiteSkipped(gap, s);
    assert s[1..] == ItemsText(items) + ("]" + (behind + x));
    ItemsRead(items, behind + x);
    WhiteSkipped(behind, x);
  }

  lemma Bracketed(gap: string, list: string, behind: string, x: string)
    ensures gap + ("[" + (list + "]")) + behind + x == gap + ("[" + (list + ("]" + (behind + x))))
  {
    Seqs.Assoc4(gap, "[" + (list + "]"), behind, x);
    Seqs.Assoc("[", list + "]", behind + x);
    Seqs.Assoc(list, "]", behind + x);
  }

  // ---- what the lines do ---------------------------------------------------------------------

  /** A value as it stands on a line. */
  ghost predicate GoodValue(before: string, v: string, behind: string)
  {
    IsWhite(before) && IsWhite(behind) && Trimmed(v) && '\n' !in v
  }

  lemma ValueOnLine(f: Front, sign: string, before: string, v: string, behind: string)
    requires GoodFront(f) && GoodValue(before, v, behind) && '\n' !in sign
    ensures '\n' !in FrontText(f) + (sign + (before + v + behind))
    ensures Strip(before + v + behind) == v
  {
    OneLineFront(f);
    StripExactly(before, v, behind);
    assert '\n' !in before && '\n' !in behind;
  }

  /** `name = value`: the value without the white space around it, and no link. */
  lemma {:induction false} AssignmentRead(t: Tree, p: Path, f: Front, before: string, v: string, behind: string,
                                          x: string, strict: bool, fuel: nat)
    requires Has(t, p) && GoodFront(f) && GoodValue(before, v, behind)
    ensures var r := SetValue(t, p, f.name, Data(Some(v), false, Given(f)), fuel);
      (r.Done? ==> Has(r.tree, p)) &&
      ReadText(t, p, FrontText(f) + ("=" + (before + v + behind)) + "\n" + x, strict, fuel)
        == Then(r, p, x, strict, fuel)
  {
    hide ReadText, SetValue, ParseLine, GoodFront, Strip;
    var body := before + v + behind;
    ValueOnLine(f, "=", before, v, behind);
    FrontRead(f, "=" + body);
    assert ("=" + body)[1..] == body;
    SettingLine(t, p, FrontText(f) + ("=" + body), x, strict, fuel);
  }

  /** `name : target` makes a link. */
  lemma {:induction false} LinkRead(t: Tree, p: Path, f: Front, before: string, v: string, behind: string,
                                    x: string, strict: bool, fuel: nat)
    requires Has(t, p) && GoodFront(f) && GoodValue(before, v, behind) && (before == "" && v != "" ==> v[0] != '=')
    ensures var r := SetValue(t, p, f.name, Data(Some(v), true, Given(f)), fuel);
      (r.Done? ==> Has(r.tree, p)) &&
      ReadText(t, p, FrontText(f) + (":" + (before + v + behind)) + "\n" + x, strict, fuel)
        == Then(r, p, x, strict, fuel)
  {
    hide ReadText, SetValue, ParseLine, GoodFront, Strip;
    var body := before + v + behind;
    ValueOnLine(f, ":", before, v, behind);
    FrontRead(f, ":" + body);
    NoCopySign(before, v, behind);
    assert (":" + body)[1..] == body;
    SettingLine(t, p, FrontText(f) + (":" + body), x, strict, fuel);
  }

  lemma NoCopySign(before: string, v: string, behind: string)
    requires GoodValue(before, v, behind) && (before == "" && v != "" ==> v[0] != '=')
    ensures !(":=" <= ":" + (before + v + behind))
  {
    var s := ":" + (before + v + behind);
    if |s| > 1 {
      assert s[1] == if before != "" then before[0] else if v != "" then v[0] else behind[0];
      HdfLine.NotCopy(s);
    }
  }

  /** `name := source` takes over the value that a lookup from the top finds, or the empty text. */
  lemma {:induction false} CopyRead(t: Tree, p: Path, f: Front, before: string, v: string, behind: string,
                                    x: string, strict: bool, fuel: nat)
    requires Has(t, p) && GoodFront(f) && GoodValue(before, v, behind) && !Walk(t, [], v, fuel).Stuck?
    ensures var found := GetValue(t, [], v, fuel);
      var r := SetValue(t, p, f.name, Data(Some(if found.Some? then found.value else ""), false, Given(f)), fuel);
      (r.Done? ==> Has(r.tree, p)) &&
      ReadText(t, p, FrontText(f) + (":=" + (before + v + behind)) + "\n" + x, strict, fuel)
        == Then(r, p, x, strict, fuel)
  {
    hide ReadText, SetValue, ParseLine, GoodFront, Strip, Walk;
    var body := before + v + behind;
    ValueOnLine(f, ":=", before, v, behind);
    FrontRead(f, ":=" + body);
    assert (":=" + body)[2..] == body && ":=" <= ":=" + body;
    SettingLine(t, p, FrontText(f) + (":=" + body), x, strict, fuel);
  }

  /** `name << TERM`, the text, and a line with the terminator. */
  lemma {:induction false} TextRead(t: Tree, p: Path, f: Front, before: string, term: string, behind: string,
                                    text: string, x: string, strict: bool, fuel: nat)
    requires Has(t, p) && GoodFront(f) && GoodValue(before, term, behind) && term != "" && |term| <= 126
    requires EndsLine(text) && Uncut(text, term)
    ensures var r := SetValue(t, p, f.name, Data(Some(text), false, Given(f)), fuel);
      (r.Done? ==> Has(r.tree, p)) &&
      ReadText(t, p, FrontText(f) + ("<<" + (before + term + behind)) + "\n" + (text + term + "\n" + x), strict, fuel)
        == Then(r, p, x, strict, fuel)
  {
    hide ReadText, SetValue, ParseLine, GoodFront, Strip, ReadBody, Uncut;
    var body := before + term + behind;
    ValueOnLine(f, "<<", before, term, behind);
    FrontRead(f, "<<" + body);
    assert ("<<" + body)[2..] == body && "<<" <= "<<" + body && !(":=" <= "<<" + body);
    ReadBodyInverse(text, term, x);
    SettingLine(t, p, FrontText(f) + ("<<" + body), text + term + "\n" + x, strict, fuel);
  }

  /** `name {`: a node that is not there is made without a value; one that is there keeps its value
      and takes the attributes. Whatever stands behind the brace is not looked at. */
  lemma {:induction false} BlockRead(t: Tree, p: Path, f: Front, junk: string, x: string, t1: Tree, q: Path,
                                     strict: bool, fuel: nat)
    requires Has(t, p) && GoodFront(f) && '\n' !in junk
    requires match Walk(t, p, f.name, fuel)
      case Missing => SetValue(t, p, f.name, Data(None, false, Given(f)), fuel) == Done(t1, q)
      case Found(at) =>
        SetValue(t, at, "", Data(Get(t, at).value.data.value, false, Given(f)), fuel) == Done(t1, q)
      case Stuck => false
    ensures Has(t1, p) && Has(t1, q)
    ensures var inner := ReadText(t1, q, x, strict, fuel);
      (inner.Read? ==> Has(inner.tree, p)) &&
      ReadText(t, p, FrontText(f) + ("{" + junk) + "\n" + x, strict, fuel) == AfterBlock(inner, p, strict, fuel)
  {
    hide ReadText, SetValue, Walk, ParseLine, GoodFront, AfterBlock;
    OneLineFront(f);
    FrontRead(f, "{" + junk);
    OpeningLine(t, p, FrontText(f) + ("{" + junk), x, t1, q, strict, fuel);
  }

  /** An attribute given in front of a block to a node that is there: afterwards a lookup of the key
      finds it, every other key finds what it found, and value, link flag and children stay. */
  lemma {:induction false} BlockAttribute(t: Tree, p: Path, f: Front, item: Item, w: string, x: string, strict: bool,
                                          fuel: nat)
    requires Has(t, p) && GoodFront(f) && f.items == Some([item]) && IsWhite(w) && Walk(t, p, f.name, fuel).Found?
    ensures var q := Walk(t, p, f.name, fuel).path;
      exists t1 :: Has(t1, p) && Has(t1, q) &&
        ReadText(t, p, FrontText(f) + "{" + "\n" + (w + "}" + "\n" + x), strict, fuel) ==
          ReadText(t1, p, x, strict, fuel) &&
        AttributeGiven(t, t1, q, item.key, if item.Bare? then "" else item.value)
  {
    hide ReadText, SetValue, Walk, SetThere;
    var q := Walk(t, p, f.name, fuel).path;
    var d := Data(Get(t, q).value.data.value, false, Given(f));
    SelfDone(t, q, d, fuel);
    var t1 := SetSelf(t, q, d);
    BlockRead(t, p, f, "", w + "}" + "\n" + x, t1, q, strict, fuel);
    assert FrontText(f) + ("{" + "") == FrontText(f) + "{";
    BraceCloses(t1, q, w, "", x, strict, fuel);
    assert w + ("}" + "") == w + "}";
    SetAnyExactly(t, q, "", d, fuel, q);
    forall y
      ensures y != q ==> Shallow(t1, y) == Shallow(t, y)
    {
      SetAnyExactly(t, q, "", d, fuel, y);
    }
    GivenOne(t, t1, q, d, item.key, if item.Bare? then "" else item.value);
  }

  lemma SelfDone(t: Tree, q: Path, d: Data, fuel: nat)
    requires Has(t, q)
    ensures SetValue(t, q, "", d, fuel) == Done(SetSelf(t, q, d), q)
  {
  }

  /** Only the attributes of one node have changed, and of these only the one of that key. */
  ghost predicate AttributeGiven(t: Tree, t1: Tree, q: Path, key: string, value: string)
    requires Has(t, q)
  {
    && Has(t1, q) && NamesAt(t1, q) == NamesAt(t, q)
    && (forall y :: y != q ==> Shallow(t1, y) == Shallow(t, y))
    && var before, after := Get(t, q).value.data, Get(t1, q).value.data;
       && after.value == before.value && after.link == before.link
       && ValueOf(after.attrs, key) == Some(value)
       && forall other :: other != key ==> ValueOf(after.attrs, other) == ValueOf(before.attrs, other)
  }

  lemma GivenOne(t: Tree, t1: Tree, q: Path, d: Data, key: string, value: string)
    requires Has(t, q) && SetThere(t, t1, q, true, d) && d.attrs == [Attr(key, value)]
    requires d.value == Get(t, q).value.data.value
    requires forall y :: y != q ==> Shallow(t1, y) == Shallow(t, y)
    ensures AttributeGiven(t, t1, q, key, value)
  {
    OneTaken(Get(t, q).value.data.attrs, Attr(key, value), Get(t1, q).value.data.attrs);
  }

  /** A name without a sign behind it is refused. */
  lemma {:induction false} NothingMeant(t: Tree, p: Path, indent: string, name: string, x: string, strict: bool,
                                        fuel: nat)
    requires Has(t, p) && IsWhite(indent) && IsLabel(name)
    ensures ReadText(t, p, indent + name + "\n" + x, strict, fuel) == Failed(t)
  {
    hide ReadText;
    assert '\n' !in name by {
      assert forall i :: 0 <= i < |name| ==> IsNameChar(name[i]);
    }
    NameAlone(indent, name);
    PassedLine(t, p, indent + name, x, strict, fuel);
  }

  lemma {:induction false} NameAlone(indent: string, name: string)
    requires IsWhite(indent) && IsLabel(name)
    ensures ParseLine(indent + name) == Bad
  {
    hide SkipWs, NameLen, ParseLine, ParseNamed;
    WhiteSkipped(indent, name);
    WhiteSkipped("", "");
    Seqs.Empty("");
    NameRun(name, "");
    Seqs.Empty(name);
    Seqs.Whole(name);
    assert name[..|name|] == name;
    NamedLine(indent + name, name);
    NothingNamed(name);
  }

  lemma NothingNamed(name: string)
    ensures ParseNamed(name, "") == Bad
  {
  }

  /** An attribute list that begins with no key, or that the line ends in, is refused. */
  lemma {:induction false} ListRefused(t: Tree, p: Path, f: Front, list: string, x: string, strict: bool, fuel: nat)
    requires Has(t, p) && GoodFront(f) && f.items.None? && f.behind == "" && '\n' !in list
    requires list == "" || (!IsAlnum(list[0]) && list[0] != ']') || forall i :: 0 <= i < |list| ==> IsAlnum(list[i])
    ensures ReadText(t, p, FrontText(f) + ("[" + list) + "\n" + x, strict, fuel) == Failed(t)
  {
    hide ReadText, GoodFront, ParseLine;
    OneLineFront(f);
    ListBad(f, list);
    PassedLine(t, p, FrontText(f) + ("[" + list), x, strict, fuel);
  }

  lemma {:induction false} ListBad(f: Front, list: string)
    requires GoodFront(f) && f.items.None? && f.behind == ""
    requires list == "" || (!IsAlnum(list[0]) && list[0] != ']') || forall i :: 0 <= i < |list| ==> IsAlnum(list[i])
    ensures ParseLine(FrontText(f) + ("[" + list)) == Bad
  {
    hide ParseLine, SkipWs, ParseAttrs, GoodFront;
    var x := "[" + list;
    FrontNamed(f, x);
    GapBefore(f, x);
    WhiteSkipped(f.gap, x);
    assert x[1..] == list;
    NoList(list);
  }

  lemma GapBefore(f: Front, x: string)
    requires GoodFront(f) && f.items.None? && f.behind == ""
    ensures IsWhite(f.gap) && f.gap + AttrsOf(f) + f.behind + x == f.gap + x
  {
    assert f.gap + AttrsOf(f) + f.behind == f.gap;
  }

  lemma NoList(list: string)
    requires list == "" || (!IsAlnum(list[0]) && list[0] != ']') || forall i :: 0 <= i < |list| ==> IsAlnum(list[i])
    ensures ParseAttrs(list) == None
  {
  }

  /** A backslash and what it stands for, in front of quoted text. */
  lemma {:induction false} EscapeTaken(e: string, s: string, c: char, q: Text)
    requires e != "" && Unescape(e + s) == Char1(c, s) && Quoted(s) == Some(q)
    ensures Quoted("\\" + (e + s)) == Some(Text([c] + q.text, q.rest))
  {
    hide Unescape;
    var all := "\\" + (e + s);
    assert all[0] == '\\' && all[1..] == e + s;
  }

  /** Octal escapes of one and two digits. */
  lemma {:induction false} OctalRead(x: char, y: char, s: string, q: Text)
    requires IsDigit(x) && IsDigit(y) && Quoted(s) == Some(q) && (s != "" ==> !IsDigit(s[0]))
    ensures Quoted("\\" + ([x] + s)) == Some(Text([(x as int - 48) as char] + q.text, q.rest))
    ensures Quoted("\\" + ([x, y] + s)) == Some(Text([(8 * (x as int - 48) + y as int - 48) as char] + q.text, q.rest))
  {
    hide Quoted;
    var one, two := [x] + s, [x, y] + s;
    assert one[1..] == s && two[2..] == s && (s != "" ==> one[1] == s[0] && two[2] == s[0]);
    EscapeTaken([x], s, (x as int - 48) as char, q);
    EscapeTaken([x, y], s, (8 * (x as int - 48) + y as int - 48) as char, q);
  }

  /** Three digits are as many as an escape takes, and what they stand for is cut to a byte. */
  lemma {:induction false} ThreeDigitsRead(x: char, y: char, z: char, s: string, q: Text)
    requires IsDigit(x) && IsDigit(y) && IsDigit(z) && Quoted(s) == Some(q)
    ensures var n := 64 * (x as int - 48) + 8 * (y as int - 48) + (z as int - 48);
      Quoted("\\" + ([x, y, z] + s)) ==
        Some(Text([(if n < 256 then n else if n < 512 then n - 256 else n - 512) as char] + q.text, q.rest))
  {
    hide Quoted;
    var all, n := [x, y, z] + s, 64 * (x as int - 48) + 8 * (y as int - 48) + (z as int - 48);
    assert all[3..] == s && all[1] == y && all[2] == z;
    EscapeTaken([x, y, z], s, (n % 256) as char, q);
  }

  /** A backslash in front of any other character but `n`, `t` and `r` stands for that character. */
  lemma {:induction false} OtherRead(c: char, s: string, q: Text)
    requires !IsDigit(c) && c != 'n' && c != 't' && c != 'r' && Quoted(s) == Some(q)
    ensures Quoted("\\" + ([c] + s)) == Some(Text([c] + q.text, q.rest))
  {
    hide Quoted;
    assert ([c] + s)[1..] == s;
    EscapeTaken([c], s, c, q);
  }
}
