/** What is read off a modeline that has been written out: attributes, colons, and the timing with
    a quoted name, at least nine numbers and the option words, with any blanks between them. */
module WrittenModelines {
  import Seqs
  import opened Text
  import opened Tokens
  import opened ModelineReader

  const QUOTE := "\""

  function Quoted(name: string): (r: string)
    ensures |r| == |name| + 2
  {
    QUOTE + name + QUOTE
  }

  /** The timing: `lead` blanks, the quoted name, and each further word with what follows it;
      `gap` is behind the name. */
  function TimingText(lead: string, name: string, gap: string, rest: seq<string>, gaps: seq<string>): string
    requires |gaps| == |rest|
  {
    Rendered(lead, [Quoted(name)] + rest, [gap] + gaps)
  }

  ghost predicate GoodTiming(lead: string, name: string, gap: string, rest: seq<string>, gaps: seq<string>)
  {
    && |rest| >= 9 && |gaps| == |rest|
    && Spaced(lead, [Quoted(name)] + rest, [gap] + gaps, " ")
    && Free(name, ':') && forall i :: 0 <= i < |rest| ==> Free(rest[i], ':')
  }

  /** Attributes, at least one colon, and the timing. */
  ghost predicate GoodHead(attrs: string, colons: string)
  {
    IsWord(attrs, ":") && colons != "" && IsGap(colons, ":")
  }

  /** The same letters, of which the first text may have some in upper case. */
  ghost predicate SameLetters(s: string, word: string)
  {
    |s| == |word| && forall i :: 0 <= i < |s| ==>
      s[i] == word[i] || ('a' <= word[i] <= 'z' && s[i] as int == word[i] as int - 32)
  }

  /** Some option word, whatever its case. */
  ghost predicate Listed(rest: seq<string>, flag: string)
  {
    exists i :: 9 <= i < |rest| && SameLetters(rest[i], flag)
  }

  lemma LowerIs(s: string, word: string)
    requires forall i :: 0 <= i < |word| ==> 'a' <= word[i] <= 'z'
    ensures Lower(s) == word <==> SameLetters(s, word)
  {
    if SameLetters(s, word) {
      assert forall i :: 0 <= i < |s| ==> Lower(s)[i] == word[i];
    }
    if Lower(s) == word {
      forall i | 0 <= i < |s|
        ensures s[i] == word[i] || s[i] as int == word[i] as int - 32
      {
        assert Lower(s)[i] == word[i];
      }
    }
  }

  predicate At(s: string, part: string, k: nat)
  {
    k + |part| <= |s| && s[k..k + |part|] == part
  }

  ghost predicate Occurs(s: string, part: string)
  {
    exists k: nat :: At(s, part, k)
  }

  lemma AtTail(s: string, part: string, k: nat)
    requires s != ""
    ensures At(s[1..], part, k) <==> At(s, part, k + 1)
  {
    if k + 1 + |part| <= |s| {
      assert s[1..][k..k + |part|] == s[k + 1..k + 1 + |part|];
    }
  }

  lemma {:induction false} ContainsIff(s: string, part: string)
    ensures Contains(s, part) <==> Occurs(s, part)
  {
    hide At;
    AtStart(s, part);
    if s != "" {
      ContainsIff(s[1..], part);
      if k: nat :| At(s[1..], part, k) {
        AtTail(s, part, k);
      }
      if k: nat :| At(s, part, k) && k > 0 {
        AtTail(s, part, k - 1);
      }
    } else if k: nat :| At(s, part, k) {
      NowhereElse(part, k);
    }
  }

  lemma AtStart(s: string, part: string)
    ensures At(s, part, 0) <==> |part| <= |s| && s[..|part|] == part
  {
  }

  lemma NowhereElse(part: string, k: nat)
    requires At("", part, k)
    ensures k == 0
  {
  }

  // ---- blanks taken off ---------------------------------------------------------------------------

  lemma {:induction false} TrimLead(blanks: string, s: string)
    requires forall i :: 0 <= i < |blanks| ==> blanks[i] == ' '
    ensures Trim(blanks + s) == Trim(s)
  {
    if blanks == "" {
      assert blanks + s == s;
    } else {
      assert (blanks + s)[0] == blanks[0] && (blanks + s)[1..] == blanks[1..] + s;
      TrimLead(blanks[1..], s);
    }
  }

  lemma {:induction false} TrimBehind(s: string, blanks: string)
    requires forall i :: 0 <= i < |blanks| ==> blanks[i] == ' '
    requires s != "" && s[0] != ' ' && s[|s| - 1] != ' '
    ensures Trim(s + blanks) == s
    decreases |blanks|
  {
    var t := s + blanks;
    assert t[0] == s[0];
    if blanks == "" {
      assert t == s;
    } else {
      assert t[|t| - 1] == blanks[|blanks| - 1] && t[..|t| - 1] == s + blanks[..|blanks| - 1];
      TrimBehind(s, blanks[..|blanks| - 1]);
    }
  }

  /** Exactly the blanks at both ends go. */
  lemma TrimExactly(before: string, core: string, behind: string)
    requires forall i :: 0 <= i < |before| ==> before[i] == ' '
    requires forall i :: 0 <= i < |behind| ==> behind[i] == ' '
    requires core != "" ==> core[0] != ' ' && core[|core| - 1] != ' '
    ensures Trim(before + core + behind) == core
  {
    Seqs.Assoc(before, core, behind);
    TrimLead(before, core + behind);
    if core == "" {
      assert core + behind == behind + "";
      TrimLead(behind, "");
    } else {
      TrimBehind(core, behind);
    }
  }

  lemma {:induction false} TrimKeeps(s: string, c: char)
    requires c != ' '
    ensures c in Trim(s) <==> c in s
    decreases |s|
  {
    if s != "" && s[0] == ' ' {
      TrimKeeps(s[1..], c);
      assert s == [s[0]] + s[1..];
    } else if s != "" && s[|s| - 1] == ' ' {
      TrimKeeps(s[..|s| - 1], c);
      assert s == s[..|s| - 1] + [s[|s| - 1]];
    }
  }

  // ---- the parts ------------------------------------------------------------------------------------

  lemma {:induction false} RenderedFree(lead: string, words: seq<string>, gaps: seq<string>, c: char)
    requires |gaps| == |words| && Free(lead, c)
    requires forall i :: 0 <= i < |words| ==> Free(words[i], c) && Free(gaps[i], c)
    ensures Free(Rendered(lead, words, gaps), c)
    decreases |words|
  {
    if words != [] {
      RenderedFree(gaps[0], words[1..], gaps[1..], c);
    }
  }

  lemma TimingSplit(lead: string, name: string, gap: string, rest: seq<string>, gaps: seq<string>)
    requires |gaps| == |rest|
    ensures TimingText(lead, name, gap, rest, gaps) == lead + Quoted(name) + Rendered(gap, rest, gaps)
  {
    assert ([Quoted(name)] + rest)[1..] == rest && ([gap] + gaps)[1..] == gaps;
  }

  lemma TimingFree(lead: string, name: string, gap: string, rest: seq<string>, gaps: seq<string>)
    requires GoodTiming(lead, name, gap, rest, gaps)
    ensures IsWord(TimingText(lead, name, gap, rest, gaps), ":")
  {
    hide Rendered;
    var words, all := [Quoted(name)] + rest, [gap] + gaps;
    forall i | 0 <= i < |words|
      ensures Free(words[i], ':') && Free(all[i], ':')
    {
      assert IsGap(all[i], " ");
    }
    RenderedFree(lead, words, all, ':');
    TimingSplit(lead, name, gap, rest, gaps);
    assert |Quoted(name)| > 0;
  }

  /** The two parts at the colons, and the words of the timing. */
  lemma PartsRead(attrs: string, colons: string, timing: string)
    requires GoodHead(attrs, colons) && IsWord(timing, ":")
    ensures Words(attrs + colons + timing, ":") == [attrs, timing]
  {
    var words, gaps := [attrs, timing], [colons, ""];
    assert words[1..] == [timing] && gaps[1..] == [""] && [timing][1..] == [] && [""][1..] == [];
    assert Rendered("", [], []) == "";
    assert Rendered(colons, [timing], [""]) == colons + timing + "";
    assert Rendered("", words, gaps) == "" + attrs + (colons + timing + "");
    assert "" + attrs + (colons + timing + "") == attrs + colons + timing;
    WordsOfRendered("", words, gaps, ":");
  }

  /** The text behind the name is all that follows it, if at most one blank stands in front. */
  lemma TextRead(lead: string, name: string, gap: string, rest: seq<string>, gaps: seq<string>)
    requires |gaps| == |rest| && IsGap(lead, " ") && IsGap(gap, " ") && gap != ""
    requires |lead| <= 1
    ensures TextOf(TimingText(lead, name, gap, rest, gaps), Quoted(name)) == Trim(Rendered("", rest, gaps))
  {
    var q, timing := Quoted(name), TimingText(lead, name, gap, rest, gaps);
    TimingSplit(lead, name, gap, rest, gaps);
    GapInFront(gap, rest, gaps);
    var tail := Rendered("", rest, gaps);
    var cut := if lead == "" then gap[1..] else gap;
    assert timing == lead + q + (gap + tail);
    assert timing[|q| + 1..] == cut + tail;
    TrimLead(cut, tail);
  }

  lemma GapInFront(gap: string, rest: seq<string>, gaps: seq<string>)
    requires |gaps| == |rest|
    ensures Rendered(gap, rest, gaps) == gap + Rendered("", rest, gaps)
  {
    if rest == [] {
      Seqs.Empty(gap);
    } else {
      var w, more := rest[0], Rendered(gaps[0], rest[1..], gaps[1..]);
      assert "" + w + more == w + more;
      Seqs.Assoc(gap, w, more);
    }
  }

  /** With more blanks in front the text begins inside the name: its closing quote is in it. */
  lemma TextBlurred(lead: string, name: string, gap: string, rest: seq<string>, gaps: seq<string>)
    requires |gaps| == |rest| && |lead| > 1
    ensures '\"' in TextOf(TimingText(lead, name, gap, rest, gaps), Quoted(name))
  {
    var q, timing := Quoted(name), TimingText(lead, name, gap, rest, gaps);
    TimingSplit(lead, name, gap, rest, gaps);
    var k := |lead| + |q| - 1;
    assert timing[k] == q[|q| - 1] == '\"' && k >= |q| + 1;
    assert timing[|q| + 1..][k - |q| - 1] == timing[k];
    TrimKeeps(timing[|q| + 1..], '\"');
  }

  /** A name has no blank in it. */
  lemma NameTrimmed(lead: string, name: string, gap: string, rest: seq<string>, gaps: seq<string>)
    requires GoodTiming(lead, name, gap, rest, gaps)
    ensures Trim(name) == name
  {
    var words, q := [Quoted(name)] + rest, Quoted(name);
    assert IsWord(words[0], " ") && words[0] == q;
    forall i | 0 <= i < |name|
      ensures name[i] != ' '
    {
      assert q[i + 1] == name[i] && q[i + 1] !in " ";
    }
    TrimExactly("", name, "");
    assert "" + name + "" == name;
  }

  /** Words and gaps end in the last gap, and what is in front of it begins and ends in a word. */
  lemma {:induction false} LastGap(words: seq<string>, gaps: seq<string>) returns (core: string)
    requires words != [] && |gaps| == |words|
    requires forall i :: 0 <= i < |words| ==> IsWord(words[i], " ")
    ensures core + gaps[|gaps| - 1] == Rendered("", words, gaps)
    ensures core != "" && core[0] != ' ' && core[|core| - 1] != ' '
  {
    core := words[0];
    assert core[0] !in " " && core[|core| - 1] !in " ";
    if |words| == 1 {
      assert gaps[1..] == [] && words[1..] == [];
      assert "" + core + gaps[0] == core + gaps[0];
    } else {
      var more := LastGap(words[1..], gaps[1..]);
      GapInFront(gaps[0], words[1..], gaps[1..]);
      var last, tail := gaps[|gaps| - 1], Rendered("", words[1..], gaps[1..]);
      Seqs.Assoc(gaps[0], more, last);
      Seqs.Assoc(core, gaps[0] + more, last);
      assert "" + core + (gaps[0] + tail) == core + (gaps[0] + tail);
      core := core + (gaps[0] + more);
    }
  }

  /** Taking the blanks off takes off the last gap. */
  lemma TextTrimmed(lead: string, name: string, gap: string, rest: seq<string>, gaps: seq<string>)
    requires GoodTiming(lead, name, gap, rest, gaps)
    ensures Trim(Rendered("", rest, gaps)) + gaps[|gaps| - 1] == Rendered("", rest, gaps)
  {
    hide Rendered;
    var words, all, last := [Quoted(name)] + rest, [gap] + gaps, gaps[|gaps| - 1];
    assert forall i :: 0 <= i < |rest| ==> rest[i] == words[i + 1];
    assert last == all[|gaps|] && IsGap(last, " ");
    var core := LastGap(rest, gaps);
    TrimBehind(core, last);
  }

  lemma NameRead(name: string)
    ensures Substr(Quoted(name), 1, |Quoted(name)| - 2) == name
  {
  }

  lemma WordsRead(lead: string, name: string, gap: string, rest: seq<string>, gaps: seq<string>)
    requires GoodTiming(lead, name, gap, rest, gaps)
    ensures Words(TimingText(lead, name, gap, rest, gaps), " ") == [Quoted(name)] + rest
  {
    WordsOfRendered(lead, [Quoted(name)] + rest, [gap] + gaps, " ");
  }

  /** One modeline, however it is spaced: the resolution is the two displayed sizes, the frequency
      is the rate with a letter for each option word that is there, the mode is named by what is
      between the quotes, it is an EDID mode exactly if the attributes say so somewhere, and its
      text is what follows the name exactly if at most one blank stands before the name. */
  lemma WrittenRead(attrs: string, colons: string, lead: string, name: string, gap: string, rest: seq<string>,
    gaps: seq<string>, rate: Rate)
    requires GoodHead(attrs, colons) && GoodTiming(lead, name, gap, rest, gaps)
    ensures var s := attrs + colons + TimingText(lead, name, gap, rest, gaps);
      Complete(s) &&
      var e, i, d := EntryOf(s, rate), Listed(rest, "interlace"), Listed(rest, "doublescan");
      && e.resolution == rest[1] + "x" + rest[5]
      && e.mode.hz == rate(rest[0], rest[4], rest[8], i, d)
      && e.freq == Printed(e.mode.hz) + (if i then "i" else "") + (if d then "d" else "")
      && e.mode.id == name && e.mode.x == rest[1] && e.mode.y == rest[5] && e.mode.clock == rest[..9]
      && e.mode.isedid.Bool? && (e.mode.isedid.value <==> Occurs(attrs, "source=edid"))
      && (e.mode.interlace <==> i) && (e.mode.doublescan <==> d)
      && (|lead| <= 1 ==> e.mode.modeline + gaps[|gaps| - 1] == Rendered("", rest, gaps))
      && (|lead| > 1 && Free(Rendered("", rest, gaps), '\"') ==>
            e.mode.modeline + gaps[|gaps| - 1] != Rendered("", rest, gaps))
  {
    hide Words, Rendered, Contains, Occurs, Trim, Lower, TextOf, TimingText;
    var timing := TimingText(lead, name, gap, rest, gaps);
    var s, tokens := attrs + colons + timing, [Quoted(name)] + rest;
    TimingFree(lead, name, gap, rest, gaps);
    PartsRead(attrs, colons, timing);
    WordsRead(lead, name, gap, rest, gaps);
    ContainsIff(attrs, "source=edid");
    NameRead(name);
    NameTrimmed(lead, name, gap, rest, gaps);
    FlagsRead(name, rest, "interlace");
    FlagsRead(name, rest, "doublescan");
    assert tokens[1..10] == rest[..9];
    GoodGap(lead, name, gap, rest, gaps);
    TextTrimmed(lead, name, gap, rest, gaps);
    var e, last := EntryOf(s, rate), gaps[|gaps| - 1];
    if |lead| <= 1 {
      TextRead(lead, name, gap, rest, gaps);
    } else {
      TextBlurred(lead, name, gap, rest, gaps);
      if e.mode.modeline + last == Rendered("", rest, gaps) {
        assert (e.mode.modeline + last)[..|e.mode.modeline|] == e.mode.modeline;
      }
    }
  }

  lemma GoodGap(lead: string, name: string, gap: string, rest: seq<string>, gaps: seq<string>)
    requires GoodTiming(lead, name, gap, rest, gaps)
    ensures IsGap(lead, " ") && IsGap(gap, " ") && gap != ""
  {
    assert ([gap] + gaps)[0] == gap;
  }

  lemma FlagsRead(name: string, rest: seq<string>, flag: string)
    requires forall i :: 0 <= i < |flag| ==> 'a' <= flag[i] <= 'z'
    ensures Flagged([Quoted(name)] + rest, flag) <==> Listed(rest, flag)
  {
    var tokens := [Quoted(name)] + rest;
    if Listed(rest, flag) {
      var i :| 9 <= i < |rest| && SameLetters(rest[i], flag);
      LowerIs(rest[i], flag);
      assert Lower(tokens[i + 1]) == flag;
    }
    if Flagged(tokens, flag) {
      var i :| 10 <= i < |tokens| && Lower(tokens[i]) == flag;
      LowerIs(rest[i - 1], flag);
      assert SameLetters(rest[i - 1], flag);
    }
  }
}
