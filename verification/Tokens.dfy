/** `Tokenize` of get_x11.ecpp: the words between delimiters. */
module Tokens {
  import Seqs
  import opened Options

  /** `find_first_of` from a position on; `None` is npos. */
  function FirstOf(s: string, delimiters: string, from: Option<nat>): (r: Option<nat>)
    ensures r.Some? ==> from.Some? && from.value <= r.value < |s| && s[r.value] in delimiters
    ensures from.Some? ==> forall j :: from.value <= j < (if r.Some? then r.value else |s|) ==> s[j] !in delimiters
    decreases |s| - (if from.Some? then from.value else |s|)
  {
    if from.None? || from.value >= |s| then None
    else if s[from.value] in delimiters then from
    else FirstOf(s, delimiters, Some(from.value + 1))
  }

  /** `find_first_not_of` from a position on. */
  function FirstNotOf(s: string, delimiters: string, from: Option<nat>): (r: Option<nat>)
    ensures r.Some? ==> from.Some? && from.value <= r.value < |s| && s[r.value] !in delimiters
    ensures from.Some? ==> forall j :: from.value <= j < (if r.Some? then r.value else |s|) ==> s[j] in delimiters
    decreases |s| - (if from.Some? then from.value else |s|)
  {
    if from.None? || from.value >= |s| then None
    else if s[from.value] !in delimiters then from
    else FirstNotOf(s, delimiters, Some(from.value + 1))
  }

  predicate IsWord(w: string, delimiters: string)
  {
    w != "" && forall i :: 0 <= i < |w| ==> w[i] !in delimiters
  }

  predicate IsGap(g: string, delimiters: string)
  {
    forall i :: 0 <= i < |g| ==> g[i] in delimiters
  }

  /** Some delimiters, then each word with what follows it: at least one delimiter between two
      words, and any number, or none, behind the last. */
  function Rendered(lead: string, words: seq<string>, gaps: seq<string>): string
    requires |gaps| == |words|
    decreases |words|
  {
    if words == [] then lead else lead + words[0] + Rendered(gaps[0], words[1..], gaps[1..])
  }

  ghost predicate Spaced(lead: string, words: seq<string>, gaps: seq<string>, delimiters: string)
  {
    && |gaps| == |words| && IsGap(lead, delimiters)
    && forall i :: 0 <= i < |words| ==>
         IsWord(words[i], delimiters) && IsGap(gaps[i], delimiters) && (i + 1 < |words| ==> gaps[i] != "")
  }

  /** The words from a position where one starts. */
  function WordsAt(s: string, delimiters: string, start: Option<nat>): (r: seq<string>)
    requires start.Some? ==> start.value < |s| && s[start.value] !in delimiters
    decreases |s| - (if start.Some? then start.value else |s|)
  {
    if start.None? then []
    else
      var end := FirstOf(s, delimiters, start);
      if end.None? then [s[start.value..]]
      else [s[start.value..end.value]] + WordsAt(s, delimiters, FirstNotOf(s, delimiters, end))
  }

  /** The words of a text. */
  function Words(s: string, delimiters: string): seq<string>
  {
    WordsAt(s, delimiters, FirstNotOf(s, delimiters, Some(0)))
  }

  lemma FirstNotAt(s: string, delimiters: string, from: nat, i: nat)
    requires from <= i <= |s| && (forall j :: from <= j < i ==> s[j] in delimiters)
    requires i < |s| ==> s[i] !in delimiters
    ensures FirstNotOf(s, delimiters, Some(from)) == if i == |s| then None else Some(i)
  {
  }

  lemma FirstAt(s: string, delimiters: string, from: nat, i: nat)
    requires from <= i <= |s| && (forall j :: from <= j < i ==> s[j] !in delimiters)
    requires i < |s| ==> s[i] in delimiters
    ensures FirstOf(s, delimiters, Some(from)) == if i == |s| then None else Some(i)
  {
  }

  lemma Inside(before: string, w: string, rest: string)
    ensures var s := before + w + rest;
      s[|before|..|before| + |w|] == w && s[|before| + |w|..] == rest &&
      (forall j :: |before| <= j < |before| + |w| ==> s[j] == w[j - |before|]) &&
      (rest != "" ==> s[|before| + |w|] == rest[0])
  {
  }

  /** A gap is passed over. */
  lemma GapSkipped(before: string, gap: string, rest: string, delimiters: string)
    requires IsGap(gap, delimiters) && (rest != "" ==> rest[0] !in delimiters)
    ensures var s := before + gap + rest;
      FirstNotOf(s, delimiters, Some(|before|)) == if rest == "" then None else Some(|before| + |gap|)
  {
    Inside(before, gap, rest);
    FirstNotAt(before + gap + rest, delimiters, |before|, |before| + |gap|);
  }

  /** A word is passed over. */
  lemma WordTaken(before: string, w: string, rest: string, delimiters: string)
    requires IsWord(w, delimiters) && (rest != "" ==> rest[0] in delimiters)
    ensures var s := before + w + rest;
      FirstOf(s, delimiters, Some(|before|)) == if rest == "" then None else Some(|before| + |w|)
  {
    Inside(before, w, rest);
    FirstAt(before + w + rest, delimiters, |before|, |before| + |w|);
  }

  lemma StartsWithGap(lead: string, words: seq<string>, gaps: seq<string>, delimiters: string)
    requires Spaced(lead, words, gaps, delimiters) && (words != [] ==> lead != "")
    ensures var s := Rendered(lead, words, gaps); (s != "" ==> s[0] in delimiters) && (s == "" ==> words == [])
  {
  }

  lemma WordThen(before: string, w: string, rest: string, delimiters: string)
    requires IsWord(w, delimiters) && (rest != "" ==> rest[0] in delimiters)
    ensures var s, at := before + w + rest, |before|;
      s[at] !in delimiters &&
      WordsAt(s, delimiters, Some(at)) ==
        [w] + (if rest == "" then [] else WordsAt(s, delimiters, FirstNotOf(s, delimiters, Some(at + |w|))))
  {
    hide FirstOf, FirstNotOf;
    Inside(before, w, rest);
    WordTaken(before, w, rest, delimiters);
    var s := before + w + rest;
    assert s[|before|] == w[0];
    if rest == "" {
      assert s[|before|..] == s[|before|..|before| + |w|];
    }
  }

  lemma SpacedRest(lead: string, words: seq<string>, gaps: seq<string>, delimiters: string)
    requires Spaced(lead, words, gaps, delimiters) && words != []
    ensures IsGap(lead, delimiters) && IsWord(words[0], delimiters)
    ensures Spaced(gaps[0], words[1..], gaps[1..], delimiters) && (words[1..] != [] ==> gaps[0] != "")
    ensures Rendered(lead, words, gaps) == lead + words[0] + Rendered(gaps[0], words[1..], gaps[1..])
  {
  }

  lemma HeadOf(w: string, rest: string, delimiters: string)
    requires IsWord(w, delimiters)
    ensures w + rest != "" && (w + rest)[0] !in delimiters
  {
    assert (w + rest)[0] == w[0];
  }

  /** Taking the words out of any text made of words and gaps gives exactly those words. */
  lemma {:induction false} WordsBehind(before: string, lead: string, words: seq<string>, gaps: seq<string>,
                                       delimiters: string)
    requires Spaced(lead, words, gaps, delimiters)
    ensures var s := before + Rendered(lead, words, gaps);
      WordsAt(s, delimiters, FirstNotOf(s, delimiters, Some(|before|))) == words
    decreases |words|, 1
  {
    if words == [] {
      GapSkipped(before, lead, "", delimiters);
      assert before + lead + "" == before + lead;
    } else {
      WordsBehindOne(before, lead, words, gaps, delimiters);
    }
  }

  lemma {:induction false} WordsBehindOne(before: string, lead: string, words: seq<string>, gaps: seq<string>,
                                       delimiters: string)
    requires |gaps| == |words| != 0 && Spaced(lead, words, gaps, delimiters)
    ensures var s := before + Rendered(lead, words, gaps);
      WordsAt(s, delimiters, FirstNotOf(s, delimiters, Some(|before|))) == words
    decreases |words|, 0
  {
    hide FirstOf, FirstNotOf, WordsAt, Rendered, Spaced, IsWord, IsGap;
    SpacedRest(lead, words, gaps, delimiters);
    var w := words[0];
    var rest := Rendered(gaps[0], words[1..], gaps[1..]);
    StartsWithGap(gaps[0], words[1..], gaps[1..], delimiters);
    Seqs.Assoc4(before, lead, w, rest);
    HeadOf(w, rest, delimiters);
    GapSkipped(before, lead, w + rest, delimiters);
    WordThen(before + lead, w, rest, delimiters);
    Seqs.HeadTail(words);
    WordsBehind(before + lead + w, gaps[0], words[1..], gaps[1..], delimiters);
  }

  lemma WordsOfRendered(lead: string, words: seq<string>, gaps: seq<string>, delimiters: string)
    requires Spaced(lead, words, gaps, delimiters)
    ensures Words(Rendered(lead, words, gaps), delimiters) == words
  {
    WordsBehind("", lead, words, gaps, delimiters);
    assert "" + Rendered(lead, words, gaps) == Rendered(lead, words, gaps);
  }

  /** `Tokenize`: both positions run until neither finds anything more. */
  method Tokenize(str: string, delimiters: string) returns (tokens: seq<string>)
    ensures tokens == Words(str, delimiters)
  {
    hide FirstOf, FirstNotOf;
    ghost var goal := Words(str, delimiters);
    Seqs.Empty(goal);
    tokens := [];
    var lastPos := FirstNotOf(str, delimiters, Some(0));
    var pos := FirstOf(str, delimiters, lastPos);
    while pos.Some? || lastPos.Some?
      invariant pos == FirstOf(str, delimiters, lastPos)
      invariant lastPos.Some? ==> lastPos.value < |str| && str[lastPos.value] !in delimiters
      invariant tokens + WordsAt(str, delimiters, lastPos) == goal
      decreases |str| - (if lastPos.Some? then lastPos.value else |str|)
    {
      var token := if pos.Some? then str[lastPos.value..pos.value] else str[lastPos.value..];
      ghost var next := FirstNotOf(str, delimiters, pos);
      Seqs.Assoc(tokens, [token], WordsAt(str, delimiters, next));
      tokens := tokens + [token];
      lastPos := FirstNotOf(str, delimiters, pos);
      pos := FirstOf(str, delimiters, lastPos);
    }
    Seqs.Empty(tokens);
  }
}
