/** The file-name pattern matcher of get_file_content.ecpp: a loop that keeps
    only the position of the last star, proved against the recursive meaning
    of a pattern. */
module Wildcard {
  import Seqs

  /** `*` stands for any run of characters, `?` for any one character, and every
      other character for itself. */
  ghost predicate Matches(wild: string, text: string)
    decreases |wild|
  {
    if wild == "" then
      text == ""
    else if wild[0] == '*' then
      exists k: nat :: k <= |text| && Matches(wild[1..], text[k..])
    else
      text != "" && (wild[0] == '?' || wild[0] == text[0]) && Matches(wild[1..], text[1..])
  }

  /** Without a star a pattern matches the texts of its own length that agree with it wherever
      it has no question mark. */
  lemma {:induction false} StarlessMeaning(wild: string, text: string)
    requires forall i :: 0 <= i < |wild| ==> wild[i] != '*'
    ensures Matches(wild, text) <==>
            |text| == |wild| && forall i :: 0 <= i < |wild| ==> wild[i] == '?' || wild[i] == text[i]
  {
    if wild != "" && text != "" {
      StarlessMeaning(wild[1..], text[1..]);
      if |text| == |wild| && forall i :: 0 <= i < |wild| - 1 ==> wild[1..][i] == '?' || wild[1..][i] == text[1..][i] {
        assert forall i :: 1 <= i < |wild| ==> wild[1..][i - 1] == wild[i] && text[1..][i - 1] == text[i];
      }
    }
  }

  /** Characters in front that are no star match first. */
  lemma {:induction false} MatchesInFront(before: string, wild: string, text: string)
    requires forall i :: 0 <= i < |before| ==> before[i] != '*'
    ensures Matches(before + wild, text) <==>
            |before| <= |text| && Matches(before, text[..|before|]) && Matches(wild, text[|before|..])
  {
    var whole := before + wild;
    if before == "" {
      assert whole == wild && text[0..] == text && text[..0] == "";
    } else if text != "" {
      MatchesInFront(before[1..], wild, text[1..]);
      assert whole[0] == before[0] && whole[1..] == before[1..] + wild;
      if |before| <= |text| {
        assert text[1..][..|before| - 1] == text[..|before|][1..] && text[1..][|before| - 1..] == text[|before|..];
      }
    }
  }

  lemma Behind(text: string, n: nat, k: nat)
    requires n <= k <= |text|
    ensures text[n..][k - n..] == text[k..]
  {
  }

  /** Its first star lets a pattern match what its two sides match, with any text between. */
  lemma StarMeaning(before: string, behind: string, text: string)
    requires forall i :: 0 <= i < |before| ==> before[i] != '*'
    ensures Matches(before + "*" + behind, text) <==>
            exists k: nat :: |before| <= k <= |text| && Matches(before, text[..|before|]) && Matches(behind, text[k..])
  {
    var wild, n := "*" + behind, |before|;
    assert before + "*" + behind == before + wild && wild[0] == '*' && wild[1..] == behind;
    MatchesInFront(before, wild, text);
    if n <= |text| {
      var rest := text[n..];
      if Matches(wild, rest) {
        var j: nat :| j <= |rest| && Matches(wild[1..], rest[j..]);
        Behind(text, n, n + j);
      }
      if k: nat :| n <= k <= |text| && Matches(behind, text[k..]) {
        Behind(text, n, k);
      }
    }
  }

  /** Reading a C string: its terminator reads as the character zero. */
  function At(s: string, i: nat): char
  {
    if i < |s| then s[i] else '\0'
  }

  ghost predicate IsCString(s: string)
  {
    forall i :: 0 <= i < |s| ==> s[i] != '\0'
  }

  /** A pattern without a star consumes exactly as many characters as it has. */
  lemma {:induction false} StarlessPrefix(wild: string, text: string, d: nat)
    requires d <= |wild| && forall i :: 0 <= i < d ==> wild[i] != '*'
    ensures Matches(wild, text) ==> d <= |text| && Matches(wild[d..], text[d..])
  {
    if d == 0 {
      assert wild[0..] == wild && text[0..] == text;
    } else if text != "" {
      StarlessPrefix(wild[1..], text[1..], d - 1);
      assert wild[1..][d - 1..] == wild[d..];
      if d <= |text| {
        assert text[1..][d - 1..] == text[d..];
      }
    }
  }

  /** A star that matches a suffix of a text matches the whole text. */
  lemma StarAbsorbs(wild: string, text: string, k: nat)
    requires wild != "" && wild[0] == '*' && k <= |text|
    requires Matches(wild, text[k..])
    ensures Matches(wild, text)
  {
    var j: nat :| j <= |text[k..]| && Matches(wild[1..], text[k..][j..]);
    assert text[k..][j..] == text[k + j..];
  }

  /** Some run of the last star, no shorter than the one ending at `from`, makes the
      pattern behind it match. */
  ghost predicate StarCanReach(wild: string, text: string, from: nat)
  {
    exists k: nat :: from <= k <= |text| && Matches(wild, text[k..])
  }

  /** The loop's whole knowledge once a star has been seen: `mp` is the pattern
      position behind the last star, `cp - 1` the text position being tried for it,
      and the characters tried since then all fitted. */
  ghost predicate Trying(wild: string, text: string, w: nat, s: nat, mp: nat, cp: nat)
  {
    && 1 <= cp <= s + 1 <= |text| + 1
    && mp <= w <= |wild|
    && w - mp == s - (cp - 1)
    && (forall i :: mp <= i < w ==> wild[i] != '*')
    && (forall i :: mp <= i < w ==> wild[i] == '?' || wild[i] == text[cp - 1 + (i - mp)])
    && (Matches(wild, text) <==> StarCanReach(wild[mp..], text, cp - 1))
  }

  /** Every run that can still succeed makes the rest of the pattern match from here on
      or later. */
  lemma ReachMeansRest(wild: string, text: string, w: nat, s: nat, mp: nat, cp: nat, k: nat)
    requires Trying(wild, text, w, s, mp, cp)
    requires cp - 1 <= k <= |text| && Matches(wild[mp..], text[k..])
    ensures k + (w - mp) <= |text| && Matches(wild[w..], text[k + (w - mp)..])
  {
    var d := w - mp;
    StarlessPrefix(wild[mp..], text[k..], d);
    assert wild[mp..][d..] == wild[w..];
    assert text[k..][d..] == text[k + d..];
  }

  /** Conversely, if the rest matches here then so does the run being tried. */
  lemma {:induction false} FittedPrefix(wild: string, text: string, d: nat)
    requires d <= |wild| && d <= |text|
    requires forall i :: 0 <= i < d ==> wild[i] != '*' && (wild[i] == '?' || wild[i] == text[i])
    requires Matches(wild[d..], text[d..])
    ensures Matches(wild, text)
  {
    if d == 0 {
      Seqs.Whole(wild);
      Seqs.Whole(text);
    } else {
      RestOfRest(wild, d);
      RestOfRest(text, d);
      FittedPrefix(wild[1..], text[1..], d - 1);
    }
  }

  lemma RestOfRest(s: string, d: nat)
    requires 1 <= d <= |s|
    ensures s[1..][d - 1..] == s[d..]
  {
  }

  lemma RestMeansReach(wild: string, text: string, w: nat, s: nat, mp: nat, cp: nat)
    requires Trying(wild, text, w, s, mp, cp)
    requires Matches(wild[w..], text[s..])
    ensures Matches(wild, text)
  {
    var d := w - mp;
    assert wild[mp..][d..] == wild[w..];
    assert text[cp - 1..][d..] == text[s..];
    FittedPrefix(wild[mp..], text[cp - 1..], d);
  }

  lemma LaterRunReachesStar(wild: string, text: string, w: nat, s: nat, mp: nat, cp: nat)
    requires Trying(wild, text, w, s, mp, cp)
    requires w < |wild| && wild[w] == '*'
    requires StarCanReach(wild[mp..], text, cp - 1)
    ensures Matches(wild[w..], text[s..])
  {
    var k: nat :| cp - 1 <= k <= |text| && Matches(wild[mp..], text[k..]);
    ReachMeansRest(wild, text, w, s, mp, cp, k);
    var j := k + (w - mp);
    assert text[s..][j - s..] == text[j..];
    StarAbsorbs(wild[w..], text[s..], j - s);
  }

  /** Meeting a further star: only what follows it matters, so the earlier stars may be
      forgotten. */
  lemma LastStarSuffices(wild: string, text: string, w: nat, s: nat, mp: nat, cp: nat)
    requires Trying(wild, text, w, s, mp, cp)
    requires w < |wild| && wild[w] == '*'
    ensures Matches(wild, text) <==> Matches(wild[w..], text[s..])
  {
    if Matches(wild, text) {
      LaterRunReachesStar(wild, text, w, s, mp, cp);
    }
    if Matches(wild[w..], text[s..]) {
      RestMeansReach(wild, text, w, s, mp, cp);
    }
  }

  /** What the two places that meet a star know: the rest decides. */
  lemma StartTrying(wild: string, text: string, w: nat, s: nat)
    requires w < |wild| && wild[w] == '*' && s <= |text|
    requires Matches(wild, text) <==> Matches(wild[w..], text[s..])
    ensures Trying(wild, text, w + 1, s, w + 1, s + 1)
  {
    assert wild[w..][1..] == wild[w + 1..];
    if Matches(wild[w..], text[s..]) {
      var j: nat :| j <= |text[s..]| && Matches(wild[w..][1..], text[s..][j..]);
      assert text[s..][j..] == text[s + j..];
    }
    if StarCanReach(wild[w + 1..], text, s) {
      var k: nat :| s <= k <= |text| && Matches(wild[w + 1..], text[k..]);
      assert text[s..][k - s..] == text[k..];
    }
  }

  /** A star at the very end of the pattern takes whatever is left. */
  lemma FinalStar(wild: string, text: string, s: nat)
    requires wild != "" && wild[|wild| - 1] == '*' && s <= |text|
    ensures Matches(wild[|wild| - 1..], text[s..])
  {
    assert wild[|wild| - 1..][1..] == "";
    assert text[s..][|text| - s..] == "";
  }

  /** A mismatch rules out the run being tried, and only that one. */
  lemma MismatchMovesOn(wild: string, text: string, w: nat, s: nat, mp: nat, cp: nat)
    requires Trying(wild, text, w, s, mp, cp) && s < |text|
    requires w == |wild| || (wild[w] != '*' && wild[w] != '?' && wild[w] != text[s])
    ensures Trying(wild, text, mp, cp, mp, cp + 1)
  {
    if StarCanReach(wild[mp..], text, cp - 1) {
      var k: nat :| cp - 1 <= k <= |text| && Matches(wild[mp..], text[k..]);
      ReachMeansRest(wild, text, w, s, mp, cp, k);
      if k == cp - 1 {
        assert false;
      }
    }
  }

  /** One character of both consumed without a star in sight. */
  lemma FitStep(wild: string, text: string, w: nat, s: nat)
    requires w <= |wild| && s < |text| && At(wild, w) != '*' && IsCString(text)
    ensures At(wild, w) == text[s] || At(wild, w) == '?' ==>
      w < |wild| && (Matches(wild[w..], text[s..]) <==> Matches(wild[w + 1..], text[s + 1..]))
    ensures !(At(wild, w) == text[s] || At(wild, w) == '?') ==> !Matches(wild[w..], text[s..])
  {
    if w < |wild| {
      assert wild[w..][1..] == wild[w + 1..];
    }
    assert text[s..][1..] == text[s + 1..];
  }

  /** At the end of the text no other run of the last star can do better. */
  lemma EndOfText(wild: string, text: string, w: nat, mp: nat, cp: nat)
    requires Trying(wild, text, w, |text|, mp, cp)
    ensures Matches(wild, text) <==> Matches(wild[w..], "")
  {
    assert text[|text|..] == "";
    if Matches(wild, text) {
      var k: nat :| cp - 1 <= k <= |text| && Matches(wild[mp..], text[k..]);
      ReachMeansRest(wild, text, w, |text|, mp, cp, k);
    }
    if Matches(wild[w..], "") {
      RestMeansReach(wild, text, w, |text|, mp, cp);
    }
  }

  lemma OnlyStarsMatchEmpty(wild: string, w: nat)
    requires w < |wild| && wild[w] == '*'
    ensures Matches(wild[w..], "") <==> Matches(wild[w + 1..], "")
  {
    assert wild[w..][1..] == wild[w + 1..];
    var empty: string := "";
    assert empty[0..] == empty;
    if Matches(wild[w..], "") {
      var k: nat :| k <= |empty| && Matches(wild[w..][1..], empty[k..]);
    }
  }

  lemma RestOfPattern(wild: string, w: nat)
    requires w <= |wild| && At(wild, w) != '*'
    ensures Matches(wild[w..], "") <==> w == |wild|
  {
  }

  /** One more character fits the run being tried. */
  lemma RunGoesOn(wild: string, text: string, w: nat, s: nat, mp: nat, cp: nat)
    requires Trying(wild, text, w, s, mp, cp) && s < |text| && IsCString(text)
    requires At(wild, w) != '*' && (At(wild, w) == text[s] || At(wild, w) == '?')
    ensures w < |wild| && Trying(wild, text, w + 1, s + 1, mp, cp)
  {
    assert cp - 1 + (w - mp) == s;
  }

  lemma TryingBounds(wild: string, text: string, w: nat, s: nat, mp: nat, cp: nat)
    requires Trying(wild, text, w, s, mp, cp)
    ensures 1 <= cp <= s + 1 <= |text| + 1 && mp <= w <= |wild|
  {
  }

  /** The matcher decides the recursive meaning for every pattern and text, though it
      only ever returns to the last star; the run of that star never shrinks, which is
      why it terminates. */
  method Wildcmp(wild: string, text: string) returns (r: int)
    requires IsCString(wild) && IsCString(text)
    ensures r != 0 <==> Matches(wild, text)
  {
    hide Matches, Trying, IsCString;
    Seqs.Whole(wild);
    Seqs.Whole(text);
    var w, s := 0, 0;
    while s < |text| && At(wild, w) != '*'
      invariant w <= |wild| && s <= |text|
      invariant Matches(wild, text) <==> Matches(wild[w..], text[s..])
    {
      FitStep(wild, text, w, s);
      if At(wild, w) != text[s] && At(wild, w) != '?' {
        return 0;
      }
      w, s := w + 1, s + 1;
    }
    var cp, mp := 0, 0;          // zero stands for the null pointer in cp
    while s < |text|
      invariant w <= |wild| && s <= |text|
      invariant cp == 0 ==> (Matches(wild, text) <==> Matches(wild[w..], text[s..]))
      invariant cp == 0 && s < |text| ==> At(wild, w) == '*'
      invariant cp != 0 ==> Trying(wild, text, w, s, mp, cp)
      decreases |text| + 1 - cp, |wild| - w
    {
      if cp != 0 {
        TryingBounds(wild, text, w, s, mp, cp);
      }
      if At(wild, w) == '*' {
        if cp != 0 {
          LastStarSuffices(wild, text, w, s, mp, cp);
        }
        StartTrying(wild, text, w, s);
        w := w + 1;
        if w == |wild| {
          FinalStar(wild, text, s);
          return 1;
        }
        mp, cp := w, s + 1;
      } else if At(wild, w) == text[s] || At(wild, w) == '?' {
        RunGoesOn(wild, text, w, s, mp, cp);
        w, s := w + 1, s + 1;
      } else {
        MismatchMovesOn(wild, text, w, s, mp, cp);
        w, s, cp := mp, cp, cp + 1;
      }
    }
    if cp != 0 {
      EndOfText(wild, text, w, mp, cp);
    }
    while At(wild, w) == '*'
      invariant w <= |wild|
      invariant Matches(wild, text) <==> Matches(wild[w..], "")
      decreases |wild| - w
    {
      OnlyStarsMatchEmpty(wild, w);
      w := w + 1;
    }
    RestOfPattern(wild, w);
    r := if w == |wild| then 1 else 0;
  }
}
