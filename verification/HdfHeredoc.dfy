/** Multi-line values: the reader's buffer, filled piece by piece, and why its limits do not
    show in the result. */
module HdfHeredoc {
  import Seqs
  import opened HdfLex

  /** `_copy_line`: up to and including the newline, but at most `n` characters. */
  function CopyLine(s: string, n: nat): (r: string)
    ensures |r| <= n && r <= s
    ensures r == "" ==> s == "" || n == 0
    ensures forall i :: 0 <= i < |r| - 1 ==> r[i] != '\n'
    ensures |r| == n || |r| == |s| || (r != "" && r[|r| - 1] == '\n')
  {
    if s == "" || n == 0 then ""
    else if s[0] == '\n' then "\n"
    else [s[0]] + CopyLine(s[1..], n - 1)
  }

  /** The reader's test for the closing line. */
  predicate Closes(term: string, piece: string)
  {
    term <= piece && |term| < |piece| && IsSpace(piece[|term|])
  }

  datatype Body = Body(text: string, rest: string)

  const CHUNK: nat := 128

  /** The size of the buffer after a piece has been kept. */
  function Grown(mmax: nat, msize: nat, l: nat): (r: nat)
    ensures r >= mmax
  {
    if msize + l + 10 > mmax then mmax + CHUNK else mmax
  }

  /** The loop over the pieces: `acc` is what the buffer of size `mmax` holds so far. */
  function Collect(s: string, term: string, acc: string, mmax: nat): (r: Body)
    requires term != "" && |acc| + 2 <= mmax
    ensures |r.rest| <= |s| && acc <= r.text
    decreases |s|
  {
    var piece := CopyLine(s, mmax - |acc| - 1);
    if piece == "" then Body(acc, s)
    else if Closes(term, piece) then Body(acc, s[|piece|..])
    else Collect(s[|piece|..], term, acc + piece, Grown(mmax, |acc + piece|, |term|))
  }

  /** A multi-line value and what stands behind its closing line. */
  function ReadBody(s: string, term: string): (r: Body)
    requires term != ""
    ensures |r.rest| <= |s|
  {
    Collect(s, term, "", CHUNK)
  }

  /** The terminator stands there with white space behind it. */
  predicate StrayAt(text: string, term: string, i: nat)
  {
    i + |term| < |text| && text[i..i + |term|] == term && IsSpace(text[i + |term|])
  }

  /** Where the pieces of a text begin, once the buffer of size `mmax` holds the text before `at`. */
  function Starts(text: string, term: string, at: nat, mmax: nat): seq<nat>
    requires term != "" && at <= |text| && at + 2 <= mmax
    decreases |text| - at
  {
    if at == |text| then []
    else
      var next := at + |CopyLine(text[at..], mmax - at - 1)|;
      [at] + Starts(text, term, next, Grown(mmax, next, |term|))
  }

  predicate NoneStray(text: string, term: string, starts: seq<nat>)
  {
    forall i :: 0 <= i < |starts| ==> !StrayAt(text, term, starts[i])
  }

  /** No piece of the text begins with the terminator and white space. */
  predicate Uncut(text: string, term: string)
    requires term != ""
  {
    NoneStray(text, term, Starts(text, term, 0, CHUNK))
  }

  ghost predicate AtLineStart(text: string, p: nat)
  {
    p < |text| && (p == 0 || text[p - 1] == '\n')
  }

  /** Pieces begin at every line start, and where a long line fills the buffer. */
  lemma {:induction false} StartsAre(text: string, term: string, at: nat, mmax: nat, p: nat)
    requires term != "" && at <= |text| && at + 2 <= mmax && mmax % CHUNK == 0
    ensures p in Starts(text, term, at, mmax) ==>
      at <= p < |text| && (p == at || AtLineStart(text, p) || p % CHUNK == CHUNK - 1)
    ensures at <= p && AtLineStart(text, p) ==> p in Starts(text, term, at, mmax)
    decreases |text| - at
  {
    hide Starts, CopyLine;
    if at == |text| {
      NoMoreStarts(text, term, mmax);
    } else {
      StartsUnfolded(text, term, at, mmax);
      var next := at + |CopyLine(text[at..], mmax - at - 1)|;
      PieceEnds(text, at, mmax - at - 1);
      StartsAre(text, term, next, Grown(mmax, next, |term|), p);
      OneOrLater(at, Starts(text, term, next, Grown(mmax, next, |term|)), p);
    }
  }

  lemma NoMoreStarts(text: string, term: string, mmax: nat)
    requires term != "" && |text| + 2 <= mmax
    ensures Starts(text, term, |text|, mmax) == []
  {
  }

  lemma OneOrLater(at: nat, more: seq<nat>, p: nat)
    ensures p in [at] + more <==> p == at || p in more
  {
  }

  lemma PieceEnds(text: string, at: nat, n: nat)
    requires at < |text| && n > 0
    ensures var next := at + |CopyLine(text[at..], n)|;
      && at < next <= |text| && next <= at + n
      && (next < |text| ==> next == at + n || text[next - 1] == '\n')
      && (forall i :: at <= i < next - 1 ==> text[i] != '\n')
  {
    var piece := CopyLine(text[at..], n);
    assert forall i :: 0 <= i < |piece| ==> piece[i] == text[at + i];
  }

  /** A text is cut at a line that begins with the terminator, and nowhere that is neither a line
      start nor the end of a full buffer. */
  lemma UncutLines(text: string, term: string)
    requires term != ""
    ensures Uncut(text, term) ==> forall p: nat :: AtLineStart(text, p) ==> !StrayAt(text, term, p)
    ensures (forall p: nat :: p % CHUNK == CHUNK - 1 || AtLineStart(text, p) ==> !StrayAt(text, term, p)) ==>
      Uncut(text, term)
  {
    hide Starts;
    var starts := Starts(text, term, 0, CHUNK);
    if Uncut(text, term) {
      forall p: nat | AtLineStart(text, p)
        ensures !StrayAt(text, term, p)
      {
        StartsAre(text, term, 0, CHUNK, p);
        var i :| 0 <= i < |starts| && starts[i] == p;
      }
    }
    if forall p: nat :: p % CHUNK == CHUNK - 1 || AtLineStart(text, p) ==> !StrayAt(text, term, p) {
      forall i | 0 <= i < |starts|
        ensures !StrayAt(text, term, starts[i])
      {
        StartsAre(text, term, 0, CHUNK, starts[i]);
      }
    }
  }

  /** Where the buffer fills up: a line that leaves no room for the terminator and ten characters
      more makes it grow, and otherwise the next line is cut at its old end. */
  lemma FillPlaces(line: string, long: string, term: string)
    requires term != "" && '\n' !in line && '\n' !in long && |line| <= 126 && |line| + |long| > 255
    ensures var starts, m := Starts(line + "\n" + long, term, 0, 128), |line| + 1;
      |starts| >= 3 && starts[0] == 0 && starts[1] == m && starts[2] == if m + |term| + 10 <= 128 then 127 else 255
  {
    hide Starts, CopyLine;
    var text, m := line + "\n" + long, |line| + 1;
    var size := if m + |term| + 10 <= 128 then 128 else 256;
    var cut := size - 1;
    assert text[0..] == text;
    FirstLine(line, long, 127);
    StartsUnfolded(text, term, 0, 128);
    assert text[m..] == long;
    FullPiece(long, size - m - 1);
    StartsUnfolded(text, term, m, size);
    StartsUnfolded(text, term, cut, Grown(size, cut, |term|));
  }

  lemma {:induction false} FirstLine(line: string, rest: string, n: nat)
    requires '\n' !in line && |line| < n
    ensures CopyLine(line + "\n" + rest, n) == line + "\n"
  {
    if line == "" {
      assert ("" + "\n" + rest)[0] == '\n';
    } else {
      assert (line + "\n" + rest)[0] == line[0] && (line + "\n" + rest)[1..] == line[1..] + "\n" + rest;
      FirstLine(line[1..], rest, n - 1);
    }
  }

  lemma {:induction false} FullPiece(s: string, n: nat)
    requires '\n' !in s && n <= |s|
    ensures CopyLine(s, n) == s[..n]
  {
    if n > 0 {
      FullPiece(s[1..], n - 1);
    }
  }

  ghost predicate EndsLine(text: string)
  {
    text != "" ==> text[|text| - 1] == '\n'
  }

  lemma {:induction false} PieceInside(text: string, s: string, n: nat)
    requires text != "" && EndsLine(text)
    ensures CopyLine(text + s, n) == CopyLine(text, n)
    decreases |text|
  {
    if n > 0 {
      Seqs.Halves(text, s);
      if text[0] != '\n' {
        assert |text| > 1;
        Seqs.TailOfSum(text, s);
        PieceInside(text[1..], s, n - 1);
      }
    }
  }

  lemma {:induction false} PieceOfTerm(term: string, s: string, n: nat)
    requires '\n' !in term && n > |term|
    ensures CopyLine(term + "\n" + s, n) == term + "\n"
    decreases |term|
  {
    var t := term + "\n" + s;
    if term != "" {
      assert t[0] == term[0] && t[1..] == term[1..] + "\n" + s;
      PieceOfTerm(term[1..], s, n - 1);
    }
  }

  /** A piece closes exactly if the terminator and white space stand where it begins. */
  lemma ClosesIff(text: string, term: string, at: nat, n: nat)
    requires at < |text| && n > |term| && '\n' !in term
    ensures Closes(term, CopyLine(text[at..], n)) <==> StrayAt(text, term, at)
  {
    var piece := CopyLine(text[at..], n);
    hide CopyLine;
    assert piece == text[at..at + |piece|];
    if |piece| <= |term| {
      ShortPiece(text, term, at, n);
    } else {
      Prefixes(text, at, |piece|, |term|);
    }
  }

  lemma Prefixes(text: string, at: nat, l: nat, k: nat)
    requires at + l <= |text| && k < l
    ensures text[at..at + l][..k] == text[at..at + k] && text[at..at + l][k] == text[at + k]
  {
  }

  lemma ShortPiece(text: string, term: string, at: nat, n: nat)
    requires at < |text| && n > |term| && '\n' !in term && |CopyLine(text[at..], n)| <= |term|
    ensures !StrayAt(text, term, at)
  {
    hide CopyLine;
    var next := at + |CopyLine(text[at..], n)|;
    PieceEnds(text, at, n);
    if next < |text| && at + |term| < |text| {
      assert text[at..at + |term|][next - 1 - at] == '\n';
    }
  }

  lemma CollectOnce(s: string, term: string, acc: string, mmax: nat, piece: string, rest: string)
    requires term != "" && |acc| + 2 <= mmax
    requires piece == CopyLine(s, mmax - |acc| - 1) && piece != "" && !Closes(term, piece)
    requires rest == s[|piece|..]
    ensures Collect(s, term, acc, mmax) ==
            Collect(rest, term, acc + piece, Grown(mmax, |acc + piece|, |term|))
  {
  }

  lemma CollectClosed(s: string, term: string, acc: string, mmax: nat, piece: string)
    requires term != "" && |acc| + 2 <= mmax
    requires piece == CopyLine(s, mmax - |acc| - 1) && piece != "" && Closes(term, piece)
    ensures Collect(s, term, acc, mmax) == Body(acc, s[|piece|..])
  {
  }

  /** Reading on from any piece: the text before the closing line is what is read, exactly if none of
      the pieces to come begins with the terminator and white space; otherwise it is cut short. */
  lemma {:induction false} CollectExactly(text: string, term: string, s: string, at: nat, mmax: nat)
    requires term != "" && '\n' !in term && |term| + 2 <= CHUNK && EndsLine(text)
    requires at <= |text| && at + |term| + 2 <= mmax
    ensures var r := Collect(text[at..] + (term + "\n" + s), term, text[..at], mmax);
      if NoneStray(text, term, Starts(text, term, at, mmax)) then r == Body(text, s) else |r.text| < |text|
    decreases |text| - at
  {
    hide Collect, CopyLine, Starts, StrayAt, EndsLine;
    if at == |text| {
      NoMoreStarts(text, term, mmax);
      LastPiece(text, term, s, mmax);
    } else {
      hide NoneStray;
      StartsUnfolded(text, term, at, mmax);
      var next := at + |CopyLine(text[at..], mmax - at - 1)|;
      OnePiece(text, term, term + "\n" + s, at, mmax);
      StraysFurther(text, term, at, Starts(text, term, next, Grown(mmax, next, |term|)));
      if !StrayAt(text, term, at) {
        CollectExactly(text, term, s, next, Grown(mmax, next, |term|));
      }
    }
  }

  /** The piece at `at` ends the value there, or is kept. */
  lemma OnePiece(text: string, term: string, tail: string, at: nat, mmax: nat)
    requires term != "" && '\n' !in term && |term| + 2 <= CHUNK && EndsLine(text)
    requires at < |text| && at + |term| + 2 <= mmax
    ensures var next := at + |CopyLine(text[at..], mmax - at - 1)|;
      && at < next <= |text|
      && (StrayAt(text, term, at) ==> |Collect(text[at..] + tail, term, text[..at], mmax).text| < |text|)
      && (!StrayAt(text, term, at) ==>
           Collect(text[at..] + tail, term, text[..at], mmax) ==
           Collect(text[next..] + tail, term, text[..next], Grown(mmax, next, |term|)))
  {
    hide Collect, CopyLine, Starts, StrayAt, EndsLine;
    var n := mmax - at - 1;
    var piece := CopyLine(text[at..], n);
    var next := at + |piece|;
    PieceEnds(text, at, n);
    PieceIs(text, at, n);
    Resplit(text, at, next);
    ClosesIff(text, term, at, n);
    PieceTaken(text[at..], tail, term, text[..at], mmax, piece, text[next..]);
  }

  lemma PieceTaken(rest: string, tail: string, term: string, acc: string, mmax: nat, piece: string, more: string)
    requires term != "" && |acc| + 2 <= mmax && rest != "" && EndsLine(rest)
    requires piece == CopyLine(rest, mmax - |acc| - 1) && piece != "" && rest == piece + more
    ensures Closes(term, piece) ==> Collect(rest + tail, term, acc, mmax).text == acc
    ensures !Closes(term, piece) ==>
      Collect(rest + tail, term, acc, mmax) ==
      Collect(more + tail, term, acc + piece, Grown(mmax, |acc + piece|, |term|))
  {
    hide Collect, CopyLine;
    PieceInside(rest, tail, mmax - |acc| - 1);
    Seqs.Assoc(piece, more, tail);
    Seqs.Halves(piece, more + tail);
    if Closes(term, piece) {
      CollectClosed(rest + tail, term, acc, mmax, piece);
    } else {
      CollectOnce(rest + tail, term, acc, mmax, piece, more + tail);
    }
  }

  lemma PieceIs(text: string, at: nat, n: nat)
    requires at < |text|
    ensures CopyLine(text[at..], n) == text[at..at + |CopyLine(text[at..], n)|]
  {
  }

  lemma StartsUnfolded(text: string, term: string, at: nat, mmax: nat)
    requires term != "" && at < |text| && at + 2 <= mmax
    ensures var next := at + |CopyLine(text[at..], mmax - at - 1)|;
      Starts(text, term, at, mmax) == [at] + Starts(text, term, next, Grown(mmax, next, |term|)) &&
      Starts(text, term, at, mmax)[0] == at
  {
  }

  lemma StraysFurther(text: string, term: string, at: nat, more: seq<nat>)
    ensures NoneStray(text, term, [at] + more) <==> !StrayAt(text, term, at) && NoneStray(text, term, more)
  {
    var all := [at] + more;
    assert all[0] == at && forall i :: 0 <= i < |more| ==> more[i] == all[i + 1];
  }

  lemma LastPiece(text: string, term: string, s: string, mmax: nat)
    requires term != "" && '\n' !in term && |text| + |term| + 2 <= mmax
    ensures Collect(text[|text|..] + (term + "\n" + s), term, text[..|text|], mmax) == Body(text, s)
  {
    hide Collect, CopyLine;
    var tail := term + "\n" + s;
    Seqs.Whole(text);
    assert text[..|text|] == text;
    Seqs.Empty(tail);
    PieceOfTerm(term, s, mmax - |text| - 1);
    ClosingPiece(term, s);
    CollectClosed(tail, term, text, mmax, term + "\n");
  }

  lemma Regroup(text: string, term: string, s: string)
    ensures text + term + "\n" + s == text + (term + "\n" + s)
  {
  }

  lemma ClosingPiece(term: string, s: string)
    ensures Closes(term, term + "\n") && (term + "\n" + s)[|term + "\n"|..] == s
  {
  }

  lemma Resplit(text: string, at: nat, next: nat)
    requires at < next <= |text|
    ensures text[at..] != "" && text[at..] == text[at..next] + text[next..] && text[at..next] != ""
    ensures text[..at] + text[at..next] == text[..next]
    ensures EndsLine(text) ==> EndsLine(text[at..])
  {
  }

  /** A value printed between its terminator lines is read back, for every terminator of up to
      126 characters, exactly if no piece of it begins with the terminator and white space. */
  lemma ReadBodyInverse(text: string, term: string, s: string)
    requires term != "" && '\n' !in term && |term| <= 126 && EndsLine(text)
    ensures ReadBody(text + term + "\n" + s, term) == Body(text, s) <==> Uncut(text, term)
  {
    hide Collect, Starts;
    CollectExactly(text, term, s, 0, CHUNK);
    Regroup(text, term, s);
    Seqs.Whole(text);
    assert text[..0] == "";
  }

  /** A value that the printer closes with `EOM`, as no line of it is just that, and that is cut
      short when it is read. */
  lemma CutShort(s: string)
    ensures EndsLine("EOM x\ny\n") && !Uncut("EOM x\ny\n", "EOM")
    ensures ReadBody("EOM x\ny\n" + "EOM" + "\n" + s, "EOM") != Body("EOM x\ny\n", s)
  {
    var text := "EOM x\ny\n";
    assert text[0..0 + |"EOM"|] == "EOM" && text[3] == ' ';
    assert StrayAt(text, "EOM", 0) && AtLineStart(text, 0);
    UncutLines(text, "EOM");
    ReadBodyInverse(text, "EOM", s);
  }

  /** The bound is exact: the first piece of a longer terminator line is cut before its white
      space, so that even an empty value does not end there. */
  lemma LongTerminatorMissed(term: string, s: string)
    requires |term| > 126 && '\n' !in term
    ensures ReadBody(term + "\n" + s, term).text != ""
  {
    var all := term + "\n" + s;
    var piece := CopyLine(all, CHUNK - 1);
    assert all[0] == term[0];
    assert |piece| <= |term|;
    CollectOnce(all, term, "", CHUNK, piece, all[|piece|..]);
    Seqs.Empty(piece);
  }
}
