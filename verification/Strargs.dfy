/** `Gettext.strargs`: numbered arguments put into a template. */
module Strargs {
  import Seqs
  import opened Options
  import opened Text

  /** What a reference prints: nothing for argument zero or for one that is not there. */
  function Argument(args: seq<Option<string>>, n: nat): string
  {
    if 0 < n <= |args| && args[n - 1].Some? then args[n - 1].value else ""
  }

  function Expand(str: string, args: seq<Option<string>>): string
    decreases |str|
  {
    var i := Find(str, '%');
    if i == |str| then str
    else
      var rest := str[i + 1..];
      var k := DigitRun(rest);
      if rest != "" && rest[0] == '%' then str[..i] + "%" + Expand(rest[1..], args)
      else if k > 0 then str[..i] + Argument(args, DigitsValue(rest[..k])) + Expand(rest[k..], args)
      else str[..i] + "%" + Expand(rest, args)
  }

  /** `strargs`. The comment in the source says that a stray percent sign is removed; it stays. */
  method Substitute(template: string, args: seq<Option<string>>) returns (newstr: string)
    ensures newstr == Expand(template, args)
  {
    hide Find, DigitRun, DigitsValue;
    newstr := "";
    var str := template;
    assert "" + Expand(template, args) == Expand(template, args);
    while true
      invariant newstr + Expand(str, args) == Expand(template, args)
      decreases |str|
    {
      var i := Find(str, '%');
      if i == |str| {
        newstr := newstr + str;
        return;
      }
      var rest := str[i + 1..];
      var k := DigitRun(rest);
      var piece, next;
      if rest != "" && rest[0] == '%' {
        piece, next := "%", rest[1..];
      } else if k > 0 {
        piece, next := Argument(args, DigitsValue(rest[..k])), rest[k..];
      } else {
        piece, next := "%", rest;
      }
      Seqs.Assoc4(newstr, str[..i], piece, Expand(next, args));
      newstr := newstr + str[..i] + piece;
      str := next;
    }
  }

  // ---- templates --------------------------------------------------------------------------------

  /** A template: text whose percent signs are written twice, references by number, and percent
      signs left single. */
  datatype Piece = Literal(text: string) | Ref(digits: string) | Stray

  function Escaped(text: string): string
  {
    if text == "" then ""
    else (if text[0] == '%' then "%%" else [text[0]]) + Escaped(text[1..])
  }

  function Written(pieces: seq<Piece>): string
  {
    if pieces == [] then ""
    else
      (match pieces[0]
       case Literal(text) => Escaped(text)
       case Ref(digits) => "%" + digits
       case Stray => "%") + Written(pieces[1..])
  }

  predicate AllDigits(s: string)
  {
    forall i :: 0 <= i < |s| ==> IsDigit(s[i])
  }

  /** No digit is written behind a reference, and behind a stray percent sign neither a digit nor
      another percent sign. */
  predicate Proper(pieces: seq<Piece>)
  {
    pieces != [] ==>
      var next := Written(pieces[1..]);
      (pieces[0].Ref? ==>
         pieces[0].digits != "" && AllDigits(pieces[0].digits) && (next != "" ==> !IsDigit(next[0]))) &&
      (pieces[0].Stray? ==> next != "" ==> !IsDigit(next[0]) && next[0] != '%') &&
      Proper(pieces[1..])
  }

  /** The text a template stands for. */
  function Meaning(pieces: seq<Piece>, args: seq<Option<string>>): string
  {
    if pieces == [] then ""
    else
      (match pieces[0]
       case Literal(text) => text
       case Ref(digits) => if AllDigits(digits) then Argument(args, DigitsValue(digits)) else ""
       case Stray => "%") + Meaning(pieces[1..], args)
  }

  lemma {:induction false} OneChar(c: char, rest: string, args: seq<Option<string>>)
    requires c != '%'
    ensures Expand([c] + rest, args) == [c] + Expand(rest, args)
  {
    hide Argument, DigitRun, DigitsValue;
    var s := [c] + rest;
    assert s[1..] == rest;
    var i := Find(rest, '%');
    assert Find(s, '%') == i + 1;
    hide Find;
    if i < |rest| {
      assert s[..i + 1] == [c] + rest[..i] && s[i + 2..] == rest[i + 1..];
      forall piece: string, next: string
        ensures ([c] + rest[..i]) + piece + next == [c] + (rest[..i] + piece + next)
      {
      }
    }
  }

  lemma TwoSigns(rest: string, args: seq<Option<string>>)
    ensures Expand("%%" + rest, args) == "%" + Expand(rest, args)
  {
    var s := "%%" + rest;
    assert s[1..][1..] == rest && s[1..][0] == '%';
    assert "" + "%" + Expand(rest, args) == "%" + Expand(rest, args);
  }

  lemma AfterSign(rest: string, args: seq<Option<string>>)
    requires rest != "" && rest[0] != '%' && DigitRun(rest) > 0
    ensures var k := DigitRun(rest);
      Expand("%" + rest, args) == Argument(args, DigitsValue(rest[..k])) + Expand(rest[k..], args)
  {
    hide DigitRun, DigitsValue, Argument;
    var s := "%" + rest;
    assert s[1..] == rest && s[..0] == "";
    var k := DigitRun(rest);
    Seqs.Empty(Argument(args, DigitsValue(rest[..k])));
  }

  lemma {:induction false} Referred(digits: string, rest: string, args: seq<Option<string>>)
    requires digits != "" && AllDigits(digits) && (rest != "" ==> !IsDigit(rest[0]))
    ensures Expand("%" + digits + rest, args) == Argument(args, DigitsValue(digits)) + Expand(rest, args)
  {
    hide DigitRun, DigitsValue, Expand;
    var all := digits + rest;
    RunOfDigits(digits, rest);
    Seqs.Halves(digits, rest);
    assert IsDigit(digits[0]);
    Seqs.Assoc("%", digits, rest);
    AfterSign(all, args);
  }

  /** A reference by the number `k` picks the argument at place `k`, counted from one. Zero, a number
      that is too large and a missing argument print nothing. */
  lemma NumberedArgument(k: nat, rest: string, args: seq<Option<string>>)
    requires rest != "" ==> !IsDigit(rest[0])
    ensures Expand("%" + Decimal(k) + rest, args) ==
            (if 1 <= k <= |args| && args[k - 1].Some? then args[k - 1].value else "") + Expand(rest, args)
  {
    DecimalValue(k);
    Referred(Decimal(k), rest, args);
  }

  lemma Strayed(rest: string, args: seq<Option<string>>)
    requires rest != "" ==> !IsDigit(rest[0]) && rest[0] != '%'
    ensures Expand("%" + rest, args) == "%" + Expand(rest, args)
  {
    var s := "%" + rest;
    assert s[1..] == rest;
    assert "" + "%" + Expand(rest, args) == "%" + Expand(rest, args);
  }

  lemma {:induction false} TextStays(text: string, rest: string, args: seq<Option<string>>)
    ensures Expand(Escaped(text) + rest, args) == text + Expand(rest, args)
    decreases |text|
  {
    hide Expand;
    if text == "" {
      assert "" + rest == rest && "" + Expand(rest, args) == Expand(rest, args);
    } else {
      var c, tail := text[0], Escaped(text[1..]);
      TextStays(text[1..], rest, args);
      assert text == [c] + text[1..];
      Seqs.Assoc([c], text[1..], Expand(rest, args));
      if c == '%' {
        Seqs.Assoc("%%", tail, rest);
        TwoSigns(tail + rest, args);
      } else {
        Seqs.Assoc([c], tail, rest);
        OneChar(c, tail + rest, args);
      }
    }
  }

  /** Expanding a written template gives its meaning: the texts and the arguments one after the
      other, the text of an argument taken as it is. */
  lemma {:induction false} ExpandWritten(pieces: seq<Piece>, args: seq<Option<string>>)
    requires Proper(pieces)
    ensures Expand(Written(pieces), args) == Meaning(pieces, args)
  {
    if pieces != [] {
      var next := Written(pieces[1..]);
      ExpandWritten(pieces[1..], args);
      match pieces[0]
      case Literal(text) => TextStays(text, next, args);
      case Ref(digits) => Referred(digits, next, args);
      case Stray => Strayed(next, args);
    }
  }

  function PieceText(p: Piece): string
  {
    match p
    case Literal(text) => Escaped(text)
    case Ref(digits) => "%" + digits
    case Stray => "%"
  }

  /** What may stand in front of the text `next`. */
  predicate Fits(p: Piece, next: string)
  {
    && (p.Ref? ==> p.digits != "" && AllDigits(p.digits) && (next != "" ==> !IsDigit(next[0])))
    && (p.Stray? ==> next != "" ==> !IsDigit(next[0]) && next[0] != '%')
  }

  lemma OneMore(p: Piece, pieces: seq<Piece>)
    requires Proper(pieces) && Fits(p, Written(pieces))
    ensures Proper([p] + pieces) && Written([p] + pieces) == PieceText(p) + Written(pieces)
  {
    Seqs.Halves([p], pieces);
  }

  /** The first piece of a text, and where the next one begins. */
  lemma FirstPiece(s: string) returns (p: Piece, k: nat)
    requires s != ""
    ensures 0 < k <= |s| && Fits(p, s[k..]) && PieceText(p) == s[..k]
  {
    if s[0] != '%' {
      p, k := Literal([s[0]]), 1;
      assert Escaped([s[0]]) == [s[0]] + Escaped("");
    } else {
      var rest := s[1..];
      var n := DigitRun(rest);
      if n > 0 {
        p, k := Ref(rest[..n]), n + 1;
        assert s[..k] == "%" + rest[..n] && s[k..] == rest[n..];
      } else if rest != "" && rest[0] == '%' {
        p, k := Literal("%"), 2;
        assert Escaped("%") == "%%" + Escaped("");
        assert s[..2] == "%%";
      } else {
        p, k := Stray, 1;
      }
    }
  }

  /** Every string is a template. */
  lemma {:induction false} EveryStringIsWritten(s: string) returns (pieces: seq<Piece>)
    ensures Proper(pieces) && Written(pieces) == s
    decreases |s|
  {
    pieces := [];
    if s != "" {
      hide Proper, Written, Fits, PieceText;
      var p, k := FirstPiece(s);
      pieces := EveryStringIsWritten(s[k..]);
      OneMore(p, pieces);
      Seqs.Rejoin(s, k);
      pieces := [p] + pieces;
    }
  }
}
