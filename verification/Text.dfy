/** Strings as the scripting language sees them: splitting, joining, and decimal numbers. */
module Text {

  /** The index of the first `c`, or the length. */
  function Find(s: string, c: char): (i: nat)
    ensures i <= |s|
    ensures i < |s| ==> s[i] == c
    ensures forall j :: 0 <= j < i ==> s[j] != c
  {
    if s == "" || s[0] == c then 0 else 1 + Find(s[1..], c)
  }

  predicate Free(s: string, c: char)
  {
    c !in s
  }

  lemma FindFirst(a: string, c: char, rest: string)
    requires Free(a, c)
    ensures Find(a + [c] + rest, c) == |a|
    ensures Find(a, c) == |a|
  {
    var s := a + [c] + rest;
    assert s[|a|] == c;
    assert forall j :: 0 <= j < |a| ==> s[j] == a[j];
  }

  /** The pieces between the separators; there is always at least one. */
  function Split(s: string, c: char): (r: seq<string>)
    ensures r != []
    decreases |s|
  {
    var i := Find(s, c);
    if i == |s| then [s] else [s[..i]] + Split(s[i + 1..], c)
  }

  lemma SplitHead(s: string, c: char)
    ensures var i := Find(s, c);
      Split(s, c) == if i == |s| then [s] else [s[..i]] + Split(s[i + 1..], c)
  {
    hide Find;
  }

  lemma FindInCut(s: string, i: nat, c: char)
    requires i <= |s|
    ensures if Find(s, c) < i then Find(s[..i], c) == Find(s, c) else Free(s[..i], c)
  {
    assert forall j :: 0 <= j < i ==> s[..i][j] == s[j];
  }

  lemma {:induction false} SplitPieces(s: string, c: char)
    ensures forall i :: 0 <= i < |Split(s, c)| ==> Free(Split(s, c)[i], c)
    decreases |s|
  {
    var i := Find(s, c);
    if i < |s| {
      SplitPieces(s[i + 1..], c);
    }
  }

  function Join(parts: seq<string>, c: char): string
  {
    if parts == [] then ""
    else if |parts| == 1 then parts[0]
    else parts[0] + [c] + Join(parts[1..], c)
  }

  lemma SplitStep(a: string, c: char, rest: string)
    requires Free(a, c)
    ensures Split(a + [c] + rest, c) == [a] + Split(rest, c)
  {
    FindFirst(a, c, rest);
    var s := a + [c] + rest;
    assert s[..|a|] == a && s[|a| + 1..] == rest;
  }

  /** Splitting undoes joining, for pieces without the separator. */
  lemma {:induction false} SplitJoin(parts: seq<string>, c: char)
    requires parts != [] && forall i :: 0 <= i < |parts| ==> Free(parts[i], c)
    ensures Split(Join(parts, c), c) == parts
  {
    if |parts| == 1 {
      FindFirst(parts[0], c, "");
    } else {
      SplitStep(parts[0], c, Join(parts[1..], c));
      SplitJoin(parts[1..], c);
    }
  }

  lemma {:induction false} JoinFree(parts: seq<string>, c: char, x: char)
    requires x != c && forall i :: 0 <= i < |parts| ==> Free(parts[i], x)
    ensures Free(Join(parts, c), x)
  {
    if |parts| > 1 {
      JoinFree(parts[1..], c, x);
    }
  }

  lemma {:induction false} SplitFree(s: string, c: char, x: char)
    requires Free(s, x)
    ensures forall i :: 0 <= i < |Split(s, c)| ==> Free(Split(s, c)[i], x)
    decreases |s|
  {
    var i := Find(s, c);
    if i < |s| {
      SplitFree(s[i + 1..], c, x);
    }
  }

  lemma SplitWhole(s: string, c: char)
    requires Free(s, c)
    ensures Split(s, c) == [s]
  {
    FindFirst(s, c, "");
  }

  // ---- std::string -----------------------------------------------------------------------

  /** `substr`: a length that reaches past the end, or that was negative before it became
      unsigned, means all the rest. */
  function Substr(s: string, pos: nat, n: int): string
    requires pos <= |s|
  {
    if n < 0 || pos + n > |s| then s[pos..] else s[pos..pos + n]
  }

  // ---- decimal numbers ------------------------------------------------------------------

  predicate IsDigit(c: char)
  {
    '0' <= c <= '9'
  }

  function Decimal(n: nat): (s: string)
    ensures s != "" && forall i :: 0 <= i < |s| ==> IsDigit(s[i])
  {
    if n < 10 then ['0' + n as char] else Decimal(n / 10) + ['0' + (n % 10) as char]
  }

  /** The number of leading digits. */
  function DigitRun(s: string): (k: nat)
    ensures k <= |s| && forall i :: 0 <= i < k ==> IsDigit(s[i])
    ensures k < |s| ==> !IsDigit(s[k])
  {
    if s == "" || !IsDigit(s[0]) then 0 else 1 + DigitRun(s[1..])
  }

  function DigitOf(c: char): nat
    requires IsDigit(c)
  {
    c as int - '0' as int
  }

  function DigitsValue(s: string): nat
    requires forall i :: 0 <= i < |s| ==> IsDigit(s[i])
  {
    if s == "" then 0 else 10 * DigitsValue(s[..|s| - 1]) + DigitOf(s[|s| - 1])
  }

  lemma {:induction false} DecimalValue(n: nat)
    ensures DigitsValue(Decimal(n)) == n
  {
    var s := Decimal(n);
    if n < 10 {
      assert s[..0] == "";
    } else {
      DecimalValue(n / 10);
      assert s[..|s| - 1] == Decimal(n / 10);
    }
  }

  /** A number is written with its last digit last, and without zeros in front. */
  lemma {:induction false} DecimalWritten(n: nat, d: nat)
    requires d < 10
    ensures Decimal(d) == ["0123456789"[d]]
    ensures n > 0 ==> Decimal(10 * n + d) == Decimal(n) + Decimal(d)
    ensures n > 0 ==> Decimal(n)[0] != '0'
  {
    DigitWritten(d);
    if n >= 10 {
      DecimalWritten(n / 10, 0);
    }
  }

  lemma DigitWritten(d: nat)
    requires d < 10
    ensures "0123456789"[d] == '0' + d as char
  {
  }

  lemma RunOfDigits(a: string, rest: string)
    requires forall i :: 0 <= i < |a| ==> IsDigit(a[i])
    requires rest != "" ==> !IsDigit(rest[0])
    ensures DigitRun(a + rest) == |a|
  {
    var s := a + rest;
    assert forall j :: 0 <= j < |a| ==> s[j] == a[j];
    assert rest != "" ==> s[|a|] == rest[0];
  }

  /** A signed integer as a stream prints it. */
  function Printed(n: int): string
  {
    if n < 0 then "-" + Decimal(-n) else Decimal(n)
  }

  datatype Number = NaN | Int(value: int)

  /** What `atoi` passes over. */
  predicate IsBlank(c: char)
  {
    c == ' ' || '\t' <= c <= '\r'
  }

  /** What `parseInt` passes over: these, and the other characters that a script counts as white
      space or line ends. */
  predicate IsScriptBlank(c: char)
  {
    || IsBlank(c) || c == '\U{a0}' || c == '\U{1680}' || '\U{2000}' <= c <= '\U{200a}' || c == '\U{2028}'
    || c == '\U{2029}' || c == '\U{202f}' || c == '\U{205f}' || c == '\U{3000}' || c == '\U{feff}'
  }

  predicate IsHexDigit(c: char)
  {
    IsDigit(c) || 'a' <= c <= 'f' || 'A' <= c <= 'F'
  }

  function HexDigitOf(c: char): nat
    requires IsHexDigit(c)
  {
    if IsDigit(c) then DigitOf(c)
    else if c >= 'a' then c as int - 'a' as int + 10
    else c as int - 'A' as int + 10
  }

  /** The leading hexadecimal digits, added to what has been read. */
  function HexValue(s: string, n: nat): nat
  {
    if s == "" || !IsHexDigit(s[0]) then n else HexValue(s[1..], 16 * n + HexDigitOf(s[0]))
  }

  /** `parseInt`: blanks, a sign, and the digits up to the first other character. */
  function ParseInt(s: string): Number
  {
    if s != "" && IsScriptBlank(s[0]) then ParseInt(s[1..])
    else if s != "" && s[0] == '-' then Negated(ParseDigits(s[1..]))
    else if s != "" && s[0] == '+' then ParseDigits(s[1..])
    else ParseDigits(s)
  }

  /** `atoi`: like `parseInt` for decimal text, with zero for what is not a number. */
  function Atoi(s: string): int
  {
    if s != "" && IsBlank(s[0]) then Atoi(s[1..])
    else if s != "" && s[0] == '-' then 0 - DigitsValue(s[1..][..DigitRun(s[1..])])
    else if s != "" && s[0] == '+' then DigitsValue(s[1..][..DigitRun(s[1..])])
    else DigitsValue(s[..DigitRun(s)])
  }

  function Negated(n: Number): Number
  {
    match n
    case NaN => NaN
    case Int(v) => Int(-v)
  }

  predicate HexPrefix(s: string)
  {
    |s| >= 2 && s[0] == '0' && (s[1] == 'x' || s[1] == 'X')
  }

  function ParseDigits(s: string): Number
  {
    if HexPrefix(s) then
      if |s| > 2 && IsHexDigit(s[2]) then Int(HexValue(s[2..], 0)) else NaN
    else
      var k := DigitRun(s);
      if k == 0 then NaN else Int(DigitsValue(s[..k]))
  }

  /** A number that has been printed is read back, whatever follows it. */
  lemma ParsePrinted(n: nat, rest: string)
    requires rest != "" ==> !IsDigit(rest[0]) && rest[0] != 'x' && rest[0] != 'X'
    ensures ParseInt(Decimal(n) + rest) == Int(n)
  {
    var a := Decimal(n);
    RunOfDigits(a, rest);
    DecimalValue(n);
    assert (a + rest)[..|a|] == a && (a + rest)[0] == a[0] && IsDigit(a[0]);
  }

  lemma DecimalStarts(n: nat, rest: string)
    ensures var s := Decimal(n) + rest;
      && s != "" && IsDigit(s[0]) && !IsScriptBlank(s[0]) && s[0] != '-' && s[0] != '+'
      && s[..|Decimal(n)|] == Decimal(n)
  {
    assert (Decimal(n) + rest)[0] == Decimal(n)[0];
  }

  /** `atoi` of a number that has been printed, whatever follows it but a digit; so is the number
      with a minus sign, and blanks in front do not matter. */
  lemma AtoiPrinted(n: nat, rest: string)
    requires rest != "" ==> !IsDigit(rest[0])
    ensures Atoi(Decimal(n) + rest) == n && Atoi("-" + (Decimal(n) + rest)) == 0 - n
  {
    var s := Decimal(n) + rest;
    RunOfDigits(Decimal(n), rest);
    DecimalValue(n);
    DecimalStarts(n, rest);
    assert ("-" + s)[0] == '-' && ("-" + s)[1..] == s;
  }

  lemma BlanksSkipped(c: char, s: string)
    ensures IsBlank(c) ==> Atoi([c] + s) == Atoi(s)
    ensures IsScriptBlank(c) ==> ParseInt([c] + s) == ParseInt(s)
  {
    assert ([c] + s)[0] == c && ([c] + s)[1..] == s;
  }

  /** Blanks and digits by their codes; `parseInt` passes over more than `atoi`. */
  lemma CharCodes(c: char)
    ensures IsHexDigit(c) <==> 48 <= c as int <= 57 || 65 <= c as int <= 70 || 97 <= c as int <= 102
    ensures IsBlank(c) <==> c as int in {9, 10, 11, 12, 13, 32}
    ensures c as int in {9, 10, 11, 12, 13, 32, 0xa0, 0x2028, 0x3000, 0xfeff} ==> IsScriptBlank(c)
    ensures 32 < c as int < 160 ==> !IsScriptBlank(c)
  {
  }

  /** Every integer that has been printed is read back, and a sign that is written is read. */
  lemma PrintedParses(n: int)
    ensures ParseInt(Printed(n)) == Int(n)
    ensures n >= 0 ==> ParseInt("+" + Printed(n)) == Int(n) && ParseInt("-" + Printed(n)) == Int(-n)
  {
    var a := Decimal(if n < 0 then -n else n);
    var d := if n < 0 then -n else n;
    assert a + "" == a;
    DecimalStarts(d, "");
    ParsePrinted(d, "");
    assert ("-" + a)[0] == '-' && ("-" + a)[1..] == a && ("+" + a)[0] == '+' && ("+" + a)[1..] == a;
  }

  /** Text that begins with no digit, sign or blank is no number. */
  lemma NoNumber(s: string)
    requires s != "" ==> !IsDigit(s[0]) && !IsScriptBlank(s[0]) && s[0] != '-' && s[0] != '+'
    ensures ParseInt(s) == NaN && Atoi(s) == 0
  {
    assert s[..0] == "";
  }

  /** Hexadecimal text is read as such, digits of both cases. */
  lemma HexParses()
    ensures ParseInt("0x1f") == Int(31) && ParseInt("0XAe ") == Int(174) && ParseInt("0xg") == NaN
  {
    assert "0x1f"[2..] == "1f" && "1f"[1..] == "f" && "f"[1..] == "";
    assert HexValue("f", 1) == HexValue("", 31);
    assert HexValue("1f", 0) == HexValue("f", 1);
    assert "0XAe "[2..] == "Ae " && "Ae "[1..] == "e " && "e "[1..] == " ";
    assert HexValue("e ", 10) == HexValue(" ", 174);
    assert HexValue("Ae ", 0) == HexValue("e ", 10);
  }
}
