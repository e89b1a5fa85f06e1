/** The text of a data set, character by character: white space, names, escapes and the
    attribute list, as the printer writes them and as the reader takes them apart. */
module HdfLex {
  import Seqs
  import opened Options
  import opened HdfTree

  predicate IsSpace(c: char)
  {
    c == ' ' || '\t' <= c <= '\r'
  }

  predicate IsDigit(c: char)
  {
    '0' <= c <= '9'
  }

  predicate IsAlnum(c: char)
  {
    IsDigit(c) || 'a' <= c <= 'z' || 'A' <= c <= 'Z'
  }

  predicate IsNameChar(c: char)
  {
    IsAlnum(c) || c == '_' || c == '.'
  }

  predicate IsPrint(c: char)
  {
    ' ' <= c <= '~'
  }

  /** The characters of each kind, by their codes: white space is the blank and tab, line feed,
      vertical tab, form feed and carriage return. */
  lemma CharKinds(c: char)
    ensures var n := c as int;
      && (IsSpace(c) <==> n == 32 || n == 9 || n == 10 || n == 11 || n == 12 || n == 13)
      && (IsAlnum(c) <==> 48 <= n <= 57 || 65 <= n <= 90 || 97 <= n <= 122)
      && (IsNameChar(c) <==> IsAlnum(c) || n == 95 || n == 46)
      && (IsPrint(c) <==> 32 <= n <= 126)
  {
  }

  /** What is left of a text once leading white space has been skipped. */
  function SkipWs(s: string): (r: string)
    ensures |r| <= |s| && r == s[|s| - |r|..]
    ensures r != "" ==> !IsSpace(r[0])
  {
    if s != "" && IsSpace(s[0]) then SkipWs(s[1..]) else s
  }

  function TrimEnd(s: string): (r: string)
    ensures |r| <= |s| && r == s[..|r|]
    ensures r != "" ==> !IsSpace(r[|r| - 1])
  {
    if s != "" && IsSpace(s[|s| - 1]) then TrimEnd(s[..|s| - 1]) else s
  }

  /** `neos_strip`. */
  function Strip(s: string): string
  {
    SkipWs(TrimEnd(s))
  }

  predicate Trimmed(s: string)
  {
    s != "" ==> !IsSpace(s[0]) && !IsSpace(s[|s| - 1])
  }

  /** The length of the leading run of name characters. */
  function NameLen(s: string): (k: nat)
    ensures k <= |s| && (forall i :: 0 <= i < k ==> IsNameChar(s[i]))
    ensures k < |s| ==> !IsNameChar(s[k])
  {
    if s != "" && IsNameChar(s[0]) then 1 + NameLen(s[1..]) else 0
  }

  function AlnumLen(s: string): (k: nat)
    ensures k <= |s| && (forall i :: 0 <= i < k ==> IsAlnum(s[i]))
    ensures k < |s| ==> !IsAlnum(s[k])
  {
    if s != "" && IsAlnum(s[0]) then 1 + AlnumLen(s[1..]) else 0
  }

  predicate EndsBare(c: char)
  {
    c == ' ' || c == ',' || c == ']'
  }

  function BareLen(s: string): (k: nat)
    ensures k <= |s| && (forall i :: 0 <= i < k ==> !EndsBare(s[i]))
    ensures k < |s| ==> EndsBare(s[k])
  {
    if s != "" && !EndsBare(s[0]) then 1 + BareLen(s[1..]) else 0
  }

  predicate StartsWith(s: string, c: char)
  {
    s != "" && s[0] == c
  }

  // ---- escapes ----------------------------------------------------------------------

  function DigitChar(d: nat): char
    requires d < 10
  {
    ('0' as int + d) as char
  }

  function DigitVal(c: char): nat
    requires IsDigit(c)
  {
    c as int - '0' as int
  }

  /** Three octal digits of a byte. */
  function Octal(c: char): string
  {
    var b := c as int % 256;
    [DigitChar(b / 64), DigitChar(b / 8 % 8), DigitChar(b % 8)]
  }

  /** `repr_string_alloc`, one character of a byte string. */
  function Escape(c: char): string
  {
    if IsPrint(c) && c != '"' && c != '\\' then [c]
    else if c == '\n' then "\\n"
    else if c == '\t' then "\\t"
    else if c == '\r' then "\\r"
    else if c == '"' then "\\\""
    else if c == '\\' then "\\\\"
    else "\\" + Octal(c)
  }

  function EscapeAll(v: string): string
  {
    if v == "" then "" else Escape(v[0]) + EscapeAll(v[1..])
  }

  function Repr(v: string): string
  {
    "\"" + EscapeAll(v) + "\""
  }

  /** How each kind of character is written, one after the other. */
  lemma EscapesAre(c: char, more: string)
    ensures EscapeAll([c] + more) == EscapeAll([c]) + EscapeAll(more)
    ensures 32 <= c as int <= 126 && c != '"' && c != '\\' ==> EscapeAll([c]) == [c]
    ensures EscapeAll("\n") == "\\n" && EscapeAll("\t") == "\\t" && EscapeAll("\r") == "\\r"
    ensures EscapeAll("\"") == "\\\"" && EscapeAll("\\") == "\\\\"
    ensures EscapeAll("\U{01}") == "\\001" && EscapeAll("\U{7f}") == "\\177" && EscapeAll("\U{fe}") == "\\376"
  {
    hide Escape;
    assert ([c] + more)[1..] == more && [c][1..] == [];
    EscapedAlone(c);
    EscapedAlone('\n');
    EscapedAlone('\t');
    EscapedAlone('\r');
    EscapedAlone('"');
    EscapedAlone('\\');
    EscapedAlone('\U{01}');
    EscapedAlone('\U{7f}');
    EscapedAlone('\U{fe}');
    EscapeKinds(c);
  }

  lemma EscapedAlone(c: char)
    ensures EscapeAll([c]) == Escape(c)
  {
    assert [c][1..] == [];
    Seqs.Empty(Escape(c));
  }

  lemma EscapeKinds(c: char)
    ensures 32 <= c as int <= 126 && c != '"' && c != '\\' ==> Escape(c) == [c]
    ensures Escape('\n') == "\\n" && Escape('\t') == "\\t" && Escape('\r') == "\\r"
    ensures Escape('"') == "\\\"" && Escape('\\') == "\\\\"
    ensures Escape('\U{01}') == "\\001" && Escape('\U{7f}') == "\\177" && Escape('\U{fe}') == "\\376"
  {
    assert "\\" + "001" == "\\001" && "\\" + "177" == "\\177" && "\\" + "376" == "\\376";
    assert Octal('\U{01}') == "001" && Octal('\U{7f}') == "177" && Octal('\U{fe}') == "376";
  }

  datatype Char1 = Char1(c: char, rest: string)

  /** What follows a backslash: up to three digits, or one character. A char of the source is
      a byte, so the number is taken modulo 256. */
  function Unescape(s: string): (r: Char1)
    requires s != ""
    ensures |r.rest| < |s|
  {
    if IsDigit(s[0]) then
      var a := DigitVal(s[0]);
      if |s| > 1 && IsDigit(s[1]) then
        var b := a * 8 + DigitVal(s[1]);
        if |s| > 2 && IsDigit(s[2]) then
          Char1(((b * 8 + DigitVal(s[2])) % 256) as char, s[3..])
        else Char1((b % 256) as char, s[2..])
      else Char1(a as char, s[1..])
    else if s[0] == 'n' then Char1('\n', s[1..])
    else if s[0] == 't' then Char1('\t', s[1..])
    else if s[0] == 'r' then Char1('\r', s[1..])
    else Char1(s[0], s[1..])
  }

  datatype Text = Text(text: string, rest: string)

  /** The text of a quoted value and what stands behind its closing quote. */
  function Quoted(s: string): (r: Option<Text>)
    ensures r.Some? ==> |r.value.rest| < |s|
    decreases |s|
  {
    if s == "" then None
    else if s[0] == '"' then Some(Text("", s[1..]))
    else if s[0] == '\\' then
      if |s| == 1 then None
      else
        var e := Unescape(s[1..]);
        match Quoted(e.rest)
        case None => None
        case Some(q) => Some(Text([e.c] + q.text, q.rest))
    else
      match Quoted(s[1..])
      case None => None
      case Some(q) => Some(Text([s[0]] + q.text, q.rest))
  }

  /** A C string ends at its first zero character. */
  function UpToNul(v: string): string
  {
    if v == "" || v[0] == '\0' then "" else [v[0]] + UpToNul(v[1..])
  }

  ghost predicate IsByteString(v: string)
  {
    forall i :: 0 <= i < |v| ==> 0 < v[i] as int < 256
  }

  // ---- the attribute list -----------------------------------------------------------

  datatype AttrList = AttrList(attrs: seq<Attr>, rest: string)

  /** `parse_attr`, from behind the opening bracket. A key without `=` gets the empty value. */
  function ParseAttrs(s: string): (r: Option<AttrList>)
    ensures r.Some? ==> |r.value.rest| < |s|
    decreases |s|
  {
    if s == "" then None
    else if s[0] == ']' then Some(AttrList([], s[1..]))
    else
      var k := AlnumLen(s);
      if k == 0 || k == |s| then None
      else
        match ParseValue(SkipWs(s[k..]))
        case None => None
        case Some(v) =>
          match ParseAttrs(SkipComma(v.rest))
          case None => None
          case Some(l) => Some(AttrList([Attr(s[..k], v.text)] + l.attrs, l.rest))
  }

  /** The value behind `=` and blanks: quoted, or up to a blank, comma or bracket. */
  function ParseAssigned(s: string): (r: Option<Text>)
    ensures r.Some? ==> |r.value.rest| <= |s|
  {
    if StartsWith(s, '"') then
      match Quoted(s[1..])
      case None => None
      case Some(q) => Some(Text(UpToNul(q.text), q.rest))
    else
      var j := BareLen(s);
      if j == |s| then None else Some(Text(s[..j], s[j..]))
  }

  function ParseValue(s: string): (r: Option<Text>)
    ensures r.Some? ==> |r.value.rest| <= |s|
  {
    if StartsWith(s, '=') then ParseAssigned(SkipWs(s[1..])) else Some(Text("", s))
  }

  function SkipComma(s: string): (r: string)
    ensures |r| <= |s|
  {
    var s2 := SkipWs(s);
    if StartsWith(s2, ',') then SkipWs(s2[1..]) else s2
  }

  function AttrText(a: Attr): string
  {
    if a.value == "1" then a.key else a.key + "=" + Repr(a.value)
  }

  function AttrsText(attrs: seq<Attr>): string
  {
    if attrs == [] then ""
    else if |attrs| == 1 then AttrText(attrs[0])
    else AttrText(attrs[0]) + ", " + AttrsText(attrs[1..])
  }

  // ---- reading undoes printing ------------------------------------------------------

  lemma {:induction false} SkipSpaces(w: string, s: string)
    requires forall i :: 0 <= i < |w| ==> IsSpace(w[i])
    requires s != "" ==> !IsSpace(s[0])
    ensures SkipWs(w + s) == s
  {
    if w == "" {
      assert w + s == s;
    } else {
      assert (w + s)[1..] == w[1..] + s;
      SkipSpaces(w[1..], s);
    }
  }

  lemma {:induction false} TrimSpaces(s: string, w: string)
    requires forall i :: 0 <= i < |w| ==> IsSpace(w[i])
    requires s != "" ==> !IsSpace(s[|s| - 1])
    ensures TrimEnd(s + w) == s
  {
    if w == "" {
      assert s + w == s;
    } else {
      assert (s + w)[..|s + w| - 1] == s + w[..|w| - 1];
      TrimSpaces(s, w[..|w| - 1]);
    }
  }

  lemma TrimNothing(s: string)
    requires s != "" ==> !IsSpace(s[|s| - 1])
    ensures TrimEnd(s) == s
  {
  }

  /** A trimmed text survives the blanks around it. */
  lemma StripTrimmed(v: string)
    requires Trimmed(v)
    ensures Strip(v) == v
    ensures Strip(" " + v) == v
  {
    TrimNothing(v);
    SkipSpaces("", v);
    Seqs.Empty(v);
    if v == "" {
      StripBlank();
    } else {
      TrimNothing(" " + v);
      SkipSpaces(" ", v);
    }
  }

  lemma StripBehindBlank(v: string)
    ensures Strip(" " + v) == Strip(v)
  {
    TrimBehindBlank(v);
    assert (" " + TrimEnd(v))[1..] == TrimEnd(v);
  }

  lemma {:induction false} TrimBehindBlank(v: string)
    ensures TrimEnd(" " + v) == if TrimEnd(v) == "" then "" else " " + TrimEnd(v)
    decreases |v|
  {
    var s := " " + v;
    if v == "" {
      assert s == " " && s[..0] == "";
    } else {
      assert s[|s| - 1] == v[|v| - 1] && s[..|s| - 1] == " " + v[..|v| - 1];
      if IsSpace(v[|v| - 1]) {
        TrimBehindBlank(v[..|v| - 1]);
      }
    }
  }

  /** White space is taken off exactly where there is some. */
  lemma StripIsIdentity(v: string)
    ensures Strip(v) == v <==> Trimmed(v)
  {
    if Trimmed(v) {
      StripTrimmed(v);
    } else {
      Stripped(v);
    }
  }

  lemma Stripped(v: string)
    ensures Trimmed(Strip(v))
  {
  }

  lemma StripBlank()
    ensures Strip(" " + "") == ""
  {
    TrimSpaces("", " ");
    assert "" + " " == " " + "";
  }

  lemma {:induction false} AlnumRun(k: string, s: string)
    requires forall i :: 0 <= i < |k| ==> IsAlnum(k[i])
    requires s != "" ==> !IsAlnum(s[0])
    ensures AlnumLen(k + s) == |k|
  {
    assert forall i :: 0 <= i < |k| ==> (k + s)[i] == k[i];
    assert s != "" ==> (k + s)[|k|] == s[0];
  }

  lemma {:induction false} NameRun(k: string, s: string)
    requires forall i :: 0 <= i < |k| ==> IsNameChar(k[i])
    requires s != "" ==> !IsNameChar(s[0])
    ensures NameLen(k + s) == |k|
  {
    assert forall i :: 0 <= i < |k| ==> (k + s)[i] == k[i];
    assert s != "" ==> (k + s)[|k|] == s[0];
  }

  lemma DigitBack(d: nat)
    requires d < 10
    ensures IsDigit(DigitChar(d)) && DigitVal(DigitChar(d)) == d
  {
  }

  lemma OctalByte(b: nat)
    requires b < 256
    ensures b / 64 < 10 && b / 8 % 8 < 10 && b % 8 < 10 && ((b / 64 * 8 + b / 8 % 8) * 8 + b % 8) % 256 == b
  {
  }

  lemma ThreeDigits(x: char, y: char, z: char, s: string)
    requires IsDigit(x) && IsDigit(y) && IsDigit(z)
    ensures Unescape([x, y, z] + s) == Char1((((DigitVal(x) * 8 + DigitVal(y)) * 8 + DigitVal(z)) % 256) as char, s)
  {
    hide DigitVal;
    var e := [x, y, z] + s;
    assert e[0] == x && e[1] == y && e[2] == z && e[3..] == s;
  }

  lemma OctalInverse(c: char, s: string)
    requires c as int < 256
    ensures Unescape(Octal(c) + s) == Char1(c, s)
  {
    hide Unescape, DigitChar;
    var b := c as int;
    OctalByte(b);
    FromDigits(c, b / 64, b / 8 % 8, b % 8, s);
  }

  lemma FromDigits(c: char, x: nat, y: nat, z: nat, s: string)
    requires x < 10 && y < 10 && z < 10 && ((x * 8 + y) * 8 + z) % 256 == c as int < 256
    ensures Unescape([DigitChar(x), DigitChar(y), DigitChar(z)] + s) == Char1(c, s)
  {
    hide Unescape, DigitChar, DigitVal, IsDigit;
    DigitBack(x);
    DigitBack(y);
    DigitBack(z);
    ThreeDigits(DigitChar(x), DigitChar(y), DigitChar(z), s);
  }

  lemma SimpleEscape(c: char, e: char, s: string)
    requires !IsDigit(e) && c == if e == 'n' then '\n' else if e == 't' then '\t' else if e == 'r' then '\r' else e
    ensures Unescape([e] + s) == Char1(c, s)
  {
    assert ([e] + s)[1..] == s;
  }

  /** The character is read back from what is printed for it. */
  ghost predicate ReadsBack(c: char, s: string)
  {
    var e := Escape(c);
    e != "" && e[0] != '"' &&
    if e == [c] then c != '\\' else e[0] == '\\' && |e| > 1 && Unescape(e[1..] + s) == Char1(c, s)
  }

  lemma NamedReadsBack(c: char, s: string)
    requires c == '\n' || c == '\t' || c == '\r' || c == '"' || c == '\\'
    ensures ReadsBack(c, s)
  {
    hide Unescape;
    var e := Escape(c);
    assert |e| == 2 && e[1..] == [e[1]];
    SimpleEscape(c, e[1], s);
  }

  lemma OctalReadsBack(c: char, s: string)
    requires c as int < 256 && !IsPrint(c) && c != '\n' && c != '\t' && c != '\r'
    ensures ReadsBack(c, s)
  {
    hide Unescape, Octal;
    assert Escape(c) == "\\" + Octal(c) && Escape(c)[1..] == Octal(c);
    OctalInverse(c, s);
  }

  /** Every byte is read back from its escape. */
  lemma EscapeInverse(c: char, s: string)
    requires c as int < 256
    ensures ReadsBack(c, s)
  {
    if c == '\n' || c == '\t' || c == '\r' || c == '"' || c == '\\' {
      NamedReadsBack(c, s);
    } else if !IsPrint(c) {
      OctalReadsBack(c, s);
    }
  }

  /** One escaped character in front of quoted text. */
  lemma QuotedStep(c: char, after: string, t: Text)
    requires c as int < 256 && Quoted(after) == Some(t)
    ensures Quoted(Escape(c) + after) == Some(Text([c] + t.text, t.rest))
  {
    hide Escape, Unescape;
    EscapeInverse(c, after);
    var e := Escape(c);
    var all := e + after;
    assert all[0] == e[0] && all[1..] == e[1..] + after;
    if e == [c] {
      assert all[1..] == after;
    }
  }

  lemma EscapedHead(v: string, s: string)
    requires v != ""
    ensures EscapeAll(v) + "\"" + s == Escape(v[0]) + (EscapeAll(v[1..]) + "\"" + s)
    ensures [v[0]] + v[1..] == v
  {
    var e, more := Escape(v[0]), EscapeAll(v[1..]);
    assert EscapeAll(v) == e + more;
    hide Escape, EscapeAll;
    Seqs.Assoc(e, more, "\"");
    Seqs.Assoc(e, more + "\"", s);
  }

  /** A quoted value is read back from its printed form, whatever follows. */
  lemma {:induction false} QuotedInverse(v: string, s: string)
    requires IsByteString(v)
    ensures Quoted(EscapeAll(v) + "\"" + s) == Some(Text(v, s))
  {
    if v == "" {
      QuotedNothing(s);
    } else {
      hide EscapeAll, Quoted;
      EscapedHead(v, s);
      QuotedInverse(v[1..], s);
      QuotedStep(v[0], EscapeAll(v[1..]) + "\"" + s, Text(v[1..], s));
    }
  }

  lemma QuotedNothing(s: string)
    ensures Quoted(EscapeAll("") + "\"" + s) == Some(Text("", s))
  {
    var all := EscapeAll("") + "\"" + s;
    assert all == "\"" + s && all[1..] == s;
  }

  ghost predicate IsKey(k: string)
  {
    k != "" && forall i :: 0 <= i < |k| ==> IsAlnum(k[i])
  }

  ghost predicate PrintableAttr(a: Attr)
  {
    IsKey(a.key) && IsByteString(a.value)
  }

  /** The value `1` is printed as a bare key, and a bare key reads as the empty value. */
  function BareRead(a: Attr): Attr
  {
    if a.value == "1" then Attr(a.key, "") else a
  }

  function BareReadAll(attrs: seq<Attr>): (r: seq<Attr>)
    ensures |r| == |attrs|
  {
    if attrs == [] then [] else [BareRead(attrs[0])] + BareReadAll(attrs[1..])
  }

  lemma {:induction false} NoNul(v: string)
    requires IsByteString(v)
    ensures UpToNul(v) == v
  {
    if v != "" {
      NoNul(v[1..]);
    }
  }

  lemma SkipNothing(s: string)
    requires s != "" ==> !IsSpace(s[0])
    ensures SkipWs(s) == s
  {
  }

  lemma ReprShape(v: string, x: string)
    ensures var r := Repr(v) + x;
      r != "" && r[0] == '"' && r[1..] == EscapeAll(v) + "\"" + x &&
      ("=" + Repr(v) + x)[0] == '=' && ("=" + Repr(v) + x)[1..] == r
  {
  }

  lemma QuotedValue(v: string, x: string)
    requires IsByteString(v)
    ensures ParseValue(SkipWs("=" + Repr(v) + x)) == Some(Text(v, x))
  {
    hide SkipWs, Repr, EscapeAll, Quoted, UpToNul, IsByteString;
    ReprShape(v, x);
    SkipNothing("=" + Repr(v) + x);
    SkipNothing(Repr(v) + x);
    QuotedInverse(v, x);
    NoNul(v);
  }

  lemma BareValue(x: string)
    requires x != "" && !IsSpace(x[0]) && x[0] != '='
    ensures ParseValue(SkipWs(x)) == Some(Text("", x))
  {
  }

  /** One attribute and the comma or bracket behind it. */
  lemma OneAttr(a: Attr, x: string)
    requires PrintableAttr(a) && x != "" && (x[0] == ',' || x[0] == ']')
    ensures var s, k := AttrText(a) + x, |a.key|;
      s[0] != ']' && AlnumLen(s) == k && 0 < k < |s| && s[..k] == a.key &&
      ParseValue(SkipWs(s[k..])) == Some(Text(BareRead(a).value, x))
  {
    hide SkipWs, Repr, ParseValue, AlnumLen, IsByteString;
    var tail := if a.value == "1" then x else "=" + Repr(a.value) + x;
    AttrShape(a, x);
    AlnumRun(a.key, tail);
    if a.value == "1" {
      BareValue(x);
    } else {
      QuotedValue(a.value, x);
    }
  }

  lemma AttrShape(a: Attr, x: string)
    requires a.key != "" && x != ""
    ensures var s, tail := AttrText(a) + x, if a.value == "1" then x else "=" + Repr(a.value) + x;
      s == a.key + tail && s[0] == a.key[0] && s[..|a.key|] == a.key && s[|a.key|..] == tail &&
      tail != "" && (a.value == "1" || tail[0] == '=')
  {
  }

  lemma CommaSkipped(x: string)
    requires x != "" && !IsSpace(x[0])
    ensures SkipComma(", " + x) == x
  {
    assert (", " + x)[1..] == " " + x;
    SkipSpaces(" ", x);
    SkipNothing(", " + x);
  }

  lemma BracketKept(x: string)
    requires StartsWith(x, ']')
    ensures SkipComma(x) == x
  {
    SkipNothing(x);
  }

  lemma AttrsTextStart(attrs: seq<Attr>, x: string)
    requires attrs != [] && PrintableAttr(attrs[0])
    ensures AttrsText(attrs) != "" && !IsSpace((AttrsText(attrs) + x)[0])
  {
    assert AttrsText(attrs)[0] == attrs[0].key[0];
    assert IsAlnum(attrs[0].key[0]);
  }

  lemma FirstAttr(a: Attr, x: string, l: AttrList)
    requires PrintableAttr(a) && x != "" && (x[0] == ',' || x[0] == ']')
    requires ParseAttrs(SkipComma(x)) == Some(l)
    ensures ParseAttrs(AttrText(a) + x) == Some(AttrList([BareRead(a)] + l.attrs, l.rest))
  {
    OneAttr(a, x);
    ParseOne(AttrText(a) + x, a.key, BareRead(a).value, x, l);
  }

  lemma ParseOne(s: string, key: string, v: string, x: string, l: AttrList)
    requires s != "" && s[0] != ']' && AlnumLen(s) == |key| && 0 < |key| < |s| && s[..|key|] == key
    requires ParseValue(SkipWs(s[|key|..])) == Some(Text(v, x))
    requires ParseAttrs(SkipComma(x)) == Some(l)
    ensures ParseAttrs(s) == Some(AttrList([Attr(key, v)] + l.attrs, l.rest))
  {
  }

  lemma BracketEnds(s: string)
    ensures ParseAttrs("]" + s) == Some(AttrList([], s))
  {
    assert ("]" + s)[1..] == s;
  }

  lemma ListSplit(a: string, b: string, s: string)
    ensures a + ", " + b + "]" + s == a + (", " + (b + "]" + s))
    ensures b + "]" + s == b + ("]" + s)
  {
  }

  /** Reading the list that the printer writes gives the list back, with the value `1` turned
      into the empty one, and stops right behind the closing bracket. */
  lemma {:induction false} ParseAttrsInverse(attrs: seq<Attr>, s: string)
    requires forall i :: 0 <= i < |attrs| ==> PrintableAttr(attrs[i])
    ensures ParseAttrs(AttrsText(attrs) + "]" + s) == Some(AttrList(BareReadAll(attrs), s))
  {
    BracketEnds(s);
    if attrs == [] {
      Seqs.Empty("]");
    } else if |attrs| == 1 {
      ListSplit("", AttrText(attrs[0]), s);
      BracketKept("]" + s);
      FirstAttr(attrs[0], "]" + s, AttrList([], s));
    } else {
      var more := AttrsText(attrs[1..]) + "]" + s;
      ListSplit(AttrText(attrs[0]), AttrsText(attrs[1..]), s);
      AttrsTextStart(attrs[1..], "]" + s);
      CommaSkipped(more);
      ParseAttrsInverse(attrs[1..], s);
      FirstAttr(attrs[0], ", " + more, AttrList(BareReadAll(attrs[1..]), s));
    }
  }

  /** A list comes back as it was exactly if no value in it is `1`. */
  lemma {:induction false} BareReadIsIdentity(attrs: seq<Attr>)
    ensures BareReadAll(attrs) == attrs <==> forall i :: 0 <= i < |attrs| ==> attrs[i].value != "1"
  {
    if attrs != [] {
      var r := BareReadAll(attrs);
      BareReadIsIdentity(attrs[1..]);
      assert r[0] == BareRead(attrs[0]) && r[1..] == BareReadAll(attrs[1..]);
      assert attrs == [attrs[0]] + attrs[1..];
    }
  }
}
