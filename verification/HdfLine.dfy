/** One line of a data-set file: how the reader takes it apart, and the three kinds of line the
    printer writes. */
module HdfLine {
  import Seqs
  import opened HdfTree
  import opened HdfLex

  datatype Stmt =
    | Blank
    | Include
    | Close
    | Assign(name: string, value: string, attrs: seq<Attr>)
    | CopyOf(name: string, source: string, attrs: seq<Attr>)
    | Link(name: string, value: string, attrs: seq<Attr>)
    | Open(name: string, attrs: seq<Attr>)
    | Heredoc(name: string, term: string, attrs: seq<Attr>)
    | Bad

  // ---- reading a line ---------------------------------------------------------------

  function ParseLine(line: string): (r: Stmt)
    ensures r.Heredoc? ==> r.term != ""
  {
    var s := SkipWs(line);
    if "#include " <= s then Include
    else if s == "" || s[0] == '#' then Blank
    else if s[0] == '}' then (if Strip(s) == "}" then Close else Bad)
    else ParseNamed(s[..NameLen(s)], SkipWs(s[NameLen(s)..]))
  }

  function ParseNamed(name: string, s: string): (r: Stmt)
    ensures r.Heredoc? ==> r.term != ""
  {
    if StartsWith(s, '[') then
      match ParseAttrs(s[1..])
      case None => Bad
      case Some(l) => ParseRest(name, l.attrs, SkipWs(l.rest))
    else ParseRest(name, [], s)
  }

  function ParseRest(name: string, attrs: seq<Attr>, s: string): (r: Stmt)
    ensures r.Heredoc? ==> r.term != ""
  {
    if StartsWith(s, '=') then Assign(name, Strip(s[1..]), attrs)
    else if ":=" <= s then CopyOf(name, Strip(s[2..]), attrs)
    else if StartsWith(s, ':') then Link(name, Strip(s[1..]), attrs)
    else if StartsWith(s, '{') then Open(name, attrs)
    else if "<<" <= s then
      var term := Strip(s[2..]);
      if term == "" then Bad else Heredoc(name, term, attrs)
    else Bad
  }

  // ---- writing a line ---------------------------------------------------------------

  function AttrPart(attrs: seq<Attr>): string
  {
    if attrs == [] then "" else " [" + AttrsText(attrs) + "] "
  }

  /** A label is an indentation and a dotted name. */
  ghost predicate IsLabel(name: string)
  {
    name != "" && forall i :: 0 <= i < |name| ==> IsNameChar(name[i])
  }

  ghost predicate IsIndent(w: string)
  {
    forall i :: 0 <= i < |w| ==> w[i] == ' '
  }

  lemma NotInclude(s: string)
    requires s == "" || s[0] != '#'
    ensures !("#include " <= s)
  {
    assert "#include "[0] == '#';
  }

  lemma {:induction false} NamedLine(line: string, s: string)
    requires s == SkipWs(line) && s != "" && IsNameChar(s[0])
    ensures ParseLine(line) == ParseNamed(s[..NameLen(s)], SkipWs(s[NameLen(s)..]))
  {
    hide ParseNamed, SkipWs, NameLen;
    NotInclude(s);
  }

  lemma {:induction false} LabelRead(w: string, name: string, x: string)
    requires IsIndent(w) && IsLabel(name) && StartsWith(x, ' ')
    ensures ParseLine(w + name + x) == ParseNamed(name, SkipWs(x))
  {
    hide ParseLine, ParseNamed, SkipWs, NameLen;
    var s := name + x;
    Seqs.Halves(name, x);
    assert w + name + x == w + s;
    SkipSpaces(w, s);
    NameRun(name, x);
    NamedLine(w + s, s);
  }

  lemma NoAttrsRead(name: string, x: string)
    requires x != "" && !IsSpace(x[0]) && x[0] != '['
    ensures ParseNamed(name, SkipWs(" " + x)) == ParseRest(name, [], x)
  {
    SkipSpaces(" ", x);
  }

  lemma {:induction false} AttrsRead(name: string, attrs: seq<Attr>, x: string)
    requires forall i :: 0 <= i < |attrs| ==> PrintableAttr(attrs[i])
    requires x != "" && !IsSpace(x[0])
    ensures ParseNamed(name, SkipWs(" [" + AttrsText(attrs) + "] " + " " + x)) ==
            ParseRest(name, BareReadAll(attrs), x)
  {
    var body := AttrsText(attrs) + "]" + ("  " + x);
    AttrLineShape(attrs, x);
    SkipSpaces(" ", "[" + body);
    ParseAttrsInverse(attrs, "  " + x);
    assert ("[" + body)[1..] == body;
    SkipSpaces("  ", x);
  }

  lemma AttrLineShape(attrs: seq<Attr>, x: string)
    ensures " [" + AttrsText(attrs) + "] " + " " + x == " " + ("[" + (AttrsText(attrs) + "]" + ("  " + x)))
  {
  }

  /** A printed line, up to what stands behind its attributes, is read as it was meant. */
  lemma {:induction false} LineRead(w: string, name: string, attrs: seq<Attr>, x: string)
    requires IsIndent(w) && IsLabel(name)
    requires forall i :: 0 <= i < |attrs| ==> PrintableAttr(attrs[i])
    requires x != "" && !IsSpace(x[0]) && x[0] != '['
    ensures ParseLine(w + name + AttrPart(attrs) + (" " + x)) == ParseRest(name, BareReadAll(attrs), x)
  {
    hide ParseLine, ParseNamed, ParseRest, SkipWs, PrintableAttr, BareReadAll;
    var y := AttrPart(attrs) + (" " + x);
    assert w + name + AttrPart(attrs) + (" " + x) == w + name + y;
    if attrs == [] {
      Seqs.Empty(" " + x);
      LabelRead(w, name, y);
      NoAttrsRead(name, x);
    } else {
      assert y[0] == ' ';
      LabelRead(w, name, y);
      assert y == " [" + AttrsText(attrs) + "] " + " " + x;
      AttrsRead(name, attrs, x);
    }
  }

  lemma AssignRead(name: string, attrs: seq<Attr>, v: string)
    ensures ParseRest(name, attrs, "= " + v) == Assign(name, Strip(v), attrs)
  {
    hide Strip;
    assert ("= " + v)[1..] == " " + v;
    StripBehindBlank(v);
  }

  lemma NotCopy(s: string)
    requires |s| > 1 && s[1] != '='
    ensures !(":=" <= s)
  {
    assert ":="[1] == '=';
  }

  lemma LinkRead(name: string, attrs: seq<Attr>, v: string)
    ensures ParseRest(name, attrs, ": " + v) == Link(name, Strip(v), attrs)
  {
    hide Strip;
    var s := ": " + v;
    assert s[0] == ':' && s[1] == ' ' && s[1..] == " " + v;
    NotCopy(s);
    StripBehindBlank(v);
  }

  lemma OpenRead(name: string)
    ensures ParseRest(name, [], "{") == Open(name, [])
  {
  }

  lemma HeredocRead(name: string, attrs: seq<Attr>)
    ensures ParseRest(name, attrs, "<< EOM") == Heredoc(name, "EOM", attrs)
  {
    hide Strip;
    var s := "<< EOM";
    assert s[2..] == " " + "EOM" && s[0] == '<' && s[1] == '<';
    StripTrimmed("EOM");
  }

  lemma CloseRead(w: string)
    requires IsIndent(w)
    ensures ParseLine(w + "}") == Close
  {
    hide SkipWs, Strip, NameLen, ParseNamed;
    SkipSpaces(w, "}");
    StripTrimmed("}");
    NotInclude("}");
  }
}
