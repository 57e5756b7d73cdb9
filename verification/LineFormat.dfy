/** One line of a configuration file: how it is printed, how it is read, and exactly when reading
    gives back what was printed. */
module LineFormat {
  import opened Text
  import opened OptionValue

  // ---------------------------------------------------------------- printing

  function Escape(name: string): string {
    if name != "" && (name[0] == '#' || name[0] == '[' || name[0] == '\\') then "\\" else ""
  }

  function ValueText(kind: Kind, v: Value): string
    requires Typed(kind, v)
  {
    match kind
    case Boolean => if v.n == 1 then "on" else "off"
    case Integer(_, _) => IntText(v.n)
    case Enum(words) => words[v.n]
    case Str => "\"" + v.s + "\""
  }

  /** The line of an option, without its end of line. */
  function OptionText(name: string, kind: Kind, v: Option<Value>): string
    requires TypedOrNull(kind, v)
  {
    Escape(name) + name + if v.None? then "" else " = " + ValueText(kind, v.value)
  }

  function HeaderText(section: string): string {
    "[" + section + "]"
  }

  // ---------------------------------------------------------------- reading

  datatype Line =
    | Ignored                                         // comment or empty line
    | NoBracket                                       // "[" without "]"
    | Header(section: string)
    | OptionLine(name: string, value: Option<string>)

  function SkipSpaces(s: string): (r: string)
    ensures r == "" || r[0] != ' '
    ensures |r| <= |s|
  {
    if s != "" && s[0] == ' ' then SkipSpaces(s[1..]) else s
  }

  /** Trailing spaces removed, but never the first character. */
  function TrimEnd(s: string): (r: string)
    ensures r <= s && (s != "" ==> r != "")
    ensures |r| <= 1 || r[|r| - 1] != ' '
    ensures forall i :: |r| <= i < |s| ==> s[i] == ' '
  {
    if |s| > 1 && s[|s| - 1] == ' ' then TrimEnd(s[..|s| - 1]) else s
  }

  /** The text between quotes, when the first and the last character are the same quote. */
  function Unquote(s: string): string
    requires s != ""
  {
    var last := s[|s| - 1];
    if s[0] == last && (last == '\'' || last == '"') then
      (if |s| == 1 then "" else s[1..|s| - 1])
    else s
  }

  /** The value read from the text after "=": None means undefined (null). */
  function ReadValue(text: string): Option<string> {
    var v := SkipSpaces(text);
    if v == "" || EqFold(v, "null") then None
    else if |v| == 1 then Some(v)
    else Some(Unquote(TrimEnd(v)))
  }

  function StripEscape(s: string): string {
    if s != "" && s[0] == '\\' then s[1..] else s
  }

  /** The content of an option line once the end of line is cut. */
  function ReadOption(body: string): Line {
    var k := IndexOf2(body, ' ', '=', 0);
    if k == |body| then OptionLine(StripEscape(body), None)
    else OptionLine(StripEscape(TrimEnd(body[..k])), ReadValue(body[k + 2..]))
  }

  function ReadLine(line: string): Line {
    var p := SkipSpaces(line);
    if p != "" && (p[0] == '#' || p[0] == '\r' || p[0] == '\n') then Ignored
    else if p != "" && p[0] == '[' && '=' !in p then
      if ']' in p then Header(CutAt(p, ']')[1..]) else NoBracket
    else ReadOption(CutAt(CutAt(line, '\r'), '\n'))
  }

  // ---------------------------------------------------------------- exact conditions

  predicate OneLine(s: string) { '\r' !in s && '\n' !in s }

  predicate HasSpaceEqual(s: string) {
    exists i :: 0 <= i && i + 1 < |s| && s[i] == ' ' && s[i + 1] == '='
  }

  /** A line with a value is found again under the same name. */
  predicate NameWithValueOk(name: string) {
    && OneLine(name)
    && !HasSpaceEqual(name)
    && (|name| > 1 ==> name[|name| - 1] != ' ')
    && (name != "" && name[0] == ' ' ==> var c := SkipSpaces(name); c == "" || c[0] != '#')
  }

  /** A line without a value is found again under the same name. */
  predicate NameAloneOk(name: string) {
    && OneLine(name)
    && !HasSpaceEqual(name)
    && SkipSpaces(name) != ""
    && (name[0] == ' ' ==> var c := SkipSpaces(name); c[0] != '#' && (c[0] == '[' ==> '=' in c))
  }

  /** The text of a value written without quotes is read back as it is. */
  predicate BareTextOk(w: string) {
    && w != "" && w[0] != ' '
    && !EqFold(w, "null")
    && (|w| > 1 ==> w[|w| - 1] != ' ' && !(w[0] == w[|w| - 1] && (w[0] == '\'' || w[0] == '"')))
  }

  lemma CutAtPrefix(a: string, c: char, b: string)
    requires c !in a
    ensures CutAt(a + [c] + b, c) == a
  {
    var s := a + [c] + b;
    assert s[|a|] == c;
    assert forall i :: 0 <= i < |a| ==> s[i] == a[i];
    assert s[..|a|] == a;
  }

  lemma CutAtOneLine(s: string)
    requires OneLine(s)
    ensures CutAt(CutAt(s + "\n", '\r'), '\n') == s
  {
    assert '\r' !in s + "\n";
    CutAtPrefix(s, '\n', "");
    assert s + ['\n'] + "" == s + "\n";
  }

  lemma {:induction false} SkipSpacesConcat(a: string, b: string)
    ensures SkipSpaces(a + b) == if SkipSpaces(a) == "" then SkipSpaces(b) else SkipSpaces(a) + b
  {
    if a == "" {
      assert a + b == b;
    } else {
      assert (a + b)[0] == a[0];
      if a[0] == ' ' {
        SkipSpacesConcat(a[1..], b);
        assert (a + b)[1..] == a[1..] + b;
      }
    }
  }

  lemma SkipOneSpace(w: string)
    ensures SkipSpaces(" " + w) == SkipSpaces(w)
  {
    assert (" " + w)[1..] == w;
  }

  lemma TrimEndKeeps(s: string)
    ensures TrimEnd(s) == s <==> |s| <= 1 || s[|s| - 1] != ' '
  {
  }

  lemma UnquoteExact(v: string)
    requires |v| > 1
    ensures Unquote(TrimEnd(v)) == v
       <==> v[|v| - 1] != ' ' && !(v[0] == v[|v| - 1] && (v[0] == '\'' || v[0] == '"'))
  {
    TrimEndKeeps(v);
    assert |Unquote(v)| == |v| ==> Unquote(v) == v;
    if TrimEnd(v) != v {
      assert |Unquote(TrimEnd(v))| <= |TrimEnd(v)| < |v|;
    }
  }

  lemma BareTextExact(w: string)
    ensures ReadValue(" " + w) == Some(w) <==> BareTextOk(w)
  {
    SkipOneSpace(w);
    var v := SkipSpaces(w);
    if w != "" && w[0] != ' ' {
      assert v == w;
      if |v| > 1 {
        UnquoteExact(v);
      }
    } else if v != "" {
      assert |Unquote(TrimEnd(v))| <= |TrimEnd(v)| <= |v| < |w|;
    }
  }

  lemma QuotedText(s: string)
    ensures ReadValue(" \"" + s + "\"") == Some(s)
  {
    var v := "\"" + s + "\"";
    assert " \"" + s + "\"" == " " + v;
    SkipOneSpace(v);
    assert SkipSpaces(v) == v;
    assert !EqFold(v, "null") by {
      StrCaseCmpZero(v, "null");
      assert FoldChar(v[0]) != FoldChar("null"[0]);
    }
    TrimEndKeeps(v);
    assert v[1..|v| - 1] == s;
  }

  // ---------------------------------------------------------------- whole lines

  lemma {:induction false} SkipSpacesMembers(s: string)
    ensures forall c :: c in SkipSpaces(s) ==> c in s
    ensures forall c :: c in s && c != ' ' ==> c in SkipSpaces(s)
  {
    if s != "" && s[0] == ' ' {
      SkipSpacesMembers(s[1..]);
      assert s == [s[0]] + s[1..];
    }
  }

  lemma SkipSpacesBeforeEnd(s: string)
    ensures SkipSpaces(s + "\n") == SkipSpaces(s) + "\n"
  {
    SkipSpacesConcat(s, "\n");
    assert SkipSpaces("\n") == "\n" && "" + "\n" == "\n";
  }

  /** Reading a text that is one line followed by an end of line. */
  lemma ReadOneLine(s: string)
    requires OneLine(s)
    ensures var p := SkipSpaces(s);
      ReadLine(s + "\n") ==
        if p == "" || p[0] == '#' then Ignored
        else if p[0] == '[' && '=' !in p then
          (if ']' in p then Header(CutAt(p, ']')[1..]) else NoBracket)
        else ReadOption(s)
  {
    var p := SkipSpaces(s);
    SkipSpacesBeforeEnd(s);
    SkipSpacesMembers(s);
    if p != "" && p[0] == '[' && '=' !in p {
      if ']' in p {
        CutAtConcat(p, "\n", ']');
      }
    } else {
      CutAtOneLine(s);
      assert p != "" ==> p[0] in p;
    }
  }

  lemma CutAtConcat(a: string, b: string, c: char)
    requires c in a
    ensures CutAt(a + b, c) == CutAt(a, c)
  {
    var k := IndexOf(a, c, 0);
    var i :| 0 <= i < |a| && a[i] == c;
    assert k <= i;
    assert (a + b)[k] == c;
    assert forall j :: 0 <= j < k ==> (a + b)[j] == a[j];
    assert IndexOf(a + b, c, 0) == k;
    assert (a + b)[..k] == a[..k];
  }

  lemma BracketText(section: string)
    ensures CutAt("[" + section + "]\n", ']') == "[" + section <==> ']' !in section
  {
    var p := "[" + section + "]\n";
    if ']' !in section {
      CutAtPrefix("[" + section, ']', "\n");
      assert "[" + section + [']'] + "\n" == p;
    } else {
      var i :| 0 <= i < |section| && section[i] == ']';
      assert p[i + 1] == ']';
      assert |CutAt(p, ']')| <= i + 1;
    }
  }

  lemma ReadBracketText(section: string)
    ensures var p := "[" + section + "]\n";
      ReadLine(p) == if '=' in section then ReadOption(CutAt(CutAt(p, '\r'), '\n')) else Header(CutAt(p, ']')[1..])
  {
    var p := "[" + section + "]\n";
    assert p[0] == '[' && SkipSpaces(p) == p && p[|section| + 1] == ']';
    assert p[1..|section| + 1] == section;
    assert '=' in p <==> '=' in section;
  }

  /** A section header is read back exactly when its name has neither "]" nor "=". */
  lemma HeaderExact(section: string)
    ensures ReadLine(HeaderText(section) + "\n") == Header(section)
       <==> ']' !in section && '=' !in section
  {
    var p := HeaderText(section) + "\n";
    assert p == "[" + section + "]\n";
    ReadBracketText(section);
    BracketText(section);
    var cut := CutAt(p, ']');
    assert ("[" + section)[1..] == section;
    assert cut[1..] == section ==> cut == "[" + section;
  }

  lemma {:induction false} SubText(s: string)
    ensures OneLine(s) ==> OneLine(TrimEnd(s)) && OneLine(SkipSpaces(s)) && OneLine(StripEscape(s))
    ensures OneLine(s) && s != "" ==> OneLine(Unquote(s))
  {
    SkipSpacesMembers(s);
  }

  lemma ReadValueOneLine(t: string)
    requires OneLine(t)
    ensures ReadValue(t).Some? ==> OneLine(ReadValue(t).value)
  {
    SubText(t);
    var v := SkipSpaces(t);
    SubText(v);
    if v != "" {
      SubText(TrimEnd(v));
    }
  }

  /** Nothing read from an option line contains an end of line. */
  lemma ReadOptionOneLine(body: string)
    requires OneLine(body)
    ensures var r := ReadOption(body);
      OneLine(r.name) && (r.value.Some? ==> OneLine(r.value.value))
  {
    var k := IndexOf2(body, ' ', '=', 0);
    if k < |body| {
      var a, b := body[..k], body[k + 2..];
      SliceOneLine(body, a, b);
      ReadNameOneLine(a);
      ReadValueOneLine(b);
    } else {
      SubText(body);
    }
  }

  lemma SliceOneLine(s: string, a: string, b: string)
    requires OneLine(s) && a <= s && |b| <= |s| && b == s[|s| - |b|..]
    ensures OneLine(a) && OneLine(b)
  {
  }

  lemma ReadNameOneLine(a: string)
    requires OneLine(a)
    ensures OneLine(StripEscape(TrimEnd(a)))
  {
    SubText(a);
    SubText(TrimEnd(a));
  }

  lemma ReadLineOneLine(line: string)
    ensures var r := ReadLine(line);
      r.OptionLine? ==> OneLine(r.name) && (r.value.Some? ==> OneLine(r.value.value))
  {
    var body := CutAt(CutAt(line, '\r'), '\n');
    assert OneLine(body);
    ReadOptionOneLine(body);
  }

  // The name on a line with a value.

  lemma FirstSpaceEqual(a: string, b: string)
    requires !HasSpaceEqual(a)
    ensures IndexOf2(a + " =" + b, ' ', '=', 0) == |a|
  {
    var s := a + " =" + b;
    var k := IndexOf2(s, ' ', '=', 0);
    assert s[|a|] == ' ' && s[|a| + 1] == '=';
    forall i | 0 <= i < |a|
      ensures !(s[i] == ' ' && s[i + 1] == '=')
    {
      assert s[i] == a[i];
      assert i + 1 < |a| ==> s[i + 1] == a[i + 1];
    }
  }

  lemma EarlySpaceEqual(a: string, b: string)
    requires HasSpaceEqual(a)
    ensures IndexOf2(a + b, ' ', '=', 0) + 1 < |a|
  {
    var i :| 0 <= i && i + 1 < |a| && a[i] == ' ' && a[i + 1] == '=';
    assert (a + b)[i] == ' ' && (a + b)[i + 1] == '=';
  }

  lemma EscapeHasSpaceEqual(name: string)
    ensures HasSpaceEqual(Escape(name) + name) <==> HasSpaceEqual(name)
  {
    var e := Escape(name) + name;
    if HasSpaceEqual(name) {
      var i :| 0 <= i && i + 1 < |name| && name[i] == ' ' && name[i + 1] == '=';
      assert e[i + |Escape(name)|] == ' ' && e[i + |Escape(name)| + 1] == '=';
    }
    if HasSpaceEqual(e) {
      var i :| 0 <= i && i + 1 < |e| && e[i] == ' ' && e[i + 1] == '=';
      var j := i - |Escape(name)|;
      assert j >= 0;
      assert name[j] == ' ' && name[j + 1] == '=';
    }
  }

  lemma StripsItsEscape(name: string, n: nat)
    requires n <= |Escape(name) + name| && (n == 0 ==> Escape(name) == "")
    ensures StripEscape((Escape(name) + name)[..n]) == name[..n - |Escape(name)|]
  {
    var e := (Escape(name) + name)[..n];
    if Escape(name) == "" {
      assert e == name[..n];
    } else {
      var all := "\\" + name;
      assert all[1..] == name;
      assert e == all[..n] && e[1..] == all[1..][..n - 1];
    }
  }

  lemma ReadBody(body: string, k: nat)
    requires IndexOf2(body, ' ', '=', 0) == k < |body|
    ensures k + 2 <= |body|
    ensures ReadOption(body) == OptionLine(StripEscape(TrimEnd(body[..k])), ReadValue(body[k + 2..]))
  {
  }

  lemma StrippedPrefix(name: string, cut: string)
    requires cut <= Escape(name) + name && (cut == "" ==> Escape(name) == "")
    ensures |Escape(name)| <= |cut| && StripEscape(cut) == name[..|cut| - |Escape(name)|]
  {
    assert cut == (Escape(name) + name)[..|cut|];
    StripsItsEscape(name, |cut|);
  }

  /** The name read when the body is cut after n characters of the printed name. */
  lemma CutName(name: string, n: nat)
    requires n <= |Escape(name) + name| && (n == 0 ==> Escape(name) == "")
    ensures |StripEscape(TrimEnd((Escape(name) + name)[..n]))| <= n - |Escape(name)|
  {
    StrippedPrefix(name, TrimEnd((Escape(name) + name)[..n]));
  }

  lemma WholeCut(name: string, cut: string)
    requires cut <= Escape(name) + name && (cut == "" ==> Escape(name) == "")
    ensures StripEscape(cut) == name <==> |cut| == |Escape(name) + name|
  {
    StrippedPrefix(name, cut);
    assert name[..|name|] == name;
  }

  lemma TrimEndLength(s: string)
    ensures |TrimEnd(s)| == |s| <==> |s| <= 1 || s[|s| - 1] != ' '
  {
  }

  lemma EscapedEnd(name: string)
    ensures var e := Escape(name) + name;
      |e| <= 1 || e[|e| - 1] != ' ' <==> |name| > 1 ==> name[|name| - 1] != ' '
  {
    if name != "" {
      assert (Escape(name) + name)[|Escape(name)| + |name| - 1] == name[|name| - 1];
    }
  }

  /** The whole printed name loses its last character when that is a space. */
  lemma WholeName(name: string)
    ensures StripEscape(TrimEnd(Escape(name) + name)) == name <==> |name| > 1 ==> name[|name| - 1] != ' '
  {
    var cut := TrimEnd(Escape(name) + name);
    WholeCut(name, cut);
    TrimEndLength(Escape(name) + name);
    EscapedEnd(name);
  }

  /** Name and value of a printed body, whatever its dispatch. */
  lemma ReadPrintedBody(name: string, t: string)
    ensures var r := ReadOption(Escape(name) + name + " = " + t);
      && (r.name == name <==> !HasSpaceEqual(name) && (|name| > 1 ==> name[|name| - 1] != ' '))
      && (r.name == name ==> r.value == ReadValue(" " + t))
  {
    var e := Escape(name) + name;
    var body := e + " = " + t;
    assert body == e + " =" + (" " + t) && body == e + (" = " + t);
    var k := IndexOf2(body, ' ', '=', 0);
    EscapeHasSpaceEqual(name);
    if HasSpaceEqual(name) {
      EarlySpaceEqual(e, " = " + t);
      assert body[..k] == e[..k];
      assert k > 0 || Escape(name) == "" by { assert body[0] == e[0]; }
    } else {
      FirstSpaceEqual(e, " " + t);
      assert body[..|e|] == e == e[..|e|] && body[|e| + 2..] == " " + t;
    }
    ReadBody(body, k);
    CutName(name, k);
    WholeName(name);
  }

  lemma PrintedStart(name: string, rest: string)
    ensures var e := Escape(name) + name;
      && (name != "" && name[0] != ' ' ==>
            var p := SkipSpaces(e + rest); p == e + rest && p[0] != '#' && p[0] != '[')
      && (name == "" || name[0] == ' ' ==>
            SkipSpaces(e + rest) == if SkipSpaces(name) == "" then SkipSpaces(rest) else SkipSpaces(name) + rest)
  {
    var e := Escape(name) + name;
    if name == "" || name[0] == ' ' {
      assert e == name;
      SkipSpacesConcat(name, rest);
    } else {
      assert (e + rest)[0] == e[0];
    }
  }

  lemma ReadPrintedValue(name: string, t: string)
    requires OneLine(name) && OneLine(t)
    ensures var r := ReadLine(Escape(name) + name + " = " + t + "\n");
      (r.OptionLine? && r.name == name <==> NameWithValueOk(name))
      && (NameWithValueOk(name) ==> r == OptionLine(name, ReadValue(" " + t)))
  {
    var rest := " = " + t;
    var s := Escape(name) + name + rest;
    assert OneLine(s);
    assert s + "\n" == Escape(name) + name + " = " + t + "\n";
    assert s == Escape(name) + name + " = " + t;
    ReadOneLine(s);
    PrintedStart(name, rest);
    SkipOneSpace("= " + t);
    assert " " + ("= " + t) == rest;
    ReadPrintedBody(name, t);
    assert '=' in SkipSpaces(s) by {
      SkipSpacesMembers(s);
      assert s[|Escape(name) + name| + 1] == '=';
    }
  }

  /** A printed name alone is read back unless it contains " =". */
  lemma ReadNameAlone(name: string)
    ensures ReadOption(Escape(name) + name) == OptionLine(name, None) <==> !HasSpaceEqual(name)
  {
    var s := Escape(name) + name;
    EscapeHasSpaceEqual(name);
    if HasSpaceEqual(name) {
      var k := IndexOf2(s, ' ', '=', 0);
      EarlySpaceEqual(s, "");
      assert s + "" == s;
      assert k > 0 || Escape(name) == "";
      ReadBody(s, k);
      CutName(name, k);
    } else {
      NoSpaceEqual(s);
      assert s[..|s|] == s && name[..|name|] == name;
      StripsItsEscape(name, |s|);
    }
  }

  lemma ReadPrintedAlone(name: string)
    requires OneLine(name)
    ensures ReadLine(Escape(name) + name + "\n") == OptionLine(name, None) <==> NameAloneOk(name)
  {
    var s := Escape(name) + name;
    assert s + "" == s;
    ReadOneLine(s);
    PrintedStart(name, "");
    assert SkipSpaces("") == "";
    assert SkipSpaces(name) + "" == SkipSpaces(name);
    ReadNameAlone(name);
  }

  lemma NoSpaceEqual(s: string)
    requires !HasSpaceEqual(s)
    ensures IndexOf2(s, ' ', '=', 0) == |s|
  {
  }
}
