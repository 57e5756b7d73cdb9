/** Lines as a person writes them: spaces, quotes, ends of line; and lines as the program writes them. */
module LineMeaning {
  import opened Text
  import opened OptionValue
  import opened LineFormat
  import opened Restore

  predicate Spaces(s: string) {
    forall i :: 0 <= i < |s| ==> s[i] == ' '
  }

  lemma {:induction false} SpacesSkipped(spaces: string, rest: string)
    requires Spaces(spaces) && (rest == "" || rest[0] != ' ')
    ensures SkipSpaces(spaces + rest) == rest
  {
    if spaces == "" {
      assert spaces + rest == rest;
    } else {
      assert (spaces + rest)[0] == ' ' && (spaces + rest)[1..] == spaces[1..] + rest;
      SpacesSkipped(spaces[1..], rest);
    }
  }

  lemma {:induction false} SpacesTrimmed(s: string, spaces: string)
    requires Spaces(spaces) && s != "" && (|s| == 1 || s[|s| - 1] != ' ')
    ensures TrimEnd(s + spaces) == s
    decreases |spaces|
  {
    if spaces == "" {
      assert s + spaces == s;
    } else {
      var all := s + spaces;
      assert all[..|all| - 1] == s + spaces[..|spaces| - 1] && all[|all| - 1] == spaces[|spaces| - 1] == ' ';
      SpacesTrimmed(s, spaces[..|spaces| - 1]);
    }
  }

  lemma DifferentEnd(s: string, t: string)
    requires s != "" && t != "" && FoldChar(s[|s| - 1]) != FoldChar(t[|t| - 1])
    ensures !EqFold(s, t)
  {
    StrCaseCmpZero(s, t);
    assert Fold(s)[|s| - 1] == FoldChar(s[|s| - 1]) && Fold(t)[|t| - 1] == FoldChar(t[|t| - 1]);
  }

  // ---------------------------------------------------------------- values

  /** Nothing after "=" is null, and so is the word null in any case, with nothing after it. */
  lemma NullValue(spaces: string, w: string)
    requires Spaces(spaces) && (w == "" || EqFold(w, "null"))
    ensures ReadValue(spaces + w) == None
  {
    if w != "" {
      StrCaseCmpZero(w, "null");
      assert FoldChar(w[0]) == FoldChar("null"[0]);
    }
    SpacesSkipped(spaces, w);
  }

  /** A value in quotes of either kind, with spaces around it. */
  lemma QuotedValue(before: string, quote: char, v: string, after: string)
    requires Spaces(before) && Spaces(after) && (quote == '"' || quote == '\'')
    ensures ReadValue(before + ([quote] + v + [quote]) + after) == Some(v)
  {
    var q := [quote] + v + [quote];
    assert before + q + after == before + (q + after);
    assert (q + after)[0] == quote;
    SpacesSkipped(before, q + after);
    DifferentStart(q + after, "null");
    SpacesTrimmed(q, after);
    assert q[1..|q| - 1] == v;
  }

  /** A value without quotes, with spaces around it. */
  lemma PlainValue(before: string, w: string, after: string)
    requires Spaces(before) && Spaces(after) && BareTextOk(w)
    requires after != "" ==> |w| > 1
    ensures ReadValue(before + w + after) == Some(w)
  {
    assert before + w + after == before + (w + after);
    SpacesSkipped(before, w + after);
    if |w| > 1 {
      SpacesTrimmed(w, after);
      if after != "" {
        assert (w + after)[|w| + |after| - 1] == ' ';
        DifferentEnd(w + after, "null");
      } else {
        assert w + after == w;
      }
    } else {
      assert w + after == w;
    }
  }

  // ---------------------------------------------------------------- lines

  /** The name ends at the first " =", without the spaces before it. */
  lemma NameRead(name: string, spaces: string, text: string)
    requires name != "" && Spaces(spaces) && (|name| == 1 || name[|name| - 1] != ' ')
    requires !HasSpaceEqual(name)
    ensures ReadOption(name + spaces + " =" + text)
         == OptionLine(if name[0] == '\\' then name[1..] else name, ReadValue(text))
  {
    var body := name + spaces + " =" + text;
    var k := |name| + |spaces|;
    assert body[k] == ' ' && body[k + 1] == '=' && body[..k] == name + spaces && body[k + 2..] == text;
    forall i | 0 <= i < k
      ensures !(body[i] == ' ' && body[i + 1] == '=')
    {
      if i + 1 < |name| {
        assert body[i] == name[i] && body[i + 1] == name[i + 1];
      } else if i + 1 < k {
        assert body[i + 1] == spaces[i + 1 - |name|] == ' ';
      }
    }
    assert IndexOf2(body, ' ', '=', 0) == k;
    SpacesTrimmed(name, spaces);
  }

  /** Without " =" the whole line is the name, and the value is null. */
  lemma NameAlone(name: string)
    requires !HasSpaceEqual(name)
    ensures ReadOption(name) == OptionLine(if name != "" && name[0] == '\\' then name[1..] else name, None)
  {
    var k := IndexOf2(name, ' ', '=', 0);
  }

  /** The first character that is not a space. */
  predicate StartsWith(line: string, spaces: string, c: char, rest: string) {
    line == spaces + [c] + rest && Spaces(spaces) && c != ' '
  }

  lemma StartFound(line: string, spaces: string, c: char, rest: string)
    requires StartsWith(line, spaces, c, rest)
    ensures SkipSpaces(line) == [c] + rest
  {
    assert line == spaces + ([c] + rest);
    SpacesSkipped(spaces, [c] + rest);
  }

  /** Comments and empty lines, with spaces in front. */
  lemma IgnoredLine(line: string, spaces: string, c: char, rest: string)
    requires StartsWith(line, spaces, c, rest)
    ensures ReadLine(line) == Ignored <==> c == '#' || c == '\r' || c == '\n'
  {
    StartFound(line, spaces, c, rest);
  }

  /** A section header, with spaces in front and anything but "=" behind. */
  lemma HeaderLine(spaces: string, name: string, rest: string)
    requires Spaces(spaces) && ']' !in name && '=' !in name && '=' !in rest
    ensures ReadLine(spaces + "[" + (name + "]" + rest)) == Header(name)
  {
    var line, p := spaces + "[" + (name + "]" + rest), "[" + name + "]" + rest;
    assert line == spaces + ['['] + (name + "]" + rest) && ['['] + (name + "]" + rest) == p;
    StartFound(line, spaces, '[', name + "]" + rest);
    assert p == ("[" + name) + [']'] + rest;
    CutAtPrefix("[" + name, ']', rest);
    assert p[|name| + 1] == ']';
    assert ("[" + name)[1..] == name;
  }

  /** A line that starts with "[" is no header when it has a "=", and is an error when it has neither "=" nor "]". */
  lemma BracketLine(line: string, spaces: string, rest: string)
    requires StartsWith(line, spaces, '[', rest)
    ensures ReadLine(line) == NoBracket <==> '=' !in rest && ']' !in rest
    ensures '=' in rest ==> ReadLine(line).OptionLine?
  {
    StartFound(line, spaces, '[', rest);
    assert ReadOption(CutAt(CutAt(line, '\r'), '\n')).OptionLine?;
  }

  lemma DosCut(s: string)
    requires OneLine(s)
    ensures CutAt(CutAt(s + "\r\n", '\r'), '\n') == s
  {
    assert s + "\r\n" == s + ['\r'] + "\n";
    CutAtPrefix(s, '\r', "\n");
  }

  lemma DosSkip(s: string)
    ensures SkipSpaces(s + "\r\n") == SkipSpaces(s) + "\r\n"
  {
    SkipSpacesConcat(s, "\r\n");
    assert SkipSpaces("\r\n") == "\r\n" && "" + "\r\n" == "\r\n";
  }

  /** Both ends of line are the same. */
  lemma DosEnd(s: string)
    requires OneLine(s)
    ensures ReadLine(s + "\r\n") == ReadLine(s + "\n")
  {
    var p := SkipSpaces(s);
    ReadOneLine(s);
    DosCut(s);
    DosSkip(s);
    var q := p + "\r\n";
    assert p == "" ==> q[0] == '\r';
    assert p != "" ==> q[0] == p[0] && p[0] in p;
    SkipSpacesMembers(s);
    assert ('=' in q <==> '=' in p) && (']' in q <==> ']' in p);
    if ']' in p {
      CutAtConcat(p, "\r\n", ']');
    }
  }

  /** "name = value" as it is usually written: each part is what it looks like. */
  lemma UsualLine(name: string, quote: char, v: string)
    requires NameWithValueOk(name) && name != "" && name[0] != ' ' && Unescaped(name)
    requires OneLine(v) && (quote == '"' || quote == '\'')
    ensures ReadLine(name + " = " + ([quote] + v + [quote]) + "\n") == OptionLine(name, Some(v))
  {
    var t := [quote] + v + [quote];
    assert OneLine(t) && Escape(name) + name == name;
    ReadPrintedValue(name, t);
    QuotedValue(" ", quote, v, "");
    assert " " + t + "" == " " + t;
  }

  // ---------------------------------------------------------------- what is written

  predicate Unescaped(name: string) {
    name == "" || (name[0] != '#' && name[0] != '[' && name[0] != '\\')
  }

  /** The lines that the program writes: the name alone for null, else the name and the text of the value. */
  lemma WrittenLine(name: string, kind: Kind, v: Option<Value>)
    requires TypedOrNull(kind, v) && Unescaped(name)
    ensures OptionText(name, kind, v) == if v.None? then name else name + (" = " + ValueText(kind, v.value))
  {
    assert Escape(name) + name == name && name + "" == name;
  }

  /** The texts of the values, for each type. */
  lemma WrittenValues(n: int, min: int, max: int, words: seq<string>, s: string)
    ensures ValueText(Boolean, Number(1)) == "on" && ValueText(Boolean, Number(0)) == "off"
    ensures IsInt(n) ==> ValueText(Integer(min, max), Number(n)) == IntText(n)
    ensures 0 <= n < |words| ==> ValueText(Enum(words), Number(n)) == words[n]
    ensures ValueText(Str, String(s)) == "\"" + s + "\""
  {
  }

  /** A name that would read as a comment or a header is written after a backslash. */
  lemma EscapedName(name: string, s: string)
    requires !Unescaped(name)
    ensures OptionText(name, Str, Some(String(s))) == "\\" + name + (" = " + ("\"" + s + "\""))
  {
  }
}
