/** Which written lines are read back from the file: the exact limit of the buffer of the reader. */
module LineLimit {
  import opened Text
  import opened OptionValue
  import opened LineFormat
  import opened Restore
  import opened Reload
  import opened FileText

  // ---------------------------------------------------------------- a value that is cut

  /** The string made of one double quote: cut after its opening quote it still reads as itself. */
  predicate QuoteAlone(kind: Kind, v: Option<Value>)
    requires TypedOrNull(kind, v)
  {
    kind.Str? && v == Some(String("\""))
  }

  lemma ReadValueShort(w: string)
    ensures ReadValue(" " + w).Some? ==> |ReadValue(" " + w).value| <= |w|
  {
    SkipOneSpace(w);
  }

  /** A text that repeats itself one place further, after a quote, is made of quotes. */
  lemma {:induction false} OnlyQuotes(s: string, i: nat)
    requires i < |s| && s <= "\"" + s
    ensures s[i] == '"'
  {
    assert s[i] == ("\"" + s)[i];
    if i > 0 {
      OnlyQuotes(s, i - 1);
    }
  }

  lemma QuoteNotNull(w: string)
    requires w != "" && w[0] == '"'
    ensures !EqFold(w, "null") && SkipSpaces(w) == w
  {
    StrCaseCmpZero(w, "null");
    assert FoldChar(w[0]) != FoldChar("null"[0]);
  }

  /** A quoted string without its end is read as itself only if it is one quote. */
  lemma CutString(s: string, j: nat)
    requires j <= |s| + 1
    ensures ReadValue(" " + ("\"" + s + "\"")[..j]) == Some(s) <==> s == "\"" && j == 1
  {
    var w := ("\"" + s + "\"")[..j];
    SkipOneSpace(w);
    if j > 0 {
      assert w == "\"" + s[..j - 1] && w[0] == '"';
      QuoteNotNull(w);
      assert SkipSpaces(" " + w) == w && |w| == j;
      if j > 1 {
        assert ReadValue(" " + w) == Some(Unquote(TrimEnd(w)));
        LongerCut(s, j, TrimEnd(w));
      } else {
        assert w == "\"" && ReadValue(" " + w) == Some("\"");
      }
    }
  }

  lemma LongerCut(s: string, j: nat, t: string)
    requires 1 < j <= |s| + 1 && t != "" && t <= "\"" + s[..j - 1]
    ensures Unquote(t) != s
  {
    if t[|t| - 1] == '"' {
      assert |s| == 1 ==> j == 2;
    } else if t == s {
      assert s <= "\"" + s;
      OnlyQuotes(s, |s| - 1);
    }
  }

  lemma CutValue(kind: Kind, v: Value, j: nat)
    requires Typed(kind, v) && ValuePrintable(kind, v) && j < |ValueText(kind, v)|
    ensures ReadValue(" " + ValueText(kind, v)[..j]) == PlainText(kind, Some(v))
       <==> QuoteAlone(kind, Some(v)) && j == 1
  {
    if kind.Str? {
      CutString(v.s, j);
    } else {
      ReadValueShort(ValueText(kind, v)[..j]);
    }
  }

  // ---------------------------------------------------------------- a line that is cut

  /** The first n characters of the line of an option. */
  predicate ReadsTheSame(name: string, kind: Kind, v: Option<Value>, n: nat)
    requires TypedOrNull(kind, v) && n <= |OptionText(name, kind, v)|
  {
    ReadLine(OptionText(name, kind, v)[..n]) == OptionLine(name, PlainText(kind, v))
  }

  /** Cut inside the name, or right after "=", the line has no value. */
  lemma CutBeforeValue(name: string, n: nat)
    requires !HasSpaceEqual(name) && OneLine(name) && n <= |Escape(name) + name| + 2
    ensures var r := ReadLine((Escape(name) + name + " =")[..n]); r.OptionLine? ==> r.value == None
  {
    var e := Escape(name) + name;
    var c := (e + " =")[..n];
    EscapeHasSpaceEqual(name);
    assert OneLine(c);
    CutAtAbsent(c, '\r');
    CutAtAbsent(c, '\n');
    if n == |e| + 2 {
      FirstSpaceEqual(e, "");
      assert c == e + " =" + "";
      assert SkipSpaces("") == "";
    } else {
      forall i | 0 <= i && i + 1 < |c|
        ensures !(c[i] == ' ' && c[i + 1] == '=')
      {
        assert i + 1 < |e| ==> c[i] == e[i] && c[i + 1] == e[i + 1];
      }
      NoSpaceEqual(c);
    }
  }

  lemma EqualNotBlank(a: string, b: string)
    ensures SkipSpaces(a + "=" + b) != ""
  {
    var c := a + "=" + b;
    SkipSpacesMembers(c);
    assert c[|a|] == '=' && '=' in c && '=' in SkipSpaces(c);
  }

  lemma ValueLineNotBlank(name: string, t: string)
    requires OneLine(name) && OneLine(t)
    ensures var c := Escape(name) + name + " = " + t; SkipSpaces(c) != "" && '\n' !in c
  {
    EqualNotBlank(Escape(name) + name + " ", " " + t);
    assert Escape(name) + name + " = " + t == Escape(name) + name + " " + "=" + (" " + t);
  }

  /** Without an end of line, a line with a value is read like with it. */
  lemma ReadUnended(name: string, t: string)
    requires NameWithValueOk(name) && OneLine(t)
    ensures ReadLine(Escape(name) + name + " = " + t) == OptionLine(name, ReadValue(" " + t))
  {
    ReadPrintedValue(name, t);
    ValueLineNotBlank(name, t);
    EndNotNeeded(Escape(name) + name + " = " + t);
  }

  lemma CutText(name: string, t: string, j: nat)
    requires j <= |t|
    ensures (Escape(name) + name + (" = " + t))[..|Escape(name) + name| + 3 + j] == Escape(name) + name + " = " + t[..j]
  {
  }

  /** Cut inside its value, the line is read back only if the value is one quote. */
  lemma CutInValue(name: string, kind: Kind, v: Value, n: nat)
    requires Typed(kind, v) && Printable(name, kind, Some(v))
    requires |Escape(name) + name| + 3 <= n < |OptionText(name, kind, Some(v))|
    ensures ReadsTheSame(name, kind, Some(v), n) <==> QuoteAlone(kind, Some(v)) && n == |Escape(name) + name| + 4
  {
    var t, j := ValueText(kind, v), n - |Escape(name) + name| - 3;
    CutText(name, t, j);
    ReadPrintedText(kind, v);
    assert OneLine(t[..j]);
    ReadUnended(name, t[..j]);
    CutValue(kind, v, j);
  }

  lemma PrefixSpaceEqual(a: string, b: string)
    requires a <= b
    ensures HasSpaceEqual(a) ==> HasSpaceEqual(b)
  {
    if i :| 0 <= i && i + 1 < |a| && a[i] == ' ' && a[i + 1] == '=' {
      assert b[i] == ' ' && b[i + 1] == '=';
    }
  }

  lemma CutNameAlone(name: string, n: nat)
    requires NameAloneOk(name) && 0 < n < |Escape(name) + name|
    ensures ReadLine((Escape(name) + name)[..n]) != OptionLine(name, None)
  {
    var e := Escape(name) + name;
    var c := e[..n];
    EscapeHasSpaceEqual(name);
    assert OneLine(c);
    CutAtAbsent(c, '\r');
    CutAtAbsent(c, '\n');
    PrefixSpaceEqual(c, e);
    NoSpaceEqual(c);
    StripsItsEscape(name, n);
  }

  lemma CutEarly(name: string, t: string, n: nat)
    requires NameWithValueOk(name) && n < |Escape(name) + name| + 3
    ensures var r := ReadLine((Escape(name) + name + (" = " + t))[..n]); r.OptionLine? ==> r.value == None
  {
    assert (Escape(name) + name + (" = " + t))[..n] == (Escape(name) + name + " =")[..n];
    CutBeforeValue(name, n);
  }

  lemma TextWithValue(name: string, kind: Kind, v: Value)
    requires Typed(kind, v)
    ensures OptionText(name, kind, Some(v)) == Escape(name) + name + (" = " + ValueText(kind, v))
  {
  }

  lemma EarlyCutDiffers(name: string, kind: Kind, v: Value, n: nat)
    requires Typed(kind, v) && Printable(name, kind, Some(v))
    requires n < |Escape(name) + name| + 3 <= |OptionText(name, kind, Some(v))|
    ensures !ReadsTheSame(name, kind, Some(v), n)
  {
    var line := OptionText(name, kind, Some(v));
    var r := ReadLine(line[..n]);
    TextWithValue(name, kind, v);
    CutEarly(name, ValueText(kind, v), n);
    assert r.OptionLine? ==> r.value == None;
  }

  lemma CutLineWithValue(name: string, kind: Kind, v: Value, n: nat)
    requires Typed(kind, v) && Printable(name, kind, Some(v)) && 0 < n < |OptionText(name, kind, Some(v))|
    ensures ReadsTheSame(name, kind, Some(v), n)
      <==> QuoteAlone(kind, Some(v)) && n == |Escape(name) + name| + 4
  {
    if n < |Escape(name) + name| + 3 {
      EarlyCutDiffers(name, kind, v, n);
    } else {
      CutInValue(name, kind, v, n);
    }
  }

  /** A printed line without its last characters is not read back, but for one quote cut after the
      first of the three characters that stand for it. */
  lemma CutLine(name: string, kind: Kind, v: Option<Value>, n: nat)
    requires TypedOrNull(kind, v) && Printable(name, kind, v) && 0 < n < |OptionText(name, kind, v)|
    ensures ReadsTheSame(name, kind, v, n) <==> QuoteAlone(kind, v) && n == |OptionText(name, kind, v)| - 2
  {
    if v.None? {
      assert Escape(name) + name + "" == Escape(name) + name;
      CutNameAlone(name, n);
    } else {
      CutLineWithValue(name, kind, v.value, n);
      assert QuoteAlone(kind, v) ==> |ValueText(kind, v.value)| == 3;
    }
  }

  // ---------------------------------------------------------------- the limit

  lemma NameNotBlank(name: string)
    requires NameAloneOk(name)
    ensures '\n' !in Escape(name) + name && SkipSpaces(Escape(name) + name) != ""
  {
    PrintedStart(name, "");
    assert Escape(name) + name + "" == Escape(name) + name && SkipSpaces(name) + "" == SkipSpaces(name);
  }

  lemma PrintedNotBlank(name: string, kind: Kind, v: Option<Value>)
    requires TypedOrNull(kind, v) && Printable(name, kind, v)
    ensures '\n' !in OptionText(name, kind, v) && SkipSpaces(OptionText(name, kind, v)) != ""
  {
    if v.None? {
      NameNotBlank(name);
      assert OptionText(name, kind, v) == Escape(name) + name;
    } else {
      ValueNotBlank(name, kind, v.value);
    }
  }

  lemma ValueNotBlank(name: string, kind: Kind, v: Value)
    requires Typed(kind, v) && Printable(name, kind, Some(v))
    ensures '\n' !in OptionText(name, kind, Some(v)) && SkipSpaces(OptionText(name, kind, Some(v))) != ""
  {
    var t := ValueText(kind, v);
    ReadPrintedText(kind, v);
    ValueLineNotBlank(name, t);
    TextWithValue(name, kind, v);
    Regrouped(name, t);
  }

  lemma Regrouped(name: string, t: string)
    ensures Escape(name) + name + (" = " + t) == Escape(name) + name + " = " + t
  {
  }

  /** The first thing read from the line of an option is that option with its text exactly when the line
      fits in the buffer, or is two characters longer and holds one quote. */
  lemma LineLimitExact(name: string, kind: Kind, v: Option<Value>)
    requires TypedOrNull(kind, v) && Printable(name, kind, v) && '\0' !in OptionText(name, kind, v)
    ensures var read := ParseText(OptionText(name, kind, v) + "\n");
      read != [] && (read[0] == OptionLine(name, PlainText(kind, v)) <==> LineFits(name, kind, v))
  {
    var line := OptionText(name, kind, v);
    PrintedNotBlank(name, kind, v);
    FirstOfLine(line);
    FirstPiece(line);
    if |line| <= MAX_LINE {
      PrintedLineExact(name, kind, v);
    } else {
      CutLine(name, kind, v, MAX_LINE);
    }
  }

  lemma ReadHeaderShort(c: string)
    ensures ReadLine(c).Header? ==> |ReadLine(c).section| + 2 <= |c|
  {
    var p := SkipSpaces(c);
    if ReadLine(c).Header? {
      assert ']' in p && p[IndexOf(p, ']', 0)] == ']';
    }
  }

  lemma ShortChunk(text: string, section: string)
    requires text != "" && ChunkLength(text) <= |section| + 1
    ensures ParseText(text) != [] && ParseText(text)[0] != Header(section)
  {
    ReadHeaderShort(CString(text[..ChunkLength(text)]));
  }

  /** A section header is read back exactly when its name has no "]", "=" or end of line, and it fits
      in the buffer. */
  lemma HeaderReadExact(section: string)
    requires '\0' !in section
    ensures var read := ParseText(HeaderText(section) + "\n");
      read != [] && (read[0] == Header(section)
      <==> ']' !in section && '=' !in section && '\n' !in section && |HeaderText(section)| <= MAX_LINE)
  {
    var line := HeaderText(section);
    var text := line + "\n";
    if '\n' in section {
      var k :| 0 <= k < |section| && section[k] == '\n';
      assert text[k + 1] == '\n';
      assert IndexOf(text, '\n', 0) <= k + 1;
      ShortChunk(text, section);
    } else if |line| > MAX_LINE {
      ShortChunk(text, section);
    } else {
      assert line[0] == '[' && SkipSpaces(line) == line;
      FirstOfLine(line);
      FirstPiece(line);
      HeaderExact(section);
    }
  }

  lemma FirstOfLine(line: string)
    requires IsLine(line)
    ensures ParseText(line + "\n") != [] && ParseText(line + "\n")[0] == PiecesOf(line)[0]
  {
    OneMoreLine(line, "");
    assert line + "\n" + "" == line + "\n";
  }

  // ---------------------------------------------------------------- the pieces of a line that is read back

  /** The line fits, or is that of one double quote and two characters too long. */
  predicate LineFits(name: string, kind: Kind, v: Option<Value>)
    requires TypedOrNull(kind, v)
  {
    var line := OptionText(name, kind, v);
    |line| <= MAX_LINE || (QuoteAlone(kind, v) && |line| == MAX_LINE + 2)
  }

  /** What follows the option: nothing, the end of a line that just fits, or the two quotes that were
      cut off, which read as the name of an option. */
  function PieceAfter(name: string, kind: Kind, v: Option<Value>): seq<Line>
    requires TypedOrNull(kind, v)
  {
    var line := OptionText(name, kind, v);
    if |line| < MAX_LINE then [] else if |line| == MAX_LINE then [Ignored] else [OptionLine("\"\"", None)]
  }

  lemma QuotesLeft()
    ensures PiecesOf("\"\"") == [OptionLine("\"\"", None)]
  {
    ReadPrintedAlone("\"\"");
    assert Escape("\"\"") + "\"\"" + "\n" == "\"\"" + "\n";
    assert SkipSpaces("\"\"") == "\"\"";
  }

  lemma PiecesOfOption(name: string, kind: Kind, v: Option<Value>)
    requires TypedOrNull(kind, v) && Printable(name, kind, v) && LineFits(name, kind, v)
    ensures PiecesOf(OptionText(name, kind, v)) == [OptionLine(name, PlainText(kind, v))] + PieceAfter(name, kind, v)
  {
    var line := OptionText(name, kind, v);
    PrintedNotBlank(name, kind, v);
    PrintedLineExact(name, kind, v);
    if |line| <= MAX_LINE {
      FittingLine(line);
    } else {
      CutLine(name, kind, v, MAX_LINE);
      QuoteLineEnd(name, kind, v);
      QuotesLeft();
    }
  }

  lemma QuoteLineEnd(name: string, kind: Kind, v: Option<Value>)
    requires TypedOrNull(kind, v) && QuoteAlone(kind, v)
    ensures var line := OptionText(name, kind, v); |line| >= 2 && line[|line| - 2..] == "\"\""
  {
    assert ValueText(kind, v.value) == "\"\"\"";
  }
}
