/** The windows of a layout in the configuration file: the lines of the tree, read back by the
    line parser. */
module LayoutFile {
  import opened Text
  import opened LineFormat
  import opened Reload
  import opened FileText
  import opened LineLimit
  import opened Layout
  import OptionValue
  import Restore

  /** config_file_write_line with a quoted value. */
  function QuotedLine(option: string, value: string): string {
    Escape(option) + option + " = " + ("\"" + value + "\"")
  }

  /** A line of a layout is written like that of a string option. */
  lemma QuotedLineForm(option: string, value: string)
    ensures QuotedLine(option, value) == OptionText(option, OptionValue.Str, Some(OptionValue.String(value)))
  {
  }

  lemma QuotedLineRead(option: string, value: string)
    requires OneLine(option) && OneLine(value)
    ensures var r := ReadLine(QuotedLine(option, value) + "\n");
      && (r.OptionLine? && r.name == option <==> NameWithValueOk(option))
      && (NameWithValueOk(option) ==> r == OptionLine(option, Some(value)))
  {
    var t := "\"" + value + "\"";
    QuotedOneLine(value);
    ReadPrintedValue(option, t);
    QuotedText(value);
    Regrouped(value);
  }

  lemma QuotedOneLine(value: string)
    ensures OneLine(value) ==> OneLine("\"" + value + "\"")
  {
  }

  lemma Regrouped(value: string)
    ensures " " + ("\"" + value + "\"") == " \"" + value + "\""
  {
  }

  // ---------------------------------------------------------------- one line

  predicate OneLineOrNone(name: Option<string>) {
    name.Some? ==> OneLine(name.value)
  }

  predicate OneLineNames(r: Record) {
    OneLineOrNone(r.plugin) && OneLineOrNone(r.buffer)
  }

  lemma NumberOneLine(n: int)
    ensures OneLine(IntText(n))
  {
    Restore.IntTextBare(n);
  }

  lemma FieldsOneLine(a: string, b: string)
    requires OneLine(a) && OneLine(b)
    ensures OneLine(a + ";" + b)
  {
  }

  lemma RecordOneLine(r: Record)
    ensures OneLineNames(r) ==> OneLine(RecordText(r))
  {
    if OneLineNames(r) {
      NumberOneLine(r.id);
      NumberOneLine(r.parent);
      NumberOneLine(r.pct);
      NumberOneLine(r.horiz);
      FieldsOneLine(NameText(r.plugin), NameText(r.buffer));
      FieldsOneLine(IntText(r.horiz), NamesText(r));
      FieldsOneLine(IntText(r.pct), IntText(r.horiz) + ";" + NamesText(r));
      FieldsOneLine(IntText(r.parent), IntText(r.pct) + ";" + (IntText(r.horiz) + ";" + NamesText(r)));
    }
  }

  lemma {:induction false} ItemsOneLine(s: string)
    requires OneLine(s)
    ensures forall i :: 0 <= i < |Split(s)| ==> OneLine(Split(s)[i])
    decreases |s|
  {
    if s != "" {
      var e := IndexOf(s, ';', 0);
      PartOneLine(s, 0, e);
      if e < |s| {
        PartOneLine(s, e + 1, |s|);
        ItemsOneLine(s[e + 1..]);
      }
    }
  }

  lemma PartOneLine(s: string, i: nat, j: nat)
    requires OneLine(s) && i <= j <= |s|
    ensures OneLine(s[i..j])
  {
  }

  /** What a line is read as, when it gives a value to that option. */
  function RecordRead(option: string, r: Line): Option<Record> {
    if r.OptionLine? && r.name == option && r.value.Some? then ParseFields(Split(r.value.value)) else None
  }

  lemma ReadNamesOneLine(option: string, line: string)
    ensures var r := RecordRead(option, ReadLine(line)); r.Some? ==> OneLine(option) && OneLineNames(r.value)
  {
    ReadLineOneLine(line);
    var r := ReadLine(line);
    if r.OptionLine? && r.value.Some? {
      ItemsOneLine(r.value.value);
    }
  }

  /** A node's line is read back in one piece exactly when the name of the option and both names of the
      node can be. */
  lemma WholeLineReadBack(option: string, r: Record)
    requires Layout.InRange(r)
    ensures RecordRead(option, ReadLine(QuotedLine(option, RecordText(r)) + "\n")) == Some(r)
       <==> NameWithValueOk(option) && Named(r.plugin, r.buffer) && OneLineNames(r)
  {
    ReadNamesOneLine(option, QuotedLine(option, RecordText(r)) + "\n");
    if OneLine(option) && OneLineNames(r) {
      RecordOneLine(r);
      QuotedLineRead(option, RecordText(r));
      ValueReadBack(r);
    }
  }

  // ---------------------------------------------------------------- a line that is cut

  /** Without its last characters, a clean item and what follows it. */
  lemma SplitCut(item: string, rest: string, n: nat)
    requires Clean(item) && n <= |item| + 1 + |rest|
    ensures Split((item + ";" + rest)[..n])
      == if n == 0 then [] else if n <= |item| then [item[..n]] else [item] + Split(rest[..n - |item| - 1])
  {
    var s := (item + ";" + rest)[..n];
    if 0 < n <= |item| {
      assert s == item[..n] && Clean(item[..n]);
      SplitFirst(item[..n], "");
    } else if n > |item| {
      assert s == item + ";" + rest[..n - |item| - 1];
      SplitFirst(item, rest[..n - |item| - 1]);
    }
  }

  lemma CutInTwo(a: string, b: string, rest: string, n: nat)
    requires Clean(a) && Clean(b) && n <= |a| + |b| + 1
    ensures |Split((a + ";" + (b + ";" + rest))[..n])| <= 2
  {
    SplitCut(a, b + ";" + rest, n);
    if n > |a| {
      SplitCut(b, rest, n - |a| - 1);
    }
  }

  lemma CutAfter(x: string, y: string, z: string, n: nat)
    requires |x| + |y| <= n <= |x| + |y| + |z|
    ensures (x + (y + z))[..n] == x + (y + z[..n - |x| - |y|])
  {
  }

  lemma CutAfterTwo(a: string, b: string, rest: string, n: nat)
    requires Clean(a) && Clean(b) && |a| + |b| + 2 <= n <= |a| + |b| + 2 + |rest|
    ensures Split((a + ";" + (b + ";" + rest))[..n]) == [a, b] + Split(rest[..n - |a| - |b| - 2])
  {
    var k := n - |a| - |b| - 2;
    CutAfter(a + ";", b + ";", rest, n);
    SplitTwo(a, b, rest[..k]);
  }

  lemma CutAfterFour(a: string, b: string, c: string, d: string, rest: string, n: nat)
    requires Clean(a) && Clean(b) && Clean(c) && Clean(d)
    requires |a| + |b| + |c| + |d| + 4 <= n <= |a| + |b| + |c| + |d| + 4 + |rest|
    ensures Split((a + ";" + (b + ";" + (c + ";" + (d + ";" + rest))))[..n])
      == [a, b, c, d] + Split(rest[..n - |a| - |b| - |c| - |d| - 4])
  {
    var tail := c + ";" + (d + ";" + rest);
    var k := n - |a| - |b| - |c| - |d| - 4;
    CutAfterPairs(a, b, c, d, rest, tail, a + ";" + (b + ";" + tail), k, |c| + |d| + 2 + k, n);
  }

  lemma CutAfterPairs(a: string, b: string, c: string, d: string, rest: string, tail: string, whole: string,
                      k: nat, m: nat, n: nat)
    requires Clean(a) && Clean(b) && Clean(c) && Clean(d)
    requires whole == a + ";" + (b + ";" + tail) && tail == c + ";" + (d + ";" + rest)
    requires k <= |rest| && m == |c| + |d| + 2 + k && n == |a| + |b| + 2 + m
    ensures n <= |whole| && Split(whole[..n]) == [a, b, c, d] + Split(rest[..k])
  {
    CutTail(a, b, tail, whole, m, n);
    CutTail(c, d, rest, tail, k, m);
    JoinPairs(Split(whole[..n]), a, b, Split(tail[..m]), c, d, Split(rest[..k]));
  }

  lemma JoinPairs(all: seq<string>, a: string, b: string, part: seq<string>, c: string, d: string, rest: seq<string>)
    requires all == [a, b] + part && part == [c, d] + rest
    ensures all == [a, b, c, d] + rest
  {
  }

  lemma CutTail(c: string, d: string, rest: string, tail: string, k: nat, m: nat)
    requires Clean(c) && Clean(d) && tail == c + ";" + (d + ";" + rest) && k <= |rest| && m == |c| + |d| + 2 + k
    ensures Split(tail[..m]) == [c, d] + Split(rest[..k])
  {
    CutAfterTwo(c, d, rest, m);
  }

  lemma CutInPairs(a: string, b: string, c: string, d: string, rest: string, tail: string, n: nat)
    requires Clean(a) && Clean(b) && Clean(c) && Clean(d) && n <= |a| + |b| + |c| + |d| + 3
    requires tail == c + ";" + (d + ";" + rest)
    ensures |Split((a + ";" + (b + ";" + tail))[..n])| <= 4
  {
    if n <= |a| + |b| + 1 {
      CutInTwo(a, b, tail, n);
    } else {
      CutAfterTwo(a, b, tail, n);
      CutInTwo(c, d, rest, n - |a| - |b| - 2);
    }
  }

  lemma CutInFour(a: string, b: string, c: string, d: string, rest: string, n: nat)
    requires Clean(a) && Clean(b) && Clean(c) && Clean(d) && n <= |a| + |b| + |c| + |d| + 3
    ensures |Split((a + ";" + (b + ";" + (c + ";" + (d + ";" + rest))))[..n])| <= 4
  {
    CutInPairs(a, b, c, d, rest, c + ";" + (d + ";" + rest), n);
  }

  /** Two names without the end of the second. */
  lemma NamesCut(p: string, b: string, k: nat)
    requires k < |p + ";" + b|
    ensures var items := Split((p + ";" + b)[..k]);
      !(|items| >= 2 && items[0] == p && items[1] == b)
  {
    ItemsAreClean((p + ";" + b)[..k]);
    if Clean(p) && Clean(b) {
      SplitCut(p, b, k);
      var n := k - |p| - 1;
      if n > 0 {
        assert Clean(b[..n]);
        SplitFirst(b[..n], "");
      }
    }
  }

  lemma FieldNames(f: seq<string>, r: Record)
    ensures ParseFields(f) == Some(r) ==>
      && |f| >= 6 && f[4] == NameText(r.plugin)
      && (if f[4] == "-" then r.buffer.None? else f[5] == NameText(r.buffer))
  {
  }

  /** The value of a record without its last characters is not that record. */
  lemma RecordCut(r: Record, n: nat)
    requires n < |RecordText(r)|
    ensures ParseFields(Split(RecordText(r)[..n])) != Some(r)
  {
    var a, b, c, d, names := IntText(r.id), IntText(r.parent), IntText(r.pct), IntText(r.horiz), NamesText(r);
    var items := Split(RecordText(r)[..n]);
    IntTextClean(r.id);
    IntTextClean(r.parent);
    IntTextClean(r.pct);
    IntTextClean(r.horiz);
    var k := n - |a| - |b| - |c| - |d| - 4;
    if k < 0 {
      CutInFour(a, b, c, d, names, n);
    } else {
      CutAfterFour(a, b, c, d, names, n);
      NamesCut(NameText(r.plugin), NameText(r.buffer), k);
      DashCut(k, NameText(r.plugin), NameText(r.buffer));
      FieldNames(items, r);
      assert |items| >= 6 ==> items[4] == Split(names[..k])[0] && items[5] == Split(names[..k])[1];
    }
  }

  /** Two dashes without the end of the second leave one item. */
  lemma DashCut(k: nat, p: string, b: string)
    requires k < |p + ";" + b|
    ensures p == "-" && b == "-" ==> |Split((p + ";" + b)[..k])| < 2
  {
    if p == "-" && b == "-" {
      SplitCut(p, b, k);
      if k == 2 {
        assert b[..0] == "";
      }
    }
  }

  /** The quoted value of a record without its last characters. */
  lemma QuotedCut(r: Record, j: nat)
    requires j < |"\"" + RecordText(r) + "\""|
    ensures var v := LineFormat.ReadValue(" " + ("\"" + RecordText(r) + "\"")[..j]);
      v.Some? ==> ParseFields(Split(v.value)) != Some(r)
  {
    var t := RecordText(r);
    var w := ("\"" + t + "\"")[..j];
    SkipOneSpace(w);
    if j > 0 {
      assert w == "\"" + t[..j - 1];
      QuoteNotNull(w);
      if j == 1 {
        QuoteFirst(w);
      } else {
        TrimmedCut(r, t[..j - 1], TrimEnd(w));
      }
    }
  }

  lemma WithinQuotes(t: string, before: string, u: string)
    requires before <= t && u <= "\"" + before && |u| > 1 && u[|u| - 1] == '"'
    ensures u[1..|u| - 1] == t[..|u| - 2] && Unquote(u) == t[..|u| - 2] && |u| - 2 < |t|
  {
  }

  lemma EndedCut(r: Record, before: string, u: string)
    requires before <= RecordText(r) && u <= "\"" + before && |u| > 1 && u[|u| - 1] == '"'
    ensures ParseFields(Split(Unquote(u))) != Some(r)
  {
    WithinQuotes(RecordText(r), before, u);
    RecordCut(r, |u| - 2);
  }

  lemma LoneQuote(u: string)
    requires |u| == 1 && u[0] == '"'
    ensures ParseFields(Split(Unquote(u))) == None
  {
    assert Split("") == [];
  }

  lemma UnendedQuote(u: string)
    requires u != "" && u[0] == '"' && u[|u| - 1] != '"'
    ensures ParseFields(Split(Unquote(u))) == None
  {
    QuoteFirst(u);
  }

  lemma TrimmedCut(r: Record, before: string, u: string)
    requires before <= RecordText(r) && u != "" && u <= "\"" + before
    ensures ParseFields(Split(Unquote(u))) != Some(r)
  {
    assert u[0] == '"';
    if u[|u| - 1] != '"' {
      UnendedQuote(u);
    } else if |u| == 1 {
      LoneQuote(u);
    } else {
      EndedCut(r, before, u);
    }
  }

  /** A quote in front of the first number makes it no number. */
  lemma QuoteFirst(u: string)
    requires u != "" && u[0] == '"'
    ensures ParseFields(Split(u)) == None
  {
    var e := IndexOf(u, ';', 0);
    assert u[..e][0] == '"';
    assert ParseLong(u[..e]) == None;
  }

  // ---------------------------------------------------------------- one line in the file

  lemma QuotedNotBlank(option: string, value: string)
    ensures SkipSpaces(QuotedLine(option, value)) != ""
  {
    EqualNotBlank(Escape(option) + option + " ", " " + ("\"" + value + "\""));
    assert QuotedLine(option, value) == Escape(option) + option + " " + "=" + (" " + ("\"" + value + "\""));
  }

  lemma FirstIndexKept(c: string, s: string)
    requires c <= s && IndexOf2(c, ' ', '=', 0) < |c|
    ensures IndexOf2(s, ' ', '=', 0) == IndexOf2(c, ' ', '=', 0)
  {
    var k := IndexOf2(c, ' ', '=', 0);
    assert s[k] == ' ' && s[k + 1] == '=';
    assert forall i :: 0 <= i <= k ==> s[i] == c[i];
  }

  /** Cut before its value, a line gives no value to the option. */
  lemma NoValueYet(option: string, n: nat)
    requires OneLine(option) && n <= |Escape(option) + option| + 2
    ensures var r := ReadLine((Escape(option) + option + " =")[..n]);
      r.OptionLine? && r.name == option ==> r.value == None
  {
    if HasSpaceEqual(option) {
      EarlyName(option, n);
    } else {
      CutBeforeValue(option, n);
    }
  }

  lemma EarlyName(option: string, n: nat)
    requires OneLine(option) && HasSpaceEqual(option) && n <= |Escape(option) + option| + 2
    ensures var r := ReadLine((Escape(option) + option + " =")[..n]);
      r.OptionLine? && r.name == option ==> r.value == None
  {
    var e := Escape(option) + option;
    var c := (e + " =")[..n];
    var k := IndexOf2(c, ' ', '=', 0);
    PartOneLine(e + " =", 0, n);
    assert c == (e + " =")[0..n];
    CutAtAbsent(c, '\r');
    CutAtAbsent(c, '\n');
    if k < |c| {
      EscapeHasSpaceEqual(option);
      EarlySpaceEqual(e, " =");
      FirstIndexKept(c, e + " =");
      assert c[..k] == e[..k];
      assert k > 0 || Escape(option) == "" by { assert c[0] == e[0]; }
      ReadBody(c, k);
      CutName(option, k);
    }
  }

  lemma CutBoth(e: string, t: string, n: nat)
    requires n <= |e| + 3 + |t|
    ensures n < |e| + 3 ==> (e + " = " + t)[..n] == (e + " =")[..n]
    ensures n >= |e| + 3 ==> (e + " = " + t)[..n] == e + " = " + t[..n - |e| - 3]
  {
  }

  /** A cut line of a record is not read as that record. */
  lemma CutLineLost(option: string, r: Record, n: nat)
    requires OneLine(option) && OneLineNames(r) && n < |QuotedLine(option, RecordText(r))|
    ensures RecordRead(option, ReadLine(QuotedLine(option, RecordText(r))[..n])) != Some(r)
  {
    if n < |Escape(option) + option| + 3 {
      CutEarly(option, r, n);
    } else {
      CutLate(option, r, n);
    }
  }

  lemma CutEarly(option: string, r: Record, n: nat)
    requires OneLine(option) && n < |Escape(option) + option| + 3
    ensures RecordRead(option, ReadLine(QuotedLine(option, RecordText(r))[..n])) != Some(r)
  {
    CutBoth(Escape(option) + option, "\"" + RecordText(r) + "\"", n);
    NoValueYet(option, n);
  }

  lemma QuotedLineCut(option: string, value: string, j: nat)
    requires j <= |value| + 2
    ensures QuotedLine(option, value)[..|Escape(option) + option| + 3 + j]
         == Escape(option) + option + " = " + ("\"" + value + "\"")[..j]
  {
    CutBoth(Escape(option) + option, "\"" + value + "\"", |Escape(option) + option| + 3 + j);
  }

  lemma CutLate(option: string, r: Record, n: nat)
    requires OneLine(option) && OneLineNames(r)
    requires |Escape(option) + option| + 3 <= n < |QuotedLine(option, RecordText(r))|
    ensures RecordRead(option, ReadLine(QuotedLine(option, RecordText(r))[..n])) != Some(r)
  {
    var j := n - |Escape(option) + option| - 3;
    QuotedLineCut(option, RecordText(r), j);
    CutInText(option, r, j);
  }

  lemma CutInText(option: string, r: Record, j: nat)
    requires OneLine(option) && OneLineNames(r) && j < |"\"" + RecordText(r) + "\""|
    ensures var t := "\"" + RecordText(r) + "\"";
      RecordRead(option, ReadLine(Escape(option) + option + " = " + t[..j])) != Some(r)
  {
    var t := "\"" + RecordText(r) + "\"";
    RecordOneLine(r);
    QuotedOneLine(RecordText(r));
    PartOneLine(t, 0, j);
    assert t[0..j] == t[..j];
    UnendedOption(option, t[..j]);
    QuotedCut(r, j);
  }

  lemma UnendedOption(option: string, t: string)
    requires OneLine(option) && OneLine(t)
    ensures var r := ReadLine(Escape(option) + option + " = " + t);
      r.OptionLine? && r.name == option ==> r.value == LineFormat.ReadValue(" " + t)
  {
    ReadPrintedValue(option, t);
    ValueLineNotBlank(option, t);
    EndNotNeeded(Escape(option) + option + " = " + t);
  }

  /** The first piece read from the line of a node is that node exactly when the name of the option and
      both names of the node can be read back, and the line fits in the buffer. */
  lemma LineReadBack(option: string, r: Record)
    requires Layout.InRange(r) && '\0' !in QuotedLine(option, RecordText(r))
    ensures var line := QuotedLine(option, RecordText(r));
      var read := ParseText(line + "\n");
      read != [] && (RecordRead(option, read[0]) == Some(r)
      <==> NameWithValueOk(option) && Named(r.plugin, r.buffer) && OneLineNames(r) && |line| <= MAX_LINE)
  {
    var line := QuotedLine(option, RecordText(r));
    if OneLine(option) && OneLineNames(r) {
      RecordOneLine(r);
      QuotedNotBlank(option, RecordText(r));
      FirstOfLine(line);
      FirstPiece(line);
      if |line| <= MAX_LINE {
        WholeLineReadBack(option, r);
      } else {
        CutLineLost(option, r, MAX_LINE);
      }
    } else {
      ReadNamesOneLine(option, CString((line + "\n")[..ChunkLength(line + "\n")]));
    }
  }

  // ---------------------------------------------------------------- the whole tree

  function ValueLines(option: string, values: seq<string>): seq<string> {
    if values == [] then [] else [QuotedLine(option, values[0])] + ValueLines(option, values[1..])
  }

  /** The read callback on the lines of one layout. */
  function ReadLines(t: Tree, option: string, lines: seq<Line>): Tree
    decreases |lines|
  {
    if lines == [] then t
    else
      var l := lines[0];
      ReadLines(if l.OptionLine? && l.name == option && l.value.Some? then Layout.ReadValue(t, l.value.value) else t,
                option, lines[1..])
  }

  lemma ReadFirst(t: Tree, option: string, value: string, full: bool, rest: seq<Line>)
    ensures ReadLines(t, option, ([OptionLine(option, Some(value))] + if full then [Ignored] else []) + rest)
         == ReadLines(Layout.ReadValue(t, value), option, rest)
  {
    var first := OptionLine(option, Some(value));
    if full {
      assert ([first] + [Ignored]) + rest == [first] + ([Ignored] + rest);
      assert ([first] + ([Ignored] + rest))[1..] == [Ignored] + rest;
      assert ([Ignored] + rest)[1..] == rest;
    } else {
      assert ([first] + []) + rest == [first] + rest;
      assert ([first] + rest)[1..] == rest;
    }
  }

  lemma PiecesOfValue(option: string, value: string)
    requires NameWithValueOk(option) && OneLine(value) && |QuotedLine(option, value)| <= MAX_LINE
    ensures PiecesOf(QuotedLine(option, value))
      == [OptionLine(option, Some(value))] + if |QuotedLine(option, value)| == MAX_LINE then [Ignored] else []
  {
    QuotedLineRead(option, value);
    QuotedNotBlank(option, value);
    QuotedOneLine(value);
    FittingLine(QuotedLine(option, value));
  }

  lemma {:induction false} PiecesRead(t: Tree, option: string, values: seq<string>)
    requires NameWithValueOk(option) && forall i :: 0 <= i < |values| ==> OneLine(values[i])
    requires forall i :: 0 <= i < |values| ==> |QuotedLine(option, values[i])| <= MAX_LINE
    ensures ReadLines(t, option, Pieces(ValueLines(option, values))) == ReadValues(t, values)
    decreases |values|
  {
    if values != [] {
      var line := QuotedLine(option, values[0]);
      PiecesOfValue(option, values[0]);
      ReadFirst(t, option, values[0], |line| == MAX_LINE, Pieces(ValueLines(option, values[1..])));
      PiecesRead(Layout.ReadValue(t, values[0]), option, values[1..]);
    }
  }

  /** No name of a node has an end of line. */
  predicate NamesOnOneLine(t: Tree) {
    t.Node? ==>
      && OneLineOrNone(t.plugin) && OneLineOrNone(t.buffer)
      && NamesOnOneLine(t.child1) && NamesOnOneLine(t.child2)
  }

  lemma {:induction false} ValuesOneLine(t: Tree, parent: int)
    requires NamesOnOneLine(t)
    ensures forall i :: 0 <= i < |WriteTree(t, parent)| ==> OneLine(WriteTree(t, parent)[i])
  {
    if t.Node? {
      RecordOneLine(RecordOf(t, parent));
      ValuesOneLine(t.child1, t.id);
      ValuesOneLine(t.child2, t.id);
    }
  }

  /** What is written for the windows of a layout. */
  function LayoutText(option: string, t: Tree): string {
    JoinLines(ValueLines(option, WriteTree(t, 0)))
  }

  ghost predicate Storable(option: string, t: Tree) {
    && NameWithValueOk(option) && Writable(t) && NamesOnOneLine(t)
    && AreLines(ValueLines(option, WriteTree(t, 0)))
    && forall i :: 0 <= i < |WriteTree(t, 0)| ==> |QuotedLine(option, WriteTree(t, 0)[i])| <= MAX_LINE
  }

  /** Reading the written text into an empty layout rebuilds the tree. */
  lemma FileRestored(option: string, t: Tree)
    requires Storable(option, t)
    ensures ReadLines(Empty, option, ParseText(LayoutText(option, t))) == t
  {
    ParseLines(ValueLines(option, WriteTree(t, 0)));
    ValuesOneLine(t, 0);
    PiecesRead(Empty, option, WriteTree(t, 0));
    LayoutRestored(t);
  }

  /** The text determines the tree. */
  lemma TextDeterminesTree(option: string, t: Tree, u: Tree)
    requires Storable(option, t) && Storable(option, u)
    ensures LayoutText(option, t) == LayoutText(option, u) ==> t == u
  {
    FileRestored(option, t);
    FileRestored(option, u);
  }
}
