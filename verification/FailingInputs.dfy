/** Inputs for which the code does not do what one would expect of it. */
module FailingInputs {
  import opened Text
  import opened OptionValue
  import opened LineFormat
  import opened Restore
  import opened Reload
  import opened ReloadStable
  import opened FileText
  import opened LineLimit
  import opened SaveReload
  import opened Config
  import opened ConfigNames
  import opened ConfigBuild
  import Layout
  import LayoutFile
  import ArraylistSpec
  import ArraylistRuns
  import ArraylistOrder
  import Buffers
  import BufferRing

  // ---------------------------------------------------------------- one option in one section

  function OneOption(def: Definition): Shape {
    [SectionShape("s", false, false, [OptionShape("o", def)])]
  }

  function OneCell(value: Option<Value>): Cells {
    [[Cell(value, true)]]
  }

  lemma SectionPieces()
    ensures PiecesOf("[s]") == [Header("s")]
  {
    HeaderExact("s");
    assert HeaderText("s") == "[s]" && SkipSpaces("[s]") == "[s]";
    FittingLine("[s]");
  }

  /** The first of the lines is for the option, the others name no option. */
  lemma OnlyFirst(def: Definition, text: Option<string>, rest: seq<Line>)
    requires rest == [] || rest == [OptionLine("\"", None)]
    ensures Addressed(OneOption(def), 0, [OptionLine("o", text)] + rest, At(0, 0)) == [text]
  {
    var shape, p := OneOption(def), At(0, 0);
    AddressedFirst(shape, 0, OptionLine("o", text), rest, p);
    EqFoldReflexive("o");
    assert OptionNames(shape[0].options) == ["o"];
    if rest != [] {
      DifferentStart("o", "\"");
      assert rest == [rest[0]] + [];
      AddressedFirst(shape, 0, rest[0], [], p);
    }
  }

  lemma AfterSection(def: Definition, rest: seq<Line>)
    ensures Addressed(OneOption(def), -1, [Header("s")] + rest, At(0, 0))
         == Addressed(OneOption(def), 0, rest, At(0, 0))
  {
    AddressedFirst(OneOption(def), -1, Header("s"), rest, At(0, 0));
    EqFoldReflexive("s");
    assert SectionNames(OneOption(def)) == ["s"];
  }

  // ---------------------------------------------------------------- reloading twice

  /** The file with the lines "[s]" and "o = toggle". */
  function ToggleFile(): string {
    JoinLines(["[s]", "o = " + "toggle"])
  }

  lemma TogglePieces()
    ensures ParseText(ToggleFile()) == [Header("s")] + [OptionLine("o", Some("toggle"))]
  {
    var line := "o = " + "toggle";
    assert IsLine("toggle") && IsLine(line);
    ParseLines(["[s]", line]);
    SectionPieces();
    BareText("toggle");
    OptionPiece("toggle");
    PiecesOfTwo("[s]", line);
  }

  lemma OptionPiece(w: string)
    requires OneLine(w) && BareTextOk(w) && |w| < 100
    ensures PiecesOf("o = " + w) == [OptionLine("o", Some(w))]
  {
    ReadPrintedValue("o", w);
    BareTextExact(w);
    PlainStart();
  }

  /** The start of the line of an option "o". */
  lemma PlainStart()
    ensures Escape("o") + "o" + " = " == "o = " && NameWithValueOk("o")
  {
  }

  lemma PiecesOfTwo(a: string, b: string)
    ensures Pieces([a, b]) == PiecesOf(a) + PiecesOf(b)
  {
    assert [a, b][1..] == [b] && [b][1..] == [];
    assert Pieces([b]) == PiecesOf(b) + [];
  }

  lemma ToggleTexts(def: Definition)
    ensures TextsFor(OneOption(def), ToggleFile(), 0, 0) == [Some("toggle")]
  {
    var line := OptionLine("o", Some("toggle"));
    TogglePieces();
    AfterSection(def, [line]);
    OnlyFirst(def, line.value, []);
    assert [line] + [] == [line];
  }

  lemma ToggleUnstable(def: Definition, v: Option<Value>)
    requires def.kind == Boolean && (forall t :: def.check(t)) && TypedOrNull(Boolean, v)
    ensures !Stable(def, v, [Some("toggle")])
  {
    var texts := [Some("toggle")];
    EqFoldReflexive("toggle");
    assert texts[1..] == [] && Toggles(def, texts) == 1;
    BooleanStableExact(def, v, texts);
  }

  /** Reloaded twice, it gives the boolean option another value than reloaded once, whatever it was. */
  lemma ToggleReloadedTwice(def: Definition, v: Option<Value>)
    requires def.kind == Boolean && (forall t :: def.check(t)) && TypedOrNull(Boolean, v)
    ensures var once := ReloadCells(OneOption(def), OneCell(v), ToggleFile());
      ReloadCells(OneOption(def), once, ToggleFile()) != once
  {
    ToggleTexts(def);
    ToggleUnstable(def, v);
    ReloadOptionTwice(OneOption(def), OneCell(v), ToggleFile(), 0, 0);
  }

  // ---------------------------------------------------------------- values and names that are lost

  /** A number that "++" took below its range is not given back by its own text. */
  lemma NumberLost(min: int, max: int)
    requires KindOk(Integer(min, max)) && INT_MIN < min
    ensures Target(Integer(min, max), Some(Number(min)), "++" + IntText(-1)) == Some(Number(min - 1))
    ensures !AlwaysGives(Integer(min, max), PlainText(Integer(min, max), Some(Number(min - 1))).value, Number(min - 1))
  {
    NegativeAmountEscapes(min, max, min);
    RestoreExact(Integer(min, max), Number(min - 1));
  }

  /** A word hidden by an equal earlier one comes back as that one. */
  lemma WordLost(cur: Option<Value>)
    ensures var kind := Enum(["a", "A"]);
      && Target(kind, cur, PlainText(kind, Some(Number(1))).value) == Some(Number(0))
      && !AlwaysGives(kind, PlainText(kind, Some(Number(1))).value, Number(1))
  {
    StrCaseCmpZero("a", "A");
    assert Fold("a") == Fold("A");
    assert Target(Enum(["a", "A"]), None, "A") == Some(Number(0));
  }

  /** An option whose name holds " =" is read back under another name. */
  lemma NameLost()
    ensures ReadLine(OptionText("a =b", Boolean, Some(Number(1))) + "\n") != OptionLine("a =b", Some("on"))
  {
    assert "a =b"[1] == ' ' && "a =b"[2] == '=';
    PrintedLineExact("a =b", Boolean, Some(Number(1)));
  }

  /** The header of a section whose name holds "]" is read back under another name. */
  lemma HeaderLost()
    ensures var read := ParseText(HeaderText("a]b") + "\n"); read != [] && read[0] != Header("a]b")
  {
    assert "a]b"[1] == ']';
    HeaderReadExact("a]b");
  }

  function SeparatorNode(): Layout.Record {
    Layout.Record(1, 0, 0, 0, Some("core"), Some("a;b"))
  }

  /** The line of a node whose buffer name holds ";" is not read back as that node. */
  lemma NodeLost()
    ensures var read := ParseText(LayoutFile.QuotedLine("o", Layout.RecordText(SeparatorNode())) + "\n");
      read != [] && LayoutFile.RecordRead("o", read[0]) != Some(SeparatorNode())
  {
    var r := SeparatorNode();
    assert "a;b"[1] == ';';
    LayoutFile.LineReadBack("o", r);
  }

  function OneNode(plugin: string, buffer: string): Layout.Tree {
    Layout.Node(1, 0, 0, Some(plugin), Some(buffer), Layout.Empty, Layout.Empty)
  }

  /** Two trees that write the same lines, a plugin name holding ";". */
  lemma SameLines()
    ensures OneNode("a;b", "c") != OneNode("a", "b;c")
    ensures Layout.WellShaped(OneNode("a;b", "c")) && Layout.WellShaped(OneNode("a", "b;c"))
    ensures Layout.WriteTree(OneNode("a;b", "c"), 0) == Layout.WriteTree(OneNode("a", "b;c"), 0)
  {
    var t, u := OneNode("a;b", "c"), OneNode("a", "b;c");
    assert "a;b" != "a";
    assert Layout.NamesText(Layout.RecordOf(t, 0)) == Layout.NamesText(Layout.RecordOf(u, 0));
    assert Layout.WriteTree(t, 0) == [Layout.RecordText(Layout.RecordOf(t, 0))];
    assert Layout.WriteTree(u, 0) == [Layout.RecordText(Layout.RecordOf(u, 0))];
  }

  // ---------------------------------------------------------------- a removal that is not the oldest

  lemma InsertedIn(cfg: ArraylistSpec.Config, ops: seq<ArraylistRuns.Op>, p: ArraylistSpec.Pointer)
    requires ArraylistSpec.Preorder(cfg.cmp)
    ensures ArraylistRuns.Run(cfg, ops + [ArraylistRuns.Insert(-1, p)]).items
         == ArraylistRuns.InsertItems(cfg, ArraylistRuns.Run(cfg, ops).items, -1, p)
  {
    var all := ops + [ArraylistRuns.Insert(-1, p)];
    assert all[..|all| - 1] == ops;
    ArraylistRuns.RunInv(cfg, ops);
    ArraylistRuns.InsertStateItems(cfg, ArraylistRuns.Run(cfg, ops), -1, p);
  }

  lemma TwoEqual(cfg: ArraylistSpec.Config)
    requires ArraylistSpec.Preorder(cfg.cmp) && cfg.sorted && cfg.duplicates && cfg.cmp(1, 2) == 0
    ensures ArraylistRuns.InsertItems(cfg, [], -1, 1) == [1] && ArraylistRuns.InsertItems(cfg, [1], -1, 2) == [1, 2]
    ensures ArraylistSpec.FirstMatch(cfg.cmp, 1, [1, 2]) == 0
  {
    ArraylistRuns.Same(cfg.cmp, 2, 1, 1);
    assert cfg.cmp(1, [1, 2][0]) == 0;
  }

  /** Of two equal elements the second can be removed by its index, where a search removes the first. */
  lemma NotTheOldest(cfg: ArraylistSpec.Config)
    requires ArraylistSpec.Preorder(cfg.cmp) && cfg.sorted && cfg.duplicates && cfg.cmp(1, 2) == 0
    ensures ArraylistRuns.Run(cfg, TwoThen(ArraylistRuns.Remove(1))).items == [1]
    ensures ArraylistOrder.Items(cfg, [ArraylistOrder.Add(1), ArraylistOrder.Add(2), ArraylistOrder.Drop(1)]) == [2]
  {
    var one, two := [ArraylistRuns.Insert(-1, 1)], [ArraylistRuns.Insert(-1, 1), ArraylistRuns.Insert(-1, 2)];
    InsertedIn(cfg, [], 1);
    InsertedIn(cfg, one, 2);
    TwoEqual(cfg);
    assert [] + one == one && one + [ArraylistRuns.Insert(-1, 2)] == two;
    assert TwoThen(ArraylistRuns.Remove(1))[..2] == two;
    FirstDropped(cfg);
  }

  function TwoThen(op: ArraylistRuns.Op): seq<ArraylistRuns.Op> {
    [ArraylistRuns.Insert(-1, 1), ArraylistRuns.Insert(-1, 2), op]
  }

  lemma FirstDropped(cfg: ArraylistSpec.Config)
    requires ArraylistSpec.Preorder(cfg.cmp) && cfg.sorted && cfg.duplicates && cfg.cmp(1, 2) == 0
    ensures ArraylistOrder.Items(cfg, [ArraylistOrder.Add(1), ArraylistOrder.Add(2), ArraylistOrder.Drop(1)]) == [2]
  {
    var edits := [ArraylistOrder.Add(1), ArraylistOrder.Add(2), ArraylistOrder.Drop(1)];
    TwoEqual(cfg);
    ItemsGrow(cfg, edits, 0);
    ItemsGrow(cfg, edits, 1);
    ItemsGrow(cfg, edits, 2);
    assert edits[..0] == [] && edits[..3] == edits;
    assert ArraylistSpec.Without([1, 2], 0) == [2];
  }

  lemma ItemsGrow(cfg: ArraylistSpec.Config, edits: seq<ArraylistOrder.Edit>, k: nat)
    requires ArraylistSpec.Preorder(cfg.cmp) && k < |edits|
    ensures ArraylistOrder.Items(cfg, edits[..k + 1])
         == ArraylistOrder.EditItems(cfg, ArraylistOrder.Items(cfg, edits[..k]), edits[k])
  {
    assert edits[..k + 1][..k] == edits[..k];
    ArraylistOrder.ItemsStep(cfg, edits[..k + 1]);
  }

  // ---------------------------------------------------------------- a line that is too long

  /** A string of letters whose line has one character too many. */
  function LongValue(): (s: string)
    ensures |s| == MAX_LINE - 5 && forall i :: 0 <= i < |s| ==> s[i] == 'x'
  {
    seq(MAX_LINE - 5, i requires 0 <= i < MAX_LINE - 5 => 'x')
  }

  lemma QuotePieces()
    ensures PiecesOf("\"") == [OptionLine("\"", None)]
  {
    ReadPrintedAlone("\"");
    assert Escape("\"") + "\"" + "\n" == "\"" + "\n";
    assert SkipSpaces("\"") == "\"" && NameAloneOk("\"");
  }

  function LongLine(): string {
    "o = \"" + LongValue() + "\""
  }

  /** It is read as two lines: the value keeps its opening quote and loses its closing one. */
  lemma LongLinePieces()
    ensures IsLine(LongLine())
    ensures PiecesOf(LongLine()) == [OptionLine("o", Some("\"" + LongValue()))] + [OptionLine("\"", None)]
  {
    var line := LongLine();
    assert line[..MAX_LINE] == "o = \"" + LongValue() && line[MAX_LINE..] == "\"";
    QuotePieces();
    UnendedValue(LongValue());
    LettersLine(LongValue());
  }

  lemma LettersLine(s: string)
    requires forall i :: 0 <= i < |s| ==> s[i] == 'x'
    ensures IsLine("o = \"" + s + "\"")
  {
    assert IsLine(s);
  }

  lemma UnendedValue(s: string)
    requires s != "" && forall i :: 0 <= i < |s| ==> s[i] == 'x'
    ensures ReadLine("o = \"" + s) == OptionLine("o", Some("\"" + s))
  {
    var t := "\"" + s;
    ReadUnended("o", t);
    PlainStart();
    assert "o = " + t == "o = \"" + s;
    UnendedText(t);
  }

  lemma UnendedText(t: string)
    requires |t| > 1 && t[0] == '"' && t[|t| - 1] == 'x'
    ensures ReadValue(" " + t) == Some(t)
  {
    QuoteNotNull(t);
    SkipOneSpace(t);
    TrimEndKeeps(t);
  }

  lemma LongText()
    ensures OptionText("o", Str, Some(String(LongValue()))) == LongLine()
    ensures OneLine(LongValue()) && Printable("o", Str, Some(String(LongValue())))
  {
    var s := LongValue();
    TextWithValue("o", Str, String(s));
    assert "o" + (" = " + ("\"" + s + "\"")) == LongLine();
    assert Escape("o") + "o" == "o";
    assert NameWithValueOk("o");
  }

  /** The text written for that option alone, after the comments. */
  lemma LongFile(def: Definition, version: string, filename: string)
    requires def.kind == Str
    ensures var shape, cells := OneOption(def), OneCell(Some(String(LongValue())));
      && Fits(shape, cells) && CellsTyped(shape, cells)
      && FileLines(shape, cells, [[]], version, filename) == Banner(version, filename) + ["", "[s]", LongLine()]
  {
    var shape, cells := OneOption(def), OneCell(Some(String(LongValue())));
    LongText();
    LongSection(shape[0], cells[0]);
    assert SectionsLines(shape, cells, [[]], 1) == [];
    assert SectionsLines(shape, cells, [[]], 0) == SectionLines(shape[0], cells[0], []) + [];
  }

  lemma LongSection(section: SectionShape, cells: seq<Cell>)
    requires |cells| == |section.options| == 1 && section.name == "s" && Plain(section)
    requires TypedOrNull(section.options[0].def.kind, cells[0].value)
    requires OptionText(section.options[0].name, section.options[0].def.kind, cells[0].value) == LongLine()
    ensures SectionLines(section, cells, []) == ["", "[s]", LongLine()]
  {
    assert HeaderText("s") == "[s]";
    assert OptionLines(section.options, cells) == [LongLine()];
  }

  /** A section whose only line is read as a value for "o" and a second piece. */
  lemma TwoPieces(def: Definition, line: string, t: string)
    requires PiecesOf(line) == [OptionLine("o", Some(t))] + [OptionLine("\"", None)]
    ensures Addressed(OneOption(def), -1, Pieces(["", "[s]", line]), At(0, 0)) == [Some(t)]
  {
    assert PiecesOf("") == [Ignored] by { assert "" + "\n" == "\n" && SkipSpaces("\n") == "\n"; }
    assert ["", "[s]", line][1..] == ["[s]", line];
    assert Pieces(["", "[s]", line]) == [Ignored] + Pieces(["[s]", line]);
    SectionPieces();
    PiecesOfTwo("[s]", line);
    AddressedFirst(OneOption(def), -1, Ignored, Pieces(["[s]", line]), At(0, 0));
    AfterSection(def, PiecesOf(line));
    OnlyFirst(def, Some(t), [OptionLine("\"", None)]);
  }

  /** A saved option whose line has one character more than fits, and nothing else against it: the reload
      gives it another value. */
  lemma LongLineLost(def: Definition, version: string, filename: string)
    requires def.kind == Str && forall t :: def.check(t)
    requires AreLines(Banner(version, filename))
    requires forall i :: 0 <= i < |Banner(version, filename)| ==> |Banner(version, filename)[i]| <= MAX_LINE
    ensures Printable("o", Str, Some(String(LongValue())))
    ensures |OptionText("o", Str, Some(String(LongValue())))| == MAX_LINE + 1 == 16383
    ensures var shape, saved := OneOption(def), OneCell(Some(String(LongValue())));
      && Fits(shape, saved) && CellsTyped(shape, saved)
      && ReloadCells(shape, saved, JoinLines(FileLines(shape, saved, [[]], version, filename)))[0][0].value
           == Some(String("\"" + LongValue()))
  {
    LongText();
    LongFile(def, version, filename);
    ShortBannerOk(OneOption(def), version, filename);
    LongReloaded(def, Banner(version, filename));
  }

  lemma LongReloaded(def: Definition, banner: seq<string>)
    requires def.kind == Str && forall s :: def.check(s)
    requires AreLines(banner) && Addressed(OneOption(def), -1, Pieces(banner), At(0, 0)) == []
    requires CurAfter(OneOption(def), -1, Pieces(banner)) == -1
    ensures ReloadCells(OneOption(def), OneCell(Some(String(LongValue()))),
                        JoinLines(banner + ["", "[s]", LongLine()]))[0][0].value
      == Some(String("\"" + LongValue()))
  {
    LongLinePieces();
    OneLineReloaded(def, Some(String(LongValue())), banner, LongLine(), "\"" + LongValue());
  }

  lemma OneLineReloaded(def: Definition, v: Option<Value>, banner: seq<string>, line: string, t: string)
    requires def.kind == Str && (forall s :: def.check(s)) && TypedOrNull(Str, v)
    requires AreLines(banner) && Addressed(OneOption(def), -1, Pieces(banner), At(0, 0)) == []
    requires CurAfter(OneOption(def), -1, Pieces(banner)) == -1
    requires IsLine(line) && PiecesOf(line) == [OptionLine("o", Some(t))] + [OptionLine("\"", None)]
    ensures ReloadCells(OneOption(def), OneCell(v), JoinLines(banner + ["", "[s]", line]))[0][0].value
      == Some(String(t))
  {
    OneLineTexts(def, banner, line, t);
    OneTextReloaded(OneOption(def), OneCell(v), JoinLines(banner + ["", "[s]", line]), t);
  }

  lemma OneLineTexts(def: Definition, banner: seq<string>, line: string, t: string)
    requires AreLines(banner) && Addressed(OneOption(def), -1, Pieces(banner), At(0, 0)) == []
    requires CurAfter(OneOption(def), -1, Pieces(banner)) == -1
    requires IsLine(line) && PiecesOf(line) == [OptionLine("o", Some(t))] + [OptionLine("\"", None)]
    ensures TextsFor(OneOption(def), JoinLines(banner + ["", "[s]", line]), 0, 0) == [Some(t)]
  {
    var body := ["", "[s]", line];
    ParseLines(banner + body);
    PiecesConcat(banner, body);
    TwoPieces(def, line, t);
    TextsAfter(def, Pieces(banner), Pieces(body), JoinLines(banner + body));
  }

  lemma TextsAfter(def: Definition, banner: seq<Line>, body: seq<Line>, text: string)
    requires ParseText(text) == banner + body
    requires Addressed(OneOption(def), -1, banner, At(0, 0)) == [] && CurAfter(OneOption(def), -1, banner) == -1
    ensures TextsFor(OneOption(def), text, 0, 0) == Addressed(OneOption(def), -1, body, At(0, 0))
  {
    AddressedConcat(OneOption(def), -1, banner, body, At(0, 0));
  }

  lemma OneTextReloaded(shape: Shape, cells: Cells, text: string, t: string)
    requires Fits(shape, cells) && InShape(shape, At(0, 0)) && shape[0].options[0].def.kind == Str
    requires forall s :: shape[0].options[0].def.check(s)
    requires TextsFor(shape, text, 0, 0) == [Some(t)] && TypedOrNull(Str, cells[0][0].value)
    ensures ReloadCells(shape, cells, text)[0][0].value == Some(String(t))
  {
    ReloadCell(shape, cells, text, 0, 0);
    OneTextSet(shape[0].options[0].def, cells[0][0].value, t);
  }

  lemma OneTextSet(def: Definition, v: Option<Value>, t: string)
    requires def.kind == Str && (forall s :: def.check(s)) && TypedOrNull(Str, v)
    ensures SetAll(def, v, [Some(t)]) == Some(String(t))
  {
    assert [Some(t)][1..] == [];
  }

  // ---------------------------------------------------------------- names with dots, hidden buffers

  /** An option of a file whose name has a dot is not found by its full name. */
  method DottedFile() returns (store: ConfigStore, option: ConfigOption)
    ensures fresh(store) && store.Valid() && InStore(store, option)
    ensures option.section.file.name == "a.b" && Resolve(store, FullName(option)) != option
  {
    store := new ConfigStore();
    var file := NewFile(store, "a.b");
    var section := NewSection(store, file, "s", false, false, false);
    option := NewOptionInStore(store, section, "o", Boolean, false, Some("off"), None, _ => true);
    FullNameResolves(store, option);
  }

  /** From a hidden buffer 1 to buffer 2 and not back. */
  lemma HiddenStart()
    ensures var buffers := [Buffers.Buffer(1, true), Buffers.Buffer(2, false)];
      && BufferRing.SortedBuffers(buffers)
      && Buffers.Landing(Buffers.After(buffers, 0), 1, 1) == Buffers.SwitchTo(2)
      && Buffers.Landing(Buffers.Before(buffers, 1), 2, 1) != Buffers.SwitchTo(1)
  {
    var buffers := [Buffers.Buffer(1, true), Buffers.Buffer(2, false)];
    var walk := Buffers.After(buffers, 0);
    assert walk == [buffers[1]];
    assert Buffers.Discover(walk, 1, 1, 2) == [];
    assert Buffers.Discover(walk, 0, 1, 1) == [2];
    BufferRing.ThereAndBack(buffers, 0, 1, 1);
  }
}
