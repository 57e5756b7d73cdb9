/** Writing the options of a file as text, from the linked lists; and what a reload of that text does. */
module ConfigWrite {
  import opened Text
  import opened OptionValue
  import opened LineFormat
  import opened FileText
  import opened Reload
  import opened SaveReload
  import opened Config
  import opened ConfigReload

  lemma JoinAppend(a: seq<string>, line: string)
    ensures JoinLines(a + [line]) == JoinLines(a) + (line + "\n")
  {
    JoinConcat(a, [line]);
    assert [line][1..] == [];
    assert line + "\n" + "" == line + "\n";
  }

  /** config_file_write_option: the format depends on the type and on whether the value is null. */
  method WriteOption(option: ConfigOption) returns (text: string)
    requires TypedOrNull(option.def.kind, option.value)
    ensures text == OptionText(option.name, option.def.kind, option.value) + "\n"
  {
    var prefix := Escape(option.name) + option.name;
    if option.value.Some? {
      var printed := PrintValue(option);
      text := prefix + " = " + printed + "\n";
      Regroup(prefix, printed);
    } else {
      text := prefix + "\n";
      assert prefix + "" == prefix;
    }
  }

  method PrintValue(option: ConfigOption) returns (printed: string)
    requires option.value.Some? && Typed(option.def.kind, option.value.value)
    ensures printed == ValueText(option.def.kind, option.value.value)
  {
    match option.def.kind
    case Boolean =>
      printed := if option.value.value.n == 1 then "on" else "off";
    case Integer(_, _) =>
      printed := IntText(option.value.value.n);
    case Enum(words) =>
      printed := words[option.value.value.n];
    case Str =>
      printed := "\"" + option.value.value.s + "\"";
  }

  lemma Regroup(prefix: string, printed: string)
    ensures prefix + " = " + printed + "\n" == prefix + (" = " + printed) + "\n"
  {
    assert prefix + " = " + printed == prefix + (" = " + printed);
  }

  lemma TypedCells(section: ConfigSection, shape: SectionShape, cells: seq<Cell>)
    requires Shows(section, shape, cells)
    ensures forall i :: 0 <= i < |cells| ==> TypedOrNull(shape.options[i].def.kind, cells[i].value)
  {
    forall i | 0 <= i < |cells|
      ensures TypedOrNull(shape.options[i].def.kind, cells[i].value)
    {
      assert OptionShows(section.Opts[i], shape.options[i], cells[i]);
    }
  }

  lemma FileTyped(sections: seq<ConfigSection>, shape: Shape, cells: Cells)
    requires FileShows(sections, shape, cells)
    ensures Fits(shape, cells) && CellsTyped(shape, cells)
  {
    FileShowsFits(sections, shape, cells);
    forall s | 0 <= s < |shape|
      ensures forall i :: 0 <= i < |shape[s].options| ==> TypedOrNull(shape[s].options[i].def.kind, cells[s][i].value)
    {
      assert Shows(sections[s], shape[s], cells[s]);
      TypedCells(sections[s], shape[s], cells[s]);
    }
  }

  /** One option of the loop: its line is added, and the walk goes on to the next one. */
  method WriteTurn(section: ConfigSection, option: ConfigOption, ghost shape: SectionShape, ghost cells: seq<Cell>,
                   ghost p: nat)
    returns (line: string, next: ConfigOption?)
    requires Shows(section, shape, cells) && p < |section.Opts| && option == section.Opts[p]
    ensures Shows(section, shape, cells)
    ensures TypedOrNull(shape.options[p].def.kind, cells[p].value)
    ensures line == OptionText(shape.options[p].name, shape.options[p].def.kind, cells[p].value) + "\n"
    ensures next == if p + 1 < |section.Opts| then section.Opts[p + 1] else null
  {
    assert OptionShows(option, shape.options[p], cells[p]);
    assert option.next == (if p == |section.Opts| - 1 then null else section.Opts[p + 1]);
    line := WriteOption(option);
    next := option.next;
  }

  lemma JoinPrefix(lines: seq<string>, p: nat)
    requires p < |lines|
    ensures JoinLines(lines[..p + 1]) == JoinLines(lines[..p]) + (lines[p] + "\n")
  {
    assert lines[..p + 1] == lines[..p] + [lines[p]];
    JoinAppend(lines[..p], lines[p]);
  }

  /** The options of a section, one line each, appended to the text written so far. */
  method WriteOptions(section: ConfigSection, ghost shape: SectionShape, ghost cells: seq<Cell>)
    returns (text: string)
    requires Shows(section, shape, cells)
    ensures |cells| == |shape.options|
    ensures forall i :: 0 <= i < |cells| ==> TypedOrNull(shape.options[i].def.kind, cells[i].value)
    ensures text == JoinLines(OptionLines(shape.options, cells))
  {
    TypedCells(section, shape, cells);
    ghost var lines := OptionLines(shape.options, cells);
    ghost var s := section.Opts;
    text := "";
    var option := section.options;
    ghost var p := 0;
    while option != null
      invariant 0 <= p <= |s| && Shows(section, shape, cells) && section.Opts == s
      invariant option == if p < |s| then s[p] else null
      invariant text == JoinLines(lines[..p])
      decreases |s| - p
    {
      JoinPrefix(lines, p);
      var line;
      line, option := WriteTurn(section, option, shape, cells, p);
      text := text + line;
      p := p + 1;
    }
    assert lines[..p] == lines;
  }

  /** One section of config_file_write_internal. */
  method WriteSection(section: ConfigSection, custom: seq<string>, ghost shape: SectionShape, ghost cells: seq<Cell>)
    returns (text: string)
    requires Shows(section, shape, cells)
    ensures |cells| == |shape.options|
    ensures forall i :: 0 <= i < |cells| ==> TypedOrNull(shape.options[i].def.kind, cells[i].value)
    ensures text == JoinLines(SectionLines(shape, cells, custom))
  {
    TypedCells(section, shape, cells);
    if section.writeCallback {
      text := WriteLines(custom);
    } else {
      text := WriteOptions(section, shape, cells);
      ghost var head := ["", HeaderText(section.name)];
      JoinConcat(head, OptionLines(shape.options, cells));
      JoinHead(section.name);
      text := "\n[" + section.name + "]\n" + text;
    }
  }

  lemma JoinHead(name: string)
    ensures JoinLines(["", HeaderText(name)]) == "\n[" + name + "]\n"
  {
    var head := ["", HeaderText(name)];
    assert head[1..] == [HeaderText(name)] && head[1..][1..] == [];
    assert JoinLines(head[1..]) == HeaderText(name) + "\n" + "";
    assert "" + "\n" + ("[" + name + "]" + "\n" + "") == "\n[" + name + "]\n";
  }

  method WriteLines(lines: seq<string>) returns (text: string)
    ensures text == JoinLines(lines)
  {
    text := "";
    var i := 0;
    while i < |lines|
      invariant 0 <= i <= |lines| && text == JoinLines(lines[..i])
    {
      JoinPrefix(lines, i);
      text := text + (lines[i] + "\n");
      i := i + 1;
    }
    assert lines[..i] == lines;
  }

  lemma SectionsStep(shape: Shape, cells: Cells, custom: seq<seq<string>>, i: nat)
    requires Fits(shape, cells) && CellsTyped(shape, cells) && |custom| == |shape| && i < |shape|
    ensures JoinLines(SectionsLines(shape, cells, custom, i))
      == JoinLines(SectionLines(shape[i], cells[i], custom[i])) + JoinLines(SectionsLines(shape, cells, custom, i + 1))
  {
    JoinConcat(SectionLines(shape[i], cells[i], custom[i]), SectionsLines(shape, cells, custom, i + 1));
  }

  /** The text of the sections from i on. */
  ghost function SectionsText(shape: Shape, cells: Cells, custom: seq<seq<string>>, i: nat): string
    requires Fits(shape, cells) && CellsTyped(shape, cells) && |custom| == |shape| && i <= |shape|
  {
    JoinLines(SectionsLines(shape, cells, custom, i))
  }

  method WriteAt(sections: seq<ConfigSection>, i: nat, custom: seq<seq<string>>, ghost shape: Shape, ghost cells: Cells,
                 ghost before: string)
    returns (text: string)
    requires FileShows(sections, shape, cells) && |custom| == |sections| && i < |sections|
    requires Fits(shape, cells) && CellsTyped(shape, cells)
    ensures FileShows(sections, shape, cells)
    ensures before + SectionsText(shape, cells, custom, i)
         == (before + text) + SectionsText(shape, cells, custom, i + 1)
  {
    assert Shows(sections[i], shape[i], cells[i]);
    text := WriteSection(sections[i], custom[i], shape[i], cells[i]);
    SectionsStep(shape, cells, custom, i);
    Associate(before, text, SectionsText(shape, cells, custom, i + 1));
  }

  /** The loop over the sections, after the comments at the start of the file. */
  method WriteSections(sections: seq<ConfigSection>, custom: seq<seq<string>>, ghost shape: Shape, ghost cells: Cells)
    returns (text: string)
    requires FileShows(sections, shape, cells) && |custom| == |sections|
    requires Fits(shape, cells) && CellsTyped(shape, cells)
    ensures FileShows(sections, shape, cells)
    ensures text == SectionsText(shape, cells, custom, 0)
  {
    text := "";
    var i := 0;
    ghost var all := SectionsText(shape, cells, custom, 0);
    assert "" + all == all;
    while i < |sections|
      invariant 0 <= i <= |sections| && FileShows(sections, shape, cells)
      invariant text + SectionsText(shape, cells, custom, i) == all
    {
      var part := WriteAt(sections, i, custom, shape, cells, text);
      text := text + part;
      i := i + 1;
    }
    assert text + "" == text;
  }

  lemma Associate(a: string, b: string, c: string)
    ensures (a + b) + c == a + (b + c)
  {
  }

  /** config_file_write_internal: the text of the file. */
  method WriteFile(sections: seq<ConfigSection>, custom: seq<seq<string>>, version: string, filename: string,
                   ghost shape: Shape, ghost cells: Cells)
    returns (text: string)
    requires FileShows(sections, shape, cells) && |custom| == |sections|
    ensures FileShows(sections, shape, cells)
    ensures Fits(shape, cells) && CellsTyped(shape, cells)
    ensures text == JoinLines(FileLines(shape, cells, custom, version, filename))
  {
    FileTyped(sections, shape, cells);
    var banner := WriteLines(Banner(version, filename));
    var body := WriteSections(sections, custom, shape, cells);
    JoinConcat(Banner(version, filename), SectionsLines(shape, cells, custom, 0));
    text := banner + body;
  }

  /** A file saved earlier is reloaded after any change of values: every option of a plain section
      has the value it was saved with. */
  method ReloadSaved(sections: seq<ConfigSection>, text: string, ghost shape: Shape, ghost saved: Cells,
                     ghost custom: seq<seq<string>>, ghost version: string, ghost filename: string,
                     ghost changed: Cells)
    returns (ghost after: Cells)
    requires FileShows(sections, shape, changed)
    requires SavedText(shape, saved, custom, version, filename, text)
    modifies OptionSet(sections)`value, OptionSet(sections)`loaded
    ensures FileShows(sections, shape, after) && Fits(shape, after)
    ensures forall s, i :: 0 <= s < |shape| && 0 <= i < |shape[s].options| && Plain(shape[s]) ==>
              after[s][i] == Cell(saved[s][i].value, true)
  {
    FileTyped(sections, shape, changed);
    SaveThenReload(shape, saved, custom, version, filename, text, changed);
    ReloadFile(sections, text, shape, changed);
    after := ReloadCells(shape, changed, text);
  }
}
