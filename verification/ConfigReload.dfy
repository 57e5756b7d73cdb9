/** Reading and reloading a file into its options, in place: proved against the functions of Reload. */
module ConfigReload {
  import opened Text
  import opened OptionValue
  import opened LineFormat
  import opened LineBuffer
  import opened Reload
  import opened Config

  // ---------------------------------------------------------------- the state that is modelled

  /** The section has this shape, and its options these values. */
  ghost predicate Shows(section: ConfigSection, shape: SectionShape, cells: seq<Cell>)
    reads section, section.Members()
  {
    && section.Valid()
    && section.name == shape.name && section.readCallback == shape.readCallback
    && section.writeCallback == shape.writeCallback
    && |section.Opts| == |shape.options| == |cells|
    && (forall i :: 0 <= i < |cells| ==> OptionShows(section.Opts[i], shape.options[i], cells[i]))
  }

  ghost predicate OptionShows(option: ConfigOption, shape: OptionShape, cell: Cell)
    reads option
  {
    && option.name == shape.name && option.def == shape.def
    && option.value == cell.value && option.loaded == cell.loaded
    && WellFormed(option.def, option.value)
  }

  ghost function SectionSet(sections: seq<ConfigSection>): set<ConfigSection> {
    set s | s in sections
  }

  ghost function OptionSet(sections: seq<ConfigSection>): set<ConfigOption>
    reads SectionSet(sections)`Opts
  {
    set s, o | s in sections && o in s.Opts :: o
  }

  ghost predicate FileShows(sections: seq<ConfigSection>, shape: Shape, cells: Cells)
    reads SectionSet(sections), OptionSet(sections)
  {
    && |sections| == |shape| == |cells|
    && (forall s, t :: 0 <= s < t < |sections| ==> sections[s] != sections[t])
    && (forall s :: 0 <= s < |sections| ==> Shows(sections[s], shape[s], cells[s]))
  }

  lemma FileShowsFits(sections: seq<ConfigSection>, shape: Shape, cells: Cells)
    requires FileShows(sections, shape, cells)
    ensures Fits(shape, cells)
  {
    forall s | 0 <= s < |shape|
      ensures |cells[s]| == |shape[s].options|
    {
      assert Shows(sections[s], shape[s], cells[s]);
    }
  }

  lemma NamesShown(section: ConfigSection, shape: SectionShape, cells: seq<Cell>)
    requires Shows(section, shape, cells)
    ensures section.Names == OptionNames(shape.options)
  {
    forall i | 0 <= i < |section.Names|
      ensures section.Names[i] == OptionNames(shape.options)[i]
    {
      assert OptionShows(section.Opts[i], shape.options[i], cells[i]);
      assert section.Opts[i].name == section.Names[i];
    }
  }

  // ---------------------------------------------------------------- looking an option up

  method FindAt(sections: seq<ConfigSection>, section: ConfigSection, ghost s: nat, name: string,
                ghost shape: Shape, ghost cells: Cells)
    returns (option: ConfigOption?)
    requires FileShows(sections, shape, cells) && s < |sections| && section == sections[s]
    ensures FileShows(sections, shape, cells)
    ensures var k := FindOption(shape[s].options, name);
      k < |section.Opts| && option == if k < 0 then null else section.Opts[k]
  {
    assert Shows(section, shape[s], cells[s]);
    NamesShown(section, shape[s], cells[s]);
    option := section.Search(name);
  }

  /** config_file_search_option when no section is given: the first section that has the option. */
  method FindAnywhere(sections: seq<ConfigSection>, name: string, ghost shape: Shape, ghost cells: Cells)
    returns (option: ConfigOption?)
    requires FileShows(sections, shape, cells)
    ensures FileShows(sections, shape, cells)
    ensures var p := Lookup(shape, -1, name);
      && (p.At? ==> p.index < |sections[p.section].Opts|)
      && option == if p.Nowhere? then null else sections[p.section].Opts[p.index]
  {
    var i := 0;
    while i < |sections|
      invariant 0 <= i <= |sections| && FileShows(sections, shape, cells)
      invariant FindHolderFrom(shape, name, i) == FindHolder(shape, name)
    {
      option := FindAt(sections, sections[i], i, name, shape, cells);
      if option != null {
        return option;
      }
      i := i + 1;
    }
    return null;
  }

  // ---------------------------------------------------------------- giving a value

  lemma SetWellFormed(def: Definition, v: Option<Value>, text: Option<string>)
    requires WellFormed(def, v)
    ensures WellFormed(def, SetResult(def, v, text).0)
  {
    if text.Some? {
      TargetTyped(def.kind, v, text.value);
    }
  }

  /** The call of config_file_option_set made for a line, and the "loaded" mark. */
  method GiveOne(option: ConfigOption, text: Option<string>, ghost shape: OptionShape, ghost cell: Cell)
    returns (rc: Rc)
    requires OptionShows(option, shape, cell)
    modifies option`value, option`loaded
    ensures OptionShows(option, shape, Cell(SetResult(shape.def, cell.value, text).0, true))
    ensures rc == SetResult(shape.def, cell.value, text).1
  {
    SetWellFormed(option.def, option.value, text);
    rc := option.Set(text);
    option.loaded := true;
  }

  method GiveInSection(section: ConfigSection, option: ConfigOption, text: Option<string>,
                       ghost shape: SectionShape, ghost cells: seq<Cell>, ghost i: nat)
    returns (rc: Rc)
    requires Shows(section, shape, cells) && i < |cells| && option == section.Opts[i]
    modifies option`value, option`loaded
    ensures Shows(section, shape, cells[i := Cell(SetResult(shape.options[i].def, cells[i].value, text).0, true)])
    ensures rc == SetResult(shape.options[i].def, cells[i].value, text).1
  {
    rc := GiveOne(option, text, shape.options[i], cells[i]);
    OthersShown(section, shape, cells, i);
  }

  /** The options of a section other than the one at i. */
  lemma OthersShown(section: ConfigSection, shape: SectionShape, cells: seq<Cell>, i: nat)
    requires section.Valid() && |section.Opts| == |shape.options| == |cells|
    ensures forall j :: 0 <= j < |cells| && j != i && i < |cells| ==> section.Opts[j] != section.Opts[i]
  {
  }

  lemma OtherSectionsShown(sections: seq<ConfigSection>, shape: Shape, cells: Cells, s: nat)
    requires FileShows(sections, shape, cells) && s < |sections|
    ensures forall t :: 0 <= t < |sections| && t != s ==>
              sections[t] != sections[s] && sections[t].Members() !! sections[s].Members()
  {
    assert forall t :: 0 <= t < |sections| ==> Shows(sections[t], shape[t], cells[t]);
  }

  method GiveValue(option: ConfigOption, text: Option<string>, ghost sections: seq<ConfigSection>,
                   ghost shape: Shape, ghost cells: Cells, ghost p: Place, section: ConfigSection)
    returns (rc: Rc)
    requires FileShows(sections, shape, cells) && Fits(shape, cells)
    requires p.At? && InShape(shape, p) && section == sections[p.section] && option == section.Opts[p.index]
    modifies option`value, option`loaded
    ensures FileShows(sections, shape, SetCell(shape, cells, p, text))
    ensures rc == SetResult(option.def, cells[p.section][p.index].value, text).1
  {
    OtherSectionsShown(sections, shape, cells, p.section);
    assert Shows(section, shape[p.section], cells[p.section]);
    assert OptionShows(option, shape[p.section].options[p.index], cells[p.section][p.index]);
    rc := GiveInSection(section, option, text, shape[p.section], cells[p.section], p.index);
    ghost var after := SetCell(shape, cells, p, text);
    forall s | 0 <= s < |sections|
      ensures Shows(sections[s], shape[s], after[s])
    {
      assert old(Shows(sections[s], shape[s], cells[s]));
    }
  }

  // ---------------------------------------------------------------- reading

  ghost predicate IsCurrent(sections: seq<ConfigSection>, section: ConfigSection?, cur: int) {
    -1 <= cur < |sections| && section == if cur < 0 then null else sections[cur]
  }

  method FindSectionInFile(sections: seq<ConfigSection>, name: string, ghost shape: Shape, ghost cells: Cells)
    returns (section: ConfigSection?)
    requires FileShows(sections, shape, cells)
    ensures FileShows(sections, shape, cells)
    ensures IsCurrent(sections, section, FindSection(shape, name))
  {
    var i := 0;
    while i < |sections|
      invariant 0 <= i <= |sections|
      invariant WordIndexFrom(SectionNames(shape), name, i) == FindSection(shape, name)
    {
      assert Shows(sections[i], shape[i], cells[i]);
      if EqFold(sections[i].name, name) {
        return sections[i];
      }
      i := i + 1;
    }
    return null;
  }

  /** What is done with one line of the file. */
  method HandleLine(sections: seq<ConfigSection>, section: ConfigSection?, line: Line,
                    ghost shape: Shape, ghost st: ReadState)
    returns (next: ConfigSection?)
    requires FileShows(sections, shape, st.cells) && Fits(shape, st.cells)
    requires IsCurrent(sections, section, st.cur)
    modifies OptionSet(sections)`value, OptionSet(sections)`loaded
    ensures FileShows(sections, shape, ApplyLine(shape, st, line).cells)
    ensures IsCurrent(sections, next, ApplyLine(shape, st, line).cur)
  {
    next := section;
    match line
    case Ignored =>
    case NoBracket =>
    case Header(name) =>
      next := FindSectionInFile(sections, name, shape, st.cells);
    case OptionLine(name, text) =>
      HandleOption(sections, section, name, text, shape, st);
  }

  lemma CurrentShown(sections: seq<ConfigSection>, section: ConfigSection, shape: Shape, cells: Cells, cur: int)
    requires FileShows(sections, shape, cells) && IsCurrent(sections, section, cur)
    ensures section.readCallback == shape[cur].readCallback
  {
    assert Shows(section, shape[cur], cells[cur]);
  }

  method HandleOption(sections: seq<ConfigSection>, section: ConfigSection?, name: string, text: Option<string>,
                      ghost shape: Shape, ghost st: ReadState)
    requires FileShows(sections, shape, st.cells) && Fits(shape, st.cells)
    requires IsCurrent(sections, section, st.cur)
    modifies OptionSet(sections)`value, OptionSet(sections)`loaded
    ensures FileShows(sections, shape, ApplyLine(shape, st, OptionLine(name, text)).cells)
  {
    if section != null {
      CurrentShown(sections, section, shape, st.cells, st.cur);
    }
    if section == null || !section.readCallback {
      SetNamed(sections, section, name, text, shape, st.cells, st.cur);
    }
  }

  /** A line for a section without read callback: the option named, if there is one, is set. */
  method SetNamed(sections: seq<ConfigSection>, section: ConfigSection?, name: string, text: Option<string>,
                  ghost shape: Shape, ghost cells: Cells, ghost cur: int)
    requires FileShows(sections, shape, cells) && Fits(shape, cells) && IsCurrent(sections, section, cur)
    modifies OptionSet(sections)`value, OptionSet(sections)`loaded
    ensures var p := Lookup(shape, cur, name);
      FileShows(sections, shape, if p.At? then SetCell(shape, cells, p, text) else cells)
  {
    var option := FindOptionInFile(sections, section, name, shape, cells, cur);
    if option != null {
      ghost var p := Lookup(shape, cur, name);
      var _ := GiveValue(option, text, sections, shape, cells, p, option.section);
    }
  }

  /** config_file_search_option. */
  method FindOptionInFile(sections: seq<ConfigSection>, section: ConfigSection?, name: string,
                          ghost shape: Shape, ghost cells: Cells, ghost cur: int)
    returns (option: ConfigOption?)
    requires FileShows(sections, shape, cells) && Fits(shape, cells) && IsCurrent(sections, section, cur)
    ensures FileShows(sections, shape, cells)
    ensures var p := Lookup(shape, cur, name);
      && (option == null <==> p.Nowhere?)
      && (option != null ==>
            && option.section == sections[p.section] && p.index < |option.section.Opts|
            && option == option.section.Opts[p.index] && option in OptionSet(sections))
  {
    if section != null {
      option := FindCurrent(sections, section, name, shape, cells, cur);
    } else {
      option := FindAnywhere(sections, name, shape, cells);
    }
    if option != null {
      ghost var p := Lookup(shape, cur, name);
      OptionShownAt(sections, shape, cells, p, option);
    }
  }

  method FindCurrent(sections: seq<ConfigSection>, section: ConfigSection, name: string,
                     ghost shape: Shape, ghost cells: Cells, ghost cur: nat)
    returns (option: ConfigOption?)
    requires FileShows(sections, shape, cells) && cur < |sections| && section == sections[cur]
    ensures FileShows(sections, shape, cells)
    ensures var p := Lookup(shape, cur, name);
      && (p.At? ==> p.index < |sections[p.section].Opts|)
      && option == if p.Nowhere? then null else sections[p.section].Opts[p.index]
  {
    option := FindAt(sections, section, cur, name, shape, cells);
  }

  lemma OptionShownAt(sections: seq<ConfigSection>, shape: Shape, cells: Cells, p: Place, option: ConfigOption)
    requires FileShows(sections, shape, cells) && Fits(shape, cells) && p.At? && InShape(shape, p)
    requires option == sections[p.section].Opts[p.index]
    ensures option.section == sections[p.section] && option in OptionSet(sections)
    ensures |sections[p.section].Opts| == |shape[p.section].options|
  {
    assert Shows(sections[p.section], shape[p.section], cells[p.section]);
    assert option in sections[p.section].Opts && sections[p.section] in sections;
  }

  /** fgets: copies one chunk of the text into the buffer. */
  method FGets(line: array<char>, text: string) returns (n: nat)
    requires line.Length == MAX_LINE + 2 && text != ""
    modifies line
    ensures n == ChunkLength(text)
    ensures Holds(line, 0, CString(text[..n]))
  {
    n := 0;
    while n < MAX_LINE && n < |text|
      invariant n <= MAX_LINE && n <= |text|
      invariant line[..n] == text[..n]
      invariant '\n' !in text[..n]
    {
      line[n] := text[n];
      n := n + 1;
      if text[n - 1] == '\n' {
        break;
      }
    }
    LengthOfChunk(text, n);
    line[n] := '\0';
    ghost var chunk := text[..n];
    assert line[..n] == chunk;
    var e := IndexOf(chunk, '\0', 0);
    assert line[0..e] == chunk[..e];
  }

  lemma LengthOfChunk(text: string, n: nat)
    requires 0 < n <= |text| && n <= MAX_LINE && '\n' !in text[..n - 1]
    requires text[n - 1] == '\n' || n == MAX_LINE || n == |text|
    ensures ChunkLength(text) == n
  {
    assert forall i :: 0 <= i < n - 1 ==> text[i] == text[..n - 1][i];
  }

  method ParseChunk(line: array<char>, rest: string) returns (n: nat, parsed: Line)
    requires line.Length == MAX_LINE + 2 && rest != ""
    modifies line
    ensures n == ChunkLength(rest) && parsed == ReadLine(CString(rest[..n]))
  {
    n := FGets(line, rest);
    parsed := ParseLine(line, CString(rest[..n]));
  }

  /** One turn of the loop of config_file_read_internal: a line is read, parsed and applied. */
  method ReadChunk(line: array<char>, sections: seq<ConfigSection>, section: ConfigSection?, rest: string,
                   ghost shape: Shape, ghost st: ReadState)
    returns (n: nat, next: ConfigSection?, ghost parsed: Line)
    requires line.Length == MAX_LINE + 2 && rest != ""
    requires FileShows(sections, shape, st.cells) && Fits(shape, st.cells)
    requires IsCurrent(sections, section, st.cur)
    modifies line, OptionSet(sections)`value, OptionSet(sections)`loaded
    ensures n == ChunkLength(rest) && parsed == ReadLine(CString(rest[..n]))
    ensures FileShows(sections, shape, ApplyLine(shape, st, parsed).cells)
    ensures IsCurrent(sections, next, ApplyLine(shape, st, parsed).cur)
  {
    var meaning;
    n, meaning := ParseChunk(line, rest);
    parsed := meaning;
    next := HandleLine(sections, section, meaning, shape, st);
  }

  /** The loop of config_file_read_internal over the lines of the file. */
  method ReadText(sections: seq<ConfigSection>, text: string, ghost shape: Shape, ghost cells: Cells)
    requires FileShows(sections, shape, cells) && Fits(shape, cells)
    modifies OptionSet(sections)`value, OptionSet(sections)`loaded
    ensures FileShows(sections, shape, ApplyLines(shape, ReadState(-1, cells), ParseText(text)).cells)
  {
    var line := new char[MAX_LINE + 2];
    var rest := text;
    var section: ConfigSection? := null;
    ghost var st := ReadState(-1, cells);
    ghost var final := ApplyLines(shape, st, ParseText(text));
    while rest != ""
      invariant FileShows(sections, shape, st.cells) && Fits(shape, st.cells)
      invariant IsCurrent(sections, section, st.cur)
      invariant ApplyLines(shape, st, ParseText(rest)) == final
      decreases |rest|
    {
      ReadStep(shape, st, rest);
      var n;
      ghost var parsed;
      n, section, parsed := ReadChunk(line, sections, section, rest, shape, st);
      st := ApplyLine(shape, st, parsed);
      rest := rest[n..];
    }
  }

  lemma ReadStep(shape: Shape, st: ReadState, rest: string)
    requires rest != "" && Fits(shape, st.cells) && st.cur < |shape|
    ensures var n := ChunkLength(rest);
      ApplyLines(shape, st, ParseText(rest))
      == ApplyLines(shape, ApplyLine(shape, st, ReadLine(CString(rest[..n]))), ParseText(rest[n..]))
  {
    var n := ChunkLength(rest);
    var line := ReadLine(CString(rest[..n]));
    assert ParseText(rest) == [line] + ParseText(rest[n..]);
    assert ParseText(rest)[0] == line && ParseText(rest)[1..] == ParseText(rest[n..]);
  }

  // ---------------------------------------------------------------- before and after reading

  function MapSection(shape: SectionShape, cells: seq<Cell>, f: (SectionShape, Definition, Cell) -> Cell)
    : (r: seq<Cell>)
    requires |cells| == |shape.options|
    ensures |r| == |cells|
    ensures forall i :: 0 <= i < |r| ==> r[i] == f(shape, shape.options[i].def, cells[i])
  {
    seq(|cells|, i requires 0 <= i < |cells| => f(shape, shape.options[i].def, cells[i]))
  }

  /** The first p cells are the new ones, the others the old ones. */
  ghost function Mixed(before: seq<Cell>, after: seq<Cell>, p: nat): (r: seq<Cell>)
    requires p <= |before| == |after|
    ensures |r| == |before|
  {
    if p == 0 then before else Mixed(before, after, p - 1)[p - 1 := after[p - 1]]
  }

  /** The walk over a section has reached position p: cells are the old ones from there on. */
  ghost predicate InMap(section: ConfigSection, option: ConfigOption?, shape: SectionShape, before: seq<Cell>,
                        after: seq<Cell>, p: nat)
    reads section, section.Members()
  {
    && p <= |section.Opts| == |before| == |after|
    && option == (if p < |section.Opts| then section.Opts[p] else null)
    && (option != null ==> option in section.Members())
    && Shows(section, shape, Mixed(before, after, p))
  }

  lemma {:induction false} MixedAt(before: seq<Cell>, after: seq<Cell>, p: nat)
    requires p <= |before| == |after|
    ensures forall i :: 0 <= i < |before| ==> Mixed(before, after, p)[i] == if i < p then after[i] else before[i]
  {
    if p > 0 {
      MixedAt(before, after, p - 1);
    }
  }

  lemma MixedAll(before: seq<Cell>, after: seq<Cell>)
    requires |before| == |after|
    ensures Mixed(before, after, |before|) == after
  {
    MixedAt(before, after, |before|);
  }

  method UnloadTurn(section: ConfigSection, option: ConfigOption, ghost shape: SectionShape, ghost before: seq<Cell>,
                    ghost after: seq<Cell>, ghost p: nat)
    returns (next: ConfigOption?)
    requires InMap(section, option, shape, before, after, p) && p < |before| && !shape.readCallback
    requires after[p] == UnloadCell(shape, shape.options[p].def, before[p])
    modifies option`loaded
    ensures InMap(section, next, shape, before, after, p + 1) && section.Opts == old(section.Opts)
  {
    ghost var cells := Mixed(before, after, p);
    MixedAt(before, after, p);
    assert OptionShows(option, shape.options[p], cells[p]);
    assert option.next == (if p == |section.Opts| - 1 then null else section.Opts[p + 1]);
    next := option.next;
    option.loaded := false;
    OthersShown(section, shape, cells, p);
    assert Shows(section, shape, cells[p := after[p]]);
  }

  method UnloadSection(section: ConfigSection, ghost shape: SectionShape, ghost before: seq<Cell>)
    requires Shows(section, shape, before) && !section.readCallback
    modifies section.Members()`loaded
    ensures Shows(section, shape, MapSection(shape, before, UnloadCell))
  {
    UnloadLoop(section, shape, before, MapSection(shape, before, UnloadCell));
  }

  method UnloadLoop(section: ConfigSection, ghost shape: SectionShape, ghost before: seq<Cell>, ghost after: seq<Cell>)
    requires Shows(section, shape, before) && |after| == |before| && !shape.readCallback
    requires forall i {:trigger after[i]} :: 0 <= i < |after| ==>
               after[i] == UnloadCell(shape, shape.options[i].def, before[i])
    modifies section.Members()`loaded
    ensures Shows(section, shape, after)
  {
    var option := section.options;
    ghost var p, s := 0, section.Opts;
    while option != null
      invariant InMap(section, option, shape, before, after, p) && section.Opts == s
      decreases |s| - p
    {
      option := UnloadTurn(section, option, shape, before, after, p);
      p := p + 1;
    }
    MixedAll(before, after);
  }

  lemma ResetWellFormed(def: Definition, v: Option<Value>)
    requires WellFormed(def, v)
    ensures WellFormed(def, ResetResult(def, v).0)
  {
  }

  method ResetTurn(section: ConfigSection, option: ConfigOption, ghost shape: SectionShape, ghost before: seq<Cell>,
                   ghost after: seq<Cell>, ghost p: nat)
    returns (next: ConfigOption?)
    requires InMap(section, option, shape, before, after, p) && p < |before| && !shape.readCallback
    requires after[p] == ResetCell(shape, shape.options[p].def, before[p])
    modifies option`value
    ensures InMap(section, next, shape, before, after, p + 1) && section.Opts == old(section.Opts)
  {
    ghost var cells := Mixed(before, after, p);
    MixedAt(before, after, p);
    assert OptionShows(option, shape.options[p], cells[p]);
    assert option.next == (if p == |section.Opts| - 1 then null else section.Opts[p + 1]);
    next := option.next;
    ResetWellFormed(option.def, option.value);
    if !option.loaded {
      var _ := option.Reset();
    }
    OthersShown(section, shape, cells, p);
    assert Shows(section, shape, cells[p := after[p]]);
  }

  method ResetSection(section: ConfigSection, ghost shape: SectionShape, ghost before: seq<Cell>)
    requires Shows(section, shape, before) && !section.readCallback
    modifies section.Members()`value
    ensures Shows(section, shape, MapSection(shape, before, ResetCell))
  {
    ResetLoop(section, shape, before, MapSection(shape, before, ResetCell));
  }

  method ResetLoop(section: ConfigSection, ghost shape: SectionShape, ghost before: seq<Cell>, ghost after: seq<Cell>)
    requires Shows(section, shape, before) && |after| == |before| && !shape.readCallback
    requires forall i {:trigger after[i]} :: 0 <= i < |after| ==>
               after[i] == ResetCell(shape, shape.options[i].def, before[i])
    modifies section.Members()`value
    ensures Shows(section, shape, after)
  {
    var option := section.options;
    ghost var p, s := 0, section.Opts;
    while option != null
      invariant InMap(section, option, shape, before, after, p) && section.Opts == s
      decreases |s| - p
    {
      option := ResetTurn(section, option, shape, before, after, p);
      p := p + 1;
    }
    MixedAll(before, after);
  }

  /** The cells while sections before n have been mapped and the others not. */
  function Mapped(shape: Shape, cells: Cells, f: (SectionShape, Definition, Cell) -> Cell, n: nat): (r: Cells)
    requires Fits(shape, cells) && n <= |shape|
    ensures Fits(shape, r)
  {
    var all := MapCells(shape, cells, f);
    all[..n] + cells[n..]
  }

  lemma MappedStep(shape: Shape, cells: Cells, f: (SectionShape, Definition, Cell) -> Cell, n: nat)
    requires Fits(shape, cells) && n < |shape|
    ensures Mapped(shape, cells, f, n)[n] == cells[n]
    ensures Mapped(shape, cells, f, n + 1)
         == Mapped(shape, cells, f, n)[n := MapSection(shape[n], cells[n], f)]
  {
    assert MapCells(shape, cells, f)[n] == MapSection(shape[n], cells[n], f);
  }

  lemma MappedEnds(shape: Shape, cells: Cells, f: (SectionShape, Definition, Cell) -> Cell)
    requires Fits(shape, cells)
    ensures Mapped(shape, cells, f, 0) == cells
    ensures Mapped(shape, cells, f, |shape|) == MapCells(shape, cells, f)
  {
  }

  /** A section with a read callback is left alone by both maps. */
  lemma CustomUnmapped(shape: SectionShape, cells: seq<Cell>)
    requires shape.readCallback && |cells| == |shape.options|
    ensures MapSection(shape, cells, UnloadCell) == cells && MapSection(shape, cells, ResetCell) == cells
  {
  }

  method UnloadAt(sections: seq<ConfigSection>, section: ConfigSection, ghost shape: Shape, ghost cells: Cells,
                  ghost n: nat)
    requires FileShows(sections, shape, cells) && Fits(shape, cells) && n < |sections| && section == sections[n]
    modifies section.Members()`loaded
    ensures FileShows(sections, shape, cells[n := MapSection(shape[n], cells[n], UnloadCell)])
  {
    OtherSectionsShown(sections, shape, cells, n);
    assert Shows(section, shape[n], cells[n]);
    if !section.readCallback {
      UnloadSection(section, shape[n], cells[n]);
    } else {
      CustomUnmapped(shape[n], cells[n]);
    }
    forall s | 0 <= s < |sections|
      ensures Shows(sections[s], shape[s], cells[n := MapSection(shape[n], cells[n], UnloadCell)][s])
    {
      assert old(Shows(sections[s], shape[s], cells[s]));
    }
  }

  method ResetAt(sections: seq<ConfigSection>, section: ConfigSection, ghost shape: Shape, ghost cells: Cells,
                 ghost n: nat)
    requires FileShows(sections, shape, cells) && Fits(shape, cells) && n < |sections| && section == sections[n]
    modifies section.Members()`value
    ensures FileShows(sections, shape, cells[n := MapSection(shape[n], cells[n], ResetCell)])
  {
    OtherSectionsShown(sections, shape, cells, n);
    assert Shows(section, shape[n], cells[n]);
    if !section.readCallback {
      ResetSection(section, shape[n], cells[n]);
    } else {
      CustomUnmapped(shape[n], cells[n]);
    }
    forall s | 0 <= s < |sections|
      ensures Shows(sections[s], shape[s], cells[n := MapSection(shape[n], cells[n], ResetCell)][s])
    {
      assert old(Shows(sections[s], shape[s], cells[s]));
    }
  }

  lemma MembersInFile(sections: seq<ConfigSection>, n: nat)
    requires n < |sections|
    ensures sections[n].Members() <= OptionSet(sections)
  {
    assert sections[n] in sections;
  }

  method UnloadAll(sections: seq<ConfigSection>, ghost shape: Shape, ghost cells: Cells)
    requires FileShows(sections, shape, cells) && Fits(shape, cells)
    modifies OptionSet(sections)`loaded
    ensures FileShows(sections, shape, MapCells(shape, cells, UnloadCell))
  {
    MappedEnds(shape, cells, UnloadCell);
    ghost var all := OptionSet(sections);
    var i := 0;
    while i < |sections|
      invariant 0 <= i <= |sections| && OptionSet(sections) == all
      invariant FileShows(sections, shape, Mapped(shape, cells, UnloadCell, i))
    {
      MappedStep(shape, cells, UnloadCell, i);
      MembersInFile(sections, i);
      UnloadAt(sections, sections[i], shape, Mapped(shape, cells, UnloadCell, i), i);
      i := i + 1;
    }
  }

  method ResetAll(sections: seq<ConfigSection>, ghost shape: Shape, ghost cells: Cells)
    requires FileShows(sections, shape, cells) && Fits(shape, cells)
    modifies OptionSet(sections)`value
    ensures FileShows(sections, shape, MapCells(shape, cells, ResetCell))
  {
    MappedEnds(shape, cells, ResetCell);
    ghost var all := OptionSet(sections);
    var i := 0;
    while i < |sections|
      invariant 0 <= i <= |sections| && OptionSet(sections) == all
      invariant FileShows(sections, shape, Mapped(shape, cells, ResetCell, i))
    {
      MappedStep(shape, cells, ResetCell, i);
      MembersInFile(sections, i);
      ResetAt(sections, sections[i], shape, Mapped(shape, cells, ResetCell, i), i);
      i := i + 1;
    }
  }

  /** config_file_reload: the options end with the values that Reload.ReloadCells says. */
  method ReloadFile(sections: seq<ConfigSection>, text: string, ghost shape: Shape, ghost cells: Cells)
    requires FileShows(sections, shape, cells) && Fits(shape, cells)
    modifies OptionSet(sections)`value, OptionSet(sections)`loaded
    ensures FileShows(sections, shape, ReloadCells(shape, cells, text))
  {
    UnloadAll(sections, shape, cells);
    ghost var unloaded := MapCells(shape, cells, UnloadCell);
    ReadText(sections, text, shape, unloaded);
    ghost var read := ApplyLines(shape, ReadState(-1, unloaded), ParseText(text));
    ResetAll(sections, shape, read.cells);
  }
}
