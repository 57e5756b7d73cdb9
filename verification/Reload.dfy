/** Writing and reloading a whole configuration file, as functions on the values of its options. */
module Reload {
  import opened Text
  import opened OptionValue
  import opened LineFormat

  datatype OptionShape = OptionShape(name: string, def: Definition)

  /** With a read callback, lines go to it and the options are left alone; with a write callback, it
      writes the lines of the section. */
  datatype SectionShape = SectionShape(name: string, readCallback: bool, writeCallback: bool, options: seq<OptionShape>)

  type Shape = seq<SectionShape>

  datatype Cell = Cell(value: Option<Value>, loaded: bool)

  type Cells = seq<seq<Cell>>

  predicate Fits(shape: Shape, cells: Cells) {
    && |cells| == |shape|
    && forall s :: 0 <= s < |shape| ==> |cells[s]| == |shape[s].options|
  }

  // ---------------------------------------------------------------- lookup

  function OptionNames(options: seq<OptionShape>): (r: seq<string>)
    ensures |r| == |options|
    ensures forall i :: 0 <= i < |r| ==> r[i] == options[i].name
  {
    seq(|options|, i requires 0 <= i < |options| => options[i].name)
  }

  function SectionNames(shape: Shape): (r: seq<string>)
    ensures |r| == |shape|
    ensures forall i :: 0 <= i < |r| ==> r[i] == shape[i].name
  {
    seq(|shape|, i requires 0 <= i < |shape| => shape[i].name)
  }

  /** Index of the first option with this name, case ignored, or -1. */
  function FindOption(options: seq<OptionShape>, name: string): int {
    WordIndex(OptionNames(options), name)
  }

  function FindSection(shape: Shape, name: string): int {
    WordIndex(SectionNames(shape), name)
  }

  /** First section that has an option with this name. */
  function FindHolder(shape: Shape, name: string): (r: int)
    ensures -1 <= r < |shape|
    ensures r >= 0 ==> FindOption(shape[r].options, name) >= 0
    ensures forall i :: 0 <= i < (if r >= 0 then r else |shape|) ==> FindOption(shape[i].options, name) < 0
  {
    FindHolderFrom(shape, name, 0)
  }

  function FindHolderFrom(shape: Shape, name: string, from: nat): (r: int)
    requires from <= |shape|
    ensures r == -1 || from <= r < |shape|
    ensures r >= 0 ==> FindOption(shape[r].options, name) >= 0
    ensures forall i :: from <= i < (if r >= 0 then r else |shape|) ==> FindOption(shape[i].options, name) < 0
    decreases |shape| - from
  {
    if from == |shape| then -1
    else if FindOption(shape[from].options, name) >= 0 then from
    else FindHolderFrom(shape, name, from + 1)
  }

  datatype Place = Nowhere | At(section: nat, index: nat)

  predicate InShape(shape: Shape, p: Place) {
    p.At? ==> p.section < |shape| && p.index < |shape[p.section].options|
  }

  /** The option that a line names: in the current section, or anywhere when there is none. */
  function Lookup(shape: Shape, cur: int, name: string): (p: Place)
    requires cur < |shape|
    ensures InShape(shape, p)
  {
    var s := if cur >= 0 then cur else FindHolder(shape, name);
    if s < 0 then Nowhere
    else
      var i := FindOption(shape[s].options, name);
      if i < 0 then Nowhere else At(s, i)
  }

  // ---------------------------------------------------------------- reading

  /** cur: the current section, -1 when there is none or its header was unknown. */
  datatype ReadState = ReadState(cur: int, cells: Cells)

  function SetCell(shape: Shape, cells: Cells, p: Place, text: Option<string>): (r: Cells)
    requires Fits(shape, cells) && p.At? && InShape(shape, p)
    ensures Fits(shape, r)
  {
    var cell := cells[p.section][p.index];
    var next := Cell(SetResult(shape[p.section].options[p.index].def, cell.value, text).0, true);
    cells[p.section := cells[p.section][p.index := next]]
  }

  /** The option given a value by a line. */
  function Addressee(shape: Shape, cur: int, line: Line): (p: Place)
    requires cur < |shape|
    ensures InShape(shape, p)
  {
    if !line.OptionLine? || (cur >= 0 && shape[cur].readCallback) then Nowhere
    else Lookup(shape, cur, line.name)
  }

  function NextSection(shape: Shape, cur: int, line: Line): (r: int)
    requires cur < |shape|
    ensures r < |shape|
  {
    if line.Header? then FindSection(shape, line.section) else cur
  }

  function ApplyLine(shape: Shape, st: ReadState, line: Line): (r: ReadState)
    requires Fits(shape, st.cells) && st.cur < |shape|
    ensures Fits(shape, r.cells) && r.cur < |shape|
  {
    var p := Addressee(shape, st.cur, line);
    ReadState(NextSection(shape, st.cur, line),
              if p.At? then SetCell(shape, st.cells, p, line.value) else st.cells)
  }

  function ApplyLines(shape: Shape, st: ReadState, lines: seq<Line>): (r: ReadState)
    requires Fits(shape, st.cells) && st.cur < |shape|
    ensures Fits(shape, r.cells) && r.cur < |shape|
    decreases |lines|
  {
    if lines == [] then st else ApplyLines(shape, ApplyLine(shape, st, lines[0]), lines[1..])
  }

  /** fgets with a buffer of 16383 bytes: what one call takes from the text. */
  const MAX_LINE: nat := 16382

  function ChunkLength(text: string): (n: nat)
    requires text != ""
    ensures 0 < n <= |text|
  {
    var k := IndexOf(text, '\n', 0);
    var n := if k < |text| then k + 1 else |text|;
    if n > MAX_LINE then MAX_LINE else n
  }

  /** A C string ends at the first NUL. */
  function CString(s: string): string { CutAt(s, '\0') }

  function ParseText(text: string): seq<Line> {
    if text == "" then []
    else
      var n := ChunkLength(text);
      [ReadLine(CString(text[..n]))] + ParseText(text[n..])
  }

  function MapCells(shape: Shape, cells: Cells, f: (SectionShape, Definition, Cell) -> Cell): (r: Cells)
    requires Fits(shape, cells)
    ensures Fits(shape, r)
    ensures forall s, i :: 0 <= s < |shape| && 0 <= i < |shape[s].options| ==>
              r[s][i] == f(shape[s], shape[s].options[i].def, cells[s][i])
  {
    seq(|shape|, s requires 0 <= s < |shape| =>
      seq(|shape[s].options|, i requires 0 <= i < |shape[s].options| =>
        f(shape[s], shape[s].options[i].def, cells[s][i])))
  }

  function UnloadCell(section: SectionShape, def: Definition, c: Cell): Cell {
    if section.readCallback then c else c.(loaded := false)
  }

  function ResetCell(section: SectionShape, def: Definition, c: Cell): Cell {
    if section.readCallback || c.loaded then c else c.(value := ResetResult(def, c.value).0)
  }

  /** config_file_reload on a file with this text. */
  function ReloadCells(shape: Shape, cells: Cells, text: string): (r: Cells)
    requires Fits(shape, cells)
    ensures Fits(shape, r)
  {
    var unloaded := MapCells(shape, cells, UnloadCell);
    var read := ApplyLines(shape, ReadState(-1, unloaded), ParseText(text));
    MapCells(shape, read.cells, ResetCell)
  }

  // ---------------------------------------------------------------- one option at a time

  /** The texts that the lines give to the option at p, in order. */
  function Addressed(shape: Shape, cur: int, lines: seq<Line>, p: Place): seq<Option<string>>
    requires cur < |shape|
    decreases |lines|
  {
    if lines == [] then []
    else AddressedOnce(shape, cur, lines[0], p) + Addressed(shape, NextSection(shape, cur, lines[0]), lines[1..], p)
  }

  function AddressedOnce(shape: Shape, cur: int, line: Line, p: Place): seq<Option<string>>
    requires cur < |shape|
  {
    if p.At? && Addressee(shape, cur, line) == p then [line.value] else []
  }

  function SetAll(def: Definition, v: Option<Value>, texts: seq<Option<string>>): Option<Value>
    decreases |texts|
  {
    if texts == [] then v else SetAll(def, SetResult(def, v, texts[0]).0, texts[1..])
  }

  /** Each option ends with the value made by the texts addressed to it, whatever the others do. */
  lemma {:induction false} ApplyLinesCell(shape: Shape, st: ReadState, lines: seq<Line>, s: nat, i: nat)
    requires Fits(shape, st.cells) && st.cur < |shape| && InShape(shape, At(s, i))
    ensures var texts := Addressed(shape, st.cur, lines, At(s, i));
      var before := st.cells[s][i];
      ApplyLines(shape, st, lines).cells[s][i]
      == Cell(SetAll(shape[s].options[i].def, before.value, texts), before.loaded || texts != [])
    decreases |lines|
  {
    if lines != [] {
      var next := ApplyLine(shape, st, lines[0]);
      ApplyLinesCell(shape, next, lines[1..], s, i);
      var rest := Addressed(shape, next.cur, lines[1..], At(s, i));
      if Addressee(shape, st.cur, lines[0]) == At(s, i) {
        var texts := [lines[0].value] + rest;
        assert texts[0] == lines[0].value && texts[1..] == rest;
      } else {
        assert next.cells[s][i] == st.cells[s][i];
        assert [] + rest == rest;
      }
    }
  }

  function ReloadValue(section: SectionShape, def: Definition, c: Cell, texts: seq<Option<string>>): Cell {
    if texts == [] then
      if section.readCallback then c else Cell(ResetResult(def, c.value).0, false)
    else Cell(SetAll(def, c.value, texts), true)
  }

  lemma ReloadCell(shape: Shape, cells: Cells, text: string, s: nat, i: nat)
    requires Fits(shape, cells) && InShape(shape, At(s, i))
    ensures ReloadCells(shape, cells, text)[s][i]
         == ReloadValue(shape[s], shape[s].options[i].def, cells[s][i],
                        Addressed(shape, -1, ParseText(text), At(s, i)))
  {
    var unloaded := MapCells(shape, cells, UnloadCell);
    ApplyLinesCell(shape, ReadState(-1, unloaded), ParseText(text), s, i);
  }

  /** An option of a plain section that no line names ends at its default. */
  lemma UnnamedIsReset(shape: Shape, cells: Cells, text: string, s: nat, i: nat)
    requires Fits(shape, cells) && InShape(shape, At(s, i))
    requires !shape[s].readCallback && Addressed(shape, -1, ParseText(text), At(s, i)) == []
    requires var def := shape[s].options[i].def; def.default.Some? || def.nullAllowed
    ensures ReloadCells(shape, cells, text)[s][i].value == shape[s].options[i].def.default
  {
    ReloadCell(shape, cells, text, s, i);
  }

  // ---------------------------------------------------------------- idempotence

  /** The text does not refer to the current value. */
  predicate Absolute(kind: Kind, text: Option<string>) {
    text.Some? ==>
      match kind
      case Boolean => !EqFold(text.value, "toggle")
      case Str => true
      case _ => !IsIncrement(text.value) && !IsDecrement(text.value)
  }

  predicate Accepted(def: Definition, text: Option<string>) {
    def.check(text) && if text.None? then def.nullAllowed else Target(def.kind, None, text.value).Some?
  }

  /** What an absolute text does, whatever the current value. */
  lemma AbsoluteSet(def: Definition, v: Option<Value>, text: Option<string>)
    requires Absolute(def.kind, text)
    ensures SetResult(def, v, text).0
         == if Accepted(def, text) then SetResult(def, None, text).0 else v
  {
    if text.Some? {
      assert Target(def.kind, v, text.value) == Target(def.kind, None, text.value);
    }
  }

  predicate AllAbsolute(kind: Kind, texts: seq<Option<string>>) {
    forall k :: 0 <= k < |texts| ==> Absolute(kind, texts[k])
  }

  /** Some text sets a value that owes nothing to the one before. */
  predicate Anchored(def: Definition, texts: seq<Option<string>>) {
    exists k :: 0 <= k < |texts| && Absolute(def.kind, texts[k]) && Accepted(def, texts[k])
  }

  lemma {:induction false} AnchoredForgets(def: Definition, v: Option<Value>, w: Option<Value>,
                                           texts: seq<Option<string>>)
    requires Anchored(def, texts)
    ensures SetAll(def, v, texts) == SetAll(def, w, texts)
    decreases |texts|
  {
    var k :| 0 <= k < |texts| && Absolute(def.kind, texts[k]) && Accepted(def, texts[k]);
    if k == 0 {
      AbsoluteSet(def, v, texts[0]);
      AbsoluteSet(def, w, texts[0]);
    } else {
      assert texts[1..][k - 1] == texts[k];
      AnchoredForgets(def, SetResult(def, v, texts[0]).0, SetResult(def, w, texts[0]).0, texts[1..]);
    }
  }

  lemma {:induction false} UnanchoredKeeps(def: Definition, v: Option<Value>, texts: seq<Option<string>>)
    requires AllAbsolute(def.kind, texts) && !Anchored(def, texts)
    ensures SetAll(def, v, texts) == v
    decreases |texts|
  {
    if texts != [] {
      AbsoluteSet(def, v, texts[0]);
      forall k | 0 <= k < |texts[1..]|
        ensures Absolute(def.kind, texts[1..][k]) && !Accepted(def, texts[1..][k])
      {
        assert texts[1..][k] == texts[k + 1];
      }
      UnanchoredKeeps(def, v, texts[1..]);
    }
  }

  predicate Settled(def: Definition, texts: seq<Option<string>>) {
    Anchored(def, texts) || AllAbsolute(def.kind, texts)
  }

  lemma SetAllTwice(def: Definition, v: Option<Value>, texts: seq<Option<string>>)
    requires Settled(def, texts)
    ensures SetAll(def, SetAll(def, v, texts), texts) == SetAll(def, v, texts)
  {
    if Anchored(def, texts) {
      AnchoredForgets(def, v, SetAll(def, v, texts), texts);
    } else {
      UnanchoredKeeps(def, v, texts);
    }
  }

  /** Every option either is named only with texts that do not refer to its current value, or is
      given a value outright by one of its lines. */
  ghost predicate TextSettled(shape: Shape, text: string) {
    forall s, i :: 0 <= s < |shape| && 0 <= i < |shape[s].options| ==>
      Settled(shape[s].options[i].def, Addressed(shape, -1, ParseText(text), At(s, i)))
  }

  /** Reloading twice is reloading once, for any text: invalid lines and values, unknown sections and
      options, lines outside sections. */
  lemma ReloadIdempotent(shape: Shape, cells: Cells, text: string)
    requires Fits(shape, cells) && TextSettled(shape, text)
    ensures var once := ReloadCells(shape, cells, text);
      ReloadCells(shape, once, text) == once
  {
    var once := ReloadCells(shape, cells, text);
    var twice := ReloadCells(shape, once, text);
    forall s | 0 <= s < |shape|
      ensures twice[s] == once[s]
    {
      forall i | 0 <= i < |shape[s].options|
        ensures twice[s][i] == once[s][i]
      {
        ReloadCell(shape, cells, text, s, i);
        ReloadCell(shape, once, text, s, i);
        SetAllTwice(shape[s].options[i].def, cells[s][i].value,
                    Addressed(shape, -1, ParseText(text), At(s, i)));
      }
    }
  }
}
