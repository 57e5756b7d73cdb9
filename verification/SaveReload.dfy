/** Saving a configuration file and reloading it gives every option its saved value back. */
module SaveReload {
  import opened Text
  import opened OptionValue
  import opened LineFormat
  import opened Restore
  import opened Reload
  import opened FileText
  import opened LineLimit

  // ---------------------------------------------------------------- writing

  ghost predicate CellsTyped(shape: Shape, cells: Cells)
    requires Fits(shape, cells)
  {
    forall s, i :: 0 <= s < |shape| && 0 <= i < |shape[s].options| ==>
      TypedOrNull(shape[s].options[i].def.kind, cells[s][i].value)
  }

  function OptionLines(options: seq<OptionShape>, cells: seq<Cell>): (r: seq<string>)
    requires |cells| == |options|
    requires forall i :: 0 <= i < |options| ==> TypedOrNull(options[i].def.kind, cells[i].value)
    ensures |r| == |options|
  {
    seq(|options|, i requires 0 <= i < |options| =>
      OptionText(options[i].name, options[i].def.kind, cells[i].value))
  }

  /** Neither callback: the section is written and read as a list of options. */
  predicate Plain(section: SectionShape) {
    !section.readCallback && !section.writeCallback
  }

  /** The lines of a section: those of its write callback when it has one. */
  function SectionLines(section: SectionShape, cells: seq<Cell>, custom: seq<string>): seq<string>
    requires |cells| == |section.options|
    requires forall i :: 0 <= i < |cells| ==> TypedOrNull(section.options[i].def.kind, cells[i].value)
  {
    if section.writeCallback then custom
    else ["", HeaderText(section.name)] + OptionLines(section.options, cells)
  }

  function SectionsLines(shape: Shape, cells: Cells, custom: seq<seq<string>>, s: nat): seq<string>
    requires Fits(shape, cells) && CellsTyped(shape, cells) && |custom| == |shape| && s <= |shape|
    decreases |shape| - s
  {
    if s == |shape| then []
    else SectionLines(shape[s], cells[s], custom[s]) + SectionsLines(shape, cells, custom, s + 1)
  }

  function Comments(texts: seq<string>): (r: seq<string>)
    ensures |r| == |texts|
    ensures forall i :: 0 <= i < |r| ==> r[i] != "" && r[i][0] == '#'
  {
    seq(|texts|, i requires 0 <= i < |texts| => "#" + texts[i])
  }

  function Banner(version: string, filename: string): seq<string> {
    Comments(["",
              " " + version + " -- " + filename,
              "",
              " WARNING: It is NOT recommended to edit this file by hand,",
              " especially if WhoreIRC is running.",
              "",
              " Use /set or similar command to change settings in WhoreIRC.",
              "",
              " For more info, see: https://weechat.org/doc/quickstart",
              ""])
  }

  function FileLines(shape: Shape, cells: Cells, custom: seq<seq<string>>, version: string, filename: string)
    : seq<string>
    requires Fits(shape, cells) && CellsTyped(shape, cells) && |custom| == |shape|
  {
    Banner(version, filename) + SectionsLines(shape, cells, custom, 0)
  }

  /** A section with a write callback has the lines of the callback; any other one has an empty line, its header
      and one line for each option, in order. */
  lemma SectionForm(section: SectionShape, cells: seq<Cell>, custom: seq<string>)
    requires |cells| == |section.options|
    requires forall i :: 0 <= i < |cells| ==> TypedOrNull(section.options[i].def.kind, cells[i].value)
    ensures var lines := SectionLines(section, cells, custom);
      if section.writeCallback then lines == custom
      else
        && |lines| == 2 + |cells| && lines[0] == "" && lines[1] == "[" + section.name + "]"
        && forall i :: 0 <= i < |cells| ==>
             lines[2 + i] == OptionText(section.options[i].name, section.options[i].def.kind, cells[i].value)
  {
  }

  /** The sections are written one after the other, after the comments. */
  lemma FileForm(shape: Shape, cells: Cells, custom: seq<seq<string>>, version: string, filename: string)
    requires Fits(shape, cells) && CellsTyped(shape, cells) && |custom| == |shape| == 2
    ensures FileLines(shape, cells, custom, version, filename)
         == Banner(version, filename)
            + (SectionLines(shape[0], cells[0], custom[0]) + SectionLines(shape[1], cells[1], custom[1]))
  {
    var first, second := SectionLines(shape[0], cells[0], custom[0]), SectionLines(shape[1], cells[1], custom[1]);
    assert SectionsLines(shape, cells, custom, 2) == [];
    assert SectionsLines(shape, cells, custom, 1) == second + [] == second;
    assert SectionsLines(shape, cells, custom, 0) == first + second;
  }

  // ---------------------------------------------------------------- who is addressed

  function CurAfter(shape: Shape, cur: int, lines: seq<Line>): (r: int)
    requires cur < |shape|
    ensures r < |shape|
    decreases |lines|
  {
    if lines == [] then cur else CurAfter(shape, NextSection(shape, cur, lines[0]), lines[1..])
  }

  lemma {:induction false} AddressedConcat(shape: Shape, cur: int, a: seq<Line>, b: seq<Line>, p: Place)
    requires cur < |shape|
    ensures CurAfter(shape, cur, a + b) == CurAfter(shape, CurAfter(shape, cur, a), b)
    ensures Addressed(shape, cur, a + b, p)
         == Addressed(shape, cur, a, p) + Addressed(shape, CurAfter(shape, cur, a), b, p)
    decreases |a|
  {
    if a == [] {
      assert a + b == b;
    } else {
      assert (a + b)[0] == a[0] && (a + b)[1..] == a[1..] + b;
      AddressedConcat(shape, NextSection(shape, cur, a[0]), a[1..], b, p);
    }
  }

  lemma AddressedFirst(shape: Shape, cur: int, line: Line, rest: seq<Line>, p: Place)
    requires cur < |shape|
    ensures Addressed(shape, cur, [line] + rest, p)
      == AddressedOnce(shape, cur, line, p) + Addressed(shape, NextSection(shape, cur, line), rest, p)
    ensures CurAfter(shape, cur, [line] + rest) == CurAfter(shape, NextSection(shape, cur, line), rest)
  {
    assert ([line] + rest)[0] == line && ([line] + rest)[1..] == rest;
  }

  /** Lines that do not address p: comments, or lines for another section. */
  lemma {:induction false} Silent(shape: Shape, cur: int, lines: seq<Line>, p: Place)
    requires cur < |shape|
    requires forall i :: 0 <= i < |lines| ==>
               lines[i].Ignored?
               || (cur >= 0 && (p.At? ==> p.section != cur) && NextSection(shape, cur, lines[i]) == cur)
    ensures Addressed(shape, cur, lines, p) == [] && CurAfter(shape, cur, lines) == cur
    decreases |lines|
  {
    if lines != [] {
      assert NextSection(shape, cur, lines[0]) == cur;
      assert forall i :: 0 <= i < |lines[1..]| ==> lines[1..][i] == lines[i + 1];
      Silent(shape, cur, lines[1..], p);
    }
  }

  // ---------------------------------------------------------------- what can be saved

  ghost predicate NamesDistinct(shape: Shape) {
    && (forall s, t :: 0 <= s < t < |shape| ==> !EqFold(shape[s].name, shape[t].name))
    && (forall s, i, j :: 0 <= s < |shape| && 0 <= i < j < |shape[s].options| ==>
          !EqFold(shape[s].options[i].name, shape[s].options[j].name))
  }

  predicate HeaderOk(name: string) {
    ']' !in name && '=' !in name && '\n' !in name && |HeaderText(name)| <= MAX_LINE
  }

  /** The line is read back, the value accepted and given back; the two quotes that a line too long
      leaves behind name no option. */
  predicate OptionSavable(options: seq<OptionShape>, o: OptionShape, v: Option<Value>)
    requires TypedOrNull(o.def.kind, v)
  {
    && Printable(o.name, o.def.kind, v) && LineFits(o.name, o.def.kind, v)
    && (|OptionText(o.name, o.def.kind, v)| > MAX_LINE ==> FindOption(options, "\"\"") < 0)
    && o.def.check(PlainText(o.def.kind, v))
    && if v.None? then o.def.nullAllowed else Restorable(o.def.kind, v.value)
  }

  /** What a section with a callback may put in the file, piece by piece: its own header, then anything
      but the header of another section. */
  ghost predicate CustomOk(name: string, lines: seq<Line>) {
    exists k :: 0 <= k < |lines| && CustomFrom(name, lines, k)
  }

  ghost predicate CustomFrom(name: string, lines: seq<Line>, k: nat)
    requires k < |lines|
  {
    && (forall i :: 0 <= i < k ==> lines[i].Ignored?)
    && lines[k] == Header(name)
    && (forall i :: k < i < |lines| ==> lines[i].Header? ==> lines[i] == Header(name))
  }

  predicate IsPlainOption(shape: Shape, p: Place) {
    p.At? && InShape(shape, p) && Plain(shape[p.section])
  }

  /** The comments at the start name no option, if one of them is so long that it is read in pieces. */
  ghost predicate BannerOk(shape: Shape, version: string, filename: string) {
    forall p :: IsPlainOption(shape, p) ==>
      Addressed(shape, -1, Pieces(Banner(version, filename)), p) == []
  }

  ghost predicate SectionSavable(section: SectionShape, cells: seq<Cell>, custom: seq<string>)
    requires |cells| == |section.options|
    requires forall i :: 0 <= i < |cells| ==> TypedOrNull(section.options[i].def.kind, cells[i].value)
  {
    if Plain(section) then
      && HeaderOk(section.name)
      && forall i :: 0 <= i < |cells| ==> OptionSavable(section.options, section.options[i], cells[i].value)
    else CustomOk(section.name, Pieces(SectionLines(section, cells, custom)))
  }

  ghost predicate Savable(shape: Shape, cells: Cells, custom: seq<seq<string>>)
    requires Fits(shape, cells) && CellsTyped(shape, cells) && |custom| == |shape|
  {
    NamesDistinct(shape) && forall s :: 0 <= s < |shape| ==> SectionSavable(shape[s], cells[s], custom[s])
  }

  // ---------------------------------------------------------------- one section

  lemma SectionFound(shape: Shape, s: nat)
    requires NamesDistinct(shape) && s < |shape|
    ensures FindSection(shape, shape[s].name) == s
  {
    EqFoldReflexive(shape[s].name);
  }

  lemma OptionFound(shape: Shape, s: nat, i: nat)
    requires NamesDistinct(shape) && s < |shape| && i < |shape[s].options|
    ensures FindOption(shape[s].options, shape[s].options[i].name) == i
  {
    EqFoldReflexive(shape[s].options[i].name);
  }

  /** The text expected for p from the lines of section s, options k and following. */
  function Expected(shape: Shape, cells: Cells, s: nat, k: nat, p: Place): seq<Option<string>>
    requires Fits(shape, cells) && p.At? && InShape(shape, p)
    requires TypedOrNull(shape[p.section].options[p.index].def.kind, cells[p.section][p.index].value)
  {
    if p.section == s && p.index >= k
    then [PlainText(shape[s].options[p.index].def.kind, cells[s][p.index].value)]
    else []
  }

  /** The pieces of the line of option k give it its text, and nothing to the others. */
  lemma OptionAddressed(shape: Shape, s: nat, k: nat, v: Option<Value>, p: Place)
    requires NamesDistinct(shape) && s < |shape| && Plain(shape[s]) && k < |shape[s].options|
    requires TypedOrNull(shape[s].options[k].def.kind, v)
    requires OptionSavable(shape[s].options, shape[s].options[k], v)
    ensures var o := shape[s].options[k];
      var pieces := PiecesOf(OptionText(o.name, o.def.kind, v));
      && Addressed(shape, s, pieces, p) == (if p == At(s, k) then [PlainText(o.def.kind, v)] else [])
      && CurAfter(shape, s, pieces) == s
  {
    var o := shape[s].options[k];
    PiecesOfOption(o.name, o.def.kind, v);
    OptionThenRest(shape, s, k, PlainText(o.def.kind, v), PieceAfter(o.name, o.def.kind, v), p);
  }

  lemma OptionThenRest(shape: Shape, s: nat, k: nat, text: Option<string>, after: seq<Line>, p: Place)
    requires NamesDistinct(shape) && s < |shape| && Plain(shape[s]) && k < |shape[s].options|
    requires after == [] || after == [Ignored]
          || (after == [OptionLine("\"\"", None)] && FindOption(shape[s].options, "\"\"") < 0)
    ensures var pieces := [OptionLine(shape[s].options[k].name, text)] + after;
      Addressed(shape, s, pieces, p) == (if p == At(s, k) then [text] else []) && CurAfter(shape, s, pieces) == s
  {
    OptionFound(shape, s, k);
    AddressedFirst(shape, s, OptionLine(shape[s].options[k].name, text), after, p);
    if after != [] {
      assert after == [after[0]] + [];
      AddressedFirst(shape, s, after[0], [], p);
    }
  }

  lemma {:induction false} OptionsAddressed(shape: Shape, cells: Cells, s: nat, k: nat, p: Place)
    requires Fits(shape, cells) && CellsTyped(shape, cells) && NamesDistinct(shape)
    requires s < |shape| && Plain(shape[s]) && k <= |shape[s].options|
    requires forall i :: 0 <= i < |cells[s]| ==>
      OptionSavable(shape[s].options, shape[s].options[i], cells[s][i].value)
    requires p.At? && InShape(shape, p)
    ensures var pieces := Pieces(OptionLines(shape[s].options, cells[s])[k..]);
      Addressed(shape, s, pieces, p) == Expected(shape, cells, s, k, p) && CurAfter(shape, s, pieces) == s
    decreases |shape[s].options| - k
  {
    var lines := OptionLines(shape[s].options, cells[s]);
    if k < |lines| {
      assert lines[k..][0] == lines[k] && lines[k..][1..] == lines[k + 1..];
      OptionAddressed(shape, s, k, cells[s][k].value, p);
      OptionsAddressed(shape, cells, s, k + 1, p);
      AddressedConcat(shape, s, PiecesOf(lines[k]), Pieces(lines[k + 1..]), p);
    }
  }

  lemma HeadPieces(name: string)
    requires HeaderOk(name)
    ensures Pieces(["", HeaderText(name)])
      == [Ignored, Header(name)] + if |HeaderText(name)| == MAX_LINE then [Ignored] else []
  {
    var line := HeaderText(name);
    assert line[0] == '[' && SkipSpaces(line) == line;
    FittingLine(line);
    HeaderExact(name);
    assert PiecesOf("") == [Ignored] by { assert "" + "\n" == "\n" && SkipSpaces("\n") == "\n"; }
    assert ["", line][1..] == [line] && [line][1..] == [];
    assert Pieces([line]) == PiecesOf(line) + [];
  }

  lemma HeadAddressed(shape: Shape, s: nat, cur: int, p: Place)
    requires NamesDistinct(shape) && s < |shape| && HeaderOk(shape[s].name) && cur < |shape|
    ensures var head := Pieces(["", HeaderText(shape[s].name)]);
      Addressed(shape, cur, head, p) == [] && CurAfter(shape, cur, head) == s
  {
    var name := shape[s].name;
    var end := if |HeaderText(name)| == MAX_LINE then [Ignored] else [];
    SectionFound(shape, s);
    HeadPieces(name);
    assert [Ignored, Header(name)] + end == [Ignored] + ([Header(name)] + end);
    AddressedFirst(shape, cur, Ignored, [Header(name)] + end, p);
    AddressedFirst(shape, cur, Header(name), end, p);
    Silent(shape, s, end, p);
  }

  lemma PlainAddressed(shape: Shape, cells: Cells, s: nat, cur: int, p: Place)
    requires Fits(shape, cells) && CellsTyped(shape, cells) && NamesDistinct(shape)
    requires s < |shape| && cur < |shape| && Plain(shape[s]) && SectionSavable(shape[s], cells[s], [])
    requires p.At? && InShape(shape, p)
    ensures var pieces := Pieces(["", HeaderText(shape[s].name)] + OptionLines(shape[s].options, cells[s]));
      Addressed(shape, cur, pieces, p) == Expected(shape, cells, s, 0, p) && CurAfter(shape, cur, pieces) == s
  {
    var head, options := ["", HeaderText(shape[s].name)], OptionLines(shape[s].options, cells[s]);
    PiecesConcat(head, options);
    AddressedConcat(shape, cur, Pieces(head), Pieces(options), p);
    HeadAddressed(shape, s, cur, p);
    assert options[0..] == options;
    OptionsAddressed(shape, cells, s, 0, p);
  }

  lemma SectionAddressed(shape: Shape, cells: Cells, custom: seq<seq<string>>, s: nat, cur: int, p: Place)
    requires Fits(shape, cells) && CellsTyped(shape, cells) && |custom| == |shape|
    requires Savable(shape, cells, custom) && s < |shape| && cur < |shape| && IsPlainOption(shape, p)
    ensures var pieces := Pieces(SectionLines(shape[s], cells[s], custom[s]));
      && Addressed(shape, cur, pieces, p) == Expected(shape, cells, s, 0, p)
      && CurAfter(shape, cur, pieces) == s
  {
    assert SectionSavable(shape[s], cells[s], custom[s]);
    if Plain(shape[s]) {
      PlainAddressed(shape, cells, s, cur, p);
    } else {
      CustomAddressed(shape, s, cur, Pieces(SectionLines(shape[s], cells[s], custom[s])), p);
    }
  }

  lemma CustomBody(shape: Shape, s: nat, cur: int, lines: seq<Line>, p: Place)
    requires NamesDistinct(shape) && s < |shape| && cur < |shape| && (p.At? ==> p.section != s)
    requires lines != [] && lines[0] == Header(shape[s].name)
    requires forall i :: 1 <= i < |lines| ==> lines[i].Header? ==> lines[i] == lines[0]
    ensures Addressed(shape, cur, lines, p) == [] && CurAfter(shape, cur, lines) == s
  {
    var after := lines[1..];
    SectionFound(shape, s);
    assert lines == [lines[0]] + after;
    AddressedFirst(shape, cur, lines[0], after, p);
    forall i | 0 <= i < |after|
      ensures NextSection(shape, s, after[i]) == s
    {
      assert after[i] == lines[1 + i];
    }
    Silent(shape, s, after, p);
  }

  lemma CustomAddressed(shape: Shape, s: nat, cur: int, lines: seq<Line>, p: Place)
    requires NamesDistinct(shape) && s < |shape| && cur < |shape| && (p.At? ==> p.section != s)
    requires CustomOk(shape[s].name, lines)
    ensures Addressed(shape, cur, lines, p) == [] && CurAfter(shape, cur, lines) == s
  {
    var k :| 0 <= k < |lines| && CustomFrom(shape[s].name, lines, k);
    assert lines == lines[..k] + lines[k..];
    CustomParts(shape, s, cur, lines[..k], lines[k..], p);
  }

  lemma CustomParts(shape: Shape, s: nat, cur: int, before: seq<Line>, rest: seq<Line>, p: Place)
    requires NamesDistinct(shape) && s < |shape| && cur < |shape| && (p.At? ==> p.section != s)
    requires forall i :: 0 <= i < |before| ==> before[i].Ignored?
    requires rest != [] && rest[0] == Header(shape[s].name)
    requires forall i :: 1 <= i < |rest| ==> rest[i].Header? ==> rest[i] == rest[0]
    ensures Addressed(shape, cur, before + rest, p) == [] && CurAfter(shape, cur, before + rest) == s
  {
    AddressedConcat(shape, cur, before, rest, p);
    Silent(shape, cur, before, p);
    CustomBody(shape, s, cur, rest, p);
  }

  // ---------------------------------------------------------------- the whole file

  /** The pieces of every section. */
  function Parts(shape: Shape, cells: Cells, custom: seq<seq<string>>): (r: seq<seq<Line>>)
    requires Fits(shape, cells) && CellsTyped(shape, cells) && |custom| == |shape|
    ensures |r| == |shape|
  {
    seq(|shape|, s requires 0 <= s < |shape| => Pieces(SectionLines(shape[s], cells[s], custom[s])))
  }

  function Concat(parts: seq<seq<Line>>): seq<Line> {
    if parts == [] then [] else parts[0] + Concat(parts[1..])
  }

  lemma {:induction false} PartsConcat(shape: Shape, cells: Cells, custom: seq<seq<string>>, s: nat)
    requires Fits(shape, cells) && CellsTyped(shape, cells) && |custom| == |shape| && s <= |shape|
    ensures Pieces(SectionsLines(shape, cells, custom, s)) == Concat(Parts(shape, cells, custom)[s..])
    decreases |shape| - s
  {
    if s < |shape| {
      var here, rest := SectionLines(shape[s], cells[s], custom[s]), SectionsLines(shape, cells, custom, s + 1);
      PiecesConcat(here, rest);
      PartsConcat(shape, cells, custom, s + 1);
      assert Parts(shape, cells, custom)[s..][1..] == Parts(shape, cells, custom)[s + 1..];
    }
  }

  /** The part of section s leaves the reader in it, and gives texts to p if p is in it. */
  ghost predicate PartOk(shape: Shape, s: nat, part: seq<Line>, p: Place, texts: seq<Option<string>>)
    requires p.At?
  {
    forall cur :: cur < |shape| ==>
      Addressed(shape, cur, part, p) == (if p.section == s then texts else []) && CurAfter(shape, cur, part) == s
  }

  lemma {:induction false} PartsAddressed(shape: Shape, parts: seq<seq<Line>>, s: nat, cur: int, p: Place,
                                          texts: seq<Option<string>>)
    requires p.At? && s + |parts| == |shape| && cur < |shape|
    requires forall k :: 0 <= k < |parts| ==> PartOk(shape, s + k, parts[k], p, texts)
    ensures Addressed(shape, cur, Concat(parts), p) == if s <= p.section < |shape| then texts else []
    decreases |parts|
  {
    if parts != [] {
      assert PartOk(shape, s + 0, parts[0], p, texts);
      forall k | 0 <= k < |parts[1..]| ensures PartOk(shape, (s + 1) + k, parts[1..][k], p, texts) {
        assert PartOk(shape, s + (k + 1), parts[k + 1], p, texts);
      }
      AddressedConcat(shape, cur, parts[0], Concat(parts[1..]), p);
      PartsAddressed(shape, parts[1..], s + 1, s, p, texts);
    }
  }

  lemma SectionsAddressed(shape: Shape, cells: Cells, custom: seq<seq<string>>, cur: int, p: Place)
    requires Fits(shape, cells) && CellsTyped(shape, cells) && |custom| == |shape|
    requires Savable(shape, cells, custom) && cur < |shape| && IsPlainOption(shape, p)
    ensures Addressed(shape, cur, Pieces(SectionsLines(shape, cells, custom, 0)), p)
         == Expected(shape, cells, p.section, 0, p)
  {
    var parts, texts := Parts(shape, cells, custom), Expected(shape, cells, p.section, 0, p);
    PartsConcat(shape, cells, custom, 0);
    assert parts[0..] == parts;
    forall s, c: int | 0 <= s < |shape| && c < |shape|
      ensures Addressed(shape, c, parts[s], p) == (if p.section == s then texts else [])
           && CurAfter(shape, c, parts[s]) == s
    {
      SectionAddressed(shape, cells, custom, s, c, p);
    }
    PartsAddressed(shape, parts, 0, cur, p, texts);
  }

  lemma CommentPieces(line: string)
    requires line != "" && line[0] == '#' && IsLine(line) && |line| <= MAX_LINE
    ensures forall i :: 0 <= i < |PiecesOf(line)| ==> PiecesOf(line)[i] == Ignored
  {
    assert (line + "\n")[0] == '#' && SkipSpaces(line) == line;
    FittingLine(line);
  }

  lemma {:induction false} CommentsSilent(lines: seq<string>)
    requires AreLines(lines)
    requires forall i :: 0 <= i < |lines| ==> lines[i] != "" && lines[i][0] == '#' && |lines[i]| <= MAX_LINE
    ensures forall i :: 0 <= i < |Pieces(lines)| ==> Pieces(lines)[i] == Ignored
  {
    if lines != [] {
      CommentPieces(lines[0]);
      CommentsSilent(lines[1..]);
    }
  }

  /** Comments that fit in the buffer are no trouble. */
  lemma ShortBannerOk(shape: Shape, version: string, filename: string)
    requires AreLines(Banner(version, filename))
    requires forall i :: 0 <= i < |Banner(version, filename)| ==> |Banner(version, filename)[i]| <= MAX_LINE
    ensures BannerOk(shape, version, filename)
    ensures forall p :: Addressed(shape, -1, Pieces(Banner(version, filename)), p) == []
    ensures CurAfter(shape, -1, Pieces(Banner(version, filename))) == -1
  {
    var pieces := Pieces(Banner(version, filename));
    CommentsSilent(Banner(version, filename));
    Silent(shape, -1, pieces, Nowhere);
    forall p ensures Addressed(shape, -1, pieces, p) == [] {
      Silent(shape, -1, pieces, p);
    }
  }

  /** The text of a file saved from these values, which can be read back. */
  ghost predicate SavedText(shape: Shape, cells: Cells, custom: seq<seq<string>>, version: string, filename: string,
                            text: string)
  {
    && Fits(shape, cells) && CellsTyped(shape, cells) && |custom| == |shape|
    && BannerOk(shape, version, filename) && Savable(shape, cells, custom)
    && AreLines(FileLines(shape, cells, custom, version, filename))
    && text == JoinLines(FileLines(shape, cells, custom, version, filename))
  }

  lemma FileAddressed(shape: Shape, cells: Cells, custom: seq<seq<string>>, version: string, filename: string,
                      text: string, p: Place)
    requires SavedText(shape, cells, custom, version, filename, text) && IsPlainOption(shape, p)
    ensures Addressed(shape, -1, ParseText(text), p) == Expected(shape, cells, p.section, 0, p)
  {
    var banner, rest := Banner(version, filename), SectionsLines(shape, cells, custom, 0);
    ParseLines(FileLines(shape, cells, custom, version, filename));
    PiecesConcat(banner, rest);
    AddressedConcat(shape, -1, Pieces(banner), Pieces(rest), p);
    SectionsAddressed(shape, cells, custom, CurAfter(shape, -1, Pieces(banner)), p);
  }

  lemma RestoredByText(options: seq<OptionShape>, o: OptionShape, saved: Option<Value>, v: Option<Value>)
    requires TypedOrNull(o.def.kind, saved) && TypedOrNull(o.def.kind, v) && OptionSavable(options, o, saved)
    ensures SetAll(o.def, v, [PlainText(o.def.kind, saved)]) == saved
  {
    var texts := [PlainText(o.def.kind, saved)];
    assert texts[1..] == [];
    if saved.Some? {
      RestoreExact(o.def.kind, saved.value);
    }
  }

  /** Save, change anything, reload: every option of a plain section has the value it was saved with. */
  lemma SaveThenReload(shape: Shape, cells: Cells, custom: seq<seq<string>>, version: string, filename: string,
                       text: string, changed: Cells)
    requires SavedText(shape, cells, custom, version, filename, text)
    requires Fits(shape, changed) && CellsTyped(shape, changed)
    ensures forall s, i :: 0 <= s < |shape| && 0 <= i < |shape[s].options| && Plain(shape[s]) ==>
      ReloadCells(shape, changed, text)[s][i] == Cell(cells[s][i].value, true)
  {
    forall s, i | 0 <= s < |shape| && 0 <= i < |shape[s].options| && Plain(shape[s])
      ensures ReloadCells(shape, changed, text)[s][i] == Cell(cells[s][i].value, true)
    {
      FileAddressed(shape, cells, custom, version, filename, text, At(s, i));
      assert SectionSavable(shape[s], cells[s], custom[s]);
      ReloadCell(shape, changed, text, s, i);
      RestoredByText(shape[s].options, shape[s].options[i], cells[s][i].value, changed[s][i].value);
    }
  }

  // ---------------------------------------------------------------- any text, one option

  /** Cells that hold v at p and null elsewhere. */
  function NullBut(shape: Shape, p: Place, v: Option<Value>): (r: Cells)
    requires p.At? && InShape(shape, p) && TypedOrNull(shape[p.section].options[p.index].def.kind, v)
    ensures Fits(shape, r) && r[p.section][p.index].value == v
    ensures forall s, i :: 0 <= s < |shape| && 0 <= i < |shape[s].options| ==>
              TypedOrNull(shape[s].options[i].def.kind, r[s][i].value)
  {
    seq(|shape|, s requires 0 <= s < |shape| =>
      seq(|shape[s].options|, i requires 0 <= i < |shape[s].options| =>
        Cell(if At(s, i) == p then v else None, false)))
  }

  /** Reloading the text gives the option the value, whatever it and the others were changed to. */
  ghost predicate AlwaysRestored(shape: Shape, text: string, s: nat, i: nat, value: Option<Value>)
    requires InShape(shape, At(s, i))
  {
    forall changed :: Fits(shape, changed) && CellsTyped(shape, changed) ==>
      ReloadCells(shape, changed, text)[s][i].value == value
  }

  /** The texts give the value whatever they are applied to; without a text the reset has to give it. */
  ghost predicate TextsGive(section: SectionShape, def: Definition, texts: seq<Option<string>>, value: Option<Value>) {
    if texts == [] then !section.readCallback && (def.default.Some? || def.nullAllowed) && def.default == value
    else forall v :: TypedOrNull(def.kind, v) ==> SetAll(def, v, texts) == value
  }

  function AnyValue(kind: Kind): (v: Value)
    requires KindOk(kind)
    ensures Typed(kind, v)
  {
    if kind.Str? then String("") else Number(0)
  }

  lemma TextsGiveExact(section: SectionShape, def: Definition, texts: seq<Option<string>>, value: Option<Value>)
    requires KindOk(def.kind)
    ensures (forall v :: TypedOrNull(def.kind, v) ==> ReloadValue(section, def, Cell(v, false), texts).value == value)
       <==> TextsGive(section, def, texts, value)
  {
    var v := AnyValue(def.kind);
    assert TypedOrNull(def.kind, Some(v)) && TypedOrNull(def.kind, None);
    if texts != [] {
      assert forall w :: ReloadValue(section, def, Cell(w, false), texts).value == SetAll(def, w, texts);
    }
  }

  lemma RestoredCell(shape: Shape, text: string, s: nat, i: nat, value: Option<Value>, v: Option<Value>)
    requires InShape(shape, At(s, i)) && TypedOrNull(shape[s].options[i].def.kind, v)
    requires AlwaysRestored(shape, text, s, i, value)
    ensures ReloadValue(shape[s], shape[s].options[i].def, Cell(v, false),
                        Addressed(shape, -1, ParseText(text), At(s, i))).value == value
  {
    var changed := NullBut(shape, At(s, i), v);
    ReloadCell(shape, changed, text, s, i);
    assert CellsTyped(shape, changed);
  }

  /** For any text, whoever wrote it: exactly when it always restores an option. */
  lemma AlwaysRestoredExact(shape: Shape, text: string, s: nat, i: nat, value: Option<Value>)
    requires InShape(shape, At(s, i)) && KindOk(shape[s].options[i].def.kind)
    ensures AlwaysRestored(shape, text, s, i, value)
       <==> TextsGive(shape[s], shape[s].options[i].def, Addressed(shape, -1, ParseText(text), At(s, i)), value)
  {
    var def, texts := shape[s].options[i].def, Addressed(shape, -1, ParseText(text), At(s, i));
    TextsGiveExact(shape[s], def, texts, value);
    if AlwaysRestored(shape, text, s, i, value) {
      forall v | TypedOrNull(def.kind, v)
        ensures ReloadValue(shape[s], def, Cell(v, false), texts).value == value
      {
        RestoredCell(shape, text, s, i, value, v);
      }
    }
    if TextsGive(shape[s], def, texts, value) {
      forall changed: Cells | Fits(shape, changed) && CellsTyped(shape, changed)
        ensures ReloadCells(shape, changed, text)[s][i].value == value
      {
        ReloadCell(shape, changed, text, s, i);
        assert TypedOrNull(def.kind, changed[s][i].value);
      }
    }
  }
}
