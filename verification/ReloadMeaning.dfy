/** Which option each line of a file is for, said without the functions that look it up. */
module ReloadMeaning {
  import opened Text
  import opened OptionValue
  import opened LineFormat
  import opened Reload
  import opened SaveReload

  // ---------------------------------------------------------------- names

  /** Option i is the first one of that name. */
  predicate FirstNamed(options: seq<OptionShape>, name: string, i: nat) {
    && i < |options| && EqFold(options[i].name, name)
    && forall j :: 0 <= j < i ==> !EqFold(options[j].name, name)
  }

  predicate NoneNamed(options: seq<OptionShape>, name: string) {
    forall j :: 0 <= j < |options| ==> !EqFold(options[j].name, name)
  }

  /** Section s is the first one of the file that has an option of that name, and i is the index of that option. */
  predicate FirstHolding(shape: Shape, name: string, s: nat, i: nat) {
    && s < |shape| && FirstNamed(shape[s].options, name, i)
    && forall r :: 0 <= r < s ==> NoneNamed(shape[r].options, name)
  }

  predicate FirstSection(shape: Shape, name: string, s: nat) {
    && s < |shape| && EqFold(shape[s].name, name)
    && forall r :: 0 <= r < s ==> !EqFold(shape[r].name, name)
  }

  predicate NoSection(shape: Shape, name: string) {
    forall r :: 0 <= r < |shape| ==> !EqFold(shape[r].name, name)
  }

  lemma OptionFoundExact(options: seq<OptionShape>, name: string, i: nat)
    ensures FindOption(options, name) == i <==> FirstNamed(options, name, i)
    ensures FindOption(options, name) < 0 <==> NoneNamed(options, name)
  {
    var names := OptionNames(options);
    var k := FindOption(options, name);
    assert forall j :: 0 <= j < |options| ==> names[j] == options[j].name;
  }

  lemma SectionFoundExact(shape: Shape, name: string, s: nat)
    ensures FindSection(shape, name) == s <==> FirstSection(shape, name, s)
    ensures FindSection(shape, name) < 0 <==> NoSection(shape, name)
  {
    var names := SectionNames(shape);
    var k := FindSection(shape, name);
    assert forall j :: 0 <= j < |shape| ==> names[j] == shape[j].name;
  }

  lemma HolderExact(shape: Shape, name: string, s: nat, i: nat)
    ensures Lookup(shape, -1, name) == At(s, i) <==> FirstHolding(shape, name, s, i)
  {
    var h := FindHolder(shape, name);
    forall r | 0 <= r < |shape|
      ensures FindOption(shape[r].options, name) < 0 <==> NoneNamed(shape[r].options, name)
    {
      OptionFoundExact(shape[r].options, name, 0);
    }
    if h >= 0 {
      OptionFoundExact(shape[h].options, name, i);
    }
    if s < |shape| {
      OptionFoundExact(shape[s].options, name, i);
    }
  }

  // ---------------------------------------------------------------- the section of a line

  /** The last header before line k is line h. */
  predicate LastHeader(lines: seq<Line>, k: nat, h: nat) {
    && h < k <= |lines| && lines[h].Header?
    && forall j :: h < j < k ==> !lines[j].Header?
  }

  /** Line k is below the header of section s. */
  ghost predicate InSection(shape: Shape, lines: seq<Line>, k: nat, s: nat) {
    exists h: nat :: LastHeader(lines, k, h) && FirstSection(shape, lines[h].section, s)
  }

  /** Line k is above all headers, or below that of a section that the file does not have. */
  ghost predicate InNoSection(shape: Shape, lines: seq<Line>, k: nat) {
    forall h: nat :: LastHeader(lines, k, h) ==> NoSection(shape, lines[h].section)
  }

  lemma AfterHeader(shape: Shape, lines: seq<Line>, k: nat, s: nat)
    requires k < |lines| && lines[k].Header?
    ensures InSection(shape, lines, k + 1, s) <==> FirstSection(shape, lines[k].section, s)
    ensures InNoSection(shape, lines, k + 1) <==> NoSection(shape, lines[k].section)
  {
    var next := k + 1;
    assert LastHeader(lines, next, k);
    assert forall h: nat :: LastHeader(lines, next, h) ==> h == k;
  }

  lemma AfterOther(shape: Shape, lines: seq<Line>, k: nat, s: nat)
    requires k < |lines| && !lines[k].Header?
    ensures InSection(shape, lines, k + 1, s) <==> InSection(shape, lines, k, s)
    ensures InNoSection(shape, lines, k + 1) <==> InNoSection(shape, lines, k)
  {
    assert forall h: nat :: LastHeader(lines, k + 1, h) <==> LastHeader(lines, k, h);
  }

  lemma CurStep(shape: Shape, lines: seq<Line>, k: nat)
    requires k < |lines|
    ensures CurAfter(shape, -1, lines[..k + 1]) == NextSection(shape, CurAfter(shape, -1, lines[..k]), lines[k])
  {
    assert lines[..k + 1] == lines[..k] + [lines[k]];
    AddressedConcat(shape, -1, lines[..k], [lines[k]], Nowhere);
    assert [lines[k]][1..] == [];
  }

  /** The current section when line k is read. */
  lemma {:induction false} CurrentExact(shape: Shape, lines: seq<Line>, k: nat, s: nat)
    requires k <= |lines|
    ensures var cur := CurAfter(shape, -1, lines[..k]);
      && (cur == s <==> InSection(shape, lines, k, s))
      && (cur < 0 <==> InNoSection(shape, lines, k))
  {
    if k > 0 {
      CurrentExact(shape, lines, k - 1, s);
      CurStep(shape, lines, k - 1);
      if lines[k - 1].Header? {
        SectionFoundExact(shape, lines[k - 1].section, s);
        AfterHeader(shape, lines, k - 1, s);
      } else {
        AfterOther(shape, lines, k - 1, s);
      }
    } else {
      assert lines[..0] == [];
    }
  }

  // ---------------------------------------------------------------- the option of a line

  /** Line k is for option i of section s: below the header of the section, which has no read callback, the first
      option of that name; in no section, the first one of the whole file. */
  ghost predicate IsFor(shape: Shape, lines: seq<Line>, k: nat, s: nat, i: nat)
    requires k < |lines| && s < |shape|
  {
    && lines[k].OptionLine?
    && (if InNoSection(shape, lines, k) then FirstHolding(shape, lines[k].name, s, i)
        else InSection(shape, lines, k, s) && !shape[s].readCallback && FirstNamed(shape[s].options, lines[k].name, i))
  }

  lemma AddresseeExact(shape: Shape, lines: seq<Line>, k: nat, s: nat, i: nat)
    requires k < |lines| && s < |shape|
    ensures Addressee(shape, CurAfter(shape, -1, lines[..k]), lines[k]) == At(s, i) <==> IsFor(shape, lines, k, s, i)
  {
    CurrentExact(shape, lines, k, s);
    if lines[k].OptionLine? {
      HolderExact(shape, lines[k].name, s, i);
      OptionFoundExact(shape[s].options, lines[k].name, i);
    }
  }

  /** The texts of the first n lines that are for the option, in order. */
  ghost function TextsOf(shape: Shape, lines: seq<Line>, s: nat, i: nat, n: nat): seq<Option<string>>
    requires n <= |lines| && s < |shape|
  {
    if n == 0 then []
    else TextsOf(shape, lines, s, i, n - 1) + if IsFor(shape, lines, n - 1, s, i) then [lines[n - 1].value] else []
  }

  lemma {:induction false} AddressedExact(shape: Shape, lines: seq<Line>, s: nat, i: nat, n: nat)
    requires n <= |lines| && s < |shape|
    ensures Addressed(shape, -1, lines[..n], At(s, i)) == TextsOf(shape, lines, s, i, n)
  {
    if n > 0 {
      AddressedExact(shape, lines, s, i, n - 1);
      LastFor(shape, lines, n - 1, s, i);
    } else {
      assert lines[..0] == [];
    }
  }

  lemma LastFor(shape: Shape, lines: seq<Line>, k: nat, s: nat, i: nat)
    requires k < |lines| && s < |shape|
    ensures Addressed(shape, -1, lines[..k + 1], At(s, i))
         == Addressed(shape, -1, lines[..k], At(s, i)) + if IsFor(shape, lines, k, s, i) then [lines[k].value] else []
  {
    AddresseeExact(shape, lines, k, s, i);
    LastAddressed(shape, lines, k, At(s, i));
  }

  lemma LastAddressed(shape: Shape, lines: seq<Line>, k: nat, p: Place)
    requires k < |lines|
    ensures Addressed(shape, -1, lines[..k + 1], p)
         == Addressed(shape, -1, lines[..k], p) + AddressedOnce(shape, CurAfter(shape, -1, lines[..k]), lines[k], p)
  {
    var cur := CurAfter(shape, -1, lines[..k]);
    assert lines[..k + 1] == lines[..k] + [lines[k]];
    AddressedConcat(shape, -1, lines[..k], [lines[k]], p);
    assert [lines[k]] + [] == [lines[k]];
    AddressedFirst(shape, cur, lines[k], [], p);
  }

  // ---------------------------------------------------------------- the value after a reload

  /** After a reload an option has the value made by the texts of the lines that are for it, and is marked as loaded,
      even if they were all refused. Without such a line it has its default, unless it may have none or its section
      has a read callback. */
  lemma ReloadExact(shape: Shape, cells: Cells, text: string, s: nat, i: nat)
    requires Fits(shape, cells) && s < |shape| && i < |shape[s].options|
    ensures var lines, def, v := ParseText(text), shape[s].options[i].def, cells[s][i].value;
      var texts := TextsOf(shape, lines, s, i, |lines|);
      ReloadCells(shape, cells, text)[s][i]
      == if texts != [] then Cell(SetAll(def, v, texts), true)
         else if shape[s].readCallback then cells[s][i]
         else if def.default.None? && !def.nullAllowed then Cell(v, false)
         else Cell(def.default, false)
  {
    var lines := ParseText(text);
    AddressedExact(shape, lines, s, i, |lines|);
    assert lines[..|lines|] == lines;
    ReloadCell(shape, cells, text, s, i);
  }

  /** An invalid text keeps the old value and yet marks the option as loaded: it is not reset to its default. */
  lemma RefusedKeeps(shape: Shape, cells: Cells, text: string, s: nat, i: nat, t: Option<string>)
    requires Fits(shape, cells) && s < |shape| && i < |shape[s].options|
    requires TextsOf(shape, ParseText(text), s, i, |ParseText(text)|) == [t]
    requires var def := shape[s].options[i].def;
      !def.check(t) || (t.Some? && Target(def.kind, cells[s][i].value, t.value).None?)
    ensures ReloadCells(shape, cells, text)[s][i] == Cell(cells[s][i].value, true)
  {
    ReloadExact(shape, cells, text, s, i);
    SetOne(shape[s].options[i].def, cells[s][i].value, t);
    SetExact(shape[s].options[i].def, cells[s][i].value, t);
  }

  /** A header that names no section of the file: the line below it is for the first option of that name in the
      whole file, wherever the reader was. */
  lemma UnknownHeader(shape: Shape, cur: int, u: string, name: string, t: Option<string>, s: nat, i: nat)
    requires cur < |shape| && NoSection(shape, u) && s < |shape| && i < |shape[s].options|
    ensures Addressed(shape, cur, [Header(u), OptionLine(name, t)], At(s, i))
         == if FirstHolding(shape, name, s, i) then [t] else []
  {
    SectionFoundExact(shape, u, 0);
    HolderExact(shape, name, s, i);
    TwoLines(shape, cur, Header(u), OptionLine(name, t), At(s, i));
  }

  /** A header that names a section: the line below it is for the first option of that name there. */
  lemma KnownHeader(shape: Shape, cur: int, u: string, k: nat, name: string, t: Option<string>, s: nat, i: nat)
    requires cur < |shape| && FirstSection(shape, u, k) && s < |shape| && i < |shape[s].options|
    ensures Addressed(shape, cur, [Header(u), OptionLine(name, t)], At(s, i))
         == if s == k && !shape[s].readCallback && FirstNamed(shape[s].options, name, i) then [t] else []
  {
    SectionFoundExact(shape, u, k);
    OptionFoundExact(shape[k].options, name, i);
    TwoLines(shape, cur, Header(u), OptionLine(name, t), At(s, i));
  }

  lemma TwoLines(shape: Shape, cur: int, a: Line, b: Line, p: Place)
    requires cur < |shape|
    ensures Addressed(shape, cur, [a, b], p)
         == AddressedOnce(shape, cur, a, p) + AddressedOnce(shape, NextSection(shape, cur, a), b, p)
  {
    var next := NextSection(shape, cur, a);
    assert [a, b] == [a] + [b] && [b] == [b] + [];
    AddressedFirst(shape, cur, a, [b], p);
    AddressedFirst(shape, next, b, [], p);
  }

  /** The same on the value: an unknown header sends the line to the whole file. */
  lemma UnknownHeaderReloaded(shape: Shape, cells: Cells, text: string, before: seq<Line>, u: string, name: string,
                              t: Option<string>, s: nat, i: nat)
    requires Fits(shape, cells) && s < |shape| && i < |shape[s].options| && NoSection(shape, u)
    requires ParseText(text) == before + [Header(u), OptionLine(name, t)]
    requires Addressed(shape, -1, before, At(s, i)) == [] && FirstHolding(shape, name, s, i)
    ensures ReloadCells(shape, cells, text)[s][i]
         == Cell(SetResult(shape[s].options[i].def, cells[s][i].value, t).0, true)
  {
    UnknownHeader(shape, CurAfter(shape, -1, before), u, name, t, s, i);
    OneText(shape, cells, text, before, [Header(u), OptionLine(name, t)], t, s, i);
  }

  lemma KnownHeaderReloaded(shape: Shape, cells: Cells, text: string, before: seq<Line>, u: string, name: string,
                            t: Option<string>, s: nat, i: nat)
    requires Fits(shape, cells) && s < |shape| && i < |shape[s].options|
    requires FirstSection(shape, u, s) && !shape[s].readCallback
    requires ParseText(text) == before + [Header(u), OptionLine(name, t)]
    requires Addressed(shape, -1, before, At(s, i)) == [] && FirstNamed(shape[s].options, name, i)
    ensures ReloadCells(shape, cells, text)[s][i]
         == Cell(SetResult(shape[s].options[i].def, cells[s][i].value, t).0, true)
  {
    KnownHeader(shape, CurAfter(shape, -1, before), u, s, name, t, s, i);
    OneText(shape, cells, text, before, [Header(u), OptionLine(name, t)], t, s, i);
  }

  lemma OneText(shape: Shape, cells: Cells, text: string, before: seq<Line>, rest: seq<Line>, t: Option<string>,
                s: nat, i: nat)
    requires Fits(shape, cells) && s < |shape| && i < |shape[s].options| && ParseText(text) == before + rest
    requires Addressed(shape, -1, before, At(s, i)) == []
    requires Addressed(shape, CurAfter(shape, -1, before), rest, At(s, i)) == [t]
    ensures ReloadCells(shape, cells, text)[s][i]
         == Cell(SetResult(shape[s].options[i].def, cells[s][i].value, t).0, true)
  {
    AddressedConcat(shape, -1, before, rest, At(s, i));
    assert [] + [t] == [t];
    ReloadCell(shape, cells, text, s, i);
    SetOne(shape[s].options[i].def, cells[s][i].value, t);
  }

  lemma SetOne(def: Definition, v: Option<Value>, t: Option<string>)
    ensures SetAll(def, v, [t]) == SetResult(def, v, t).0
  {
    assert [t][1..] == [];
  }
}
