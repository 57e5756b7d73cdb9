/** Full names: looking options up by "file.section.option", and renaming. */
module ConfigNames {
  import opened Text
  import opened Config

  function FullName(o: ConfigOption): string
    reads o`name
  {
    o.section.file.name + "." + o.section.name + "." + o.name
  }

  /** File, section and option part: cut at the first two dots. */
  function SplitName(full: string): Option<(string, string, string)> {
    var a := IndexOf(full, '.', 0);
    if a == |full| then None
    else
      var b := IndexOf(full, '.', a + 1);
      if b == |full| then None else Some((full[..a], full[a + 1..b], full[b + 1..]))
  }

  ghost predicate InStore(store: ConfigStore, o: ConfigOption)
    reads store, store.All`Opts
  {
    o.section in store.All && o in o.section.Opts
  }

  /** What config_file_search_with_string finds. */
  ghost function Resolve(store: ConfigStore, full: string): ConfigOption?
    requires store.Valid()
    reads store, store.Files(), store.All, store.Options()`name, store.Options()`prev, store.Options()`next
  {
    var parts := SplitName(full);
    if parts.None? then null
    else
      var f := WordIndex(FileNamesOf(store.files), parts.value.0);
      if f < 0 then null
      else
        var file := store.files[f];
        var s := WordIndex(SectionNamesOf(file.sections), parts.value.1);
        if s < 0 then null
        else
          var section := file.sections[s];
          assert file in store.files && section in file.sections;
          assert section in store.All;
          var k := WordIndex(section.Names, parts.value.2);
          if k < 0 then null else section.Opts[k]
  }

  lemma ValidLengths(store: ConfigStore)
    requires store.Valid()
    ensures forall s :: s in store.All ==> s.Valid() && |s.Names| == |s.Opts|
    ensures forall f, s :: f in store.files && s in f.sections ==> s.file == f
  {
  }

  /** The file named by the first part, and the section named by the second one in that file. */
  ghost function ResolveFile(store: ConfigStore, full: string): ConfigFile?
    reads store
  {
    var parts := SplitName(full);
    if parts.None? then null
    else
      var f := WordIndex(FileNamesOf(store.files), parts.value.0);
      if f < 0 then null else store.files[f]
  }

  ghost function ResolveSection(store: ConfigStore, full: string): ConfigSection?
    reads store, store.Files()
  {
    var file := ResolveFile(store, full);
    if file == null || file !in store.files then null
    else
      var s := WordIndex(SectionNamesOf(file.sections), SplitName(full).value.1);
      if s < 0 then null else file.sections[s]
  }

  method SearchWithString(store: ConfigStore, full: string)
    returns (file: ConfigFile?, section: ConfigSection?, option: ConfigOption?, optionName: Option<string>)
    requires store.Valid()
    ensures file == ResolveFile(store, full) && section == ResolveSection(store, full)
    ensures option == Resolve(store, full)
    ensures optionName == if SplitName(full).None? then None else Some(SplitName(full).value.2)
  {
    file, section, option, optionName := null, null, null, None;
    ValidLengths(store);
    var a := IndexOf(full, '.', 0);
    var b := if a < |full| then IndexOf(full, '.', a + 1) else |full|;
    if a < |full| && b < |full| {
      optionName := Some(full[b + 1..]);
      file := store.SearchFile(full[..a]);
      if file != null {
        section := file.SearchSection(full[a + 1..b]);
        if section != null {
          assert file in store.files && section in file.sections;
          assert section in store.All;
          option := section.Search(full[b + 1..]);
        }
      }
    }
  }

  // ---------------------------------------------------------------- lookup of a full name

  lemma DotFree(a: string, rest: string)
    requires '.' !in a
    ensures IndexOf(a + "." + rest, '.', 0) == |a|
  {
    var s := a + "." + rest;
    assert s[|a|] == '.';
    assert forall i :: 0 <= i < |a| ==> s[i] == a[i];
  }

  lemma IndexOfAfter(a: string, s: string, c: char, from: nat)
    requires |a| <= from <= |a + s|
    ensures IndexOf(a + s, c, from) == |a| + IndexOf(s, c, from - |a|)
    decreases |a + s| - from
  {
    if from < |a + s| && (a + s)[from] != c {
      IndexOfAfter(a, s, c, from + 1);
    }
  }

  lemma SplitDotted(a: string, b: string, c: string)
    requires '.' !in a && '.' !in b
    ensures SplitName(a + "." + b + "." + c) == Some((a, b, c))
  {
    var full := a + "." + b + "." + c;
    var rest := b + "." + c;
    assert full == a + "." + rest;
    DotFree(a, rest);
    assert full == (a + ".") + rest;
    IndexOfAfter(a + ".", rest, '.', |a| + 1);
    DotFree(b, c);
    assert full[..|a|] == a && full[|a| + 1..|a| + 1 + |b|] == b && full[|a| + 1 + |b| + 1..] == c;
  }

  /** A dot in the file name ends the file part too early. */
  lemma SplitDottedFile(a: string, rest: string)
    requires '.' in a
    ensures var r := SplitName(a + "." + rest); r.Some? ==> |r.value.0| < |a|
  {
    var i :| 0 <= i < |a| && a[i] == '.';
    assert (a + "." + rest)[i] == '.';
    assert IndexOf(a + "." + rest, '.', 0) <= i;
  }

  lemma SplitDottedSection(a: string, b: string, c: string)
    requires '.' !in a && '.' in b
    ensures var r := SplitName(a + "." + b + "." + c);
      r.Some? ==> r.value.0 == a && |r.value.1| < |b|
  {
    var full := a + "." + b + "." + c;
    var rest := b + "." + c;
    assert full == a + "." + rest;
    DotFree(a, rest);
    assert full[..|a|] == a;
    var i :| 0 <= i < |b| && b[i] == '.';
    assert full[|a| + 1 + i] == '.';
    assert IndexOf(full, '.', |a| + 1) <= |a| + 1 + i;
  }

  lemma NameIndex(names: seq<string>, i: nat)
    requires i < |names| && DistinctNames(names)
    ensures WordIndex(names, names[i]) == i
  {
    EqFoldReflexive(names[i]);
    var k := WordIndex(names, names[i]);
    assert k <= i && EqFold(names[k], names[i]);
  }

  lemma SortedDistinct(names: seq<string>)
    requires SortedNames(names)
    ensures DistinctNames(names)
  {
    forall i, j | 0 <= i < j < |names|
      ensures !EqFold(names[i], names[j])
    {
      assert InOrder(names, i, j);
    }
  }

  /** The full name of an option resolves to that option exactly when neither its file nor its section
      has a dot in its name. */
  lemma FullNameResolves(store: ConfigStore, o: ConfigOption)
    requires store.Valid() && InStore(store, o)
    ensures Resolve(store, FullName(o)) == o
       <==> '.' !in o.section.file.name && '.' !in o.section.name
  {
    ValidLengths(store);
    var section := o.section;
    var file := section.file;
    var a, b, c := file.name, section.name, o.name;
    assert FullName(o) == a + "." + b + "." + c;
    if '.' in a {
      SplitDottedFile(a, b + "." + c);
      assert a + "." + (b + "." + c) == FullName(o);
      WrongFile(store, o);
    } else if '.' in b {
      SplitDottedSection(a, b, c);
      WrongSection(store, o);
    } else {
      SplitDotted(a, b, c);
      var f :| 0 <= f < |store.files| && store.files[f] == file;
      var s :| 0 <= s < |file.sections| && file.sections[s] == section;
      var k :| 0 <= k < |section.Opts| && section.Opts[k] == o;
      NameIndex(FileNamesOf(store.files), f);
      NameIndex(SectionNamesOf(file.sections), s);
      assert file in store.files && section in file.sections;
      assert section in store.All;
      SortedDistinct(section.Names);
      NameIndex(section.Names, k);
    }
  }

  /** An option found is in the file and the section whose names were given. */
  lemma ResolvedNames(store: ConfigStore, full: string)
    requires store.Valid()
    ensures var o := Resolve(store, full);
      o != null ==>
        && SplitName(full).Some?
        && EqFold(o.section.file.name, SplitName(full).value.0)
        && EqFold(o.section.name, SplitName(full).value.1)
        && EqFold(o.name, SplitName(full).value.2)
        && InStore(store, o)
  {
    ValidLengths(store);
    var o := Resolve(store, full);
    if o != null {
      var parts := SplitName(full).value;
      var file := store.files[WordIndex(FileNamesOf(store.files), parts.0)];
      var section := file.sections[WordIndex(SectionNamesOf(file.sections), parts.1)];
      assert file in store.files && section in file.sections;
      assert section in store.All;
      assert o in section.Opts && o.section == section && section.file == file;
    }
  }

  /** The first two dots cut, and nothing else does. */
  lemma SplitNameExact(full: string, a: string, b: string, c: string)
    ensures SplitName(full) == Some((a, b, c)) <==> full == a + "." + b + "." + c && '.' !in a && '.' !in b
  {
    if full == a + "." + b + "." + c && '.' !in a && '.' !in b {
      SplitDotted(a, b, c);
    }
    if SplitName(full) == Some((a, b, c)) {
      assert full == full[..|a|] + "." + full[|a| + 1..|a| + 1 + |b|] + "." + full[|a| + 2 + |b|..];
    }
  }

  /** What a name with two dots resolves to: the option of that name, in the section of that name, in the file
      of that name, case ignored. */
  lemma ResolveExact(store: ConfigStore, a: string, b: string, c: string, o: ConfigOption)
    requires store.Valid() && '.' !in a && '.' !in b
    ensures Resolve(store, a + "." + b + "." + c) == o
       <==> InStore(store, o) && EqFold(o.section.file.name, a) && EqFold(o.section.name, b) && EqFold(o.name, c)
  {
    var full := a + "." + b + "." + c;
    SplitDotted(a, b, c);
    ResolvedNames(store, full);
    if InStore(store, o) && EqFold(o.section.file.name, a) && EqFold(o.section.name, b) && EqFold(o.name, c) {
      NamedResolves(store, a, b, c, o);
    }
  }

  /** The file and the section found on the way, whether or not an option is. */
  lemma ResolvePartsExact(store: ConfigStore, a: string, b: string, c: string, file: ConfigFile,
                          section: ConfigSection)
    requires store.Valid() && '.' !in a && '.' !in b
    ensures var full := a + "." + b + "." + c;
      && (ResolveFile(store, full) == file <==> file in store.files && EqFold(file.name, a))
      && (ResolveSection(store, full) == section
          <==> section in store.All && EqFold(section.file.name, a) && EqFold(section.name, b))
  {
    SplitDotted(a, b, c);
    ValidLengths(store);
    if file in store.files && EqFold(file.name, a) {
      var f :| 0 <= f < |store.files| && store.files[f] == file;
      FoldIndex(FileNamesOf(store.files), f, a);
    }
    if section in store.All && EqFold(section.file.name, a) && EqFold(section.name, b) {
      var f :| 0 <= f < |store.files| && store.files[f] == section.file;
      var s :| 0 <= s < |section.file.sections| && section.file.sections[s] == section;
      FoldIndex(FileNamesOf(store.files), f, a);
      assert section.file in store.files;
      FoldIndex(SectionNamesOf(section.file.sections), s, b);
    }
  }

  /** Without two dots nothing is found. */
  lemma NothingResolved(store: ConfigStore, full: string)
    requires store.Valid() && SplitName(full).None?
    ensures Resolve(store, full) == null && ResolveFile(store, full) == null && ResolveSection(store, full) == null
  {
  }

  lemma FoldIndex(names: seq<string>, i: nat, name: string)
    requires i < |names| && DistinctNames(names) && EqFold(names[i], name)
    ensures WordIndex(names, name) == i
  {
    var k := WordIndex(names, name);
    StrCaseCmpZero(names[i], name);
    StrCaseCmpZero(names[k], name);
    StrCaseCmpZero(names[k], names[i]);
    assert k < i ==> !EqFold(names[k], names[i]);
  }

  lemma NamedResolves(store: ConfigStore, a: string, b: string, c: string, o: ConfigOption)
    requires store.Valid() && SplitName(a + "." + b + "." + c) == Some((a, b, c)) && InStore(store, o)
    requires EqFold(o.section.file.name, a) && EqFold(o.section.name, b) && EqFold(o.name, c)
    ensures Resolve(store, a + "." + b + "." + c) == o
  {
    ValidLengths(store);
    var section := o.section;
    var file := section.file;
    var f :| 0 <= f < |store.files| && store.files[f] == file;
    var s :| 0 <= s < |file.sections| && file.sections[s] == section;
    var k :| 0 <= k < |section.Opts| && section.Opts[k] == o;
    assert file in store.files && section in file.sections;
    assert section in store.All;
    FoldIndex(FileNamesOf(store.files), f, a);
    FoldIndex(SectionNamesOf(file.sections), s, b);
    SortedDistinct(section.Names);
    FoldIndex(section.Names, k, c);
  }

  lemma WrongFile(store: ConfigStore, o: ConfigOption)
    requires store.Valid() && InStore(store, o)
    requires var r := SplitName(FullName(o)); r.Some? ==> |r.value.0| < |o.section.file.name|
    ensures Resolve(store, FullName(o)) != o
  {
    ResolvedNames(store, FullName(o));
    if Resolve(store, FullName(o)) == o {
      EqFoldLength(o.section.file.name, SplitName(FullName(o)).value.0);
    }
  }

  lemma WrongSection(store: ConfigStore, o: ConfigOption)
    requires store.Valid() && InStore(store, o)
    requires var r := SplitName(FullName(o)); r.Some? ==> |r.value.1| < |o.section.name|
    ensures Resolve(store, FullName(o)) != o
  {
    ResolvedNames(store, FullName(o));
    if Resolve(store, FullName(o)) == o {
      EqFoldLength(o.section.name, SplitName(FullName(o)).value.1);
    }
  }

  // ---------------------------------------------------------------- renaming

  function Renamed(parent: Option<string>, oldName: string, newName: string): Option<string> {
    if parent == Some(oldName) then Some(newName) else parent
  }

  method RenameParentsInSection(section: ConfigSection, oldName: string, newName: string)
    requires section.Valid()
    modifies section.Members()`parentName
    ensures forall o :: o in section.Opts ==> o.parentName == Renamed(old(o.parentName), oldName, newName)
  {
    var option := section.options;
    ghost var k := 0;
    while option != null
      invariant 0 <= k <= |section.Opts|
      invariant option == if k < |section.Opts| then section.Opts[k] else null
      invariant forall j :: 0 <= j < k ==>
                  section.Opts[j].parentName == Renamed(old(section.Opts[j].parentName), oldName, newName)
      invariant forall j :: k <= j < |section.Opts| ==>
                  section.Opts[j].parentName == old(section.Opts[j].parentName)
      decreases |section.Opts| - k
    {
      if option.parentName.Some? && option.parentName.value == oldName {
        option.parentName := Some(newName);
      }
      assert option.next == (if k == |section.Opts| - 1 then null else section.Opts[k + 1]);
      option := option.next;
      k := k + 1;
    }
  }

  method RenameParentsInFile(file: ConfigFile, oldName: string, newName: string)
    requires file.Valid()
    modifies file.Options()`parentName
    ensures forall o :: o in file.Options() ==> o.parentName == Renamed(old(o.parentName), oldName, newName)
  {
    var i := 0;
    while i < |file.sections|
      invariant 0 <= i <= |file.sections|
      invariant forall j, o :: 0 <= j < |file.sections| && o in file.sections[j].Opts ==>
                  o.parentName == if j < i then Renamed(old(o.parentName), oldName, newName) else old(o.parentName)
    {
      SectionsDiffer(file, i);
      RenameParentsInSection(file.sections[i], oldName, newName);
      i := i + 1;
    }
  }

  lemma SectionsDiffer(file: ConfigFile, i: nat)
    requires file.Valid() && i < |file.sections|
    ensures forall j :: 0 <= j < |file.sections| && j != i ==> file.sections[j] != file.sections[i]
    ensures forall j, o :: 0 <= j < |file.sections| && o in file.sections[j].Opts ==> o.section == file.sections[j]
    ensures file.sections[i].Members() <= file.Options()
  {
    assert forall j :: 0 <= j < |file.sections| ==> file.sections[j] in file.sections && file.sections[j].Valid();
    forall j | 0 <= j < |file.sections| && j != i
      ensures file.sections[j] != file.sections[i]
    {
      var names := SectionNamesOf(file.sections);
      EqFoldReflexive(names[i]);
      assert !EqFold(names[if i < j then i else j], names[if i < j then j else i]);
    }
  }

  lemma FileValid(store: ConfigStore, file: ConfigFile)
    requires store.Valid() && file in store.files
    ensures file.Valid()
    ensures forall o :: o in file.Options() ==> o.section.file == file && o in store.Options()
  {
    assert forall s :: s in file.sections ==> s in store.All;
  }

  lemma FilesDiffer(store: ConfigStore, i: nat)
    requires store.Valid() && i < |store.files|
    ensures forall j :: 0 <= j < |store.files| && j != i ==> store.files[j] != store.files[i]
    ensures forall j, o :: 0 <= j < |store.files| && o in store.files[j].Options() ==>
              o.section.file == store.files[j]
    ensures store.files[i].Options() <= store.Options() && store.files[i].Valid()
  {
    assert forall j :: 0 <= j < |store.files| ==> store.files[j] in store.files && store.files[j].Structure();
    FileValid(store, store.files[i]);
    forall j, o | 0 <= j < |store.files| && o in store.files[j].Options()
      ensures o.section.file == store.files[j]
    {
      FileValid(store, store.files[j]);
    }
    forall j | 0 <= j < |store.files| && j != i
      ensures store.files[j] != store.files[i]
    {
      var names := FileNamesOf(store.files);
      EqFoldReflexive(names[i]);
      assert !EqFold(names[if i < j then i else j], names[if i < j then j else i]);
    }
  }

  /** The three loops over files, sections and options. */
  method RenameParents(store: ConfigStore, oldName: string, newName: string)
    requires store.Valid()
    modifies store.Options()`parentName
    ensures store.Valid() && store.Options() == old(store.Options())
    ensures forall o :: o in store.Options() ==> o.parentName == Renamed(old(o.parentName), oldName, newName)
    ensures forall o :: o in store.Options() ==>
              o.parentName == if old(o.parentName) == Some(oldName) then Some(newName) else old(o.parentName)
  {
    RenameParentsInFiles(store, oldName, newName);
    assert store.Structure();
    assert forall s :: s in store.All ==> s.Valid();
  }

  method RenameParentsInFiles(store: ConfigStore, oldName: string, newName: string)
    requires store.Valid()
    modifies store.Options()`parentName
    ensures forall o :: o in store.Options() ==> o.parentName == Renamed(old(o.parentName), oldName, newName)
  {
    var i := 0;
    while i < |store.files|
      invariant 0 <= i <= |store.files|
      invariant forall j, o :: 0 <= j < |store.files| && o in store.files[j].Options() ==>
                  o.parentName == if j < i then Renamed(old(o.parentName), oldName, newName) else old(o.parentName)
    {
      FilesDiffer(store, i);
      RenameParentsInFile(store.files[i], oldName, newName);
      i := i + 1;
    }
    forall o | o in store.Options()
      ensures o.parentName == Renamed(old(o.parentName), oldName, newName)
    {
      var f, s :| f in store.files && s in f.sections && o in s.Opts;
      var j :| 0 <= j < |store.files| && store.files[j] == f;
      assert o in store.files[j].Options();
    }
  }

  lemma SameMembers(s: seq<ConfigOption>, k: nat, n: nat, t: seq<ConfigOption>)
    requires k < |s| && n <= |s| - 1 && t == InsertOption(RemoveIndex(s, k), n, s[k])
    ensures forall o :: o in t <==> o in s
  {
    var r := RemoveIndex(s, k);
    assert s == s[..k] + [s[k]] + s[k + 1..];
    assert forall o :: o in s <==> o == s[k] || o in s[..k] || o in s[k + 1..];
    assert forall o :: o in r <==> o in s[..k] || o in s[k + 1..];
    assert r == r[..n] + r[n..];
    assert forall o :: o in r <==> o in r[..n] || o in r[n..];
    assert forall o :: o in t <==> o == s[k] || o in r[..n] || o in r[n..];
  }

  lemma OtherSections(store: ConfigStore, section: ConfigSection)
    requires store.Valid()
    ensures forall s, o :: s in store.All && o in s.Opts && s != section ==> o.section != section
  {
    assert forall s :: s in store.All ==> s.Valid();
  }

  /** The list part of a rename, seen from the whole store. */
  method RenameInStore(store: ConfigStore, option: ConfigOption, newName: string, ghost k: nat)
    requires store.Valid() && InStore(store, option)
    requires k < |option.section.Opts| && option == option.section.Opts[k]
    requires NameFree(option.section.Names, newName)
    modifies option.section`options, option.section`lastOption, option.section`Opts, option.section`Names
    modifies option.section.Members()`prev, option.section.Members()`next, option`name
    ensures store.Valid() && option.name == newName
    ensures var rest := RemoveIndex(old(option.section.Names), k);
      option.section.Opts
      == InsertOption(RemoveIndex(old(option.section.Opts), k), SortedPosition(rest, newName), option)
  {
    var section := option.section;
    assert section in store.All;
    OtherSections(store, section);
    section.RenameInSection(option, newName, k);
  }

  method RenameKeepsMembers(store: ConfigStore, option: ConfigOption, newName: string)
    requires store.Valid() && InStore(store, option)
    requires NameFree(option.section.Names, newName)
    modifies option.section`options, option.section`lastOption, option.section`Opts, option.section`Names
    modifies option.section.Members()`prev, option.section.Members()`next, option`name
    ensures store.Valid() && option.name == newName
    ensures InStore(store, option) && store.Options() == old(store.Options())
  {
    var section := option.section;
    ghost var before := section.Opts;
    ghost var k :| 0 <= k < |before| && before[k] == option;
    RenameInStore(store, option, newName, k);
    SameMembers(before, k, SortedPosition(RemoveIndex(old(section.Names), k), newName), section.Opts);
    assert section.Members() == old(section.Members());
  }

  /** The guard of config_file_option_rename. */
  method NameAccepted(store: ConfigStore, option: ConfigOption, newName: string) returns (ok: bool)
    requires store.Valid() && InStore(store, option)
    ensures store.Valid()
    ensures ok <==> newName != "" && WordIndex(option.section.Names, newName) < 0
    ensures ok ==> NameFree(option.section.Names, newName)
  {
    if newName == "" {
      return false;
    }
    var section := option.section;
    assert section in store.All && section.Valid();
    var same := section.Search(newName);
    ok := same == null;
  }

  method RenameAccepted(store: ConfigStore, option: ConfigOption, newName: string)
    requires store.Valid() && InStore(store, option) && NameFree(option.section.Names, newName)
    modifies option.section`options, option.section`lastOption, option.section`Opts, option.section`Names
    modifies option.section.Members()`prev, option.section.Members()`next, option`name
    modifies store.Options()`parentName
    ensures store.Valid() && InStore(store, option) && store.Options() == old(store.Options())
    ensures option.name == newName
    ensures forall o :: o in store.Options() ==>
              o.parentName == Renamed(old(o.parentName), old(FullName(option)), FullName(option))
  {
    var oldFull := FullName(option);
    RenameKeepsMembers(store, option, newName);
    assert forall o :: o in store.Options() ==> o.parentName == old(o.parentName);
    var newFull := FullName(option);
    RenameParents(store, oldFull, newFull);
    assert FullName(option) == newFull;
  }

  ghost predicate DotFreeNames(o: ConfigOption) {
    '.' !in o.section.file.name && '.' !in o.section.name
  }

  /** config_file_option_rename. Afterwards every parent name that was the old full name is the new
      full name and resolves to the renamed option; all the others are unchanged. */
  method RenameOption(store: ConfigStore, option: ConfigOption, newName: string) returns (renamed: bool)
    requires store.Valid() && InStore(store, option)
    modifies option.section`options, option.section`lastOption, option.section`Opts, option.section`Names
    modifies option.section.Members()`prev, option.section.Members()`next, option`name
    modifies store.Options()`parentName
    ensures store.Valid() && InStore(store, option) && store.Options() == old(store.Options())
    ensures renamed <==> newName != "" && WordIndex(old(option.section.Names), newName) < 0
    ensures option.name == if renamed then newName else old(option.name)
    ensures !renamed ==> option.section.Opts == old(option.section.Opts)
    ensures forall o :: o in store.Options() ==>
              o.parentName == if renamed then Renamed(old(o.parentName), old(FullName(option)), FullName(option))
                              else old(o.parentName)
    ensures renamed && DotFreeNames(option) ==> Resolve(store, FullName(option)) == option
    ensures renamed ==> forall o :: o in store.Options() ==>
              o.parentName == if old(o.parentName) == Some(old(FullName(option))) then Some(FullName(option))
                              else old(o.parentName)
    ensures renamed && DotFreeNames(option) ==> forall o ::
              o in store.Options() && old(o.parentName) == Some(old(FullName(option))) ==>
                o.parentName.Some? && Resolve(store, o.parentName.value) == option
  {
    renamed := NameAccepted(store, option, newName);
    if renamed {
      RenameAccepted(store, option, newName);
      FullNameResolves(store, option);
    }
  }
}
