/** Creating files, sections and options, and freeing options: each keeps the whole store valid. */
module ConfigBuild {
  import opened Text
  import opened OptionValue
  import opened Config
  import opened ConfigNames

  lemma AppendDistinct(names: seq<string>, name: string)
    requires DistinctNames(names) && WordIndex(names, name) < 0
    ensures DistinctNames(names + [name])
  {
    var all := names + [name];
    forall i, j | 0 <= i < j < |all|
      ensures !EqFold(all[i], all[j])
    {
      if j < |names| {
        assert !EqFold(names[i], names[j]);
      } else {
        assert !EqFold(names[i], name);
      }
    }
  }

  /** config_file_new: no two files have the same name. */
  method NewFile(store: ConfigStore, name: string) returns (file: ConfigFile?)
    requires store.Valid()
    modifies store`files
    ensures store.Valid()
    ensures file == null <==> WordIndex(FileNamesOf(old(store.files)), name) >= 0
    ensures file == null ==> store.files == old(store.files)
    ensures file != null ==>
              && fresh(file) && file.name == name && file.sections == []
              && store.files == old(store.files) + [file]
  {
    var same := store.SearchFile(name);
    if same != null {
      return null;
    }
    AppendDistinct(FileNamesOf(store.files), name);
    file := new ConfigFile(name);
    AppendFile(store, file);
  }

  method AppendFile(store: ConfigStore, file: ConfigFile)
    requires store.Valid() && file.sections == [] && file.Structure()
    requires DistinctNames(FileNamesOf(store.files) + [file.name])
    modifies store`files
    ensures store.Valid() && store.files == old(store.files) + [file]
  {
    var all := store.files + [file];
    assert FileNamesOf(all) == FileNamesOf(store.files) + [file.name];
    assert forall f :: f in all <==> f == file || f in store.files;
    store.files := all;
  }

  /** config_file_new_section: no two sections of a file have the same name. */
  method NewSection(store: ConfigStore, file: ConfigFile, name: string,
                    readCallback: bool, writeCallback: bool, userCanDelete: bool)
    returns (section: ConfigSection?)
    requires store.Valid() && file in store.files
    modifies file, store`All
    ensures store.Valid()
    ensures section == null <==> WordIndex(SectionNamesOf(old(file.sections)), name) >= 0
    ensures section == null ==> file.sections == old(file.sections)
    ensures section != null ==>
              && fresh(section) && section.name == name && section.file == file && section.Opts == []
              && section.readCallback == readCallback && section.writeCallback == writeCallback
              && section.userCanDelete == userCanDelete
              && file.sections == old(file.sections) + [section]
  {
    var same := file.SearchSection(name);
    if same != null {
      return null;
    }
    AddSection(store, file, name, readCallback, writeCallback, userCanDelete);
    section := file.sections[|file.sections| - 1];
  }

  method AddSection(store: ConfigStore, file: ConfigFile, name: string,
                    readCallback: bool, writeCallback: bool, userCanDelete: bool)
    requires store.Valid() && file in store.files
    requires WordIndex(SectionNamesOf(file.sections), name) < 0
    modifies file, store`All
    ensures store.Valid()
    ensures |file.sections| == |old(file.sections)| + 1
    ensures var section := file.sections[|file.sections| - 1];
      && fresh(section) && section.name == name && section.file == file && section.Opts == []
      && section.readCallback == readCallback && section.writeCallback == writeCallback
      && section.userCanDelete == userCanDelete
      && file.sections == old(file.sections) + [section]
  {
    AppendDistinct(SectionNamesOf(file.sections), name);
    var section := new ConfigSection(file, name, readCallback, writeCallback, userCanDelete);
    AppendSection(store, file, section);
  }

  method AppendSection(store: ConfigStore, file: ConfigFile, section: ConfigSection)
    requires store.Valid() && file in store.files && section.file == file && section.Valid()
    requires DistinctNames(SectionNamesOf(file.sections) + [section.name])
    modifies file`sections, store`All
    ensures store.Valid() && file.sections == old(file.sections) + [section]
  {
    var all := file.sections + [section];
    assert SectionNamesOf(all) == SectionNamesOf(file.sections) + [section.name];
    assert forall s :: s in all <==> s == section || s in file.sections;
    file.sections := all;
    store.All := store.All + {section};
  }

  /** A new option is refused when its name is taken, or when it may not be null and has neither
      a value nor a default. */
  predicate Refused(names: seq<string>, name: string, nullAllowed: bool, default: Option<string>,
                    text: Option<string>)
  {
    WordIndex(names, name) >= 0 || (!nullAllowed && default.None? && text.None?)
  }

  method NewOptionInSection(section: ConfigSection, fullName: string, kind: Kind,
                            nullAllowed: bool, default: Option<string>, text: Option<string>,
                            check: Option<string> -> bool)
    returns (option: ConfigOption?)
    requires section.Valid()
    modifies section`options, section`lastOption, section`Opts, section`Names
    modifies section.Members()`prev, section.Members()`next
    ensures section.Valid()
    ensures option == null <==> Refused(old(section.Names), SplitParent(fullName).0, nullAllowed, default, text)
    ensures option == null ==> section.Opts == old(section.Opts)
    ensures option != null ==>
              && fresh(option) && option.section == section
              && option.name == SplitParent(fullName).0 && option.parentName == SplitParent(fullName).1
              && option.def.kind == kind && option.def.nullAllowed == nullAllowed && option.def.check == check
              && Starts(kind, nullAllowed, default, text, option.def.default, option.value)
              && section.Opts
                   == InsertOption(old(section.Opts), SortedPosition(old(section.Names), option.name), option)
  {
    option := section.NewOption(fullName, kind, nullAllowed, default, text, check);
  }

  /** config_file_new_option, seen from the whole store. */
  method NewOptionInStore(store: ConfigStore, section: ConfigSection, fullName: string, kind: Kind,
                          nullAllowed: bool, default: Option<string>, text: Option<string>,
                          check: Option<string> -> bool)
    returns (option: ConfigOption?)
    requires store.Valid() && section in store.All
    modifies section`options, section`lastOption, section`Opts, section`Names
    modifies section.Members()`prev, section.Members()`next
    ensures store.Valid()
    ensures option == null <==> Refused(old(section.Names), SplitParent(fullName).0, nullAllowed, default, text)
    ensures option == null ==> section.Opts == old(section.Opts)
    ensures option != null ==>
              && fresh(option) && option.section == section
              && option.name == SplitParent(fullName).0 && option.parentName == SplitParent(fullName).1
              && option.def.kind == kind && option.def.nullAllowed == nullAllowed && option.def.check == check
              && Starts(kind, nullAllowed, default, text, option.def.default, option.value)
              && section.Opts
                   == InsertOption(old(section.Opts), SortedPosition(old(section.Names), option.name), option)
  {
    OtherSections(store, section);
    option := NewOptionInSection(section, fullName, kind, nullAllowed, default, text, check);
    assert store.Structure();
    forall s | s in store.All
      ensures s.Valid()
    {
      assert s != section ==> old(s.Valid());
    }
  }

  /** config_file_option_free, seen from the whole store. */
  method FreeInStore(store: ConfigStore, option: ConfigOption, ghost k: nat)
    requires store.Valid() && InStore(store, option)
    requires k < |option.section.Opts| && option == option.section.Opts[k]
    modifies option.section`options, option.section`lastOption, option.section`Opts, option.section`Names
    modifies option.section.Members()`prev, option.section.Members()`next
    ensures store.Valid() && option !in option.section.Opts
    ensures option.section.Opts == RemoveIndex(old(option.section.Opts), k)
  {
    ghost var before := option.section.Opts;
    assert option.section in store.All;
    assert before[k] == option && forall j :: 0 <= j < |before| && j != k ==> before[j] != option;
    FreeKeepsStore(store, option, k);
    RemoveIndexAt(before, k);
  }

  method FreeKeepsStore(store: ConfigStore, option: ConfigOption, ghost k: nat)
    requires store.Valid() && InStore(store, option)
    requires k < |option.section.Opts| && option == option.section.Opts[k]
    modifies option.section`options, option.section`lastOption, option.section`Opts, option.section`Names
    modifies option.section.Members()`prev, option.section.Members()`next
    ensures store.Valid()
    ensures option.section.Opts == RemoveIndex(old(option.section.Opts), k)
  {
    OtherSections(store, option.section);
    assert option.section in store.All;
    option.section.FreeOption(option, k);
  }
}
