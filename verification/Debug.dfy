/** Section "debug": one integer option a plugin, whose values are mirrored into the level of the
    core and of each plugin. */
module Debug {
  import opened Text
  import opened OptionValue
  import opened Config

  class Plugin {
    const name: string
    var debug: int

    constructor (name: string)
      ensures this.name == name && debug == 0
    {
      this.name := name;
      debug := 0;
    }
  }

  const PLUGIN_CORE := "core"
  const DEBUG_KIND := Integer(0, 32)

  // ---------------------------------------------------------------- search by name

  lemma IndexAt(names: seq<string>, k: nat, name: string)
    requires SortedNames(names) && k < |names| && EqFold(names[k], name)
    ensures WordIndex(names, name) == k
  {
    var j := WordIndex(names, name);
    assert j < k ==> InOrder(names, j, k);
    StrCaseCmpZero(names[k], name);
    StrCaseCmpZero(names[j], name);
    StrCaseCmpZero(names[j], names[k]);
  }

  lemma FoundFolds(names: seq<string>, name: string, n: string)
    requires WordIndex(names, name) >= 0
    ensures EqFold(names[WordIndex(names, name)], n) <==> EqFold(name, n)
  {
    var found := names[WordIndex(names, name)];
    StrCaseCmpZero(found, name);
    StrCaseCmpZero(found, n);
    StrCaseCmpZero(name, n);
  }

  lemma NotFoundFolds(names: seq<string>, name: string, n: string)
    requires WordIndex(names, name) < 0 && EqFold(name, n)
    ensures WordIndex(names, n) < 0
  {
    StrCaseCmpZero(name, n);
    forall i | 0 <= i < |names| ensures !EqFold(names[i], n) {
      StrCaseCmpZero(names[i], name);
      StrCaseCmpZero(names[i], n);
    }
  }

  lemma IndexAfterRemove(names: seq<string>, k: nat, name: string)
    requires SortedNames(names) && k < |names|
    ensures WordIndex(RemoveIndex(names, k), name) ==
      var j := WordIndex(names, name);
      if j == k then -1 else if j > k then j - 1 else j
  {
    RemoveIndexAt(names, k);
    SortedRemove(names, k);
    var after, j := RemoveIndex(names, k), WordIndex(names, name);
    var i := WordIndex(after, name);
    if j >= 0 && j != k {
      assert after[if j < k then j else j - 1] == names[j];
      IndexAt(after, if j < k then j else j - 1, name);
    } else if i >= 0 {
      IndexAt(names, if i < k then i else i + 1, name);
    }
  }

  lemma IndexAfterInsert(names: seq<string>, k: nat, added: string, name: string)
    requires k <= |names| && SortedNames(InsertName(names, k, added))
    ensures WordIndex(InsertName(names, k, added), name) ==
      var j := WordIndex(names, name);
      if EqFold(added, name) then k else if j >= k then j + 1 else j
  {
    var after, j := InsertName(names, k, added), WordIndex(names, name);
    assert after[k] == added;
    if EqFold(added, name) {
      IndexAt(after, k, name);
    } else {
      if j >= 0 {
        assert after[if j < k then j else j + 1] == names[j];
        IndexAt(after, if j < k then j else j + 1, name);
      }
    }
  }

  lemma ActionKeepsWellFormed(def: Definition, v: Option<Value>, a: Action)
    requires WellFormed(def, v)
    ensures WellFormed(def, Act(def, v, a).0)
  {
    RunWellFormed(def, v, [a]);
    assert RunActions(def, v, [a][..0]) == v;
  }

  lemma InsertAt(s: seq<ConfigOption>, k: nat, option: ConfigOption)
    requires k <= |s|
    ensures InsertOption(s, k, option)[k] == option
    ensures forall j {:trigger s[j]} :: 0 <= j < |s| ==> InsertOption(s, k, option)[if j < k then j else j + 1] == s[j]
  {
  }

  lemma InsertMembers(s: seq<ConfigOption>, k: nat, option: ConfigOption)
    requires k <= |s|
    ensures forall o :: o in InsertOption(s, k, option) ==> o == option || o in s
  {
  }

  class DebugLevels {
    const section: ConfigSection
    var core: int
    var plugins: seq<Plugin>

    constructor (section: ConfigSection)
      requires section.Valid() && section.Opts == []
      ensures this.section == section && plugins == [] && core == 0
      ensures Valid() && Mirrored()
    {
      this.section := section;
      core := 0;
      plugins := [];
    }

    ghost function Plugins(): set<Plugin>
      reads this`plugins
    {
      set p | p in plugins
    }

    /** Every option of the section is an integer with a value. */
    ghost predicate Typed()
      reads section`Opts, section.Members()`value
    {
      forall o :: o in section.Opts ==>
        o.def.kind == DEBUG_KIND && !o.def.nullAllowed && WellFormed(o.def, o.value)
    }

    ghost predicate Valid()
      reads section, section.Members()
    {
      section.Valid() && Typed()
    }

    /** The value of the option with that name, or 0 without one. */
    ghost function Level(name: string): int
      reads section, section.Members()
      requires Valid()
    {
      var k := WordIndex(section.Names, name);
      if 0 <= k < |section.Opts| then section.Opts[k].value.value.n else 0
    }

    ghost predicate Mirrored()
      reads this, section, section.Members(), Plugins()
      requires Valid()
    {
      && core == Level(PLUGIN_CORE)
      && forall p :: p in plugins ==> p.debug == Level(p.name)
    }

    /** config_weechat_debug_get, then CONFIG_INTEGER. */
    method Get(name: string) returns (level: int)
      requires Valid()
      ensures Valid() && level == Level(name)
    {
      var option := section.Search(name);
      level := if option != null then option.value.value.n else 0;
    }

    method SetAll()
      requires Valid()
      modifies this`core, Plugins()`debug
      ensures Valid() && Mirrored()
    {
      core := Get(PLUGIN_CORE);
      SetPlugins();
    }

    method SetPlugins()
      requires Valid()
      modifies Plugins()`debug
      ensures Valid() && forall p :: p in plugins ==> p.debug == Level(p.name)
    {
      var i := 0;
      while i < |plugins|
        invariant 0 <= i <= |plugins|
        invariant Valid()
        invariant forall j :: 0 <= j < i ==> plugins[j].debug == Level(plugins[j].name)
      {
        var level := Get(plugins[i].name);
        plugins[i].debug := level;
        i := i + 1;
      }
    }

    // -------------------------------------------------------------- operations

    /** No option has the name, or its check callback accepts the text. */
    ghost predicate Accepts(name: string, text: string)
      reads section, section.Members()
      requires Valid()
    {
      var k := WordIndex(section.Names, name);
      0 <= k < |section.Opts| ==> section.Opts[k].def.check(Some(text))
    }

    /** The text is the level m, from 0 to 32, and will be taken. */
    ghost predicate Asks(name: string, text: string, m: int)
      reads section, section.Members()
      requires Valid()
    {
      0 <= m <= 32 && text == IntText(m) && NoMark(name, |name|) && Accepts(name, text)
    }

    /** CHANGED for an option that had another level. */
    ghost function AskedRc(name: string, m: int): Rc
      reads section, section.Members()
      requires Valid()
    {
      if WordIndex(section.Names, name) >= 0 && Level(name) != m then Changed else SameValue
    }

    /** The level is given to the name and to no other, whether there is an option for it or not. */
    lemma LevelGiven(name: string, text: string, m: int, n: string)
      requires Valid() && Asks(name, text, m)
      ensures text != "" && LevelAfter(name, text, n) == if EqFold(name, n) then m else Level(n)
      ensures CreateRc(name, text) == AskedRc(name, m)
    {
      var k := WordIndex(section.Names, name);
      SplitParentExact(name, "");
      if 0 <= k < |section.Opts| {
        var option := section.Opts[k];
        NumberTextExact(0, 32, option.value, m);
        SetExact(option.def, option.value, Some(text));
      } else {
        ParsePrinted(m);
        if EqFold(name, n) {
          NotFoundFolds(section.Names, name, n);
        }
      }
    }

    lemma GivenLevels(name: string, text: string)
      requires Valid()
      ensures forall m, n :: Asks(name, text, m) ==>
        LevelAfter(name, text, n) == if EqFold(name, n) then m else Level(n)
      ensures forall m :: Asks(name, text, m) ==>
        && text != ""
        && CreateRc(name, text) == AskedRc(name, m)
    {
      forall m, n | Asks(name, text, m)
        ensures LevelAfter(name, text, n) == if EqFold(name, n) then m else Level(n)
      {
        LevelGiven(name, text, m, n);
      }
      forall m | Asks(name, text, m)
        ensures text != ""
        ensures CreateRc(name, text) == AskedRc(name, m)
      {
        LevelGiven(name, text, m, name);
      }
    }

    /** A new option brings any number into 0 to 32. */
    lemma NewLevel(name: string, m: int, n: string)
      requires Valid() && WordIndex(section.Names, name) < 0 && NoMark(name, |name|) && IsLong(m)
      ensures LevelAfter(name, IntText(m), n)
           == if EqFold(name, n) then (if m < 0 then 0 else if m > 32 then 32 else m) else Level(n)
    {
      SplitParentExact(name, "");
      ParsePrinted(m);
    }

    /** With " << " after the name of an option, no other option is made and nothing changes. */
    lemma TakenName(base: string, parent: string, text: string, n: string)
      requires Valid() && NoMark(base + " << ", |base|) && text != ""
      requires WordIndex(section.Names, base) >= 0 && WordIndex(section.Names, base + " << " + parent) < 0
      ensures var name := base + " << " + parent;
        LevelAfter(name, text, n) == Level(n) && CreateRc(name, text) == Error
    {
      SplitParentExact(base, parent);
    }

    /** Without a value the option goes, and with it the level. */
    lemma EmptyText(name: string, n: string)
      requires Valid()
      ensures LevelAfter(name, "", n) == (if EqFold(name, n) then 0 else Level(n)) && CreateRc(name, "") == SameValue
    {
    }

    /** A text that is no number changes no level: a new option starts at 0. */
    lemma NoLevelGiven(name: string, text: string, n: string)
      requires Valid() && NoMark(name, |name|)
      requires text != "" && ParseLong(text).None? && !IsIncrement(text) && !IsDecrement(text)
      ensures LevelAfter(name, text, n) == Level(n)
    {
      var k := WordIndex(section.Names, name);
      SplitParentExact(name, "");
      if 0 <= k < |section.Opts| {
        SetExact(section.Opts[k].def, section.Opts[k].value, Some(text));
        FoundFolds(section.Names, name, n);
        if EqFold(name, n) {
          IndexAt(section.Names, k, n);
        }
      } else if EqFold(name, n) {
        NotFoundFolds(section.Names, name, n);
      }
    }

    /** What config_weechat_debug_create_option_cb makes of the level of each name n, and its
        return code. */
    ghost function LevelAfter(name: string, text: string, n: string): int
      reads section, section.Members()
      requires Valid()
    {
      var k := WordIndex(section.Names, name);
      if text == "" then
        if EqFold(name, n) then 0 else Level(n)
      else if 0 <= k < |section.Opts| then
        if EqFold(name, n) then SetResult(section.Opts[k].def, section.Opts[k].value, Some(text)).0.value.n
        else Level(n)
      else if !Taken(name) && EqFold(SplitParent(name).0, n) then InitialValue(DEBUG_KIND, text).n
      else Level(n)
    }

    ghost function CreateRc(name: string, text: string): Rc
      reads section, section.Members()
      requires Valid()
    {
      var k := WordIndex(section.Names, name);
      if text == "" then SameValue
      else if 0 <= k < |section.Opts| then SetResult(section.Opts[k].def, section.Opts[k].value, Some(text)).1
      else if Taken(name) then Error
      else SameValue
    }

    /** The name of a new option stops at " << ". */
    ghost predicate Taken(name: string)
      reads section
    {
      WordIndex(section.Names, SplitParent(name).0) >= 0
    }

    /** config_file_option_set on an option of the section, whose change callback mirrors all levels. */
    method SetOption(option: ConfigOption, text: Option<string>) returns (rc: Rc)
      requires Valid() && Mirrored() && option in section.Opts
      modifies option`value, this`core, Plugins()`debug
      ensures Valid() && Mirrored()
      ensures (option.value, rc) == SetResult(option.def, old(option.value), text)
    {
      ActionKeepsWellFormed(option.def, option.value, Action.Set(text));
      rc := option.Set(text);
      if rc == Changed {
        SetAll();
      }
    }

    /** config_file_option_reset, with the same callback. */
    method ResetOption(option: ConfigOption) returns (rc: Rc)
      requires Valid() && Mirrored() && option in section.Opts
      modifies option`value, this`core, Plugins()`debug
      ensures Valid() && Mirrored()
      ensures (option.value, rc) == ResetResult(option.def, old(option.value))
    {
      ActionKeepsWellFormed(option.def, option.value, Action.Reset);
      rc := option.Reset();
      if rc == Changed {
        SetAll();
      }
    }

    /** config_weechat_debug_delete_option_cb */
    method DeleteOption(option: ConfigOption, ghost k: nat)
      requires Valid() && k < |section.Opts| && option == section.Opts[k]
      modifies section`options, section`lastOption, section`Opts, section`Names
      modifies section.Members()`prev, section.Members()`next
      modifies this`core, Plugins()`debug
      ensures Valid() && Mirrored()
      ensures section.Opts == RemoveIndex(old(section.Opts), k)
      ensures section.Names == RemoveIndex(old(section.Names), k)
    {
      section.FreeOption(option, k);
      SetAll();
    }

    method SetExisting(option: ConfigOption, ghost k: nat, text: string) returns (rc: Rc)
      requires Valid() && k < |section.Opts| && option == section.Opts[k]
      modifies option`value
      ensures Valid() && (option.value, rc) == SetResult(option.def, old(option.value), Some(text))
      ensures forall n :: Level(n) == if EqFold(section.Names[k], n) then option.value.value.n else old(Level(n))
    {
      ActionKeepsWellFormed(option.def, option.value, Action.Set(Some(text)));
      rc := option.Set(Some(text));
      forall n ensures WordIndex(section.Names, n) == k <==> EqFold(section.Names[k], n) {
        if EqFold(section.Names[k], n) {
          IndexAt(section.Names, k, n);
        }
      }
    }

    method FreeExisting(option: ConfigOption, ghost k: nat)
      requires Valid() && k < |section.Opts| && option == section.Opts[k]
      modifies section`options, section`lastOption, section`Opts, section`Names
      modifies section.Members()`prev, section.Members()`next
      ensures Valid() && section.Opts == RemoveIndex(old(section.Opts), k)
      ensures forall n :: Level(n) == if EqFold(old(section.Names[k]), n) then 0 else old(Level(n))
    {
      ghost var names, opts := section.Names, section.Opts;
      section.FreeOption(option, k);
      RemoveIndexAt(opts, k);
      forall n ensures Level(n) == if EqFold(names[k], n) then 0 else old(Level(n)) {
        IndexAfterRemove(names, k, n);
        if EqFold(names[k], n) {
          IndexAt(names, k, n);
        }
      }
    }

    /** The levels once an option is inserted at index k. */
    lemma LevelsAfterInsert(opts: seq<ConfigOption>, names: seq<string>, k: nat, option: ConfigOption, n: string)
      requires Valid() && k <= |opts| == |names|
      requires section.Opts == InsertOption(opts, k, option)
      requires section.Names == InsertName(names, k, option.name)
      ensures option in section.Opts && forall o :: o in opts ==> o in section.Opts
      ensures var j := WordIndex(names, n);
        Level(n) == if EqFold(option.name, n) then option.value.value.n
                    else if j < 0 then 0 else opts[j].value.value.n
    {
      InsertAt(opts, k, option);
      IndexAfterInsert(names, k, option.name, n);
    }

    method AddOption(name: string, text: string) returns (option: ConfigOption?)
      requires Valid() && WordIndex(section.Names, name) < 0
      modifies section`options, section`lastOption, section`Opts, section`Names
      modifies section.Members()`prev, section.Members()`next
      ensures Valid() && (option == null <==> old(Taken(name)))
      ensures option == null ==> section.Opts == old(section.Opts) && section.Names == old(section.Names)
      ensures option != null ==>
                && option.name == SplitParent(name).0 && option.value == Some(InitialValue(DEBUG_KIND, text))
                && Inserted(option, old(section.Opts), old(section.Names))
    {
      ghost var opts := section.Opts;
      NewValuesWellFormed(DEBUG_KIND, false, Some("0"), Some(text), _ => true);
      option := section.NewOption(name, DEBUG_KIND, false, Some("0"), Some(text), _ => true);
      if option != null {
        NewValuesWellFormed(DEBUG_KIND, false, Some("0"), Some(text), option.def.check);
        InsertMembers(opts, SortedPosition(old(section.Names), option.name), option);
      }
    }

    ghost predicate Inserted(option: ConfigOption, opts: seq<ConfigOption>, names: seq<string>)
      reads section, option`name
    {
      var k := SortedPosition(names, option.name);
      && k <= |opts| == |names|
      && section.Opts == InsertOption(opts, k, option)
      && section.Names == InsertName(names, k, option.name)
    }

    method AddNew(name: string, text: string) returns (rc: Rc)
      requires Valid() && WordIndex(section.Names, name) < 0
      modifies section`options, section`lastOption, section`Opts, section`Names
      modifies section.Members()`prev, section.Members()`next
      ensures Valid() && rc == if old(Taken(name)) then Error else SameValue
      ensures forall n :: Level(n) == if rc == SameValue && EqFold(SplitParent(name).0, n)
                                      then InitialValue(DEBUG_KIND, text).n else old(Level(n))
    {
      ghost var names, opts := section.Names, section.Opts;
      var option := AddOption(name, text);
      if option == null {
        return Error;
      }
      ghost var k := SortedPosition(names, option.name);
      forall n ensures Level(n) == if EqFold(option.name, n) then option.value.value.n else old(Level(n)) {
        LevelsAfterInsert(opts, names, k, option, n);
      }
      rc := SameValue;
    }

    /** The search and config_file_option_free. */
    method Remove(name: string) returns (found: bool)
      requires Valid()
      modifies section`options, section`lastOption, section`Opts, section`Names
      modifies section.Members()`prev, section.Members()`next
      ensures Valid()
      ensures forall n :: Level(n) == if EqFold(name, n) then 0 else old(Level(n))
      ensures !found ==> forall n :: Level(n) == old(Level(n))
    {
      var option := section.Search(name);
      ghost var k := WordIndex(section.Names, name);
      found := option != null;
      if found {
        forall n ensures EqFold(section.Names[k], n) <==> EqFold(name, n) {
          FoundFolds(section.Names, name, n);
        }
        FreeExisting(option, k);
      } else {
        forall n | EqFold(name, n) ensures WordIndex(section.Names, n) < 0 {
          NotFoundFolds(section.Names, name, n);
        }
      }
    }

    /** The search and config_file_option_set or config_file_new_option. */
    method Assign(name: string, text: string) returns (rc: Rc)
      requires Valid() && text != ""
      modifies section`options, section`lastOption, section`Opts, section`Names
      modifies section.Members()`prev, section.Members()`next, section.Members()`value
      ensures Valid() && rc == old(CreateRc(name, text))
      ensures forall n :: Level(n) == old(LevelAfter(name, text, n))
    {
      var option := section.Search(name);
      ghost var k := WordIndex(section.Names, name);
      if option != null {
        forall n ensures EqFold(section.Names[k], n) <==> EqFold(name, n) {
          FoundFolds(section.Names, name, n);
        }
        rc := SetExisting(option, k, text);
      } else {
        rc := AddNew(name, text);
      }
    }

    method Store(name: string, text: string) returns (rc: Rc)
      requires Valid()
      modifies section`options, section`lastOption, section`Opts, section`Names
      modifies section.Members()`prev, section.Members()`next, section.Members()`value
      ensures Valid() && rc == old(CreateRc(name, text))
      ensures forall n :: Level(n) == old(LevelAfter(name, text, n))
    {
      if text != "" {
        rc := Assign(name, text);
      } else {
        var _ := Remove(name);
        rc := SameValue;
      }
    }

    /** config_weechat_debug_create_option_cb, which is also config_weechat_debug_set: the level of
        the name changes as asked, no other level does, and all levels are mirrored. */
    method CreateOption(name: Option<string>, value: Option<string>) returns (rc: Rc)
      requires Valid()
      modifies section`options, section`lastOption, section`Opts, section`Names
      modifies section.Members()`prev, section.Members()`next, section.Members()`value
      modifies this`core, Plugins()`debug
      ensures Valid() && Mirrored()
      ensures var text := if value.Some? then value.value else "";
        && rc == (if name.None? then Error else old(CreateRc(name.value, text)))
        && forall n :: Level(n) == if name.None? then old(Level(n)) else old(LevelAfter(name.value, text, n))
      ensures name.Some? && value.Some? ==>
                forall m, n :: old(Asks(name.value, value.value, m)) ==>
                  Level(n) == if EqFold(name.value, n) then m else old(Level(n))
    {
      if name.Some? && value.Some? {
        GivenLevels(name.value, value.value);
      }
      rc := CreateLevels(name, value);
    }

    method CreateLevels(name: Option<string>, value: Option<string>) returns (rc: Rc)
      requires Valid()
      modifies section`options, section`lastOption, section`Opts, section`Names
      modifies section.Members()`prev, section.Members()`next, section.Members()`value
      modifies this`core, Plugins()`debug
      ensures Valid() && Mirrored()
      ensures var text := if value.Some? then value.value else "";
        && rc == (if name.None? then Error else old(CreateRc(name.value, text)))
        && forall n :: Level(n) == if name.None? then old(Level(n)) else old(LevelAfter(name.value, text, n))
    {
      rc := Error;
      if name.Some? {
        rc := Store(name.value, if value.Some? then value.value else "");
      }
      SetAll();
    }

    /** "/debug set name level": the level of that name and of no other is the one asked for, and it reaches
        the core or the plugin of that name. */
    method CommandSet(name: string, text: string)
      requires Valid() && Mirrored()
      modifies section`options, section`lastOption, section`Opts, section`Names
      modifies section.Members()`prev, section.Members()`next, section.Members()`value
      modifies this`core, Plugins()`debug
      ensures Valid() && Mirrored()
      ensures forall n :: Level(n) == old(LevelAfter(name, if text == "0" then "" else text, n))
      ensures forall m, n :: old(Asks(name, text, m)) ==> Level(n) == if EqFold(name, n) then m else old(Level(n))
      ensures forall m :: old(Asks(name, text, m)) ==> Reached(name, m)
    {
      SetAsked(name, text);
      forall m | old(Asks(name, text, m))
        ensures Reached(name, m)
      {
        MirrorReached(name, m);
      }
    }

    method SetAsked(name: string, text: string)
      requires Valid() && Mirrored()
      modifies section`options, section`lastOption, section`Opts, section`Names
      modifies section.Members()`prev, section.Members()`next, section.Members()`value
      modifies this`core, Plugins()`debug
      ensures Valid() && Mirrored()
      ensures forall n :: Level(n) == old(LevelAfter(name, if text == "0" then "" else text, n))
      ensures forall m, n :: old(Asks(name, text, m)) ==> Level(n) == if EqFold(name, n) then m else old(Level(n))
    {
      AskedLevels(name, text);
      SetLevels(name, text);
    }

    lemma MirrorReached(name: string, m: int)
      requires Valid() && Mirrored() && forall n :: EqFold(name, n) ==> Level(n) == m
      ensures Reached(name, m)
    {
      assert PLUGIN_CORE == "core";
    }

    /** The core or the plugins of that name have the level. */
    ghost predicate Reached(name: string, m: int)
      reads this, Plugins()
    {
      && (EqFold(name, "core") ==> core == m)
      && (forall p :: p in plugins && EqFold(name, p.name) ==> p.debug == m)
    }

    lemma AskedLevels(name: string, text: string)
      requires Valid()
      ensures forall m, n :: Asks(name, text, m) ==>
        && LevelAfter(name, text, n) == (if EqFold(name, n) then m else Level(n))
        && (text == "0" ==> m == 0)
    {
      GivenLevels(name, text);
      forall m | Asks(name, text, m)
        ensures text == "0" ==> m == 0
      {
        ParsePrinted(m);
        ParsePrinted(0);
      }
    }

    method SetLevels(name: string, text: string)
      requires Valid() && Mirrored()
      modifies section`options, section`lastOption, section`Opts, section`Names
      modifies section.Members()`prev, section.Members()`next, section.Members()`value
      modifies this`core, Plugins()`debug
      ensures Valid() && Mirrored()
      ensures forall n :: Level(n) == old(LevelAfter(name, if text == "0" then "" else text, n))
    {
      if text == "0" {
        DisableDebug(name);
      } else {
        var _ := CreateLevels(Some(name), Some(text));
      }
    }

    method DisableDebug(name: string)
      requires Valid() && Mirrored()
      modifies section`options, section`lastOption, section`Opts, section`Names
      modifies section.Members()`prev, section.Members()`next
      modifies this`core, Plugins()`debug
      ensures Valid() && Mirrored()
      ensures forall n :: Level(n) == if EqFold(name, n) then 0 else old(Level(n))
    {
      var found := Remove(name);
      if found {
        SetAll();
      } else {
        forall p | p in plugins
          ensures p.debug == Level(p.name)
        {
          assert old(p.debug == Level(p.name));
        }
      }
    }
  }
}
