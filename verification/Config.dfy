/** Files, sections and options as objects: the options of a section form a doubly linked list kept
    sorted by name and edited in place. */
module Config {
  import opened Text
  import opened OptionValue

  // ---------------------------------------------------------------- options

  class ConfigOption {
    const section: ConfigSection
    const def: Definition
    var name: string
    var parentName: Option<string>
    var value: Option<Value>
    var loaded: bool
    var prev: ConfigOption?
    var next: ConfigOption?

    constructor (section: ConfigSection, name: string, parentName: Option<string>,
                 def: Definition, value: Option<Value>)
      ensures this.section == section && this.def == def
      ensures this.name == name && this.parentName == parentName
      ensures this.value == value && loaded && prev == null && next == null
    {
      this.section := section;
      this.def := def;
      this.name := name;
      this.parentName := parentName;
      this.value := value;
      loaded := true;
      prev := null;
      next := null;
    }

    /** config_file_option_set, branch by branch. */
    method Set(text: Option<string>) returns (rc: Rc)
      requires TypedOrNull(def.kind, value)
      modifies this`value
      ensures (value, rc) == SetResult(def, old(value), text)
      ensures rc == Changed <==> value != old(value)
    {
      if !def.check(text) {
        return Error;
      }
      if text.None? {
        if def.nullAllowed && value.Some? {
          value := None;
          return Changed;
        }
        return SameValue;
      }
      match def.kind
      case Boolean =>
        rc := SetBoolean(text.value);
      case Integer(min, max) =>
        rc := SetInteger(min, max, text.value);
      case Enum(words) =>
        rc := SetWord(words, text.value);
      case Str =>
        rc := if value.None? || value.value.s != text.value then Changed else SameValue;
        value := Some(String(text.value));
    }

    method SetBoolean(text: string) returns (rc: Rc)
      requires def.kind == Boolean && TypedOrNull(def.kind, value)
      modifies this`value
      ensures var v := BooleanTarget(old(value), text);
        (value, rc) == if v.None? then (old(value), Error) else Assign(old(value), v)
    {
      rc := Error;
      if value.None? {
        if EqFold(text, "toggle") {
          value := Some(Number(1));
          rc := Changed;
        } else if IsTrueText(text) || IsFalseText(text) {
          value := Some(Number(if IsTrueText(text) then 1 else 0));
          rc := Changed;
        }
      } else if EqFold(text, "toggle") {
        value := Some(Number(if value.value.n == 1 then 0 else 1));
        rc := Changed;
      } else if IsTrueText(text) || IsFalseText(text) {
        var n := if IsTrueText(text) then 1 else 0;
        if n == value.value.n {
          rc := SameValue;
        } else {
          value := Some(Number(n));
          rc := Changed;
        }
      }
    }

    /** The common end of the integer branches: the value is a fresh cell when it was null. */
    method StoreNumber(accepted: bool, n: int) returns (rc: Rc)
      requires value.Some? ==> value.value.Number?
      modifies this`value
      ensures (value, rc) == if accepted then Assign(old(value), Some(Number(n))) else (old(value), Error)
    {
      var wasNull := value.None?;
      var oldValue := if wasNull then 0 else value.value.n;
      if wasNull {
        value := Some(Number(0));
      }
      rc := Error;
      if accepted {
        if wasNull || n != oldValue {
          value := Some(Number(n));
          rc := Changed;
        } else {
          rc := SameValue;
        }
      } else if wasNull {
        value := None;
      }
    }

    method SetInteger(min: int, max: int, text: string) returns (rc: Rc)
      requires def.kind == Integer(min, max) && TypedOrNull(def.kind, value)
      modifies this`value
      ensures var v := IntegerTarget(min, max, Base(old(value)), text);
        (value, rc) == if v.None? then (old(value), Error) else Assign(old(value), v)
    {
      var oldValue := if value.None? then 0 else value.value.n;
      var ok, n := false, 0;
      if IsIncrement(text) {
        var number := ParseLong(text[2..]);
        if number.Some? {
          n := ToInt(oldValue + number.value);
          ok := n <= max;
        }
      } else if IsDecrement(text) {
        var number := ParseLong(text[2..]);
        if number.Some? {
          n := ToInt(oldValue - number.value);
          ok := n >= min;
        }
      } else {
        var number := ParseLong(text);
        if number.Some? {
          n := ToInt(number.value);
          ok := n >= min && n <= max;
        }
      }
      rc := StoreNumber(ok, n);
    }

    method SetWord(words: seq<string>, text: string) returns (rc: Rc)
      requires def.kind == Enum(words) && TypedOrNull(def.kind, value)
      modifies this`value
      ensures var v := EnumTarget(words, Base(old(value)), text);
        (value, rc) == if v.None? then (old(value), Error) else Assign(old(value), v)
    {
      var oldValue := if value.None? then 0 else value.value.n;
      var count := WordCount(words);
      var n := -1;
      if IsIncrement(text) {
        var number := ParseLong(text[2..]);
        if number.Some? {
          n := Rem(oldValue + Rem(number.value, count), count);
        }
      } else if IsDecrement(text) {
        var number := ParseLong(text[2..]);
        if number.Some? {
          n := Rem(oldValue + count - Rem(number.value, count), count);
        }
      } else {
        n := FindWord(words, text);
      }
      rc := StoreNumber(n >= 0, n);
    }

    method SetToNull() returns (rc: Rc)
      modifies this`value
      ensures (value, rc) == SetNullResult(def, old(value))
      ensures rc == Changed <==> value != old(value)
    {
      rc := Error;
      if def.nullAllowed {
        if value.None? {
          rc := SameValue;
        } else {
          value := None;
          rc := Changed;
        }
      }
    }

    method Reset() returns (rc: Rc)
      requires TypedOrNull(def.kind, value) && TypedOrNull(def.kind, def.default)
      modifies this`value
      ensures (value, rc) == ResetResult(def, old(value))
      ensures rc == Changed <==> value != old(value)
    {
      rc := Error;
      if def.default.Some? {
        var wasNull := value.None?;
        match def.kind
        case Str =>
          rc := if value.None? || value.value.s != def.default.value.s then Changed else SameValue;
          value := def.default;
        case _ =>
          if value.None? {
            value := Some(Number(0));
          }
          if value.value.n == def.default.value.n {
            rc := SameValue;
          } else {
            value := def.default;
            rc := Changed;
          }
        if wasNull {
          rc := Changed;
        }
      } else if def.nullAllowed {
        if value.Some? {
          value := None;
          rc := Changed;
        } else {
          rc := SameValue;
        }
      }
    }
  }

  /** The loop over string_values. */
  method FindWord(words: seq<string>, text: string) returns (r: int)
    ensures r == WordIndex(words, text)
  {
    var i := 0;
    while i < |words|
      invariant 0 <= i <= |words|
      invariant forall j :: 0 <= j < i ==> !EqFold(words[j], text)
    {
      if EqFold(words[i], text) {
        return i;
      }
      i := i + 1;
    }
    return -1;
  }

  // ---------------------------------------------------------------- sections

  /** The first " << " in the name given for a new option: the name of the parent option follows. */
  function ParentMark(s: string, from: nat): (k: nat)
    requires from <= |s|
    ensures from <= k <= |s|
    ensures k < |s| ==> k + 4 <= |s|
    decreases |s| - from
  {
    if from + 4 > |s| then |s|
    else if s[from..from + 4] == " << " then from
    else ParentMark(s, from + 1)
  }

  function SplitParent(s: string): (string, Option<string>) {
    var k := ParentMark(s, 0);
    if k == |s| then (s, None) else (s[..k], Some(s[k + 4..]))
  }

  predicate MarkAt(s: string, i: nat) {
    i + 4 <= |s| && s[i..i + 4] == " << "
  }

  /** No " << " starts before index n. */
  predicate NoMark(s: string, n: nat) {
    forall i :: 0 <= i < n ==> !MarkAt(s, i)
  }

  lemma {:induction false} MarkExact(s: string, from: nat, k: nat)
    requires from <= k <= |s| && (k == |s| || MarkAt(s, k)) && forall i :: from <= i < k ==> !MarkAt(s, i)
    ensures ParentMark(s, from) == k
    decreases k - from
  {
    if from < k && from + 4 <= |s| {
      assert !MarkAt(s, from);
      MarkExact(s, from + 1, k);
    }
  }

  /** A name given without " << " is the name of the option; otherwise what comes before the first one is, and
      what comes after it is the name of the parent. */
  lemma SplitParentExact(name: string, parent: string)
    ensures NoMark(name, |name|) ==> SplitParent(name) == (name, None)
    ensures NoMark(name + " << ", |name|) ==> SplitParent(name + " << " + parent) == (name, Some(parent))
  {
    if NoMark(name, |name|) {
      MarkExact(name, 0, |name|);
    }
    if NoMark(name + " << ", |name|) {
      var s := name + " << " + parent;
      forall i | 0 <= i < |name| ensures !MarkAt(s, i) {
        assert !MarkAt(name + " << ", i);
        assert s[i..i + 4] == (name + " << ")[i..i + 4];
      }
      assert s[..|name|] == name && s[|name| + 4..] == parent && MarkAt(s, |name|);
      MarkExact(s, 0, |name|);
    }
  }

  /** Where a sorted list takes a name: before the first greater one. */
  function SortedPosition(names: seq<string>, name: string): (k: nat)
    ensures k <= |names|
    ensures forall i :: 0 <= i < k ==> StrCaseCmp(name, names[i]) >= 0
    ensures k < |names| ==> StrCaseCmp(name, names[k]) < 0
  {
    SortedPositionFrom(names, name, 0)
  }

  function SortedPositionFrom(names: seq<string>, name: string, from: nat): (k: nat)
    requires from <= |names|
    ensures from <= k <= |names|
    ensures forall i :: from <= i < k ==> StrCaseCmp(name, names[i]) >= 0
    ensures k < |names| ==> StrCaseCmp(name, names[k]) < 0
    decreases |names| - from
  {
    if from == |names| || StrCaseCmp(name, names[from]) < 0 then from
    else SortedPositionFrom(names, name, from + 1)
  }

  ghost function Objects(s: seq<ConfigOption>): set<ConfigOption> {
    set o | o in s
  }

  /** A doubly linked list from head to last with exactly the options of s: acyclic, with links
      that mirror each other and correct ends. */
  ghost predicate Chain(s: seq<ConfigOption>, head: ConfigOption?, last: ConfigOption?)
    reads Objects(s)`prev, Objects(s)`next
  {
    && (forall i, j :: 0 <= i < j < |s| ==> s[i] != s[j])
    && head == (if s == [] then null else s[0])
    && last == (if s == [] then null else s[|s| - 1])
    && (forall i {:trigger s[i].prev} :: 0 <= i < |s| ==> s[i].prev == (if i == 0 then null else s[i - 1]))
    && (forall i {:trigger s[i].next} :: 0 <= i < |s| ==> s[i].next == (if i == |s| - 1 then null else s[i + 1]))
  }

  ghost predicate Named(s: seq<ConfigOption>, names: seq<string>)
    reads Objects(s)`name
  {
    && |names| == |s|
    && forall i :: 0 <= i < |s| ==> s[i].name == names[i]
  }

  /** Strictly increasing by name, case ignored. */
  ghost predicate SortedNames(names: seq<string>) {
    forall i, j {:trigger InOrder(names, i, j)} :: 0 <= i < j < |names| ==> InOrder(names, i, j)
  }

  predicate InOrder(names: seq<string>, i: nat, j: nat)
    requires i < |names| && j < |names|
  {
    StrCaseCmp(names[i], names[j]) < 0
  }

  ghost predicate NameFree(names: seq<string>, name: string) {
    forall i {:trigger EqFold(names[i], name)} :: 0 <= i < |names| ==> !EqFold(names[i], name)
  }

  function InsertName(names: seq<string>, k: nat, name: string): (r: seq<string>)
    requires k <= |names|
    ensures |r| == |names| + 1
  {
    names[..k] + [name] + names[k..]
  }

  /** A name not yet in a sorted list is inserted at its place. */
  lemma SortedInsert(names: seq<string>, name: string)
    requires SortedNames(names) && NameFree(names, name)
    ensures SortedNames(InsertName(names, SortedPosition(names, name), name))
  {
    var k := SortedPosition(names, name);
    var after := InsertName(names, k, name);
    forall i, j | 0 <= i < j < |after|
      ensures InOrder(after, i, j)
    {
      assert after[i] == if i < k then names[i] else if i == k then name else names[i - 1];
      assert after[j] == if j < k then names[j] else if j == k then name else names[j - 1];
      if j == k {
        assert !EqFold(names[i], name);
        StrCaseCmpSwap(name, names[i]);
      } else if i == k {
        assert j - 1 > k ==> InOrder(names, k, j - 1);
        if j - 1 > k {
          StrCaseCmpTransitive(name, names[k], names[j - 1]);
        }
      } else {
        assert InOrder(names, if i < k then i else i - 1, if j < k then j else j - 1);
      }
    }
  }

  function RemoveIndex<T>(s: seq<T>, k: nat): (r: seq<T>)
    requires k < |s|
    ensures |r| == |s| - 1
  {
    s[..k] + s[k + 1..]
  }

  lemma RemoveIndexAt<T>(s: seq<T>, k: nat)
    requires k < |s|
    ensures forall i {:trigger RemoveIndex(s, k)[i]} :: 0 <= i < |s| - 1 ==>
              RemoveIndex(s, k)[i] == s[if i < k then i else i + 1]
  {
  }

  lemma SortedRemove(names: seq<string>, k: nat)
    requires SortedNames(names) && k < |names|
    ensures SortedNames(RemoveIndex(names, k))
  {
    RemoveIndexAt(names, k);
    var after := RemoveIndex(names, k);
    forall i, j | 0 <= i < j < |after|
      ensures InOrder(after, i, j)
    {
      assert InOrder(names, if i < k then i else i + 1, if j < k then j else j + 1);
    }
  }

  lemma NamedRemove(s: seq<ConfigOption>, names: seq<string>, k: nat, t: seq<ConfigOption>)
    requires Named(s, names) && k < |s| && t == RemoveIndex(s, k)
    ensures Named(t, RemoveIndex(names, k))
    ensures forall o :: o in t ==> o in s
  {
    RemoveIndexAt(s, k);
    RemoveIndexAt(names, k);
  }

  function InsertOption(s: seq<ConfigOption>, k: nat, option: ConfigOption): seq<ConfigOption>
    requires k <= |s|
  {
    s[..k] + [option] + s[k..]
  }

  lemma NamedInsert(s: seq<ConfigOption>, names: seq<string>, k: nat, option: ConfigOption, t: seq<ConfigOption>)
    requires Named(s, names) && k <= |s| && t == InsertOption(s, k, option)
    ensures Named(t, InsertName(names, k, option.name))
    ensures forall o :: o in t <==> o == option || o in s
  {
    assert s == s[..k] + s[k..];
    forall i | 0 <= i < |t|
      ensures t[i].name == InsertName(names, k, option.name)[i]
    {
      if i != k {
        assert t[i] == s[if i < k then i else i - 1];
      }
    }
  }

  class ConfigSection {
    const file: ConfigFile
    const name: string
    const readCallback: bool   // callback_read is set
    const writeCallback: bool  // callback_write is set
    const userCanDelete: bool
    var options: ConfigOption?
    var lastOption: ConfigOption?
    ghost var Opts: seq<ConfigOption>
    ghost var Names: seq<string>

    constructor (file: ConfigFile, name: string, readCallback: bool, writeCallback: bool, userCanDelete: bool)
      ensures Valid() && Opts == []
      ensures this.file == file && this.name == name
      ensures this.readCallback == readCallback && this.writeCallback == writeCallback
      ensures this.userCanDelete == userCanDelete
    {
      this.file := file;
      this.name := name;
      this.readCallback := readCallback;
      this.writeCallback := writeCallback;
      this.userCanDelete := userCanDelete;
      options := null;
      lastOption := null;
      Opts := [];
      Names := [];
    }

    ghost function Members(): set<ConfigOption>
      reads this`Opts
    {
      Objects(Opts)
    }

    ghost predicate Linked()
      reads this`Opts, this`options, this`lastOption, Members()`prev, Members()`next
    {
      Chain(Opts, options, lastOption)
    }

    ghost predicate Valid()
      reads this, Members()`name, Members()`prev, Members()`next
    {
      && Linked()
      && Named(Opts, Names) && SortedNames(Names)
      && forall o :: o in Opts ==> o.section == this
    }

    method Search(name: string) returns (found: ConfigOption?)
      requires Valid()
      ensures Valid()
      ensures var k := WordIndex(Names, name);
        found == if k < 0 then null else Opts[k]
    {
      found := options;
      ghost var k := 0;
      while found != null
        invariant 0 <= k <= |Opts|
        invariant found == if k < |Opts| then Opts[k] else null
        invariant forall j :: 0 <= j < k ==> !EqFold(Names[j], name)
        decreases |Opts| - k
      {
        if EqFold(found.name, name) {
          return;
        }
        assert Opts[k].next == (if k == |Opts| - 1 then null else Opts[k + 1]);
        found := found.next;
        k := k + 1;
      }
    }

    method FindPos(name: string) returns (pos: ConfigOption?)
      requires Valid()
      ensures Valid()
      ensures var k := SortedPosition(Names, name);
        pos == if k < |Opts| then Opts[k] else null
    {
      pos := options;
      ghost var k := 0;
      while pos != null
        invariant 0 <= k <= |Opts|
        invariant pos == if k < |Opts| then Opts[k] else null
        invariant SortedPositionFrom(Names, name, k) == SortedPosition(Names, name)
        decreases |Opts| - k
      {
        if StrCaseCmp(name, pos.name) < 0 {
          return;
        }
        assert Opts[k].next == (if k == |Opts| - 1 then null else Opts[k + 1]);
        pos := pos.next;
        k := k + 1;
      }
    }

    method InsertInSection(option: ConfigOption)
      requires Valid() && option !in Opts && option.section == this
      requires NameFree(Names, option.name)
      modifies this`options, this`lastOption, this`Opts, this`Names
      modifies Members()`prev, Members()`next, option`prev, option`next
      ensures Valid()
      ensures var k := SortedPosition(old(Names), option.name);
        && Opts == InsertOption(old(Opts), k, option)
        && Names == InsertName(old(Names), k, option.name)
    {
      var pos := FindPos(option.name);
      ghost var k := SortedPosition(Names, option.name);
      SortedInsert(Names, option.name);
      InsertBefore(option, pos, k);
    }

    method InsertBefore(option: ConfigOption, pos: ConfigOption?, ghost k: nat)
      requires Linked() && Named(Opts, Names) && (forall o :: o in Opts ==> o.section == this)
      requires option !in Opts && option.section == this
      requires k <= |Opts| && pos == if k < |Opts| then Opts[k] else null
      modifies this`options, this`lastOption, this`Opts, this`Names
      modifies Members()`prev, Members()`next, option`prev, option`next
      ensures Linked() && Named(Opts, Names) && (forall o :: o in Opts ==> o.section == this)
      ensures Opts == InsertOption(old(Opts), k, option)
      ensures Names == InsertName(old(Names), k, option.name)
    {
      ghost var after := InsertOption(Opts, k, option);
      NamedInsert(Opts, Names, k, option, after);
      Names := InsertName(Names, k, option.name);
      assert forall o :: o in after ==> o.section == this;
      Link(option, pos, k, after);
    }

    method Link(option: ConfigOption, pos: ConfigOption?, ghost k: nat, ghost after: seq<ConfigOption>)
      requires Linked() && option !in Opts && k <= |Opts|
      requires pos == if k < |Opts| then Opts[k] else null
      requires after == InsertOption(Opts, k, option)
      modifies this`options, this`lastOption, this`Opts, Members()`prev, Members()`next, option`prev, option`next
      ensures Linked() && Opts == after
    {
      if pos != null {
        LinkBefore(option, pos, k);
      } else {
        LinkLast(option);
      }
    }

    /** Inserts the option into the list, before the option found. */
    method LinkBefore(option: ConfigOption, pos: ConfigOption, ghost k: nat)
      requires Linked() && option !in Opts && k < |Opts| && pos == Opts[k]
      modifies this`options, this`Opts, Members()`prev, Members()`next, option`prev, option`next
      ensures Linked() && Opts == old(Opts)[..k] + [option] + old(Opts)[k..]
    {
      ghost var before := Opts;
      assert Chain(before, options, lastOption);
      option.prev := pos.prev;
      option.next := pos;
      if pos.prev != null {
        pos.prev.next := option;
      } else {
        options := option;
      }
      pos.prev := option;
      Opts := before[..k] + [option] + before[k..];
      forall i | 0 <= i < |Opts|
        ensures Opts[i].prev == (if i == 0 then null else Opts[i - 1])
        ensures Opts[i].next == (if i == |Opts| - 1 then null else Opts[i + 1])
      {
        var j := if i < k then i else i - 1;
        if i != k {
          assert Opts[i] == before[j];
          assert old(before[j].prev) == (if j == 0 then null else before[j - 1]);
          assert old(before[j].next) == (if j == |before| - 1 then null else before[j + 1]);
        }
      }
    }

    /** config_file_new_option, in this section. */
    method NewOption(fullName: string, kind: Kind, nullAllowed: bool, default: Option<string>,
                     text: Option<string>, check: Option<string> -> bool)
      returns (option: ConfigOption?)
      requires Valid()
      modifies this`options, this`lastOption, this`Opts, this`Names, Members()`prev, Members()`next
      ensures Valid()
      ensures var (name, parent) := SplitParent(fullName);
        var values := NewValues(kind, nullAllowed, default, text);
        if WordIndex(old(Names), name) >= 0 || values.None? then
          option == null && Opts == old(Opts) && Names == old(Names)
        else
          && option != null && fresh(option)
          && option.name == name && option.parentName == parent
          && option.def == Definition(kind, values.value.0, nullAllowed, check)
          && option.value == values.value.1 && option.loaded
          && Starts(kind, nullAllowed, default, text, option.def.default, option.value)
          && Opts == InsertOption(old(Opts), SortedPosition(old(Names), name), option)
          && Names == InsertName(old(Names), SortedPosition(old(Names), name), name)
    {
      var (name, parent) := SplitParent(fullName);
      var same := Search(name);
      if same != null {
        return null;
      }
      var values := NewValues(kind, nullAllowed, default, text);
      NewValuesExact(kind, nullAllowed, default, text);
      if values.None? {
        return null;
      }
      option := new ConfigOption(this, name, parent,
                                 Definition(kind, values.value.0, nullAllowed, check), values.value.1);
      InsertInSection(option);
    }

    /** The list part of config_file_option_rename: out of the list, renamed, inserted again. */
    method RenameInSection(option: ConfigOption, newName: string, ghost k: nat)
      requires Valid() && k < |Opts| && option == Opts[k]
      requires NameFree(Names, newName)
      modifies this`options, this`lastOption, this`Opts, this`Names
      modifies Members()`prev, Members()`next, option`name
      ensures Valid() && option.name == newName
      ensures var rest := RemoveIndex(old(Names), k);
        && Opts == InsertOption(RemoveIndex(old(Opts), k), SortedPosition(rest, newName), option)
        && Names == InsertName(rest, SortedPosition(rest, newName), newName)
    {
      TakeOut(option, k);
      option.name := newName;
      InsertInSection(option);
    }

    method TakeOut(option: ConfigOption, ghost k: nat)
      requires Valid() && k < |Opts| && option == Opts[k]
      modifies this`options, this`lastOption, this`Opts, this`Names, Members()`prev, Members()`next
      ensures Valid() && option !in Opts
      ensures Opts == RemoveIndex(old(Opts), k) && Names == RemoveIndex(old(Names), k)
    {
      ghost var after := RemoveIndex(Opts, k);
      NamedRemove(Opts, Names, k, after);
      SortedRemove(Names, k);
      RemoveIndexAt(Opts, k);
      assert forall o :: o in after ==> o.section == this && o != option;
      Names := RemoveIndex(Names, k);
      Unlink(option, k);
    }

    // -------------------------------------------------------------- removal

    /** The removal in config_file_option_rename. */
    method Unlink(option: ConfigOption, ghost k: nat)
      requires Linked() && k < |Opts| && option == Opts[k]
      modifies this`options, this`lastOption, this`Opts, Members()`prev, Members()`next
      ensures Linked() && Opts == RemoveIndex(old(Opts), k)
      ensures option.prev == old(option.prev) && option.next == old(option.next)
    {
      ghost var before := Opts;
      assert Chain(before, options, lastOption);
      if option.prev != null {
        option.prev.next := option.next;
      }
      if option.next != null {
        option.next.prev := option.prev;
      }
      if options == option {
        options := option.next;
      }
      if lastOption == option {
        lastOption := option.prev;
      }
      Opts := RemoveIndex(before, k);
      RemoveIndexAt(before, k);
      ChainAfterRemove(before, k);
    }

    lemma ChainAfterRemove(before: seq<ConfigOption>, k: nat)
      requires k < |before| && Opts == RemoveIndex(before, k)
      requires forall i, j :: 0 <= i < j < |before| ==> before[i] != before[j]
      requires options == if k > 0 then before[0] else if |before| > 1 then before[1] else null
      requires lastOption == if k < |before| - 1 then before[|before| - 1] else if k > 0 then before[k - 1] else null
      requires forall i {:trigger before[i].prev} :: 0 <= i < |before| && i != k ==>
                 before[i].prev == if i == k + 1 then (if k == 0 then null else before[k - 1])
                                   else if i == 0 then null else before[i - 1]
      requires forall i {:trigger before[i].next} :: 0 <= i < |before| && i != k ==>
                 before[i].next == if i == k - 1 then (if k == |before| - 1 then null else before[k + 1])
                                   else if i == |before| - 1 then null else before[i + 1]
      ensures Linked()
    {
      RemoveIndexAt(before, k);
      forall i | 0 <= i < |Opts|
        ensures Opts[i].prev == (if i == 0 then null else Opts[i - 1])
        ensures Opts[i].next == (if i == |Opts| - 1 then null else Opts[i + 1])
      {
        var j := if i < k then i else i + 1;
        assert Opts[i] == before[j];
        assert before[j].prev == before[j].prev && before[j].next == before[j].next;
      }
    }

    /** The removal in config_file_option_free. */
    method UnlinkFreed(option: ConfigOption, ghost k: nat)
      requires Linked() && k < |Opts| && option == Opts[k]
      modifies this`options, this`lastOption, this`Opts, Members()`prev, Members()`next
      ensures Linked() && Opts == RemoveIndex(old(Opts), k)
    {
      ghost var before := Opts;
      assert Chain(before, options, lastOption);
      if lastOption == option {
        lastOption := option.prev;
      }
      var newOptions := option.next;
      if option.prev != null {
        option.prev.next := option.next;
        newOptions := options;
      }
      if option.next != null {
        option.next.prev := option.prev;
      }
      options := newOptions;
      Opts := RemoveIndex(before, k);
      RemoveIndexAt(before, k);
      ChainAfterRemove(before, k);
    }

    /** config_file_option_free: the option leaves its section. */
    method FreeOption(option: ConfigOption, ghost k: nat)
      requires Valid() && k < |Opts| && option == Opts[k]
      modifies this`options, this`lastOption, this`Opts, this`Names, Members()`prev, Members()`next
      ensures Valid()
      ensures Opts == RemoveIndex(old(Opts), k) && Names == RemoveIndex(old(Names), k)
    {
      ghost var after := RemoveIndex(Opts, k);
      NamedRemove(Opts, Names, k, after);
      SortedRemove(Names, k);
      assert forall o :: o in after ==> o.section == this;
      Names := RemoveIndex(Names, k);
      UnlinkFreed(option, k);
    }

    /** Adds the option at the end of the section, which may be empty. */
    method LinkLast(option: ConfigOption)
      requires Linked() && option !in Opts
      modifies this`options, this`lastOption, this`Opts, Members()`next, option`prev, option`next
      ensures Linked() && Opts == old(Opts) + [option]
    {
      ghost var before := Opts;
      assert Chain(before, options, lastOption);
      if options != null {
        option.prev := lastOption;
        option.next := null;
        lastOption.next := option;
        lastOption := option;
      } else {
        option.prev := null;
        option.next := null;
        options := option;
        lastOption := option;
      }
      Opts := before + [option];
      forall i | 0 <= i < |Opts|
        ensures Opts[i].prev == (if i == 0 then null else Opts[i - 1])
        ensures Opts[i].next == (if i == |Opts| - 1 then null else Opts[i + 1])
      {
        if i < |before| {
          assert Opts[i] == before[i];
          assert old(before[i].prev) == (if i == 0 then null else before[i - 1]);
          assert old(before[i].next) == (if i == |before| - 1 then null else before[i + 1]);
        }
      }
    }
  }

  // ---------------------------------------------------------------- files

  ghost predicate DistinctNames(names: seq<string>) {
    forall i, j {:trigger EqFold(names[i], names[j])} :: 0 <= i < j < |names| ==> !EqFold(names[i], names[j])
  }

  function SectionNamesOf(sections: seq<ConfigSection>): (r: seq<string>)
    ensures |r| == |sections|
    ensures forall i :: 0 <= i < |r| ==> r[i] == sections[i].name
  {
    seq(|sections|, i requires 0 <= i < |sections| => sections[i].name)
  }

  function FileNamesOf(files: seq<ConfigFile>): (r: seq<string>)
    ensures |r| == |files|
    ensures forall i :: 0 <= i < |r| ==> r[i] == files[i].name
  {
    seq(|files|, i requires 0 <= i < |files| => files[i].name)
  }

  class ConfigFile {
    const name: string
    var sections: seq<ConfigSection>

    constructor (name: string)
      ensures Valid() && this.name == name && sections == []
    {
      this.name := name;
      sections := [];
    }

    ghost function Sections(): set<ConfigSection>
      reads this
    {
      set s | s in sections
    }

    ghost function Options(): set<ConfigOption>
      reads this, Sections()`Opts
    {
      set s, o | s in sections && o in s.Opts :: o
    }

    /** The part that does not depend on the options. */
    ghost predicate Structure()
      reads this
    {
      && DistinctNames(SectionNamesOf(sections))
      && forall s :: s in sections ==> s.file == this
    }

    ghost predicate Valid()
      reads this, Sections(), Options()`name, Options()`prev, Options()`next
    {
      Structure() && forall s :: s in sections ==> s.Valid()
    }

    method SearchSection(name: string) returns (found: ConfigSection?)
      ensures var k := WordIndex(SectionNamesOf(sections), name);
        found == if k < 0 then null else sections[k]
    {
      var i := 0;
      while i < |sections|
        invariant 0 <= i <= |sections|
        invariant WordIndexFrom(SectionNamesOf(sections), name, i) == WordIndex(SectionNamesOf(sections), name)
      {
        if EqFold(sections[i].name, name) {
          return sections[i];
        }
        i := i + 1;
      }
      return null;
    }
  }

  class ConfigStore {
    var files: seq<ConfigFile>
    ghost var All: set<ConfigSection>  // the sections of all files

    constructor ()
      ensures Valid() && files == [] && All == {}
    {
      files := [];
      All := {};
    }

    ghost function Files(): set<ConfigFile>
      reads this
    {
      set f | f in files
    }

    ghost function Options(): set<ConfigOption>
      reads this, All`Opts
    {
      set s, o | s in All && o in s.Opts :: o
    }

    ghost predicate Structure()
      reads this, Files()
    {
      && DistinctNames(FileNamesOf(files))
      && (forall f :: f in files ==> f.Structure())
      && (forall f, s :: f in files && s in f.sections ==> s in All)
      && (forall s :: s in All ==> s.file in files && s in s.file.sections)
    }

    ghost predicate Valid()
      reads this, Files(), All, Options()`name, Options()`prev, Options()`next
    {
      Structure() && forall s :: s in All ==> s.Valid()
    }

    method SearchFile(name: string) returns (found: ConfigFile?)
      ensures var k := WordIndex(FileNamesOf(files), name);
        found == if k < 0 then null else files[k]
    {
      var i := 0;
      while i < |files|
        invariant 0 <= i <= |files|
        invariant WordIndexFrom(FileNamesOf(files), name, i) == WordIndex(FileNamesOf(files), name)
      {
        if EqFold(files[i].name, name) {
          return files[i];
        }
        i := i + 1;
      }
      return null;
    }
  }
}
