/** "/unset -mask": every option is walked, and the matching ones are reset or, in sections whose
    options may be deleted by the user, freed while the list is being walked. */
module ConfigUnset {
  import opened Text
  import opened OptionValue
  import opened Config
  import opened ConfigNames

  type Mask = string -> bool

  function Prefix(section: ConfigSection): string {
    section.file.name + "." + section.name + "."
  }

  /** Which options match, by position. */
  function Hits(prefix: string, names: seq<string>, matches: Mask): (r: seq<bool>)
    ensures |r| == |names|
    ensures forall i {:trigger HitAt(r, prefix, names, matches, i)} :: 0 <= i < |r| ==>
              HitAt(r, prefix, names, matches, i)
  {
    seq(|names|, i requires 0 <= i < |names| => matches(prefix + names[i]))
  }

  predicate HitAt(hits: seq<bool>, prefix: string, names: seq<string>, matches: Mask, i: nat)
    requires i < |hits| == |names|
  {
    hits[i] == matches(prefix + names[i])
  }

  /** The elements before position p that are not hit, in order. */
  function KeptUpTo<T>(s: seq<T>, hits: seq<bool>, p: nat): (r: seq<T>)
    requires p <= |s| == |hits|
  {
    if p == 0 then []
    else KeptUpTo(s, hits, p - 1) + if hits[p - 1] then [] else [s[p - 1]]
  }

  function Kept<T>(s: seq<T>, hits: seq<bool>): seq<T>
    requires |s| == |hits|
  {
    KeptUpTo(s, hits, |s|)
  }

  function CountUpTo(hits: seq<bool>, p: nat): nat
    requires p <= |hits|
  {
    if p == 0 then 0 else CountUpTo(hits, p - 1) + if hits[p - 1] then 1 else 0
  }

  function Count(hits: seq<bool>): nat { CountUpTo(hits, |hits|) }

  lemma {:induction false} KeptLength<T>(s: seq<T>, hits: seq<bool>, p: nat)
    requires p <= |s| == |hits|
    ensures |KeptUpTo(s, hits, p)| + CountUpTo(hits, p) == p
  {
    if p > 0 {
      KeptLength(s, hits, p - 1);
    }
  }

  /** What is kept is exactly what is not hit. */
  lemma {:induction false} KeptMembers<T>(s: seq<T>, hits: seq<bool>, p: nat)
    requires p <= |s| == |hits|
    ensures forall o :: o in KeptUpTo(s, hits, p) <==> exists i :: 0 <= i < p && s[i] == o && !hits[i]
  {
    if p > 0 {
      KeptMembers(s, hits, p - 1);
    }
  }

  /** The list while it is walked: what was kept so far, then the rest. */
  function Walked<T>(s: seq<T>, hits: seq<bool>, p: nat): seq<T>
    requires p <= |s| == |hits|
  {
    KeptUpTo(s, hits, p) + s[p..]
  }

  lemma WalkedEnds<T>(s: seq<T>, hits: seq<bool>)
    requires |s| == |hits|
    ensures Walked(s, hits, 0) == s && Walked(s, hits, |s|) == Kept(s, hits)
  {
  }

  lemma WalkedStep<T>(s: seq<T>, hits: seq<bool>, p: nat)
    requires p < |s| == |hits|
    ensures var k := |KeptUpTo(s, hits, p)|;
      && k < |Walked(s, hits, p)| && Walked(s, hits, p)[k] == s[p]
      && Walked(s, hits, p + 1) == if hits[p] then RemoveIndex(Walked(s, hits, p), k) else Walked(s, hits, p)
  {
    assert s[p..] == [s[p]] + s[p + 1..];
  }

  // ---------------------------------------------------------------- one option

  datatype UnsetRc = UnsetError | NoReset | WasReset | Removed

  /** config_file_option_unset for an option that may not be deleted. */
  method UnsetByReset(option: ConfigOption) returns (rc: UnsetRc)
    requires TypedOrNull(option.def.kind, option.value) && TypedOrNull(option.def.kind, option.def.default)
    modifies option`value
    ensures option.value == ResetResult(option.def, old(option.value)).0
    ensures rc == match ResetResult(option.def, old(option.value)).1
                  case Error => UnsetError
                  case SameValue => NoReset
                  case Changed => WasReset
  {
    var r := option.Reset();
    match r
    case Error => rc := UnsetError;
    case SameValue => rc := NoReset;
    case Changed => rc := WasReset;
  }

  // ---------------------------------------------------------------- one section

  ghost predicate AllTyped(s: seq<ConfigOption>)
    reads Objects(s)`value
  {
    forall o :: o in s ==> TypedOrNull(o.def.kind, o.value) && TypedOrNull(o.def.kind, o.def.default)
  }

  ghost function SectionHits(section: ConfigSection, matches: Mask): seq<bool>
    reads section
  {
    Hits(Prefix(section), section.Names, matches)
  }

  /** The state of the walk before the option at position p. */
  ghost predicate InWalk(section: ConfigSection, s: seq<ConfigOption>, names: seq<string>, hits: seq<bool>, p: nat)
    reads section, section.Members()`name, section.Members()`prev, section.Members()`next
  {
    && section.Valid()
    && |s| == |names| == |hits| && p <= |s|
    && section.Opts == Walked(s, hits, p) && section.Names == Walked(names, hits, p)
    && section.Members() <= Objects(s)
  }

  lemma NextInWalk(section: ConfigSection, s: seq<ConfigOption>, hits: seq<bool>, p: nat)
    requires section.Linked() && p < |s| == |hits| && section.Opts == Walked(s, hits, p)
    ensures s[p].next == if p + 1 < |s| then s[p + 1] else null
  {
    var k := |KeptUpTo(s, hits, p)|;
    assert section.Opts[k] == s[p];
    assert section.Opts[k].next == (if k == |section.Opts| - 1 then null else section.Opts[k + 1]);
    if p + 1 < |s| {
      assert section.Opts[k + 1] == s[p + 1];
    }
  }

  /** One turn of the loop: the next option is taken before the current one may be freed. */
  method DeleteStep(section: ConfigSection, option: ConfigOption, matches: Mask,
                    ghost s: seq<ConfigOption>, ghost names: seq<string>, ghost hits: seq<bool>, ghost p: nat)
    returns (next: ConfigOption?, gone: bool)
    requires InWalk(section, s, names, hits, p) && p < |s| && option == s[p]
    requires HitAt(hits, Prefix(section), names, matches, p)
    modifies section`options, section`lastOption, section`Opts, section`Names
    modifies Objects(s)`prev, Objects(s)`next
    ensures InWalk(section, s, names, hits, p + 1)
    ensures |section.Opts| == |old(section.Opts)| - if gone then 1 else 0
    ensures next == if p + 1 < |s| then s[p + 1] else null
  {
    WalkedStep(s, hits, p);
    WalkedStep(names, hits, p);
    ghost var k := |KeptUpTo(s, hits, p)|;
    KeptLength(s, hits, p);
    KeptLength(names, hits, p);
    NextInWalk(section, s, hits, p);
    next := option.next;
    assert option.name == section.Names[k];
    gone := matches(Prefix(section) + option.name);
    if gone {
      RemoveIndexAt(section.Opts, k);
      section.FreeOption(option, k);
    }
  }

  /** The loop over a section whose options are freed. */
  method DeleteLoop(section: ConfigSection, matches: Mask, ghost s: seq<ConfigOption>, ghost names: seq<string>,
                    ghost hits: seq<bool>)
    returns (removed: nat)
    requires section.Opts == s && InWalk(section, s, names, hits, 0)
    requires forall i {:trigger HitAt(hits, Prefix(section), names, matches, i)} :: 0 <= i < |hits| ==>
               HitAt(hits, Prefix(section), names, matches, i)
    modifies section`options, section`lastOption, section`Opts, section`Names
    modifies Objects(s)`prev, Objects(s)`next
    ensures InWalk(section, s, names, hits, |s|)
    ensures removed + |section.Opts| == |s|
  {
    var option := section.options;
    ghost var p := 0;
    removed := 0;
    while option != null
      invariant InWalk(section, s, names, hits, p)
      invariant option == if p < |s| then s[p] else null
      invariant removed + |section.Opts| == |s|
      decreases |s| - p
    {
      assert HitAt(hits, Prefix(section), names, matches, p);
      var next, gone := DeleteStep(section, option, matches, s, names, hits, p);
      removed := removed + if gone then 1 else 0;
      option := next;
      p := p + 1;
    }
  }

  /** The walk over a section whose options may be deleted: exactly the matching ones are freed. */
  method DeleteMatching(section: ConfigSection, matches: Mask) returns (removed: nat)
    requires section.Valid()
    modifies section`options, section`lastOption, section`Opts, section`Names
    modifies section.Members()`prev, section.Members()`next
    ensures section.Valid()
    ensures section.Opts == Kept(old(section.Opts), old(SectionHits(section, matches)))
    ensures removed == Count(old(SectionHits(section, matches)))
  {
    ghost var s, names := section.Opts, section.Names;
    ghost var hits := SectionHits(section, matches);
    WalkedEnds(s, hits);
    WalkedEnds(names, hits);
    removed := DeleteLoop(section, matches, s, names, hits);
    KeptLength(s, hits, |s|);
  }

  // ---------------------------------------------------------------- sections that are only reset

  /** What a walk leaves in an option that may not be deleted. */
  function AfterUnset(def: Definition, v: Option<Value>, hit: bool): Option<Value> {
    if hit then ResetResult(def, v).0 else v
  }

  function IsReset(def: Definition, v: Option<Value>, hit: bool): bool {
    hit && ResetResult(def, v).1 == Changed
  }

  type Values = map<ConfigOption, Option<Value>>

  ghost predicate Recorded(s: seq<ConfigOption>, values: Values)
    reads Objects(s)`value
  {
    forall o :: o in s ==> o in values && o.value == values[o]
  }

  /** How many of the first p options a walk resets, from these values. */
  ghost function Resets(s: seq<ConfigOption>, hits: seq<bool>, values: Values, p: nat): nat
    requires p <= |s| == |hits| && forall o :: o in s ==> o in values
  {
    if p == 0 then 0
    else
      Resets(s, hits, values, p - 1)
      + if IsReset(s[p - 1].def, values[s[p - 1]], hits[p - 1]) then 1 else 0
  }

  method ResetStep(option: ConfigOption, hit: bool) returns (changed: bool)
    requires TypedOrNull(option.def.kind, option.value) && TypedOrNull(option.def.kind, option.def.default)
    modifies option`value
    ensures option.value == AfterUnset(option.def, old(option.value), hit)
    ensures changed == IsReset(option.def, old(option.value), hit)
  {
    changed := false;
    if hit {
      var rc := UnsetByReset(option);
      changed := rc == WasReset;
    }
  }

  /** The first p options have been walked, the others not. */
  ghost predicate ResetUpTo(s: seq<ConfigOption>, hits: seq<bool>, values: Values, p: nat)
    requires |s| == |hits| && forall o :: o in s ==> o in values
    reads Objects(s)`value
  {
    forall i :: 0 <= i < |s| ==>
      s[i].value == if i < p then AfterUnset(s[i].def, values[s[i]], hits[i]) else values[s[i]]
  }

  ghost predicate InReset(section: ConfigSection, hits: seq<bool>, values: Values, p: nat, reset: nat)
    reads section, section.Members()
  {
    && section.Valid() && AllTyped(section.Opts) && p <= |section.Opts| == |hits|
    && (forall o :: o in section.Opts ==> o in values)
    && ResetUpTo(section.Opts, hits, values, p)
    && reset == Resets(section.Opts, hits, values, p)
  }

  /** One turn of the loop over a section whose options are reset. */
  method ResetTurn(section: ConfigSection, option: ConfigOption, matches: Mask,
                   ghost hits: seq<bool>, ghost values: Values, ghost p: nat, reset: nat)
    returns (next: ConfigOption?, total: nat)
    requires InReset(section, hits, values, p, reset) && p < |section.Opts| && option == section.Opts[p]
    requires HitAt(hits, Prefix(section), section.Names, matches, p)
    modifies option`value
    ensures InReset(section, hits, values, p + 1, total)
    ensures next == if p + 1 < |section.Opts| then section.Opts[p + 1] else null
  {
    assert option.next == (if p == |section.Opts| - 1 then null else section.Opts[p + 1]);
    next := option.next;
    var changed := ResetStep(option, matches(Prefix(section) + option.name));
    total := reset + if changed then 1 else 0;
  }

  /** The walk over a section whose options may not be deleted: the matching ones are reset. */
  method ResetMatching(section: ConfigSection, matches: Mask, ghost values: Values) returns (reset: nat)
    requires section.Valid() && AllTyped(section.Opts) && Recorded(section.Opts, values)
    modifies section.Members()`value
    ensures InReset(section, SectionHits(section, matches), values, |section.Opts|, reset)
    ensures reset == |AlteredIn(section.Members(), values)|
  {
    reset := ResetLoop(section, matches, values);
    ResetDone(section, SectionHits(section, matches), values, reset);
  }

  /** The number returned is that of the options whose value is another one. */
  lemma ResetDone(section: ConfigSection, hits: seq<bool>, values: Values, reset: nat)
    requires InReset(section, hits, values, |section.Opts|, reset)
    ensures reset == |AlteredIn(section.Members(), values)|
  {
    ResetsCount(section.Opts, hits, values, |section.Opts|);
    assert section.Opts[..|section.Opts|] == section.Opts;
  }

  method ResetLoop(section: ConfigSection, matches: Mask, ghost values: Values) returns (reset: nat)
    requires section.Valid() && AllTyped(section.Opts) && Recorded(section.Opts, values)
    modifies section.Members()`value
    ensures InReset(section, SectionHits(section, matches), values, |section.Opts|, reset)
  {
    ghost var hits := SectionHits(section, matches);
    var option := section.options;
    ghost var p := 0;
    reset := 0;
    while option != null
      invariant InReset(section, hits, values, p, reset)
      invariant option == if p < |section.Opts| then section.Opts[p] else null
      decreases |section.Opts| - p
    {
      assert HitAt(hits, Prefix(section), section.Names, matches, p);
      option, reset := ResetTurn(section, option, matches, hits, values, p, reset);
      p := p + 1;
    }
  }

  // ---------------------------------------------------------------- one section, either way

  /** What a section was before the walk. */
  ghost predicate Pending(section: ConfigSection, s: seq<ConfigOption>, names: seq<string>, values: Values)
    reads section`Opts, section`Names, Objects(s)`value
  {
    section.Opts == s && section.Names == names && |s| == |names| && Recorded(s, values)
  }

  /** What a section is after the walk: matching options freed, or reset in place; the others untouched. */
  ghost predicate Unset(section: ConfigSection, s: seq<ConfigOption>, hits: seq<bool>, values: Values)
    requires |s| == |hits| && forall o :: o in s ==> o in values
    reads section`Opts, Objects(s)`value
  {
    if section.userCanDelete then section.Opts == Kept(s, hits) && ResetUpTo(s, hits, values, 0)
    else section.Opts == s && ResetUpTo(s, hits, values, |s|)
  }

  ghost function RemovedIn(section: ConfigSection, hits: seq<bool>): nat {
    if section.userCanDelete then Count(hits) else 0
  }

  ghost function ResetIn(section: ConfigSection, s: seq<ConfigOption>, hits: seq<bool>, values: Values): nat
    requires |s| == |hits| && forall o :: o in s ==> o in values
  {
    if section.userCanDelete then 0 else Resets(s, hits, values, |s|)
  }

  method UnsetInSection(section: ConfigSection, matches: Mask, ghost s: seq<ConfigOption>,
                        ghost names: seq<string>, ghost values: Values)
    returns (reset: nat, removed: nat)
    requires section.Valid() && AllTyped(s) && Pending(section, s, names, values)
    modifies section`options, section`lastOption, section`Opts, section`Names
    modifies Objects(s)`prev, Objects(s)`next, Objects(s)`value
    ensures section.Valid() && section.Members() <= Objects(s)
    ensures Unset(section, s, Hits(Prefix(section), names, matches), values)
    ensures reset == ResetIn(section, s, Hits(Prefix(section), names, matches), values)
    ensures removed == RemovedIn(section, Hits(Prefix(section), names, matches))
  {
    reset, removed := 0, 0;
    ghost var hits := SectionHits(section, matches);
    if section.userCanDelete {
      removed := DeleteMatching(section, matches);
      KeptMembers(s, hits, |s|);
    } else {
      reset := ResetMatching(section, matches, values);
    }
  }

  // ---------------------------------------------------------------- all sections

  /** The options and names of every section before the walk, and all the values. */
  datatype Before = Before(sections: seq<ConfigSection>, opts: seq<seq<ConfigOption>>, names: seq<seq<string>>,
                           values: Values)

  ghost predicate BeforeOk(b: Before) {
    && |b.opts| == |b.names| == |b.sections|
    && (forall i, j :: 0 <= i < j < |b.sections| ==> b.sections[i] != b.sections[j])
    && (forall i :: 0 <= i < |b.sections| ==>
          && |b.opts[i]| == |b.names[i]|
          && forall o :: o in b.opts[i] ==> o in b.values && o.section == b.sections[i])
  }

  ghost function HitsIn(b: Before, i: nat, matches: Mask): (r: seq<bool>)
    requires BeforeOk(b) && i < |b.sections|
    ensures |r| == |b.opts[i]|
  {
    Hits(Prefix(b.sections[i]), b.names[i], matches)
  }

  ghost function AllObjects(b: Before): set<ConfigOption> {
    set s, o | s in b.opts && o in s :: o
  }

  ghost function AllSections(b: Before): set<ConfigSection> {
    set s | s in b.sections
  }

  ghost function TotalReset(b: Before, matches: Mask, n: nat): nat
    requires BeforeOk(b) && n <= |b.sections|
  {
    if n == 0 then 0
    else TotalReset(b, matches, n - 1) + ResetIn(b.sections[n - 1], b.opts[n - 1], HitsIn(b, n - 1, matches), b.values)
  }

  ghost function TotalRemoved(b: Before, matches: Mask, n: nat): nat
    requires BeforeOk(b) && n <= |b.sections|
  {
    if n == 0 then 0
    else TotalRemoved(b, matches, n - 1) + RemovedIn(b.sections[n - 1], HitsIn(b, n - 1, matches))
  }

  ghost predicate Waiting(b: Before, i: nat)
    requires BeforeOk(b) && i < |b.sections|
    reads b.sections[i], Objects(b.opts[i])
  {
    && Pending(b.sections[i], b.opts[i], b.names[i], b.values)
    && b.sections[i].Valid() && Named(b.opts[i], b.names[i]) && AllTyped(b.opts[i])
  }

  ghost predicate Done(b: Before, i: nat, matches: Mask)
    requires BeforeOk(b) && i < |b.sections|
    reads b.sections[i], Objects(b.opts[i])
  {
    && b.sections[i].Members() <= Objects(b.opts[i])
    && b.sections[i].Valid() && Named(b.opts[i], b.names[i])
    && Unset(b.sections[i], b.opts[i], HitsIn(b, i, matches), b.values)
  }

  /** The sections before position n have been walked, the others not. */
  ghost predicate WalkedSections(b: Before, matches: Mask, n: nat)
    requires BeforeOk(b)
    reads AllSections(b), AllObjects(b)
  {
    forall i :: 0 <= i < |b.sections| ==> if i < n then Done(b, i, matches) else Waiting(b, i)
  }

  lemma DisjointSections(b: Before, n: nat)
    requires BeforeOk(b) && n < |b.sections|
    ensures forall i :: 0 <= i < |b.sections| && i != n ==>
              b.sections[i] != b.sections[n] && Objects(b.opts[i]) !! Objects(b.opts[n])
  {
  }

  method UnsetOne(ghost b: Before, section: ConfigSection, matches: Mask, ghost n: nat)
    returns (reset: nat, removed: nat)
    requires BeforeOk(b) && n < |b.sections| && Waiting(b, n) && section == b.sections[n]
    modifies section`options, section`lastOption, section`Opts, section`Names
    modifies Objects(b.opts[n])`prev, Objects(b.opts[n])`next, Objects(b.opts[n])`value
    ensures Done(b, n, matches)
    ensures reset == ResetIn(b.sections[n], b.opts[n], HitsIn(b, n, matches), b.values)
    ensures removed == RemovedIn(b.sections[n], HitsIn(b, n, matches))
  {
    reset, removed := UnsetInSection(section, matches, b.opts[n], b.names[n], b.values);
  }

  method UnsetTurn(ghost b: Before, section: ConfigSection, matches: Mask, ghost n: nat)
    returns (reset: nat, removed: nat)
    requires BeforeOk(b) && n < |b.sections| && WalkedSections(b, matches, n) && section == b.sections[n]
    modifies section`options, section`lastOption, section`Opts, section`Names
    modifies Objects(b.opts[n])`prev, Objects(b.opts[n])`next, Objects(b.opts[n])`value
    ensures WalkedSections(b, matches, n + 1)
    ensures reset == ResetIn(b.sections[n], b.opts[n], HitsIn(b, n, matches), b.values)
    ensures removed == RemovedIn(b.sections[n], HitsIn(b, n, matches))
  {
    DisjointSections(b, n);
    reset, removed := UnsetOne(b, section, matches, n);
    forall i | 0 <= i < |b.sections|
      ensures if i < n + 1 then Done(b, i, matches) else Waiting(b, i)
    {
      assert old(if i < n then Done(b, i, matches) else Waiting(b, i));
    }
  }

  ghost predicate InUnset(b: Before, matches: Mask, n: nat, reset: nat, removed: nat)
    reads AllSections(b), AllObjects(b)
  {
    && BeforeOk(b) && n <= |b.sections| && WalkedSections(b, matches, n)
    && reset == TotalReset(b, matches, n) && removed == TotalRemoved(b, matches, n)
  }

  method CountTurn(ghost b: Before, section: ConfigSection, matches: Mask, ghost n: nat, reset: nat, removed: nat)
    returns (reset': nat, removed': nat)
    requires InUnset(b, matches, n, reset, removed) && n < |b.sections| && section == b.sections[n]
    modifies section`options, section`lastOption, section`Opts, section`Names
    modifies Objects(b.opts[n])`prev, Objects(b.opts[n])`next, Objects(b.opts[n])`value
    ensures InUnset(b, matches, n + 1, reset', removed')
  {
    var r, d := UnsetTurn(b, section, matches, n);
    reset', removed' := reset + r, removed + d;
  }

  /** The loops over files and sections, on the sections in the order of the walk. */
  method UnsetAll(ghost b: Before, sections: seq<ConfigSection>, matches: Mask) returns (reset: nat, removed: nat)
    requires BeforeOk(b) && sections == b.sections && WalkedSections(b, matches, 0)
    modifies AllSections(b)`options, AllSections(b)`lastOption, AllSections(b)`Opts, AllSections(b)`Names
    modifies AllObjects(b)`prev, AllObjects(b)`next, AllObjects(b)`value
    ensures InUnset(b, matches, |sections|, reset, removed)
  {
    reset, removed := 0, 0;
    var i := 0;
    while i < |sections|
      invariant 0 <= i <= |sections| && InUnset(b, matches, i, reset, removed)
    {
      reset, removed := CountTurn(b, sections[i], matches, i, reset, removed);
      i := i + 1;
    }
  }

  // ---------------------------------------------------------------- the command

  /** After the walk: no match is left where options may be deleted, every other match has been reset to
      its default, and options that do not match are where they were with the value they had. */
  lemma UnsetOutcome(b: Before, matches: Mask, i: nat)
    requires BeforeOk(b) && i < |b.sections| && Done(b, i, matches)
    ensures var section := b.sections[i];
      if section.userCanDelete then
        && (forall o :: o in section.Opts <==> o in b.opts[i] && !matches(FullName(o)))
        && (forall o :: o in section.Opts ==> o.value == b.values[o])
      else
        && section.Opts == b.opts[i]
        && (forall o :: o in section.Opts && matches(FullName(o)) ==>
              && o.value == ResetResult(o.def, b.values[o]).0
              && (o.def.default.Some? || o.def.nullAllowed ==> o.value == o.def.default))
        && (forall o :: o in section.Opts && !matches(FullName(o)) ==> o.value == b.values[o])
  {
    var section, s, names := b.sections[i], b.opts[i], b.names[i];
    var hits := HitsIn(b, i, matches);
    forall k | 0 <= k < |s|
      ensures hits[k] == matches(FullName(s[k]))
    {
      assert HitAt(hits, Prefix(section), names, matches, k);
      assert s[k].name == names[k] && s[k].section == section;
    }
    KeptMembers(s, hits, |s|);
  }

  /** The three nested loops visit the sections file by file. */
  method CollectSections(store: ConfigStore) returns (sections: seq<ConfigSection>)
    requires store.Valid()
    ensures forall s :: s in sections <==> s in store.All
    ensures forall i, j :: 0 <= i < j < |sections| ==> sections[i] != sections[j]
  {
    sections := [];
    var i := 0;
    while i < |store.files|
      invariant 0 <= i <= |store.files|
      invariant forall s :: s in sections <==> exists j :: 0 <= j < i && s in store.files[j].sections
      invariant forall k, j :: 0 <= k < j < |sections| ==> sections[k] != sections[j]
    {
      FilesDiffer(store, i);
      SectionsOfFileDiffer(store.files[i]);
      assert store.files[i] in store.files;
      forall s | s in sections
        ensures s.file != store.files[i]
      {
        var j :| 0 <= j < i && s in store.files[j].sections;
        assert store.files[j] in store.files;
      }
      AppendDifferent(sections, store.files[i].sections);
      sections := sections + store.files[i].sections;
      i := i + 1;
    }
  }

  lemma AppendDifferent<T>(a: seq<T>, b: seq<T>)
    requires forall i, j :: 0 <= i < j < |a| ==> a[i] != a[j]
    requires forall i, j :: 0 <= i < j < |b| ==> b[i] != b[j]
    requires forall x :: x in a ==> x !in b
    ensures forall i, j :: 0 <= i < j < |a + b| ==> (a + b)[i] != (a + b)[j]
  {
    var c := a + b;
    forall i, j | 0 <= i < j < |c|
      ensures c[i] != c[j]
    {
      if i < |a| <= j {
        assert c[i] == a[i] && c[j] == b[j - |a|];
        assert c[i] in a && c[j] in b;
      } else if i >= |a| {
        assert c[i] == b[i - |a|] && c[j] == b[j - |a|];
      }
    }
  }

  lemma SectionsOfFileDiffer(file: ConfigFile)
    requires file.Structure()
    ensures forall i, j :: 0 <= i < j < |file.sections| ==> file.sections[i] != file.sections[j]
  {
    var names := SectionNamesOf(file.sections);
    forall i, j | 0 <= i < j < |file.sections|
      ensures file.sections[i] != file.sections[j]
    {
      EqFoldReflexive(names[i]);
      assert !EqFold(names[i], names[j]);
    }
  }


  /** b is what the sections are now. */
  ghost predicate Describes(b: Before)
    reads AllSections(b), AllObjects(b)
  {
    && |b.opts| == |b.names| == |b.sections|
    && forall i :: 0 <= i < |b.sections| ==>
         && b.sections[i].Opts == b.opts[i] && b.sections[i].Names == b.names[i]
         && forall o :: o in b.opts[i] ==> o in b.values && b.values[o] == o.value
  }

  ghost function OptsOf(sections: seq<ConfigSection>): (r: seq<seq<ConfigOption>>)
    reads set s | s in sections
    ensures |r| == |sections| && forall i :: 0 <= i < |r| ==> r[i] == sections[i].Opts
  {
    if sections == [] then []
    else
      assert forall s :: s in sections[..|sections| - 1] ==> s in sections;
      OptsOf(sections[..|sections| - 1]) + [sections[|sections| - 1].Opts]
  }

  ghost function NamesOf(sections: seq<ConfigSection>): (r: seq<seq<string>>)
    reads set s | s in sections
    ensures |r| == |sections| && forall i :: 0 <= i < |r| ==> r[i] == sections[i].Names
  {
    if sections == [] then []
    else
      assert forall s :: s in sections[..|sections| - 1] ==> s in sections;
      NamesOf(sections[..|sections| - 1]) + [sections[|sections| - 1].Names]
  }

  ghost method TakeBefore(sections: seq<ConfigSection>) returns (b: Before)
    ensures b.sections == sections && Describes(b)
  {
    var opts, names := OptsOf(sections), NamesOf(sections);
    var all := set s, o | s in opts && o in s :: o;
    b := Before(sections, opts, names, map o: ConfigOption | o in all :: o.value);
    assert forall i, o :: 0 <= i < |sections| && o in opts[i] ==> opts[i] in opts && o in all;
  }

  lemma StartsWaiting(b: Before, matches: Mask)
    requires Describes(b)
    requires forall i, j :: 0 <= i < j < |b.sections| ==> b.sections[i] != b.sections[j]
    requires forall s :: s in b.sections ==> s.Valid() && AllTyped(s.Opts)
    ensures BeforeOk(b) && WalkedSections(b, matches, 0)
  {
    forall i | 0 <= i < |b.sections|
      ensures |b.opts[i]| == |b.names[i]| && forall o :: o in b.opts[i] ==> o.section == b.sections[i]
    {
      assert b.sections[i].Valid();
    }
    forall i | 0 <= i < |b.sections|
      ensures Waiting(b, i)
    {
      assert b.sections[i] in b.sections;
    }
  }

  // ---------------------------------------------------------------- what is counted

  ghost predicate AllDifferent<T>(s: seq<T>) {
    forall i, j :: 0 <= i < j < |s| ==> s[i] != s[j]
  }

  ghost predicate EachDifferent(b: Before) {
    forall i :: 0 <= i < |b.opts| ==> AllDifferent(b.opts[i])
  }

  /** The options whose value is no longer the one recorded. */
  ghost function AlteredIn(options: set<ConfigOption>, values: Values): set<ConfigOption>
    requires forall o :: o in options ==> o in values
    reads options`value
  {
    set o | o in options && o.value != values[o]
  }

  ghost function Altered(s: seq<ConfigOption>, values: Values): set<ConfigOption>
    requires forall o :: o in s ==> o in values
    reads Objects(s)`value
  {
    AlteredIn(Objects(s), values)
  }

  lemma ChangedStep(s: seq<ConfigOption>, values: Values, p: nat)
    requires p < |s| && AllDifferent(s) && forall o :: o in s ==> o in values
    ensures |Altered(s[..p + 1], values)| == |Altered(s[..p], values)| + if s[p].value != values[s[p]] then 1 else 0
  {
    assert s[..p + 1] == s[..p] + [s[p]];
    assert s[p] !in s[..p];
    var before := Altered(s[..p], values);
    assert Altered(s[..p + 1], values) == if s[p].value != values[s[p]] then before + {s[p]} else before;
  }

  lemma {:induction false} ResetsCount(s: seq<ConfigOption>, hits: seq<bool>, values: Values, p: nat)
    requires p <= |s| == |hits| && AllDifferent(s) && forall o :: o in s ==> o in values
    requires ResetUpTo(s, hits, values, |s|)
    ensures Resets(s, hits, values, p) == |Altered(s[..p], values)|
  {
    if p > 0 {
      ResetsCount(s, hits, values, p - 1);
      ChangedStep(s, values, p - 1);
    }
  }

  /** The options of the first n sections whose value is no longer the one recorded. */
  ghost function ChangedBefore(b: Before, n: nat): set<ConfigOption>
    requires BeforeOk(b) && n <= |b.sections|
    reads AllObjects(b)`value
  {
    set i, o | 0 <= i < n && o in b.opts[i] && o.value != b.values[o] :: o
  }

  lemma ResetInCount(b: Before, matches: Mask, i: nat)
    requires BeforeOk(b) && i < |b.sections| && Done(b, i, matches) && EachDifferent(b)
    ensures ResetIn(b.sections[i], b.opts[i], HitsIn(b, i, matches), b.values) == |Altered(b.opts[i], b.values)|
  {
    var s := b.opts[i];
    if b.sections[i].userCanDelete {
      assert forall o :: o in s ==> o.value == b.values[o];
      assert Altered(s, b.values) == {};
    } else {
      ResetsCount(s, HitsIn(b, i, matches), b.values, |s|);
      assert s[..|s|] == s;
    }
  }

  lemma ChangedSplit(b: Before, n: nat)
    requires BeforeOk(b) && n < |b.sections|
    ensures |ChangedBefore(b, n + 1)| == |ChangedBefore(b, n)| + |Altered(b.opts[n], b.values)|
  {
    var before, here := ChangedBefore(b, n), Altered(b.opts[n], b.values);
    assert ChangedBefore(b, n + 1) == before + here;
    forall o | o in before ensures o !in here {
      assert o.section != b.sections[n];
    }
    assert before !! here;
  }

  lemma ResetStepCount(b: Before, matches: Mask, n: nat)
    requires BeforeOk(b) && n < |b.sections| && EachDifferent(b) && Done(b, n, matches)
    requires TotalReset(b, matches, n) == |ChangedBefore(b, n)|
    ensures TotalReset(b, matches, n + 1) == |ChangedBefore(b, n + 1)|
  {
    ResetInCount(b, matches, n);
    ChangedSplit(b, n);
  }

  lemma {:induction false} TotalResetCount(b: Before, matches: Mask, n: nat)
    requires BeforeOk(b) && n <= |b.sections| && EachDifferent(b)
    requires forall i :: 0 <= i < n ==> Done(b, i, matches)
    ensures TotalReset(b, matches, n) == |ChangedBefore(b, n)|
  {
    if n > 0 {
      TotalResetCount(b, matches, n - 1);
      assert Done(b, n - 1, matches);
      ResetStepCount(b, matches, n - 1);
    } else {
      assert ChangedBefore(b, 0) == {};
    }
  }

  lemma {:induction false} ObjectsCount(s: seq<ConfigOption>)
    requires AllDifferent(s)
    ensures |Objects(s)| == |s|
  {
    if s != [] {
      var front, last := s[..|s| - 1], s[|s| - 1];
      ObjectsCount(front);
      assert s == front + [last] && last !in front;
      assert Objects(s) == Objects(front) + {last};
    }
  }

  /** The options of the first n sections that are no longer in their section. */
  ghost function GoneBefore(b: Before, n: nat): set<ConfigOption>
    requires BeforeOk(b) && n <= |b.sections|
    reads AllSections(b)`Opts
  {
    set i, o | 0 <= i < n && o in b.opts[i] && o !in b.sections[i].Opts :: o
  }

  lemma RemovedInCount(b: Before, matches: Mask, i: nat)
    requires BeforeOk(b) && i < |b.sections| && Done(b, i, matches) && EachDifferent(b)
    ensures RemovedIn(b.sections[i], HitsIn(b, i, matches)) == |Objects(b.opts[i]) - b.sections[i].Members()|
  {
    var s, left := b.opts[i], b.sections[i].Opts;
    ObjectsCount(s);
    ObjectsCount(left);
    KeptLength(s, HitsIn(b, i, matches), |s|);
    assert Objects(left) <= Objects(s);
    assert Objects(s) == (Objects(s) - Objects(left)) + Objects(left);
  }

  lemma GoneSplit(b: Before, n: nat)
    requires BeforeOk(b) && n < |b.sections|
    ensures |GoneBefore(b, n + 1)| == |GoneBefore(b, n)| + |Objects(b.opts[n]) - b.sections[n].Members()|
  {
    var before, here := GoneBefore(b, n), Objects(b.opts[n]) - b.sections[n].Members();
    assert GoneBefore(b, n + 1) == before + here;
    forall o | o in before ensures o !in here {
      assert o.section != b.sections[n];
    }
    assert before !! here;
  }

  lemma RemovedStep(b: Before, matches: Mask, n: nat)
    requires BeforeOk(b) && n < |b.sections| && EachDifferent(b) && Done(b, n, matches)
    requires TotalRemoved(b, matches, n) == |GoneBefore(b, n)|
    ensures TotalRemoved(b, matches, n + 1) == |GoneBefore(b, n + 1)|
  {
    RemovedInCount(b, matches, n);
    GoneSplit(b, n);
  }

  lemma {:induction false} TotalRemovedCount(b: Before, matches: Mask, n: nat)
    requires BeforeOk(b) && n <= |b.sections| && EachDifferent(b)
    requires forall i :: 0 <= i < n ==> Done(b, i, matches)
    ensures TotalRemoved(b, matches, n) == |GoneBefore(b, n)|
  {
    if n > 0 {
      TotalRemovedCount(b, matches, n - 1);
      assert Done(b, n - 1, matches);
      RemovedStep(b, matches, n - 1);
    } else {
      assert GoneBefore(b, 0) == {};
    }
  }

  lemma EachWasDifferent(b: Before)
    requires Describes(b) && forall s :: s in b.sections ==> s.Valid()
    ensures EachDifferent(b)
  {
    forall i | 0 <= i < |b.opts| ensures AllDifferent(b.opts[i]) {
      assert b.sections[i] in b.sections;
    }
  }

  /** What the two numbers count, once all sections have been walked. */
  lemma CountsExact(b: Before, matches: Mask, reset: nat, removed: nat)
    requires InUnset(b, matches, |b.sections|, reset, removed) && EachDifferent(b)
    ensures reset == |ChangedBefore(b, |b.sections|)| && removed == |GoneBefore(b, |b.sections|)|
  {
    assert forall i :: 0 <= i < |b.sections| ==> Done(b, i, matches);
    TotalResetCount(b, matches, |b.sections|);
    TotalRemovedCount(b, matches, |b.sections|);
  }

  /** "/unset -mask": refused for the mask "*"; otherwise every option of every file is handled once,
      and the two numbers displayed are exact. */
  method UnsetMask(store: ConfigStore, mask: string, matches: Mask)
    returns (allowed: bool, reset: nat, removed: nat, ghost b: Before)
    requires store.Valid() && forall s :: s in store.All ==> AllTyped(s.Opts)
    modifies store.All`options, store.All`lastOption, store.All`Opts, store.All`Names
    modifies store.Options()`prev, store.Options()`next, store.Options()`value
    ensures store.Valid() && (allowed <==> mask != "*")
    ensures |b.opts| == |b.sections| && forall s :: s in b.sections <==> s in store.All
    ensures forall s, i :: s in store.All && 0 <= i < |b.sections| && b.sections[i] == s ==> b.opts[i] == old(s.Opts)
    ensures forall o :: o in old(store.Options()) ==> o in b.values && b.values[o] == old(o.value)
    ensures !allowed ==> reset == 0 && removed == 0 && Describes(b)
    ensures allowed ==> InUnset(b, matches, |b.sections|, reset, removed)
    ensures reset == |AlteredIn(old(store.Options()), b.values)|
    ensures store.Options() <= old(store.Options()) && removed == |old(store.Options())| - |store.Options()|
  {
    ghost var all := store.Options();
    var sections;
    sections, b := Prepare(store);
    allowed, reset, removed := WalkMask(store, b, sections, mask, matches, all);
  }

  /** The sections in the order of the walk, and what they are before it. */
  method Prepare(store: ConfigStore) returns (sections: seq<ConfigSection>, ghost b: Before)
    requires store.Valid()
    ensures store.Valid() && Describes(b) && b.sections == sections && AllDifferent(sections)
    ensures forall s :: s in sections <==> s in store.All
    ensures store.Options() == AllObjects(b)
    ensures forall o :: o in store.Options() ==> o in b.values && b.values[o] == o.value
  {
    sections := CollectSections(store);
    b := TakeBefore(sections);
    BeforeCovers(store, b);
  }

  method WalkMask(store: ConfigStore, ghost b: Before, sections: seq<ConfigSection>, mask: string, matches: Mask,
                  ghost all: set<ConfigOption>)
    returns (allowed: bool, reset: nat, removed: nat)
    requires store.Valid() && forall s :: s in store.All ==> AllTyped(s.Opts)
    requires Describes(b) && b.sections == sections && AllDifferent(sections)
    requires forall s :: s in sections <==> s in store.All
    requires all == store.Options() == AllObjects(b)
    modifies store.All`options, store.All`lastOption, store.All`Opts, store.All`Names
    modifies all`prev, all`next, all`value
    ensures store.Valid() && (allowed <==> mask != "*")
    ensures !allowed ==> reset == 0 && removed == 0 && Describes(b)
    ensures allowed ==> InUnset(b, matches, |b.sections|, reset, removed)
    ensures (forall o :: o in all ==> o in b.values) && reset == |AlteredIn(all, b.values)|
    ensures store.Options() <= all && removed == |all| - |store.Options()|
  {
    allowed, reset, removed := mask != "*", 0, 0;
    if allowed {
      reset, removed := WalkAll(store, b, sections, matches, all);
    } else {
      assert AlteredIn(all, b.values) == {};
    }
  }

  lemma DifferenceCount<T>(a: set<T>, b: set<T>)
    requires b <= a
    ensures |a - b| == |a| - |b|
  {
    assert a == (a - b) + b;
  }

  method WalkAll(store: ConfigStore, ghost b: Before, sections: seq<ConfigSection>, matches: Mask,
                 ghost all: set<ConfigOption>)
    returns (reset: nat, removed: nat)
    requires store.Valid() && forall s :: s in store.All ==> AllTyped(s.Opts)
    requires Describes(b) && b.sections == sections && AllDifferent(sections)
    requires forall s :: s in sections <==> s in store.All
    requires all == store.Options() == AllObjects(b)
    modifies store.All`options, store.All`lastOption, store.All`Opts, store.All`Names
    modifies all`prev, all`next, all`value
    ensures store.Valid() && InUnset(b, matches, |b.sections|, reset, removed)
    ensures (forall o :: o in all ==> o in b.values) && reset == |AlteredIn(all, b.values)|
    ensures store.Options() <= all && removed == |all| - |store.Options()|
  {
    EachWasDifferent(b);
    StartsWaiting(b, matches);
    assert AllObjects(b) <= all && AllSections(b) <= store.All;
    reset, removed := UnsetAll(b, sections, matches);
    AfterWalk(store, b, matches, all);
    CountsExact(b, matches, reset, removed);
    DifferenceCount(all, store.Options());
  }

  /** b has every option of the store. */
  lemma BeforeCovers(store: ConfigStore, b: Before)
    requires store.Valid() && Describes(b) && forall s :: s in b.sections <==> s in store.All
    ensures store.Options() == AllObjects(b)
    ensures forall o :: o in store.Options() ==> o in b.values && b.values[o] == o.value
  {
    forall o | o in store.Options()
      ensures o in AllObjects(b) && o in b.values && b.values[o] == o.value
    {
      var s :| s in store.All && o in s.Opts;
      var i :| 0 <= i < |b.sections| && b.sections[i] == s;
      assert b.opts[i] in b.opts && o in b.opts[i];
    }
    forall o | o in AllObjects(b)
      ensures o in store.Options()
    {
      var i :| 0 <= i < |b.opts| && o in b.opts[i];
      assert b.sections[i] in b.sections;
    }
  }

  /** The store after the walk: still valid, and what is gone or changed is so in its section. */
  lemma AfterWalk(store: ConfigStore, b: Before, matches: Mask, all: set<ConfigOption>)
    requires store.Structure() && BeforeOk(b) && WalkedSections(b, matches, |b.sections|)
    requires forall s :: s in b.sections <==> s in store.All
    requires all == AllObjects(b)
    ensures store.Valid() && store.Options() <= all
    ensures all - store.Options() == GoneBefore(b, |b.sections|)
    ensures forall o :: o in all ==> o in b.values
    ensures AlteredIn(all, b.values) == ChangedBefore(b, |b.sections|)
  {
    assert forall i :: 0 <= i < |b.sections| ==> Done(b, i, matches);
    forall s | s in store.All
      ensures s.Valid() && forall o :: o in s.Opts ==> o in all
    {
      var i :| 0 <= i < |b.sections| && b.sections[i] == s;
      assert Done(b, i, matches);
      forall o | o in s.Opts ensures o in all {
        assert o in s.Members() && o in Objects(b.opts[i]);
      }
    }
    forall o | o in all
      ensures o in store.Options() <==> o !in GoneBefore(b, |b.sections|)
    {
      var i :| 0 <= i < |b.opts| && o in b.opts[i];
      assert b.sections[i] in store.All;
      if o in store.Options() {
        var s :| s in store.All && o in s.Opts;
        assert s.Valid() && o.section == s;
      }
    }
  }
}
