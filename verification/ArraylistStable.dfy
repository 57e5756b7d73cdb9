/** Whatever is removed, at whatever index: among equal elements a sorted list keeps the order in
    which they were inserted. */
module ArraylistStable {
  import opened ArraylistSpec
  import opened ArraylistRuns
  import opened ArraylistOrder

  /** The numbers of the insertions of a run: 0 for the first. */
  function Upto(n: nat): (r: seq<nat>)
    ensures |r| == n && forall k :: 0 <= k < n ==> r[k] == k
  {
    seq(n, k requires 0 <= k < n => k)
  }

  ghost predicate Match(inserted: seq<Pointer>, times: seq<nat>, items: seq<Pointer>) {
    && |times| == |items|
    && forall k :: 0 <= k < |times| ==> times[k] < |inserted| && inserted[times[k]] == items[k]
  }

  /** Equal elements are in the order of their times. */
  ghost predicate InOrder(cmp: Comparator, times: seq<nat>, items: seq<Pointer>)
    requires |times| == |items|
  {
    forall i, j :: 0 <= i < j < |items| && cmp(items[i], items[j]) == 0 ==> times[i] < times[j]
  }

  /** The list keeps equal elements in order: it places new ones itself, or has no equal ones. */
  predicate Ordered(cfg: Config) {
    cfg.sorted || !cfg.duplicates
  }

  /** Each insertion is that of one element held or of one released, and equal ones held are in order. */
  ghost predicate Dated(cfg: Config, inserted: seq<Pointer>, st: State, times: seq<nat>, gone: seq<nat>) {
    && Match(inserted, times, st.items) && Match(inserted, gone, st.released)
    && multiset(times) + multiset(gone) == multiset(Upto(|inserted|))
    && (Ordered(cfg) ==> InOrder(cfg.cmp, times, st.items))
  }

  // ---------------------------------------------------------------- one step

  lemma NextTime(n: nat, times: seq<nat>, gone: seq<nat>, k: nat)
    requires multiset(times) + multiset(gone) == multiset(Upto(n)) && k <= |times|
    ensures multiset(times[..k] + [n] + times[k..]) + multiset(gone) == multiset(Upto(n + 1))
  {
    assert times == times[..k] + times[k..];
    assert Upto(n + 1) == Upto(n) + [n];
  }

  lemma TimeGone(times: seq<nat>, gone: seq<nat>, i: nat)
    requires i < |times|
    ensures multiset(times[..i] + times[i + 1..]) + multiset(gone + [times[i]]) == multiset(times) + multiset(gone)
  {
    assert times == times[..i] + [times[i]] + times[i + 1..];
  }

  lemma CutMatches(cmp: Comparator, inserted: seq<Pointer>, times: seq<nat>, items: seq<Pointer>, i: nat)
    requires Match(inserted, times, items) && i < |items|
    ensures var less, rest := times[..i] + times[i + 1..], items[..i] + items[i + 1..];
      Match(inserted, less, rest) && (InOrder(cmp, times, items) ==> InOrder(cmp, less, rest))
  {
    var less, rest := times[..i] + times[i + 1..], items[..i] + items[i + 1..];
    assert forall k :: 0 <= k < |less| ==>
      less[k] == times[if k < i then k else k + 1] && rest[k] == items[if k < i then k else k + 1];
  }

  lemma RemovalDated(cfg: Config, inserted: seq<Pointer>, st: State, times: seq<nat>, gone: seq<nat>, i: nat)
    returns (left: seq<nat>, out: seq<nat>)
    requires Dated(cfg, inserted, st, times, gone) && i < |st.items|
    ensures Dated(cfg, inserted, RemoveAt(cfg.sizeMin, st, i), left, out)
  {
    left, out := times[..i] + times[i + 1..], gone + [times[i]];
    TimeGone(times, gone, i);
    CutMatches(cfg.cmp, inserted, times, st.items, i);
  }

  lemma {:induction false} RunDated(cfg: Config, inserted: seq<Pointer>, st: State, times: seq<nat>,
                                    gone: seq<nat>, i: nat, p: Pointer)
    returns (left: seq<nat>, out: seq<nat>)
    requires Dated(cfg, inserted, st, times, gone)
    ensures Dated(cfg, inserted, RemoveRun(cfg, st, i, p), left, out)
    decreases |st.items|
  {
    left, out := times, gone;
    if i < |st.items| && cfg.cmp(st.items[i], p) == 0 {
      left, out := RemovalDated(cfg, inserted, st, times, gone, i);
      left, out := RunDated(cfg, inserted, RemoveAt(cfg.sizeMin, st, i), left, out, i, p);
    }
  }

  lemma {:induction false} AllDated(cfg: Config, inserted: seq<Pointer>, st: State, times: seq<nat>,
                                    gone: seq<nat>, i: nat, p: Pointer)
    returns (left: seq<nat>, out: seq<nat>)
    requires Dated(cfg, inserted, st, times, gone) && i <= |st.items|
    ensures Dated(cfg, inserted, RemoveAll(cfg, st, i, p), left, out)
    decreases |st.items| - i
  {
    left, out := times, gone;
    if i < |st.items| {
      if cfg.cmp(st.items[i], p) == 0 {
        left, out := RemovalDated(cfg, inserted, st, times, gone, i);
        left, out := AllDated(cfg, inserted, RemoveAt(cfg.sizeMin, st, i), left, out, i, p);
      } else {
        left, out := AllDated(cfg, inserted, st, times, gone, i + 1, p);
      }
    }
  }

  lemma InsertMatch(inserted: seq<Pointer>, times: seq<nat>, items: seq<Pointer>, k: nat, p: Pointer)
    requires Match(inserted, times, items) && k <= |items|
    ensures Match(inserted + [p], times[..k] + [|inserted|] + times[k..], InsertAt(items, k, p))
  {
    var after, all := times[..k] + [|inserted|] + times[k..], InsertAt(items, k, p);
    forall i | 0 <= i < |after|
      ensures after[i] <= |inserted| && (inserted + [p])[after[i]] == all[i]
    {
      assert i != k ==> after[i] == times[if i < k then i else i - 1] && all[i] == items[if i < k then i else i - 1];
    }
  }

  /** The new element, later than all, comes after all those equal to it. */
  lemma InsertInOrder(cmp: Comparator, times: seq<nat>, items: seq<Pointer>, n: nat, k: nat, p: Pointer)
    requires |times| == |items| && InOrder(cmp, times, items) && k <= |items|
    requires forall i :: 0 <= i < |times| ==> times[i] < n
    requires forall i :: k <= i < |items| ==> cmp(p, items[i]) != 0
    ensures InOrder(cmp, times[..k] + [n] + times[k..], InsertAt(items, k, p))
  {
    var after, all := times[..k] + [n] + times[k..], InsertAt(items, k, p);
    forall i, j | 0 <= i < j < |all| && cmp(all[i], all[j]) == 0
      ensures after[i] < after[j]
    {
      var a, b := if i < k then i else i - 1, if j < k then j else j - 1;
      assert i != k ==> after[i] == times[a] && all[i] == items[a];
      assert j != k ==> after[j] == times[b] && all[j] == items[b];
    }
  }

  lemma MatchLonger(inserted: seq<Pointer>, times: seq<nat>, items: seq<Pointer>, p: Pointer)
    requires Match(inserted, times, items)
    ensures Match(inserted + [p], times, items)
  {
  }

  lemma TimesBelow(n: nat, times: seq<nat>, gone: seq<nat>)
    requires multiset(times) + multiset(gone) == multiset(Upto(n))
    ensures forall i :: 0 <= i < |times| ==> times[i] < n
  {
    forall i | 0 <= i < |times|
      ensures times[i] < n
    {
      assert times[i] in multiset(times) + multiset(gone);
    }
  }

  lemma InsertionDated(cfg: Config, inserted: seq<Pointer>, st: State, times: seq<nat>, gone: seq<nat>,
                       next: State, k: nat, p: Pointer)
    returns (after: seq<nat>)
    requires Dated(cfg, inserted, st, times, gone) && k <= |st.items|
    requires next.items == InsertAt(st.items, k, p) && next.released == st.released
    requires Ordered(cfg) ==> forall i :: k <= i < |st.items| ==> cfg.cmp(p, st.items[i]) != 0
    ensures Dated(cfg, inserted + [p], next, after, gone)
  {
    var n := |inserted|;
    after := times[..k] + [n] + times[k..];
    NextTime(n, times, gone, k);
    InsertMatch(inserted, times, st.items, k, p);
    MatchLonger(inserted, gone, st.released, p);
    if Ordered(cfg) {
      TimesBelow(n, times, gone);
      InsertInOrder(cfg.cmp, times, st.items, n, k, p);
    }
  }

  /** What was made of the list before the new element went in, and where it went. */
  lemma RoomDated(cfg: Config, inserted: seq<Pointer>, st: State, times: seq<nat>, gone: seq<nat>,
                  index: int, p: Pointer)
    returns (left: seq<nat>, out: seq<nat>)
    requires Preorder(cfg.cmp) && Inv(cfg, st) && Dated(cfg, inserted, st, times, gone)
    ensures var (room, at) := MakeRoom(cfg, st, index, p);
      && Dated(cfg, inserted, room, left, out)
      && (Ordered(cfg) ==>
            forall i :: Position(at, |room.items|) <= i < |room.items| ==> cfg.cmp(p, room.items[i]) != 0)
  {
    left, out := times, gone;
    if cfg.sorted {
      var found := FirstMatch(cfg.cmp, p, st.items);
      if found >= 0 && !cfg.duplicates {
        left, out := RunDated(cfg, inserted, st, times, gone, found, p);
        RemoveRunOnce(cfg, st, found, p);
        OthersDiffer(cfg.cmp, st.items, found, p);
      }
    } else if !cfg.duplicates {
      left, out := AllDated(cfg, inserted, st, times, gone, 0, p);
      RemoveAllFilters(cfg, st, 0, p);
      assert st.items[0..] == st.items;
      NoneEqual(cfg.cmp, st.items, p);
    }
  }

  lemma OthersDiffer(cmp: Comparator, s: seq<Pointer>, found: nat, p: Pointer)
    requires Preorder(cmp) && Distinct(cmp, s) && found < |s| && cmp(p, s[found]) == 0
    ensures forall i :: found <= i < |s| - 1 ==> cmp(p, Without(s, found)[i]) != 0
  {
    forall i | found <= i < |s| - 1
      ensures cmp(p, Without(s, found)[i]) != 0
    {
      assert Without(s, found)[i] == s[i + 1];
      Same(cmp, s[found], p, s[i + 1]);
    }
  }

  lemma NoneEqual(cmp: Comparator, s: seq<Pointer>, p: Pointer)
    requires Preorder(cmp)
    ensures var kept := Select(cmp, p, false, s); forall i :: 0 <= i < |kept| ==> cmp(p, kept[i]) != 0
  {
    var kept := Select(cmp, p, false, s);
    SelectMembers(cmp, p, false, s);
    forall i | 0 <= i < |kept|
      ensures cmp(p, kept[i]) != 0
    {
      assert kept[i] in kept && cmp(kept[i], p) != 0;
      Opposite(cmp, kept[i], p, p);
    }
  }

  lemma InsertDated(cfg: Config, inserted: seq<Pointer>, st: State, times: seq<nat>, gone: seq<nat>,
                    index: int, p: Pointer)
    returns (after: seq<nat>, out: seq<nat>)
    requires Preorder(cfg.cmp) && Inv(cfg, st) && Dated(cfg, inserted, st, times, gone)
    ensures Dated(cfg, inserted + [p], InsertState(cfg, st, index, p), after, out)
  {
    var (room, at) := MakeRoom(cfg, st, index, p);
    var left;
    left, out := RoomDated(cfg, inserted, st, times, gone, index, p);
    after := InsertionDated(cfg, inserted, room, left, out, InsertState(cfg, st, index, p),
                            Position(at, |room.items|), p);
  }

  lemma ClearDated(cfg: Config, inserted: seq<Pointer>, st: State, times: seq<nat>, gone: seq<nat>)
    requires Dated(cfg, inserted, st, times, gone)
    ensures Dated(cfg, inserted, ClearState(cfg.sizeMin, st), [], gone + times)
  {
  }

  // ---------------------------------------------------------------- every run

  /** Over every run of any operations, each insertion is that of exactly one element held or released;
      and, unless the caller places equal elements itself, those held are in the order of insertion. */
  lemma {:induction false} EveryRunDated(cfg: Config, ops: seq<Op>) returns (times: seq<nat>, gone: seq<nat>)
    requires Preorder(cfg.cmp)
    ensures Dated(cfg, Inserted(ops), Run(cfg, ops), times, gone)
  {
    times, gone := [], [];
    if ops != [] {
      var before := ops[..|ops| - 1];
      times, gone := EveryRunDated(cfg, before);
      times, gone := StepDated(cfg, before, ops[|ops| - 1], times, gone);
    }
  }

  lemma StepDated(cfg: Config, ops: seq<Op>, op: Op, times: seq<nat>, gone: seq<nat>)
    returns (after: seq<nat>, out: seq<nat>)
    requires Preorder(cfg.cmp) && Dated(cfg, Inserted(ops), Run(cfg, ops), times, gone)
    ensures Dated(cfg, if op.Insert? then Inserted(ops) + [op.p] else Inserted(ops), Step(cfg, Run(cfg, ops), op),
                  after, out)
  {
    var st := Run(cfg, ops);
    after, out := times, gone;
    match op
    case Insert(index, p) =>
      RunInv(cfg, ops);
      after, out := InsertDated(cfg, Inserted(ops), st, times, gone, index, p);
    case Remove(index) =>
      if 0 <= index < |st.items| {
        after, out := RemovalDated(cfg, Inserted(ops), st, times, gone, index);
      }
    case Clear =>
      ClearDated(cfg, Inserted(ops), st, times, gone);
      after, out := [], gone + times;
  }

  // ---------------------------------------------------------------- stable sort

  /** What was inserted and not released, in the order of insertion. */
  ghost function Survivors(inserted: seq<Pointer>, gone: seq<nat>): seq<Pointer> {
    if inserted == [] then []
    else
      var n := |inserted| - 1;
      Survivors(inserted[..n], gone) + if n in gone then [] else [inserted[n]]
  }

  /** times are the insertions before n that are not gone. */
  ghost predicate Left(times: seq<nat>, gone: seq<nat>, n: nat) {
    forall t: nat :: multiset(times)[t] == if t < n && t !in gone then 1 else 0
  }

  lemma {:induction false} UptoCounts(n: nat, t: nat)
    ensures multiset(Upto(n))[t] == if t < n then 1 else 0
  {
    if n > 0 {
      UptoCounts(n - 1, t);
      assert Upto(n) == Upto(n - 1) + [n - 1];
    }
  }

  lemma LeftAtEnd(times: seq<nat>, gone: seq<nat>, n: nat)
    requires multiset(times) + multiset(gone) == multiset(Upto(n))
    ensures Left(times, gone, n)
  {
    forall t: nat
      ensures multiset(times)[t] == if t < n && t !in gone then 1 else 0
    {
      UptoCounts(n, t);
      assert (multiset(times) + multiset(gone))[t] == multiset(times)[t] + multiset(gone)[t];
      assert t in gone <==> t in multiset(gone);
    }
  }

  /** Nothing equal to the latest comes after it. */
  lemma LatestIsLast(cmp: Comparator, times: seq<nat>, items: seq<Pointer>, k: nat, x: Pointer)
    requires Preorder(cmp) && |times| == |items| && InOrder(cmp, times, items) && k < |items|
    requires forall i :: 0 <= i < |times| ==> times[i] <= times[k]
    ensures cmp(items[k], x) == 0 ==> Select(cmp, x, true, items[k + 1..]) == []
  {
    if cmp(items[k], x) == 0 {
      forall j | k < j < |items|
        ensures cmp(items[k], items[j]) != 0
      {
        assert times[j] <= times[k];
      }
      OtherClass(cmp, items[k], x, items[k + 1..]);
    }
  }

  /** Taking the latest away. */
  lemma CutLatest(cmp: Comparator, inserted: seq<Pointer>, times: seq<nat>, items: seq<Pointer>,
                  gone: seq<nat>, n: nat)
    returns (k: nat)
    requires Match(inserted, times, items) && InOrder(cmp, times, items) && Left(times, gone, n + 1) && n !in gone
    ensures k < |times| && times[k] == n && items[k] == inserted[n]
    ensures forall i :: 0 <= i < |times| ==> times[i] <= n
    ensures var less, rest := times[..k] + times[k + 1..], items[..k] + items[k + 1..];
      Match(inserted, less, rest) && InOrder(cmp, less, rest) && Left(less, gone, n)
  {
    assert n in multiset(times);
    k :| 0 <= k < |times| && times[k] == n;
    CutMatches(cmp, inserted, times, items, k);
    CutLeft(times, gone, n, k);
  }

  lemma CutLeft(times: seq<nat>, gone: seq<nat>, n: nat, k: nat)
    requires Left(times, gone, n + 1) && n !in gone && k < |times| && times[k] == n
    ensures Left(times[..k] + times[k + 1..], gone, n)
    ensures forall i :: 0 <= i < |times| ==> times[i] <= n
  {
    assert times == times[..k] + [n] + times[k + 1..];
    assert multiset(times) == multiset(times[..k] + times[k + 1..]) + multiset{n};
    forall i | 0 <= i < |times|
      ensures times[i] <= n
    {
      assert times[i] in multiset(times);
    }
  }

  lemma SurvivorsLast(inserted: seq<Pointer>, gone: seq<nat>, n: nat)
    requires n < |inserted|
    ensures Survivors(inserted[..n + 1], gone)
         == if n in gone then Survivors(inserted[..n], gone) else Survivors(inserted[..n], gone) + [inserted[n]]
  {
    assert inserted[..n + 1][..n] == inserted[..n];
    assert Survivors(inserted[..n], gone) + [] == Survivors(inserted[..n], gone);
  }

  lemma LeftNothing(times: seq<nat>, gone: seq<nat>)
    requires Left(times, gone, 0)
    ensures times == []
  {
    assert multiset(times) == multiset{};
    assert |multiset(times)| == |times|;
  }

  lemma SelectAppend(cmp: Comparator, x: Pointer, s: seq<Pointer>, p: Pointer)
    ensures Select(cmp, x, true, s + [p]) == Select(cmp, x, true, s) + if cmp(p, x) == 0 then [p] else []
  {
    SelectConcat(cmp, x, true, s, [p]);
    SelectOne(cmp, x, true, p);
  }

  /** The latest is the last of its class. */
  lemma LatestAdded(cmp: Comparator, times: seq<nat>, items: seq<Pointer>, k: nat, x: Pointer, others: seq<Pointer>)
    requires Preorder(cmp) && |times| == |items| && InOrder(cmp, times, items) && k < |items|
    requires forall i :: 0 <= i < |times| ==> times[i] <= times[k]
    requires Select(cmp, x, true, items[..k] + items[k + 1..]) == Select(cmp, x, true, others)
    ensures Select(cmp, x, true, items) == Select(cmp, x, true, others + [items[k]])
  {
    LatestIsLast(cmp, times, items, k, x);
    assert items == items[..k] + [items[k]] + items[k + 1..];
    SelectInserted(cmp, x, items[..k], items[k], items[k + 1..]);
    SelectAppend(cmp, x, others, items[k]);
  }

  lemma {:induction false} ClassInOrder(cmp: Comparator, inserted: seq<Pointer>, times: seq<nat>, items: seq<Pointer>,
                                        gone: seq<nat>, n: nat, x: Pointer)
    requires Preorder(cmp) && Match(inserted, times, items) && InOrder(cmp, times, items)
    requires n <= |inserted| && Left(times, gone, n)
    ensures Select(cmp, x, true, items) == Select(cmp, x, true, Survivors(inserted[..n], gone))
  {
    if n == 0 {
      LeftNothing(times, gone);
    } else if n - 1 in gone {
      SurvivorsLast(inserted, gone, n - 1);
      assert Left(times, gone, n - 1);
      ClassInOrder(cmp, inserted, times, items, gone, n - 1, x);
    } else {
      var k := CutLatest(cmp, inserted, times, items, gone, n - 1);
      SurvivorsLast(inserted, gone, n - 1);
      ClassInOrder(cmp, inserted, times[..k] + times[k + 1..], items[..k] + items[k + 1..], gone, n - 1, x);
      LatestAdded(cmp, times, items, k, x, Survivors(inserted[..n - 1], gone));
    }
  }

  /** Over every run, a sorted list is the stable sort of what was inserted and not released. */
  lemma EveryRunStable(cfg: Config, ops: seq<Op>) returns (times: seq<nat>, gone: seq<nat>)
    requires Preorder(cfg.cmp) && cfg.sorted
    ensures Dated(cfg, Inserted(ops), Run(cfg, ops), times, gone)
    ensures IsStableSort(cfg.cmp, Survivors(Inserted(ops), gone), Run(cfg, ops).items)
  {
    var inserted, st := Inserted(ops), Run(cfg, ops);
    times, gone := EveryRunDated(cfg, ops);
    RunInv(cfg, ops);
    LeftAtEnd(times, gone, |inserted|);
    forall x
      ensures Select(cfg.cmp, x, true, st.items) == Select(cfg.cmp, x, true, Survivors(inserted, gone))
    {
      ClassInOrder(cfg.cmp, inserted, times, st.items, gone, |inserted|, x);
      assert inserted[..|inserted|] == inserted;
    }
  }
}
