/** What the array list promises over whole runs of operations. */
module ArraylistRuns {
  import opened ArraylistSpec

  // ---------------------------------------------------------------- single steps

  lemma RemoveAtKeepsInv(cfg: Config, st: State, i: nat)
    requires Inv(cfg, st) && i < |st.items|
    ensures Inv(cfg, RemoveAt(cfg.sizeMin, st, i))
  {
    var r := Without(st.items, i);
    assert forall k :: 0 <= k < |r| ==> r[k] == st.items[if k < i then k else k + 1];
  }

  lemma {:induction false} RemoveRunKeepsInv(cfg: Config, st: State, i: nat, p: Pointer)
    requires Inv(cfg, st)
    ensures Inv(cfg, RemoveRun(cfg, st, i, p))
    decreases |st.items|
  {
    if i < |st.items| && cfg.cmp(st.items[i], p) == 0 {
      RemoveAtKeepsInv(cfg, st, i);
      RemoveRunKeepsInv(cfg, RemoveAt(cfg.sizeMin, st, i), i, p);
    }
  }

  lemma {:induction false} RemoveAllKeepsInv(cfg: Config, st: State, i: nat, p: Pointer)
    requires Inv(cfg, st) && i <= |st.items|
    ensures Inv(cfg, RemoveAll(cfg, st, i, p))
    decreases |st.items| - i
  {
    if i < |st.items| {
      if cfg.cmp(st.items[i], p) == 0 {
        RemoveAtKeepsInv(cfg, st, i);
        RemoveAllKeepsInv(cfg, RemoveAt(cfg.sizeMin, st, i), i, p);
      } else {
        RemoveAllKeepsInv(cfg, st, i + 1, p);
      }
    }
  }

  /** The elements of s equal (wanted) or not equal (!wanted) to x, in order. */
  ghost function Select(cmp: Comparator, x: Pointer, wanted: bool, s: seq<Pointer>): seq<Pointer> {
    if s == [] then []
    else Select(cmp, x, wanted, s[..|s| - 1])
         + if (cmp(s[|s| - 1], x) == 0) == wanted then [s[|s| - 1]] else []
  }

  lemma {:induction false} SelectMembers(cmp: Comparator, x: Pointer, wanted: bool, s: seq<Pointer>)
    ensures forall y :: y in Select(cmp, x, wanted, s) <==> y in s && (cmp(y, x) == 0) == wanted
  {
    if s != [] {
      SelectMembers(cmp, x, wanted, s[..|s| - 1]);
      assert s == s[..|s| - 1] + [s[|s| - 1]];
    }
  }

  lemma {:induction false} SelectConcat(cmp: Comparator, x: Pointer, wanted: bool, s: seq<Pointer>, t: seq<Pointer>)
    ensures Select(cmp, x, wanted, s + t) == Select(cmp, x, wanted, s) + Select(cmp, x, wanted, t)
    decreases |t|
  {
    if t == [] {
      assert s + t == s;
    } else {
      SelectConcat(cmp, x, wanted, s, t[..|t| - 1]);
      assert (s + t)[..|s + t| - 1] == s + t[..|t| - 1];
    }
  }

  lemma SelectOne(cmp: Comparator, x: Pointer, wanted: bool, y: Pointer)
    ensures Select(cmp, x, wanted, [y]) == if (cmp(y, x) == 0) == wanted then [y] else []
  {
    assert [y][..0] == [];
    assert Select(cmp, x, wanted, [y][..0]) == [];
  }

  lemma {:induction false} SelectNothing(cmp: Comparator, x: Pointer, s: seq<Pointer>)
    requires forall y :: y in s ==> cmp(y, x) != 0
    ensures Select(cmp, x, true, s) == [] && Select(cmp, x, false, s) == s
  {
    if s != [] {
      SelectNothing(cmp, x, s[..|s| - 1]);
      assert s == s[..|s| - 1] + [s[|s| - 1]];
    }
  }

  lemma SelectFrom(cmp: Comparator, p: Pointer, s: seq<Pointer>, i: nat)
    requires i < |s|
    ensures Select(cmp, p, false, s[i..])
         == (if cmp(s[i], p) == 0 then [] else [s[i]]) + Select(cmp, p, false, s[i + 1..])
  {
    assert s[i..] == [s[i]] + s[i + 1..];
    SelectConcat(cmp, p, false, [s[i]], s[i + 1..]);
    SelectOne(cmp, p, false, s[i]);
  }

  /** Removing all the elements equal to p is filtering, whatever the list shrinks to meanwhile. */
  lemma {:induction false} RemoveAllFilters(cfg: Config, st: State, i: nat, p: Pointer)
    requires i <= |st.items|
    ensures RemoveAll(cfg, st, i, p).items == st.items[..i] + Select(cfg.cmp, p, false, st.items[i..])
    decreases |st.items| - i
  {
    if i < |st.items| {
      var s := st.items;
      SelectFrom(cfg.cmp, p, s, i);
      if cfg.cmp(s[i], p) == 0 {
        var next := RemoveAt(cfg.sizeMin, st, i);
        RemoveAllFilters(cfg, next, i, p);
        assert next.items[..i] == s[..i] && next.items[i..] == s[i + 1..];
      } else {
        RemoveAllFilters(cfg, st, i + 1, p);
        assert s[..i + 1] == s[..i] + [s[i]];
      }
    }
  }

  /** In a list without duplicates at most the element found is removed. */
  lemma RemoveRunOnce(cfg: Config, st: State, i: nat, p: Pointer)
    requires Preorder(cfg.cmp) && Distinct(cfg.cmp, st.items)
    requires i < |st.items| && cfg.cmp(p, st.items[i]) == 0
    ensures RemoveRun(cfg, st, i, p) == RemoveAt(cfg.sizeMin, st, i)
  {
    var next := RemoveAt(cfg.sizeMin, st, i);
    if i < |next.items| {
      assert next.items[i] == st.items[i + 1];
      assert cfg.cmp(st.items[i], st.items[i + 1]) != 0;
      Same(cfg.cmp, st.items[i], p, st.items[i + 1]);
    }
  }

  lemma Same(cmp: Comparator, a: Pointer, b: Pointer, c: Pointer)
    requires Preorder(cmp) && cmp(b, a) == 0
    ensures cmp(a, b) == 0
    ensures cmp(a, c) == 0 <==> cmp(b, c) == 0
    ensures cmp(a, c) < 0 <==> cmp(b, c) < 0
    ensures cmp(c, a) == 0 <==> cmp(c, b) == 0
  {
    assert cmp(a, b) <= 0 && cmp(b, a) <= 0;
    assert cmp(a, c) <= 0 ==> cmp(b, c) <= 0;
    assert cmp(b, c) <= 0 ==> cmp(a, c) <= 0;
    assert cmp(c, a) <= 0 ==> cmp(c, b) <= 0;
    assert cmp(c, b) <= 0 ==> cmp(c, a) <= 0;
  }

  /** Everything before the insertion point of p is not greater than p. */
  lemma BelowInsertionPoint(cmp: Comparator, p: Pointer, s: seq<Pointer>)
    requires Preorder(cmp) && Sorted(cmp, s)
    ensures forall i :: 0 <= i < InsertionPoint(cmp, p, s) ==> cmp(s[i], p) <= 0
  {
    var k := InsertionPoint(cmp, p, s);
    forall i | 0 <= i < k
      ensures cmp(s[i], p) <= 0
    {
      assert cmp(s[k - 1], p) <= 0;
      if i < k - 1 {
        assert cmp(s[i], s[k - 1]) <= 0;
      }
    }
  }

  /** What an insertion leaves in the list, without the detail of how it gets there. */
  ghost function InsertItems(cfg: Config, s: seq<Pointer>, index: int, p: Pointer): seq<Pointer> {
    if cfg.sorted then
      var found := FirstMatch(cfg.cmp, p, s);
      if found >= 0 && !cfg.duplicates then s[found := p]
      else InsertAt(s, InsertionPoint(cfg.cmp, p, s), p)
    else
      var kept := if cfg.duplicates then s else Select(cfg.cmp, p, false, s);
      InsertAt(kept, Position(index, |kept|), p)
  }

  lemma PutBack(s: seq<Pointer>, i: nat, p: Pointer)
    requires i < |s|
    ensures InsertAt(Without(s, i), i, p) == s[i := p]
  {
  }

  lemma RoomInSorted(cfg: Config, st: State, index: int, p: Pointer)
    requires Preorder(cfg.cmp) && Inv(cfg, st) && cfg.sorted
    ensures var (room, at) := MakeRoom(cfg, st, index, p);
      InsertAt(room.items, Position(at, |room.items|), p) == InsertItems(cfg, st.items, index, p)
  {
    var found := FirstMatch(cfg.cmp, p, st.items);
    if found >= 0 && !cfg.duplicates {
      RemoveRunOnce(cfg, st, found, p);
      PutBack(st.items, found, p);
    }
  }

  lemma InsertStateItems(cfg: Config, st: State, index: int, p: Pointer)
    requires Preorder(cfg.cmp) && Inv(cfg, st)
    ensures InsertState(cfg, st, index, p).items == InsertItems(cfg, st.items, index, p)
  {
    if cfg.sorted {
      RoomInSorted(cfg, st, index, p);
    } else if !cfg.duplicates {
      RemoveAllFilters(cfg, st, 0, p);
      assert st.items[0..] == st.items;
    }
  }

  lemma InsertAtSorted(cmp: Comparator, s: seq<Pointer>, k: nat, p: Pointer)
    requires Sorted(cmp, s) && k <= |s|
    requires forall i :: 0 <= i < k ==> cmp(s[i], p) <= 0
    requires forall i :: k <= i < |s| ==> cmp(p, s[i]) <= 0
    ensures Sorted(cmp, InsertAt(s, k, p))
  {
    var r := InsertAt(s, k, p);
    forall i, j | 0 <= i < j < |r|
      ensures cmp(r[i], r[j]) <= 0
    {
      var a, b := if i < k then i else i - 1, if j < k then j else j - 1;
      assert i != k ==> r[i] == s[a];
      assert j != k ==> r[j] == s[b];
    }
  }

  lemma ReplaceSorted(cmp: Comparator, s: seq<Pointer>, f: nat, p: Pointer)
    requires Preorder(cmp) && Sorted(cmp, s) && f < |s| && cmp(p, s[f]) == 0
    ensures Sorted(cmp, s[f := p])
  {
    var r := s[f := p];
    forall i, j | 0 <= i < j < |r|
      ensures cmp(r[i], r[j]) <= 0
    {
      var before := cmp(s[i], s[j]);
      if i == f {
        Same(cmp, s[f], p, s[j]);
      } else if j == f {
        Same(cmp, s[f], p, s[i]);
        Opposite(cmp, s[i], p, s[f]);
      }
    }
  }

  lemma Opposite(cmp: Comparator, x: Pointer, p: Pointer, q: Pointer)
    requires Preorder(cmp)
    ensures cmp(x, p) > 0 <==> cmp(p, x) < 0
    ensures cmp(x, q) > 0 <==> cmp(q, x) < 0
  {
  }

  lemma InsertItemsSorted(cfg: Config, s: seq<Pointer>, index: int, p: Pointer)
    requires Preorder(cfg.cmp) && cfg.sorted && Sorted(cfg.cmp, s)
    ensures Sorted(cfg.cmp, InsertItems(cfg, s, index, p))
  {
    var found := FirstMatch(cfg.cmp, p, s);
    if found >= 0 && !cfg.duplicates {
      ReplaceSorted(cfg.cmp, s, found, p);
    } else {
      BelowInsertionPoint(cfg.cmp, p, s);
      InsertAtSorted(cfg.cmp, s, InsertionPoint(cfg.cmp, p, s), p);
    }
  }

  lemma {:induction false} SelectKeepsDistinct(cmp: Comparator, x: Pointer, s: seq<Pointer>)
    requires Distinct(cmp, s)
    ensures Distinct(cmp, Select(cmp, x, false, s))
  {
    if s != [] {
      SelectKeepsDistinct(cmp, x, s[..|s| - 1]);
      var r := Select(cmp, x, false, s[..|s| - 1]);
      SelectMembers(cmp, x, false, s[..|s| - 1]);
      forall i | 0 <= i < |r|
        ensures cmp(r[i], s[|s| - 1]) != 0
      {
        assert r[i] in s[..|s| - 1];
      }
    }
  }

  lemma InsertAtDistinct(cmp: Comparator, s: seq<Pointer>, k: nat, p: Pointer)
    requires Distinct(cmp, s) && k <= |s|
    requires forall i :: 0 <= i < |s| ==> cmp(s[i], p) != 0 && cmp(p, s[i]) != 0
    ensures Distinct(cmp, InsertAt(s, k, p))
  {
    var r := InsertAt(s, k, p);
    forall i, j | 0 <= i < j < |r|
      ensures cmp(r[i], r[j]) != 0
    {
      var a, b := if i < k then i else i - 1, if j < k then j else j - 1;
      assert i != k ==> r[i] == s[a];
      assert j != k ==> r[j] == s[b];
    }
  }

  lemma ReplaceDistinct(cmp: Comparator, s: seq<Pointer>, f: nat, p: Pointer)
    requires Preorder(cmp) && Distinct(cmp, s) && f < |s| && cmp(p, s[f]) == 0
    ensures Distinct(cmp, s[f := p])
  {
    var r := s[f := p];
    forall i, j | 0 <= i < j < |r|
      ensures cmp(r[i], r[j]) != 0
    {
      assert cmp(s[i], s[j]) != 0;
      if i == f {
        Same(cmp, s[f], p, s[j]);
      } else if j == f {
        Same(cmp, s[f], p, s[i]);
      }
    }
  }

  lemma InsertItemsDistinct(cfg: Config, s: seq<Pointer>, index: int, p: Pointer)
    requires Preorder(cfg.cmp) && !cfg.duplicates && Distinct(cfg.cmp, s)
    ensures Distinct(cfg.cmp, InsertItems(cfg, s, index, p))
  {
    var cmp := cfg.cmp;
    if cfg.sorted {
      var found := FirstMatch(cmp, p, s);
      if found >= 0 {
        ReplaceDistinct(cmp, s, found, p);
      } else {
        InsertAtDistinct(cmp, s, InsertionPoint(cmp, p, s), p);
      }
    } else {
      SelectKeepsDistinct(cmp, p, s);
      SelectMembers(cmp, p, false, s);
      var kept := Select(cmp, p, false, s);
      assert forall k :: 0 <= k < |kept| ==> kept[k] in kept;
      InsertAtDistinct(cmp, kept, Position(index, |kept|), p);
    }
  }

  lemma InsertKeepsInv(cfg: Config, st: State, index: int, p: Pointer)
    requires Preorder(cfg.cmp) && Inv(cfg, st)
    ensures Inv(cfg, InsertState(cfg, st, index, p))
  {
    InsertStateItems(cfg, st, index, p);
    if cfg.sorted {
      InsertItemsSorted(cfg, st.items, index, p);
    }
    if !cfg.duplicates {
      InsertItemsDistinct(cfg, st.items, index, p);
    }
    if cfg.sorted {
      var found := FirstMatch(cfg.cmp, p, st.items);
      if found >= 0 {
        RemoveRunKeepsInv(cfg, st, found, p);
      }
    } else {
      RemoveAllKeepsInv(cfg, st, 0, p);
    }
  }

  // ---------------------------------------------------------------- runs

  datatype Op = Insert(index: int, p: Pointer) | Remove(index: int) | Clear

  ghost function Step(cfg: Config, st: State, op: Op): State {
    match op
    case Insert(index, p) => InsertState(cfg, st, index, p)
    case Remove(index) => RemoveState(cfg.sizeMin, st, index)
    case Clear => ClearState(cfg.sizeMin, st)
  }

  ghost function Run(cfg: Config, ops: seq<Op>): State {
    if ops == [] then New(cfg.sizeMin)
    else Step(cfg, Run(cfg, ops[..|ops| - 1]), ops[|ops| - 1])
  }

  /** Every reachable list has its items in the allocated slots, has at least half of the
      minimum allocated, and is sorted and free of duplicates as it was created. */
  lemma {:induction false} RunInv(cfg: Config, ops: seq<Op>)
    requires Preorder(cfg.cmp)
    ensures Inv(cfg, Run(cfg, ops))
  {
    if ops != [] {
      var st := Run(cfg, ops[..|ops| - 1]);
      RunInv(cfg, ops[..|ops| - 1]);
      match ops[|ops| - 1]
      case Insert(index, p) => InsertKeepsInv(cfg, st, index, p);
      case Remove(index) =>
        if 0 <= index < |st.items| {
          RemoveAtKeepsInv(cfg, st, index);
        }
      case Clear =>
    }
  }

  // ---------------------------------------------------------------- conservation

  function Inserted(ops: seq<Op>): seq<Pointer> {
    if ops == [] then []
    else
      var rest := Inserted(ops[..|ops| - 1]);
      if ops[|ops| - 1].Insert? then rest + [ops[|ops| - 1].p] else rest
  }

  ghost function Held(st: State): multiset<Pointer> {
    multiset(st.items) + multiset(st.released)
  }

  lemma RemoveAtKeepsHeld(sizeMin: nat, st: State, i: nat)
    requires i < |st.items|
    ensures Held(RemoveAt(sizeMin, st, i)) == Held(st)
  {
    var s := st.items;
    assert s == s[..i] + [s[i]] + s[i + 1..];
  }

  lemma {:induction false} RemoveRunKeepsHeld(cfg: Config, st: State, i: nat, p: Pointer)
    ensures Held(RemoveRun(cfg, st, i, p)) == Held(st)
    decreases |st.items|
  {
    if i < |st.items| && cfg.cmp(st.items[i], p) == 0 {
      RemoveAtKeepsHeld(cfg.sizeMin, st, i);
      RemoveRunKeepsHeld(cfg, RemoveAt(cfg.sizeMin, st, i), i, p);
    }
  }

  lemma {:induction false} RemoveAllKeepsHeld(cfg: Config, st: State, i: nat, p: Pointer)
    requires i <= |st.items|
    ensures Held(RemoveAll(cfg, st, i, p)) == Held(st)
    decreases |st.items| - i
  {
    if i < |st.items| {
      if cfg.cmp(st.items[i], p) == 0 {
        RemoveAtKeepsHeld(cfg.sizeMin, st, i);
        RemoveAllKeepsHeld(cfg, RemoveAt(cfg.sizeMin, st, i), i, p);
      } else {
        RemoveAllKeepsHeld(cfg, st, i + 1, p);
      }
    }
  }

  lemma InsertAddsHeld(cfg: Config, st: State, index: int, p: Pointer)
    ensures Held(InsertState(cfg, st, index, p)) == Held(st) + multiset{p}
  {
    var (room, at) := MakeRoom(cfg, st, index, p);
    if cfg.sorted {
      var found := FirstMatch(cfg.cmp, p, st.items);
      if found >= 0 {
        RemoveRunKeepsHeld(cfg, st, found, p);
      }
    } else {
      RemoveAllKeepsHeld(cfg, st, 0, p);
    }
    assert Held(room) == Held(st);
    var k := Position(at, |room.items|);
    assert room.items == room.items[..k] + room.items[k..];
  }

  /** Every pointer ever inserted is still held or was released exactly as often. */
  lemma {:induction false} Conservation(cfg: Config, ops: seq<Op>)
    ensures multiset(Inserted(ops)) == Held(Run(cfg, ops))
  {
    if ops != [] {
      var st := Run(cfg, ops[..|ops| - 1]);
      Conservation(cfg, ops[..|ops| - 1]);
      match ops[|ops| - 1]
      case Insert(index, p) => InsertAddsHeld(cfg, st, index, p);
      case Remove(index) =>
        if 0 <= index < |st.items| {
          RemoveAtKeepsHeld(cfg.sizeMin, st, index);
        }
      case Clear =>
    }
  }

  /** arraylist_free gives what is held to the callback: by then it has been given everything. */
  lemma FreeReleasesAll(cfg: Config, ops: seq<Op>)
    ensures var st := Run(cfg, ops); multiset(Inserted(ops)) == multiset(st.released + st.items)
  {
    Conservation(cfg, ops);
  }

  // ---------------------------------------------------------------- amortised cost

  function Max(a: int, b: int): int { if a < b then b else a }

  function Potential(size: int, alloc: int): int {
    Max(0, Max(3 * size - 2 * alloc, 4 * alloc - 6 * size))
  }

  /** Single-element insertions and removals made so far. */
  function Changes(st: State): nat {
    |st.items| + 2 * |st.released|
  }

  function Budget(st: State): int {
    st.copied + Potential(|st.items|, st.alloc) - 6 * Changes(st)
  }

  lemma ShrinkBudget(sizeMin: nat, size: nat, alloc: nat)
    requires 0 < size <= alloc
    ensures size - 1 <= ShrunkAlloc(sizeMin, size, alloc)
    ensures (if ShrunkAlloc(sizeMin, size, alloc) == alloc then 0 else ShrunkAlloc(sizeMin, size, alloc))
         <= 6 + Potential(size, alloc) - Potential(size - 1, ShrunkAlloc(sizeMin, size, alloc))
  {
  }

  lemma RemoveAtBudget(sizeMin: nat, st: State, i: nat)
    requires i < |st.items| <= st.alloc
    ensures Budget(RemoveAt(sizeMin, st, i)) <= Budget(st)
    ensures |RemoveAt(sizeMin, st, i).items| <= RemoveAt(sizeMin, st, i).alloc
  {
    ShrinkBudget(sizeMin, |st.items|, st.alloc);
    var r := RemoveAt(sizeMin, st, i);
    assert |r.items| == |st.items| - 1 && |r.released| == |st.released| + 1;
    assert Changes(r) == Changes(st) + 1;
  }

  lemma {:induction false} RemoveRunBudget(cfg: Config, st: State, i: nat, p: Pointer)
    requires |st.items| <= st.alloc
    ensures Budget(RemoveRun(cfg, st, i, p)) <= Budget(st)
    ensures |RemoveRun(cfg, st, i, p).items| <= RemoveRun(cfg, st, i, p).alloc
    decreases |st.items|
  {
    if i < |st.items| && cfg.cmp(st.items[i], p) == 0 {
      RemoveAtBudget(cfg.sizeMin, st, i);
      RemoveRunBudget(cfg, RemoveAt(cfg.sizeMin, st, i), i, p);
    }
  }

  lemma {:induction false} RemoveAllBudget(cfg: Config, st: State, i: nat, p: Pointer)
    requires i <= |st.items| <= st.alloc
    ensures Budget(RemoveAll(cfg, st, i, p)) <= Budget(st)
    ensures |RemoveAll(cfg, st, i, p).items| <= RemoveAll(cfg, st, i, p).alloc
    decreases |st.items| - i
  {
    if i < |st.items| {
      if cfg.cmp(st.items[i], p) == 0 {
        RemoveAtBudget(cfg.sizeMin, st, i);
        RemoveAllBudget(cfg, RemoveAt(cfg.sizeMin, st, i), i, p);
      } else {
        RemoveAllBudget(cfg, st, i + 1, p);
      }
    }
  }

  lemma GrowBudget(size: nat, alloc: nat)
    requires size <= alloc
    ensures size + 1 <= GrownAlloc(size, alloc)
    ensures (if GrownAlloc(size, alloc) == alloc then 0 else alloc)
         <= 6 + Potential(size, alloc) - Potential(size + 1, GrownAlloc(size, alloc))
  {
  }

  lemma InsertBudget(cfg: Config, st: State, index: int, p: Pointer)
    requires |st.items| <= st.alloc
    ensures Budget(InsertState(cfg, st, index, p)) <= Budget(st)
    ensures |InsertState(cfg, st, index, p).items| <= InsertState(cfg, st, index, p).alloc
  {
    var (room, at) := MakeRoom(cfg, st, index, p);
    if cfg.sorted {
      var found := FirstMatch(cfg.cmp, p, st.items);
      if found >= 0 {
        RemoveRunBudget(cfg, st, found, p);
      }
    } else {
      RemoveAllBudget(cfg, st, 0, p);
    }
    GrowBudget(|room.items|, room.alloc);
  }

  function Clears(ops: seq<Op>): nat {
    if ops == [] then 0
    else Clears(ops[..|ops| - 1]) + if ops[|ops| - 1].Clear? then 1 else 0
  }

  lemma {:induction false} BudgetBound(cfg: Config, ops: seq<Op>)
    ensures |Run(cfg, ops).items| <= Run(cfg, ops).alloc
    ensures Budget(Run(cfg, ops)) <= 4 * cfg.sizeMin * (1 + Clears(ops))
  {
    if ops != [] {
      var st := Run(cfg, ops[..|ops| - 1]);
      BudgetBound(cfg, ops[..|ops| - 1]);
      match ops[|ops| - 1]
      case Insert(index, p) => InsertBudget(cfg, st, index, p);
      case Remove(index) =>
        if 0 <= index < |st.items| {
          RemoveAtBudget(cfg.sizeMin, st, index);
        }
      case Clear =>
        var c := Clears(ops[..|ops| - 1]);
        assert 4 * cfg.sizeMin * (1 + (c + 1)) == 4 * cfg.sizeMin * (1 + c) + 4 * cfg.sizeMin;
    }
  }

  /** The slots copied by realloc: at most 6 for each single-element insertion or removal, plus
      4 times the initial size at the start and after each clear. */
  lemma AmortisedCopying(cfg: Config, ops: seq<Op>)
    ensures var st := Run(cfg, ops);
      st.copied <= 6 * (|Inserted(ops)| + |st.released|) + 4 * cfg.sizeMin * (1 + Clears(ops))
  {
    var st := Run(cfg, ops);
    BudgetBound(cfg, ops);
    Conservation(cfg, ops);
    assert |multiset(Inserted(ops))| == |Held(st)|;
    assert |Inserted(ops)| == |st.items| + |st.released|;
  }
}
