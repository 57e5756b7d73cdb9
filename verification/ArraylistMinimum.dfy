/** When the allocated size of an array list can fall below the minimum given at creation. */
module ArraylistMinimum {
  import opened ArraylistSpec
  import opened ArraylistRuns

  /** One removal takes the allocated size below the minimum exactly when the list had grown past it,
      half of that is less than it, and the elements leave that half unfilled. */
  lemma ShrinkBelowExact(sizeMin: nat, size: nat, alloc: nat)
    requires 0 < size <= alloc && sizeMin <= alloc
    ensures ShrunkAlloc(sizeMin, size, alloc) < sizeMin <==> size <= alloc - alloc / 2 < sizeMin < alloc
  {
  }

  /** The list can come to hold n elements: any n when duplicates are allowed, otherwise when there are n
      elements of different classes. */
  ghost predicate CanHold(cfg: Config, n: nat) {
    cfg.duplicates || exists ps: seq<Pointer> :: |ps| == n && Distinct(cfg.cmp, ps)
  }

  // ---------------------------------------------------------------- never below

  lemma {:induction false} RemoveRunKeepsAlloc(cfg: Config, st: State, i: nat, p: Pointer)
    requires st.alloc <= cfg.sizeMin
    ensures RemoveRun(cfg, st, i, p).alloc == st.alloc
    decreases |st.items|
  {
    if i < |st.items| && cfg.cmp(st.items[i], p) == 0 {
      RemoveRunKeepsAlloc(cfg, RemoveAt(cfg.sizeMin, st, i), i, p);
    }
  }

  lemma {:induction false} RemoveAllKeepsAlloc(cfg: Config, st: State, i: nat, p: Pointer)
    requires i <= |st.items| && st.alloc <= cfg.sizeMin
    ensures RemoveAll(cfg, st, i, p).alloc == st.alloc
    decreases |st.items| - i
  {
    if i < |st.items| {
      if cfg.cmp(st.items[i], p) == 0 {
        RemoveAllKeepsAlloc(cfg, RemoveAt(cfg.sizeMin, st, i), i, p);
      } else {
        RemoveAllKeepsAlloc(cfg, st, i + 1, p);
      }
    }
  }

  lemma RoomKeepsAlloc(cfg: Config, st: State, index: int, p: Pointer)
    requires st.alloc <= cfg.sizeMin
    ensures MakeRoom(cfg, st, index, p).0.alloc == st.alloc
  {
    if cfg.sorted {
      var found := FirstMatch(cfg.cmp, p, st.items);
      if found >= 0 {
        RemoveRunKeepsAlloc(cfg, st, found, p);
      }
    } else {
      RemoveAllKeepsAlloc(cfg, st, 0, p);
    }
  }

  lemma FewItems(cfg: Config, s: seq<Pointer>, n: nat)
    requires Distinct(cfg.cmp, s)
    ensures CanHold(cfg, n) || |s| < n
  {
    if |s| >= n {
      assert Distinct(cfg.cmp, s[..n]);
    }
  }

  /** Without enough classes of elements the list never grows. */
  lemma {:induction false} NeverGrows(cfg: Config, ops: seq<Op>)
    requires Preorder(cfg.cmp) && !CanHold(cfg, cfg.sizeMin + 1)
    ensures Run(cfg, ops).alloc == cfg.sizeMin
  {
    if ops != [] {
      var st, op := Run(cfg, ops[..|ops| - 1]), ops[|ops| - 1];
      NeverGrows(cfg, ops[..|ops| - 1]);
      RunInv(cfg, ops);
      FewItems(cfg, Run(cfg, ops).items, cfg.sizeMin + 1);
      if op.Insert? {
        RoomKeepsAlloc(cfg, st, op.index, op.p);
      }
    }
  }

  lemma {:induction false} RemoveRunAbove(cfg: Config, st: State, i: nat, p: Pointer)
    requires cfg.sizeMin <= 2 && cfg.sizeMin <= st.alloc && |st.items| <= st.alloc
    ensures cfg.sizeMin <= RemoveRun(cfg, st, i, p).alloc
    decreases |st.items|
  {
    if i < |st.items| && cfg.cmp(st.items[i], p) == 0 {
      RemoveRunAbove(cfg, RemoveAt(cfg.sizeMin, st, i), i, p);
    }
  }

  lemma {:induction false} RemoveAllAbove(cfg: Config, st: State, i: nat, p: Pointer)
    requires cfg.sizeMin <= 2 && cfg.sizeMin <= st.alloc && i <= |st.items| <= st.alloc
    ensures cfg.sizeMin <= RemoveAll(cfg, st, i, p).alloc
    decreases |st.items| - i
  {
    if i < |st.items| {
      if cfg.cmp(st.items[i], p) == 0 {
        RemoveAllAbove(cfg, RemoveAt(cfg.sizeMin, st, i), i, p);
      } else {
        RemoveAllAbove(cfg, st, i + 1, p);
      }
    }
  }

  /** A minimum of 2 or less is never left. */
  lemma {:induction false} SmallMinimumKept(cfg: Config, ops: seq<Op>)
    requires Preorder(cfg.cmp) && cfg.sizeMin <= 2
    ensures cfg.sizeMin <= Run(cfg, ops).alloc
  {
    if ops != [] {
      var st, op := Run(cfg, ops[..|ops| - 1]), ops[|ops| - 1];
      SmallMinimumKept(cfg, ops[..|ops| - 1]);
      RunInv(cfg, ops[..|ops| - 1]);
      if op.Insert? {
        var found := FirstMatch(cfg.cmp, op.p, st.items);
        if cfg.sorted && found >= 0 {
          RemoveRunAbove(cfg, st, found, op.p);
        }
        RemoveAllAbove(cfg, st, 0, op.p);
      }
    }
  }

  // ---------------------------------------------------------------- a run that falls below

  function Inserts(ps: seq<Pointer>): (ops: seq<Op>)
    ensures |ops| == |ps|
    ensures forall i :: 0 <= i < |ps| ==> ops[i] == Insert(-1, ps[i])
  {
    seq(|ps|, i requires 0 <= i < |ps| => Insert(-1, ps[i]))
  }

  lemma {:induction false} RemoveAllNothing(cfg: Config, st: State, i: nat, p: Pointer)
    requires i <= |st.items| && forall k :: 0 <= k < |st.items| ==> cfg.cmp(st.items[k], p) != 0
    ensures RemoveAll(cfg, st, i, p) == st
    decreases |st.items| - i
  {
    if i < |st.items| {
      RemoveAllNothing(cfg, st, i + 1, p);
    }
  }

  /** A new element goes in without any removal. */
  lemma InsertNew(cfg: Config, st: State, p: Pointer)
    requires cfg.duplicates
          || forall k :: 0 <= k < |st.items| ==> cfg.cmp(st.items[k], p) != 0 && cfg.cmp(p, st.items[k]) != 0
    ensures var next := InsertState(cfg, st, -1, p);
      && |next.items| == |st.items| + 1 && next.alloc == GrownAlloc(|st.items|, st.alloc)
      && forall x :: x in next.items ==> x == p || x in st.items
  {
    if !cfg.sorted && !cfg.duplicates {
      RemoveAllNothing(cfg, st, 0, p);
    }
  }

  lemma LastIsNew(cfg: Config, ps: seq<Pointer>, s: seq<Pointer>)
    requires Preorder(cfg.cmp) && ps != [] && Distinct(cfg.cmp, ps)
    requires forall x :: x in s ==> x in ps[..|ps| - 1]
    ensures var p := ps[|ps| - 1];
      forall k :: 0 <= k < |s| ==> cfg.cmp(s[k], p) != 0 && cfg.cmp(p, s[k]) != 0
  {
    forall k | 0 <= k < |s|
      ensures cfg.cmp(s[k], ps[|ps| - 1]) != 0 && cfg.cmp(ps[|ps| - 1], s[k]) != 0
    {
      assert s[k] in s && s[k] in ps[..|ps| - 1];
      var i :| 0 <= i < |ps| - 1 && ps[i] == s[k];
      assert cfg.cmp(ps[i], ps[|ps| - 1]) != 0;
    }
  }

  /** Filling a list past its minimum makes it grow once. */
  lemma {:induction false} Fill(cfg: Config, ps: seq<Pointer>)
    requires Preorder(cfg.cmp) && cfg.sizeMin >= 2 && |ps| <= cfg.sizeMin + 1
    requires cfg.duplicates || Distinct(cfg.cmp, ps)
    ensures var st := Run(cfg, Inserts(ps));
      && |st.items| == |ps| && (forall x :: x in st.items ==> x in ps)
      && st.alloc == if |ps| <= cfg.sizeMin then cfg.sizeMin else cfg.sizeMin + cfg.sizeMin / 2
  {
    if ps != [] {
      var front, p := ps[..|ps| - 1], ps[|ps| - 1];
      Fill(cfg, front);
      assert Inserts(ps)[..|ps| - 1] == Inserts(front);
      var st := Run(cfg, Inserts(front));
      if !cfg.duplicates {
        LastIsNew(cfg, ps, st.items);
      }
      InsertNew(cfg, st, p);
    }
  }

  /** Emptying the list from there takes it to half of what it had grown to. */
  lemma {:induction false} Drain(cfg: Config, ops: seq<Op>) returns (all: seq<Op>)
    requires var st := Run(cfg, ops);
      && cfg.sizeMin < st.alloc && 2 <= st.alloc && st.alloc - st.alloc / 2 < cfg.sizeMin
      && st.items != []
    ensures Run(cfg, all).alloc == Run(cfg, ops).alloc - Run(cfg, ops).alloc / 2
    decreases |Run(cfg, ops).items|
  {
    var st := Run(cfg, ops);
    all := ops + [Remove(0)];
    assert all[..|ops|] == ops;
    assert Run(cfg, all) == RemoveAt(cfg.sizeMin, st, 0);
    if |st.items| > st.alloc - st.alloc / 2 {
      all := Drain(cfg, all);
    }
  }

  /** With minimum 32, for instance, the run ends with 24 slots. */
  lemma FallsBelow(cfg: Config, ps: seq<Pointer>) returns (ops: seq<Op>)
    requires Preorder(cfg.cmp) && cfg.sizeMin >= 3 && |ps| == cfg.sizeMin + 1
    requires cfg.duplicates || Distinct(cfg.cmp, ps)
    ensures var grown := cfg.sizeMin + cfg.sizeMin / 2;
      Run(cfg, ops).alloc == grown - grown / 2 < cfg.sizeMin
    ensures cfg.sizeMin == 32 ==> Run(cfg, ops).alloc == 24
  {
    Fill(cfg, ps);
    ops := Drain(cfg, Inserts(ps));
  }

  /** Exactly when some run takes the allocated size below the minimum. */
  lemma AllocBelowMin(cfg: Config)
    requires Preorder(cfg.cmp)
    ensures (exists ops :: Run(cfg, ops).alloc < cfg.sizeMin) <==> cfg.sizeMin >= 3 && CanHold(cfg, cfg.sizeMin + 1)
  {
    if cfg.sizeMin < 3 {
      forall ops ensures Run(cfg, ops).alloc >= cfg.sizeMin {
        SmallMinimumKept(cfg, ops);
      }
    } else if !CanHold(cfg, cfg.sizeMin + 1) {
      forall ops ensures Run(cfg, ops).alloc >= cfg.sizeMin {
        NeverGrows(cfg, ops);
      }
    } else {
      var ps: seq<Pointer>;
      if cfg.duplicates {
        ps := seq(cfg.sizeMin + 1, _ => NULL);
      } else {
        ps :| |ps| == cfg.sizeMin + 1 && Distinct(cfg.cmp, ps);
      }
      var ops := FallsBelow(cfg, ps);
    }
  }
}
