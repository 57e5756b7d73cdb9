/** The collections an array list implements: an ordered map, a stable sort with a queue for
    each class of equal elements, and a list of last mentions. */
module ArraylistOrder {
  import opened Text
  import opened ArraylistSpec
  import opened ArraylistRuns

  /** What a caller does: add a pointer, or search a pointer and remove what was found. */
  datatype Edit = Add(p: Pointer) | Drop(p: Pointer)

  ghost function EditOp(cfg: Config, st: State, edit: Edit): Op {
    match edit
    case Add(p) => Insert(-1, p)
    case Drop(p) => Remove(FirstMatch(cfg.cmp, p, st.items))
  }

  /** The operations made by a run of edits from a new list. */
  ghost function Ops(cfg: Config, edits: seq<Edit>): seq<Op> {
    if edits == [] then []
    else
      var ops := Ops(cfg, edits[..|edits| - 1]);
      ops + [EditOp(cfg, Run(cfg, ops), edits[|edits| - 1])]
  }

  ghost function Items(cfg: Config, edits: seq<Edit>): seq<Pointer> {
    Run(cfg, Ops(cfg, edits)).items
  }

  ghost function EditItems(cfg: Config, s: seq<Pointer>, edit: Edit): seq<Pointer> {
    match edit
    case Add(p) => InsertItems(cfg, s, -1, p)
    case Drop(p) =>
      var found := FirstMatch(cfg.cmp, p, s);
      if found >= 0 then Without(s, found) else s
  }

  lemma ItemsStep(cfg: Config, edits: seq<Edit>)
    requires Preorder(cfg.cmp) && edits != []
    ensures var before := Items(cfg, edits[..|edits| - 1]);
      && Items(cfg, edits) == EditItems(cfg, before, edits[|edits| - 1])
      && (cfg.sorted ==> Sorted(cfg.cmp, before))
      && (!cfg.duplicates ==> Distinct(cfg.cmp, before))
  {
    var ops := Ops(cfg, edits[..|edits| - 1]);
    var st := Run(cfg, ops);
    RunInv(cfg, ops);
    var op := EditOp(cfg, st, edits[|edits| - 1]);
    assert Ops(cfg, edits) == ops + [op];
    assert (ops + [op])[..|ops|] == ops;
    if op.Insert? {
      InsertStateItems(cfg, st, -1, op.p);
    }
  }

  // ---------------------------------------------------------------- ordered map

  ghost function Find(cmp: Comparator, x: Pointer, s: seq<Pointer>): Option<Pointer> {
    var f := FirstMatch(cmp, x, s);
    if f >= 0 then Some(s[f]) else None
  }

  /** The pointer last added in the class of x and not removed since. */
  ghost function Latest(cmp: Comparator, edits: seq<Edit>, x: Pointer): Option<Pointer> {
    if edits == [] then None
    else
      var last := edits[|edits| - 1];
      if cmp(x, last.p) == 0 then (if last.Add? then Some(last.p) else None)
      else Latest(cmp, edits[..|edits| - 1], x)
  }

  lemma FindMember(cmp: Comparator, x: Pointer, s: seq<Pointer>, k: nat)
    requires Preorder(cmp) && Distinct(cmp, s)
    requires k < |s| && cmp(x, s[k]) == 0
    ensures Find(cmp, x, s) == Some(s[k])
  {
    var f := FirstMatch(cmp, x, s);
    if f != k {
      Same(cmp, s[f], x, s[k]);
    }
  }

  /** Where the elements of s and the new one are after an addition. */
  lemma PlacesAfterAdd(cfg: Config, s: seq<Pointer>, p: Pointer) returns (at: nat)
    requires cfg.sorted && !cfg.duplicates
    ensures var r, found := InsertItems(cfg, s, -1, p), FirstMatch(cfg.cmp, p, s);
      && at < |r| && r[at] == p && (found >= 0 ==> at == found)
      && (forall k :: 0 <= k < |s| && k != found ==> r[if found >= 0 || k < at then k else k + 1] == s[k])
      && (forall k :: 0 <= k < |r| ==> r[k] == p || r[k] in s)
  {
    var found := FirstMatch(cfg.cmp, p, s);
    at := if found >= 0 then found else InsertionPoint(cfg.cmp, p, s);
  }

  lemma FindAfterAdd(cfg: Config, s: seq<Pointer>, p: Pointer, x: Pointer)
    requires Preorder(cfg.cmp) && cfg.sorted && !cfg.duplicates && Distinct(cfg.cmp, s)
    ensures Find(cfg.cmp, x, InsertItems(cfg, s, -1, p))
         == if cfg.cmp(x, p) == 0 then Some(p) else Find(cfg.cmp, x, s)
  {
    var cmp := cfg.cmp;
    var r, found := InsertItems(cfg, s, -1, p), FirstMatch(cmp, p, s);
    var at := PlacesAfterAdd(cfg, s, p);
    InsertItemsDistinct(cfg, s, -1, p);
    if found >= 0 {
      Same(cmp, s[found], p, x);
      Opposite(cmp, x, s[found], p);
    }
    if cmp(x, p) == 0 {
      FindMember(cmp, x, r, at);
    } else {
      var f := FirstMatch(cmp, x, s);
      if f >= 0 {
        var k: nat := if found >= 0 || f < at then f else f + 1;
        assert r[k] == s[f];
        FindMember(cmp, x, r, k);
      }
    }
  }

  lemma FindNothing(cmp: Comparator, x: Pointer, s: seq<Pointer>)
    requires forall k :: 0 <= k < |s| ==> cmp(x, s[k]) != 0
    ensures Find(cmp, x, s) == None
  {
  }

  lemma FindWithout(cmp: Comparator, s: seq<Pointer>, found: nat, x: Pointer)
    requires Preorder(cmp) && Distinct(cmp, s) && found < |s|
    ensures Find(cmp, x, Without(s, found))
         == if cmp(x, s[found]) == 0 then None else Find(cmp, x, s)
  {
    var r := Without(s, found);
    assert forall k :: 0 <= k < |r| ==> r[k] == s[if k < found then k else k + 1];
    assert Distinct(cmp, r);
    if cmp(x, s[found]) == 0 {
      forall k | 0 <= k < |r|
        ensures cmp(x, r[k]) != 0
      {
        Same(cmp, s[found], x, r[k]);
      }
      FindNothing(cmp, x, r);
    } else {
      var f := FirstMatch(cmp, x, s);
      if f >= 0 {
        FindMember(cmp, x, r, if f > found then f - 1 else f);
      } else {
        FindNothing(cmp, x, r);
      }
    }
  }

  lemma FindAfterDrop(cfg: Config, s: seq<Pointer>, p: Pointer, x: Pointer)
    requires Preorder(cfg.cmp) && Distinct(cfg.cmp, s)
    ensures Find(cfg.cmp, x, EditItems(cfg, s, Drop(p)))
         == if cfg.cmp(x, p) == 0 then None else Find(cfg.cmp, x, s)
  {
    var cmp := cfg.cmp;
    var found := FirstMatch(cmp, p, s);
    if found >= 0 {
      Same(cmp, s[found], p, x);
      Opposite(cmp, x, s[found], p);
      FindWithout(cmp, s, found, x);
    } else if cmp(x, p) == 0 {
      forall k | 0 <= k < |s|
        ensures cmp(x, s[k]) != 0
      {
        Same(cmp, p, x, s[k]);
      }
      FindNothing(cmp, x, s);
    }
  }

  /** A sorted list without duplicates is an ordered map from the classes of equal elements to the
      pointer last added: it is strictly sorted and finds exactly that pointer in every class. */
  lemma {:induction false} OrderedMap(cfg: Config, edits: seq<Edit>, x: Pointer)
    requires Preorder(cfg.cmp) && cfg.sorted && !cfg.duplicates
    ensures var s := Items(cfg, edits);
      && Sorted(cfg.cmp, s) && Distinct(cfg.cmp, s)
      && Find(cfg.cmp, x, s) == Latest(cfg.cmp, edits, x)
  {
    RunInv(cfg, Ops(cfg, edits));
    if edits != [] {
      OrderedMap(cfg, edits[..|edits| - 1], x);
      ItemsStep(cfg, edits);
      var before := Items(cfg, edits[..|edits| - 1]);
      match edits[|edits| - 1]
      case Add(p) => FindAfterAdd(cfg, before, p, x);
      case Drop(p) => FindAfterDrop(cfg, before, p, x);
    }
  }

  /** The pointer last inserted in the class of x, unless the list was cleared or a removal took it. */
  ghost function Holder(cfg: Config, ops: seq<Op>, x: Pointer): Option<Pointer> {
    if ops == [] then None
    else
      var before := ops[..|ops| - 1];
      var s := Run(cfg, before).items;
      match ops[|ops| - 1]
      case Insert(_, p) => if cfg.cmp(x, p) == 0 then Some(p) else Holder(cfg, before, x)
      case Remove(i) =>
        if 0 <= i < |s| && cfg.cmp(x, s[i]) == 0 then None else Holder(cfg, before, x)
      case Clear => None
  }

  /** The same for any operations, removals at any index included. */
  lemma {:induction false} OrderedMapAnyRun(cfg: Config, ops: seq<Op>, x: Pointer)
    requires Preorder(cfg.cmp) && cfg.sorted && !cfg.duplicates
    ensures var s := Run(cfg, ops).items;
      && Sorted(cfg.cmp, s) && Distinct(cfg.cmp, s)
      && Find(cfg.cmp, x, s) == Holder(cfg, ops, x)
  {
    RunInv(cfg, ops);
    if ops != [] {
      var before := ops[..|ops| - 1];
      var st := Run(cfg, before);
      RunInv(cfg, before);
      OrderedMapAnyRun(cfg, before, x);
      match ops[|ops| - 1]
      case Insert(index, p) =>
        InsertStateItems(cfg, st, index, p);
        assert InsertItems(cfg, st.items, index, p) == InsertItems(cfg, st.items, -1, p);
        FindAfterAdd(cfg, st.items, p, x);
      case Remove(i) =>
        if 0 <= i < |st.items| {
          FindWithout(cfg.cmp, st.items, i, x);
        }
      case Clear =>
    }
  }

  // ---------------------------------------------------------------- stable sort

  /** The pointers of the class of x still there when each drop takes the oldest. */
  ghost function Queue(cmp: Comparator, edits: seq<Edit>, x: Pointer): seq<Pointer> {
    if edits == [] then []
    else
      var q := Queue(cmp, edits[..|edits| - 1], x);
      var last := edits[|edits| - 1];
      if cmp(last.p, x) != 0 then q
      else if last.Add? then q + [last.p]
      else if q == [] then [] else q[1..]
  }

  lemma SelectSplit(cmp: Comparator, x: Pointer, a: seq<Pointer>, p: Pointer, b: seq<Pointer>)
    ensures Select(cmp, x, true, a + [p] + b)
         == Select(cmp, x, true, a) + (if cmp(p, x) == 0 then [p] else []) + Select(cmp, x, true, b)
  {
    SelectConcat(cmp, x, true, a + [p], b);
    SelectConcat(cmp, x, true, a, [p]);
    SelectOne(cmp, x, true, p);
  }

  lemma OtherClass(cmp: Comparator, p: Pointer, x: Pointer, s: seq<Pointer>)
    requires Preorder(cmp) && cmp(p, x) == 0
    requires forall k :: 0 <= k < |s| ==> cmp(p, s[k]) != 0
    ensures Select(cmp, x, true, s) == []
  {
    forall y | y in s
      ensures cmp(y, x) != 0
    {
      Same(cmp, x, p, y);
    }
    SelectNothing(cmp, x, s);
  }

  lemma SelectInserted(cmp: Comparator, x: Pointer, a: seq<Pointer>, p: Pointer, b: seq<Pointer>)
    requires cmp(p, x) == 0 ==> Select(cmp, x, true, b) == []
    ensures Select(cmp, x, true, a + [p] + b)
         == Select(cmp, x, true, a + b) + if cmp(p, x) == 0 then [p] else []
  {
    SelectConcat(cmp, x, true, a, b);
    SelectSplit(cmp, x, a, p, b);
  }

  lemma SelectAfterInsert(cmp: Comparator, s: seq<Pointer>, p: Pointer, x: Pointer)
    requires Preorder(cmp)
    ensures var k := InsertionPoint(cmp, p, s);
      Select(cmp, x, true, InsertAt(s, k, p))
      == Select(cmp, x, true, s) + if cmp(p, x) == 0 then [p] else []
  {
    var k := InsertionPoint(cmp, p, s);
    var a, b := s[..k], s[k..];
    assert s == a + b;
    if cmp(p, x) == 0 {
      OtherClass(cmp, p, x, b);
    }
    SelectInserted(cmp, x, a, p, b);
  }

  lemma SelectWithout(cmp: Comparator, x: Pointer, a: seq<Pointer>, y: Pointer, b: seq<Pointer>)
    requires cmp(y, x) == 0 ==> Select(cmp, x, true, a) == []
    ensures var q := Select(cmp, x, true, a + [y] + b);
      Select(cmp, x, true, a + b) == if cmp(y, x) != 0 then q else if q == [] then [] else q[1..]
  {
    SelectSplit(cmp, x, a, y, b);
    SelectConcat(cmp, x, true, a, b);
    var q, q' := Select(cmp, x, true, a), Select(cmp, x, true, b);
    if cmp(y, x) != 0 {
      assert q + [] + q' == q + q';
    } else {
      assert q + [y] + q' == [y] + q';
      assert ([y] + q')[1..] == q' == q + q';
    }
  }

  lemma SelectAfterDrop(cfg: Config, s: seq<Pointer>, p: Pointer, x: Pointer)
    requires Preorder(cfg.cmp)
    ensures var q := Select(cfg.cmp, x, true, s);
      Select(cfg.cmp, x, true, EditItems(cfg, s, Drop(p)))
      == if cfg.cmp(p, x) != 0 then q else if q == [] then [] else q[1..]
  {
    var cmp := cfg.cmp;
    var f := FirstMatch(cmp, p, s);
    if f < 0 {
      if cmp(p, x) == 0 {
        OtherClass(cmp, p, x, s);
      }
    } else {
      var a, b := s[..f], s[f + 1..];
      assert s == a + [s[f]] + b;
      Same(cmp, s[f], p, x);
      if cmp(p, x) == 0 {
        OtherClass(cmp, p, x, a);
      }
      SelectWithout(cmp, x, a, s[f], b);
    }
  }

  /** A sorted list with duplicates keeps one first-in first-out queue for each class. */
  lemma {:induction false} SortedQueues(cfg: Config, edits: seq<Edit>, x: Pointer)
    requires Preorder(cfg.cmp) && cfg.sorted && cfg.duplicates
    ensures var s := Items(cfg, edits);
      && Sorted(cfg.cmp, s)
      && Select(cfg.cmp, x, true, s) == Queue(cfg.cmp, edits, x)
  {
    RunInv(cfg, Ops(cfg, edits));
    if edits != [] {
      SortedQueues(cfg, edits[..|edits| - 1], x);
      ItemsStep(cfg, edits);
      var before := Items(cfg, edits[..|edits| - 1]);
      match edits[|edits| - 1]
      case Add(p) => SelectAfterInsert(cfg.cmp, before, p, x);
      case Drop(p) => SelectAfterDrop(cfg, before, p, x);
    }
  }

  /** t is s sorted, equal elements keeping their order. */
  ghost predicate IsStableSort(cmp: Comparator, s: seq<Pointer>, t: seq<Pointer>) {
    Sorted(cmp, t) && forall x :: Select(cmp, x, true, t) == Select(cmp, x, true, s)
  }

  lemma SelectLast(cmp: Comparator, s: seq<Pointer>, x: Pointer)
    requires s != []
    ensures var q := Select(cmp, x, true, s);
      if cmp(s[|s| - 1], x) == 0
      then q != [] && q[|q| - 1] == s[|s| - 1] && q[..|q| - 1] == Select(cmp, x, true, s[..|s| - 1])
      else q == Select(cmp, x, true, s[..|s| - 1])
  {
    var q := Select(cmp, x, true, s[..|s| - 1]);
    assert q + [] == q;
  }

  lemma SelfMember(cmp: Comparator, s: seq<Pointer>, t: seq<Pointer>, a: Pointer)
    requires Preorder(cmp) && a in s && Select(cmp, a, true, t) == Select(cmp, a, true, s)
    ensures a in t
  {
    SelectMembers(cmp, a, true, s);
    SelectMembers(cmp, a, true, t);
    assert cmp(a, a) == 0;
    assert a in Select(cmp, a, true, s);
  }

  lemma LastIsGreatest(cmp: Comparator, s: seq<Pointer>, a: Pointer)
    requires Preorder(cmp) && Sorted(cmp, s) && a in s
    ensures cmp(a, s[|s| - 1]) <= 0
  {
    var i :| 0 <= i < |s| && s[i] == a;
    assert cmp(a, a) == 0;
  }

  /** The last element of each is the last of the greatest class. */
  lemma LastsEqual(cmp: Comparator, s: seq<Pointer>, t: seq<Pointer>)
    requires Preorder(cmp) && Sorted(cmp, s) && IsStableSort(cmp, s, t) && s != []
    ensures t != [] && s[|s| - 1] == t[|t| - 1]
  {
    var a := s[|s| - 1];
    assert Select(cmp, a, true, t) == Select(cmp, a, true, s);
    SelfMember(cmp, s, t, a);
    var b := t[|t| - 1];
    assert Select(cmp, b, true, t) == Select(cmp, b, true, s);
    SelfMember(cmp, t, s, b);
    LastIsGreatest(cmp, s, b);
    LastIsGreatest(cmp, t, a);
    assert cmp(b, a) == 0 && cmp(a, a) == 0;
    SelectLast(cmp, s, a);
    SelectLast(cmp, t, a);
  }

  lemma FrontsAgree(cmp: Comparator, s: seq<Pointer>, t: seq<Pointer>, x: Pointer)
    requires s != [] && t != [] && s[|s| - 1] == t[|t| - 1]
    requires Select(cmp, x, true, t) == Select(cmp, x, true, s)
    ensures Select(cmp, x, true, t[..|t| - 1]) == Select(cmp, x, true, s[..|s| - 1])
  {
    SelectLast(cmp, s, x);
    SelectLast(cmp, t, x);
  }

  lemma FrontsStable(cmp: Comparator, s: seq<Pointer>, t: seq<Pointer>)
    requires s != [] && t != [] && s[|s| - 1] == t[|t| - 1]
    requires Sorted(cmp, s) && IsStableSort(cmp, s, t)
    ensures Sorted(cmp, s[..|s| - 1]) && IsStableSort(cmp, s[..|s| - 1], t[..|t| - 1])
  {
    var s', t' := s[..|s| - 1], t[..|t| - 1];
    forall x
      ensures Select(cmp, x, true, t') == Select(cmp, x, true, s')
    {
      FrontsAgree(cmp, s, t, x);
    }
  }

  /** The stable sort of a sequence is unique. */
  lemma {:induction false} StableSortUnique(cmp: Comparator, s: seq<Pointer>, t: seq<Pointer>)
    requires Preorder(cmp) && Sorted(cmp, s) && IsStableSort(cmp, s, t)
    ensures s == t
    decreases |s|
  {
    if s == [] {
      if t != [] {
        SelfMember(cmp, t, s, t[0]);
      }
    } else {
      LastsEqual(cmp, s, t);
      FrontsStable(cmp, s, t);
      StableSortUnique(cmp, s[..|s| - 1], t[..|t| - 1]);
      assert s == s[..|s| - 1] + [s[|s| - 1]] && t == t[..|t| - 1] + [t[|t| - 1]];
    }
  }

  function Adds(ps: seq<Pointer>): (edits: seq<Edit>)
    ensures |edits| == |ps|
    ensures forall i :: 0 <= i < |ps| ==> edits[i] == Add(ps[i])
  {
    seq(|ps|, i requires 0 <= i < |ps| => Add(ps[i]))
  }

  lemma {:induction false} QueueOfAdds(cmp: Comparator, ps: seq<Pointer>, x: Pointer)
    ensures Queue(cmp, Adds(ps), x) == Select(cmp, x, true, ps)
  {
    if ps != [] {
      QueueOfAdds(cmp, ps[..|ps| - 1], x);
      assert Adds(ps)[..|ps| - 1] == Adds(ps[..|ps| - 1]);
    }
  }

  /** Adding pointers to a sorted list with duplicates sorts them stably. */
  lemma AddsSortStably(cfg: Config, ps: seq<Pointer>)
    requires Preorder(cfg.cmp) && cfg.sorted && cfg.duplicates
    ensures IsStableSort(cfg.cmp, ps, Items(cfg, Adds(ps)))
  {
    forall x
      ensures Select(cfg.cmp, x, true, Items(cfg, Adds(ps))) == Select(cfg.cmp, x, true, ps)
    {
      SortedQueues(cfg, Adds(ps), x);
      QueueOfAdds(cfg.cmp, ps, x);
    }
    SortedQueues(cfg, Adds(ps), NULL);
  }

  // ---------------------------------------------------------------- last mentions

  /** Each element of ps that is not equal to a later one, in order. */
  ghost function LastMentions(cmp: Comparator, ps: seq<Pointer>): seq<Pointer> {
    if ps == [] then []
    else
      var rest := LastMentions(cmp, ps[1..]);
      if MentionedAgain(cmp, ps) then rest else [ps[0]] + rest
  }

  ghost predicate MentionedAgain(cmp: Comparator, ps: seq<Pointer>)
    requires ps != []
  {
    exists i :: 1 <= i < |ps| && cmp(ps[0], ps[i]) == 0
  }

  lemma MentionedLater(cmp: Comparator, ps: seq<Pointer>, p: Pointer)
    requires ps != []
    ensures MentionedAgain(cmp, ps + [p]) <==> MentionedAgain(cmp, ps) || cmp(ps[0], p) == 0
  {
    var all := ps + [p];
    assert all[|ps|] == p;
    if i :| 1 <= i < |ps| && cmp(ps[0], ps[i]) == 0 {
      assert all[i] == ps[i];
    }
  }

  lemma {:induction false} LastMentionsAdd(cmp: Comparator, ps: seq<Pointer>, p: Pointer)
    ensures LastMentions(cmp, ps + [p]) == Select(cmp, p, false, LastMentions(cmp, ps)) + [p]
  {
    var all := ps + [p];
    if ps == [] {
      assert all[1..] == [];
    } else {
      var first, rest := ps[0], LastMentions(cmp, ps[1..]);
      LastMentionsAdd(cmp, ps[1..], p);
      assert all[1..] == ps[1..] + [p] && all[0] == first;
      SelectConcat(cmp, p, false, [first], rest);
      SelectOne(cmp, p, false, first);
      MentionedLater(cmp, ps, p);
    }
  }

  lemma AppendsAtEnd(cfg: Config, s: seq<Pointer>, p: Pointer)
    requires !cfg.sorted && !cfg.duplicates
    ensures InsertItems(cfg, s, -1, p) == Select(cfg.cmp, p, false, s) + [p]
  {
  }

  lemma ItemsAfterAdd(cfg: Config, ps: seq<Pointer>, p: Pointer)
    requires Preorder(cfg.cmp)
    ensures Items(cfg, Adds(ps + [p])) == InsertItems(cfg, Items(cfg, Adds(ps)), -1, p)
  {
    var edits := Adds(ps + [p]);
    assert edits[..|edits| - 1] == Adds(ps);
    ItemsStep(cfg, edits);
  }

  /** Adding pointers to an unsorted list without duplicates keeps the last mentions. */
  lemma {:induction false} AddsKeepLastMentions(cfg: Config, ps: seq<Pointer>)
    requires Preorder(cfg.cmp) && !cfg.sorted && !cfg.duplicates
    ensures Items(cfg, Adds(ps)) == LastMentions(cfg.cmp, ps)
  {
    if ps != [] {
      var front, p := ps[..|ps| - 1], ps[|ps| - 1];
      assert ps == front + [p];
      AddsKeepLastMentions(cfg, front);
      ItemsAfterAdd(cfg, front, p);
      AppendsAtEnd(cfg, LastMentions(cfg.cmp, front), p);
      LastMentionsAdd(cfg.cmp, front, p);
    }
  }
}
