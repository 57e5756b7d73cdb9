/** What every operation of the array list does to its contents, its allocated size and
    the work done by reallocation, as functions on values. The class in Arraylist.dfy is
    proved against these functions; ArraylistRuns.dfy proves what they promise. */
module ArraylistSpec {

  /** An address; NULL is an ordinary element of a list. */
  type Pointer = nat
  const NULL: Pointer := 0

  type Comparator = (Pointer, Pointer) -> int

  /** What the code asks of callback_cmp: it is called with its arguments in both orders. */
  ghost predicate Preorder(cmp: Comparator) {
    && (forall a, b :: cmp(a, b) < 0 <==> cmp(b, a) > 0)
    && (forall a, b, c {:trigger cmp(a, b), cmp(b, c), cmp(a, c)} ::
          cmp(a, b) <= 0 && cmp(b, c) <= 0 ==> cmp(a, c) <= 0)
  }

  /** arraylist_cmp_default_cb */
  function DefaultCmp(a: Pointer, b: Pointer): int {
    if a < b then -1 else if a > b then 1 else 0
  }

  lemma DefaultCmpIsPreorder()
    ensures Preorder(DefaultCmp)
    ensures forall a, b :: DefaultCmp(a, b) == 0 <==> a == b
  {
    forall a: nat, b: nat, c: nat | DefaultCmp(a, b) <= 0 && DefaultCmp(b, c) <= 0
      ensures DefaultCmp(a, c) <= 0
    {
    }
  }

  ghost predicate Sorted(cmp: Comparator, s: seq<Pointer>) {
    forall i, j :: 0 <= i < j < |s| ==> cmp(s[i], s[j]) <= 0
  }

  ghost predicate Distinct(cmp: Comparator, s: seq<Pointer>) {
    forall i, j :: 0 <= i < j < |s| ==> cmp(s[i], s[j]) != 0
  }

  // ---------------------------------------------------------------- searching

  /** Linear search: index of the first element equal to p, or -1. */
  function FirstMatch(cmp: Comparator, p: Pointer, s: seq<Pointer>): (r: int)
    ensures -1 <= r < |s|
    ensures r >= 0 ==> cmp(p, s[r]) == 0
    ensures forall i :: 0 <= i < (if r >= 0 then r else |s|) ==> cmp(p, s[i]) != 0
  {
    if s == [] then -1
    else
      var r := FirstMatch(cmp, p, s[..|s| - 1]);
      if r >= 0 then r else if cmp(p, s[|s| - 1]) == 0 then |s| - 1 else -1
  }

  /** Where a sorted list takes p: after everything that is not greater. */
  function InsertionPoint(cmp: Comparator, p: Pointer, s: seq<Pointer>): (r: nat)
    ensures r <= |s|
    ensures forall i :: r <= i < |s| ==> cmp(p, s[i]) < 0
    ensures r > 0 ==> cmp(p, s[r - 1]) >= 0
  {
    if s == [] || cmp(p, s[|s| - 1]) >= 0 then |s|
    else InsertionPoint(cmp, p, s[..|s| - 1])
  }

  // ---------------------------------------------------------------- operations

  datatype Config = Config(sizeMin: nat, sorted: bool, duplicates: bool, cmp: Comparator)

  /** released: the elements removed so far, in order; each one is passed to callback_free
      when there is one. copied: slots moved by realloc so far. */
  datatype State = State(items: seq<Pointer>, alloc: nat, released: seq<Pointer>, copied: nat)

  function New(sizeMin: nat): State {
    State([], sizeMin, [], 0)
  }

  function GrownAlloc(size: nat, alloc: nat): (a: nat)
    ensures a >= alloc
  {
    if size + 1 <= alloc then alloc else if alloc < 2 then 2 else alloc + alloc / 2
  }

  function Grow(st: State): State {
    var a := GrownAlloc(|st.items|, st.alloc);
    st.(alloc := a, copied := st.copied + if a == st.alloc then 0 else st.alloc)
  }

  /** The new allocated size, when the last of size elements is about to go. */
  function ShrunkAlloc(sizeMin: nat, size: nat, alloc: nat): (a: nat)
    ensures a <= alloc
  {
    if alloc == 0 || alloc <= sizeMin then alloc
    else if alloc == 1 then 0
    else
      var a := alloc - alloc / 2;
      if size - 1 >= a then alloc else a
  }

  function Shrink(sizeMin: nat, st: State): State {
    var a := ShrunkAlloc(sizeMin, |st.items|, st.alloc);
    st.(alloc := a, copied := st.copied + if a == st.alloc then 0 else a)
  }

  function Without(s: seq<Pointer>, i: nat): (r: seq<Pointer>)
    requires i < |s|
    ensures |r| == |s| - 1
  {
    s[..i] + s[i + 1..]
  }

  function RemoveAt(sizeMin: nat, st: State, i: nat): (r: State)
    requires i < |st.items|
    ensures |r.items| == |st.items| - 1
  {
    Shrink(sizeMin, st).(items := Without(st.items, i), released := st.released + [st.items[i]])
  }

  /** Removes at i as long as the element there equals p. */
  ghost function RemoveRun(cfg: Config, st: State, i: nat, p: Pointer): (r: State)
    decreases |st.items|
  {
    if i < |st.items| && cfg.cmp(st.items[i], p) == 0
    then RemoveRun(cfg, RemoveAt(cfg.sizeMin, st, i), i, p)
    else st
  }

  /** Removes every element equal to p from index i on. */
  ghost function RemoveAll(cfg: Config, st: State, i: nat, p: Pointer): (r: State)
    requires i <= |st.items|
    decreases |st.items| - i
  {
    if i == |st.items| then st
    else if cfg.cmp(st.items[i], p) == 0 then RemoveAll(cfg, RemoveAt(cfg.sizeMin, st, i), i, p)
    else RemoveAll(cfg, st, i + 1, p)
  }

  function InsertAt(s: seq<Pointer>, i: nat, p: Pointer): (r: seq<Pointer>)
    requires i <= |s|
    ensures |r| == |s| + 1
  {
    s[..i] + [p] + s[i..]
  }

  function Position(index: int, size: nat): (r: nat)
    ensures r <= size
  {
    if index < 0 || index > size then size else index
  }

  /** The list once duplicates of p are gone, and the index asked for. */
  ghost function MakeRoom(cfg: Config, st: State, index: int, p: Pointer): (State, int) {
    if cfg.sorted then
      var found := FirstMatch(cfg.cmp, p, st.items);
      if found >= 0 && !cfg.duplicates
      then (RemoveRun(cfg, st, found, p), found)
      else (st, InsertionPoint(cfg.cmp, p, st.items))
    else if !cfg.duplicates then (RemoveAll(cfg, st, 0, p), index)
    else (st, index)
  }

  ghost function InsertState(cfg: Config, st: State, index: int, p: Pointer): State {
    var (room, at) := MakeRoom(cfg, st, index, p);
    Grow(room).(items := InsertAt(room.items, Position(at, |room.items|), p))
  }

  ghost function InsertIndex(cfg: Config, st: State, index: int, p: Pointer): nat {
    var (room, at) := MakeRoom(cfg, st, index, p);
    Position(at, |room.items|)
  }

  function RemoveState(sizeMin: nat, st: State, index: int): State {
    if 0 <= index < |st.items| then RemoveAt(sizeMin, st, index) else st
  }

  function ClearState(sizeMin: nat, st: State): State {
    st.(items := [], alloc := sizeMin, released := st.released + st.items)
  }

  // ---------------------------------------------------------------- invariant

  ghost predicate Inv(cfg: Config, st: State) {
    && |st.items| <= st.alloc
    && 2 * st.alloc >= cfg.sizeMin
    && (cfg.sorted ==> Sorted(cfg.cmp, st.items))
    && (!cfg.duplicates ==> Distinct(cfg.cmp, st.items))
  }
}
