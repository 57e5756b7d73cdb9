/** The growable array: its fields are updated in place as in wee-arraylist.c, and every method
    is proved against the function of ArraylistSpec with the same name. */
module ArraylistClass {
  import opened Text
  import opened ArraylistSpec
  import opened ArraylistRuns

  // ---------------------------------------------------------------- facts about sorted lists

  lemma GreaterBelow(cmp: Comparator, s: seq<Pointer>, p: Pointer, j: nat)
    requires Preorder(cmp) && Sorted(cmp, s) && j < |s| && cmp(p, s[j]) > 0
    ensures forall i :: 0 <= i <= j ==> cmp(p, s[i]) > 0
  {
    forall i | 0 <= i <= j
      ensures cmp(p, s[i]) > 0
    {
      assert i < j ==> cmp(s[i], s[j]) <= 0;
      assert cmp(p, s[j]) > 0;
    }
  }

  lemma LessAbove(cmp: Comparator, s: seq<Pointer>, p: Pointer, j: nat)
    requires Preorder(cmp) && Sorted(cmp, s) && j < |s| && cmp(p, s[j]) < 0
    ensures forall i :: j <= i < |s| ==> cmp(p, s[i]) < 0
  {
    forall i | j <= i < |s|
      ensures cmp(p, s[i]) < 0
    {
      assert j < i ==> cmp(s[j], s[i]) <= 0;
      Opposite(cmp, p, s[i], s[j]);
      assert cmp(s[j], p) > 0;
    }
  }

  lemma EqualSides(cmp: Comparator, s: seq<Pointer>, p: Pointer, j: nat)
    requires Preorder(cmp) && Sorted(cmp, s) && j < |s| && cmp(p, s[j]) == 0
    ensures forall i :: 0 <= i < j ==> cmp(p, s[i]) >= 0
    ensures forall i :: j < i < |s| ==> cmp(p, s[i]) <= 0
  {
    forall i | 0 <= i < j
      ensures cmp(p, s[i]) >= 0
    {
      assert cmp(s[i], s[j]) <= 0;
      Same(cmp, s[j], p, s[i]);
      Opposite(cmp, s[i], p, s[j]);
    }
    forall i | j < i < |s|
      ensures cmp(p, s[i]) <= 0
    {
      assert cmp(s[j], s[i]) <= 0;
      Same(cmp, s[j], p, s[i]);
    }
  }

  lemma InsertionPointUnique(cmp: Comparator, s: seq<Pointer>, p: Pointer, k: nat)
    requires k <= |s| && (k > 0 ==> cmp(p, s[k - 1]) >= 0)
    requires forall i :: k <= i < |s| ==> cmp(p, s[i]) < 0
    ensures InsertionPoint(cmp, p, s) == k
  {
  }

  lemma FirstMatchUnique(cmp: Comparator, s: seq<Pointer>, p: Pointer, k: nat)
    requires k < |s| && cmp(p, s[k]) == 0
    requires forall i :: 0 <= i < k ==> cmp(p, s[i]) != 0
    ensures FirstMatch(cmp, p, s) == k
  {
  }

  lemma NoMatch(cmp: Comparator, s: seq<Pointer>, p: Pointer, k: nat)
    requires k <= |s|
    requires forall i :: 0 <= i < k ==> cmp(p, s[i]) > 0
    requires forall i :: k <= i < |s| ==> cmp(p, s[i]) < 0
    ensures FirstMatch(cmp, p, s) == -1 && InsertionPoint(cmp, p, s) == k
  {
  }

  /** The index_insert returned by a search: -1 stands for the end when nothing was found. */
  ghost function InsertResult(cmp: Comparator, p: Pointer, s: seq<Pointer>): int {
    var k := InsertionPoint(cmp, p, s);
    if FirstMatch(cmp, p, s) < 0 && k == |s| then -1 else k
  }

  // ---------------------------------------------------------------- the list

  class Arraylist {
    var size: nat
    var sizeAlloc: nat
    const sizeAllocMin: nat
    const sorted: bool
    const allowDuplicates: bool
    const cmp: Comparator
    var data: array<Pointer>
    ghost var released: seq<Pointer>
    ghost var copied: nat

    function Cfg(): Config {
      Config(sizeAllocMin, sorted, allowDuplicates, cmp)
    }

    ghost predicate Shape()
      reads this, data
    {
      && data.Length == sizeAlloc
      && size <= sizeAlloc
      && forall i :: size <= i < sizeAlloc ==> data[i] == NULL
    }

    ghost function Items(): seq<Pointer>
      reads this, data
      requires Shape()
    {
      data[..size]
    }

    ghost function Model(): State
      reads this, data
      requires Shape()
    {
      State(Items(), sizeAlloc, released, copied)
    }

    ghost predicate Valid()
      reads this, data
    {
      Shape() && Preorder(cmp) && Inv(Cfg(), Model())
    }

    constructor (initialSize: nat, sorted: bool, allowDuplicates: bool, callbackCmp: Option<Comparator>)
      requires callbackCmp.Some? ==> Preorder(callbackCmp.value)
      ensures Valid() && fresh(data)
      ensures Model() == New(initialSize)
      ensures Cfg() == Config(initialSize, sorted, allowDuplicates,
                              if callbackCmp.Some? then callbackCmp.value else DefaultCmp)
    {
      size := 0;
      sizeAlloc := initialSize;
      sizeAllocMin := initialSize;
      data := new Pointer[initialSize](_ => NULL);
      this.sorted := sorted;
      this.allowDuplicates := allowDuplicates;
      if callbackCmp.Some? {
        cmp := callbackCmp.value;
      } else {
        cmp := DefaultCmp;
      }
      released := [];
      copied := 0;
      new;
      DefaultCmpIsPreorder();
    }

    /** arraylist_new: NULL for a negative size. */
    static method Create(initialSize: int, sorted: bool, allowDuplicates: bool, callbackCmp: Option<Comparator>)
      returns (list: Arraylist?)
      requires callbackCmp.Some? ==> Preorder(callbackCmp.value)
      ensures list == null <==> initialSize < 0
      ensures list != null ==>
                && fresh(list) && fresh(list.data) && list.Valid()
                && list.Model() == New(initialSize) && list.Items() == [] && list.sizeAlloc == initialSize
                && list.Cfg() == Config(initialSize, sorted, allowDuplicates,
                                        if callbackCmp.Some? then callbackCmp.value else DefaultCmp)
    {
      if initialSize < 0 {
        return null;
      }
      list := new Arraylist(initialSize, sorted, allowDuplicates, callbackCmp);
    }

    method Size() returns (n: nat)
      requires Valid()
      ensures n == |Items()|
    {
      n := size;
    }

    method Get(index: int) returns (p: Pointer)
      requires Valid()
      ensures p == if 0 <= index < |Items()| then Items()[index] else NULL
    {
      if index < 0 || index >= size {
        return NULL;
      }
      p := data[index];
    }

    /** realloc: a new block with the slots that fit copied over. */
    method Reallocate(n: nat) returns (d: array<Pointer>)
      ensures fresh(d) && d.Length == n
      ensures forall i :: 0 <= i < n && i < data.Length ==> d[i] == data[i]
    {
      d := new Pointer[n];
      forall i | 0 <= i < n && i < data.Length {
        d[i] := data[i];
      }
    }

    method GrowData()
      requires Valid()
      modifies this`sizeAlloc, this`data, this`copied
      ensures Valid() && size + 1 <= sizeAlloc
      ensures data == old(data) || fresh(data)
      ensures Model() == Grow(old(Model()))
      ensures old(size < sizeAlloc) ==> sizeAlloc == old(sizeAlloc)
      ensures old(size == sizeAlloc) ==> sizeAlloc == if old(sizeAlloc) < 2 then 2 else 3 * old(sizeAlloc) / 2
    {
      if size + 1 <= sizeAlloc {
        return;
      }
      ghost var items := Items();
      var newSizeAlloc := if sizeAlloc < 2 then 2 else sizeAlloc + sizeAlloc / 2;
      var d := Reallocate(newSizeAlloc);
      forall i | sizeAlloc <= i < newSizeAlloc {
        d[i] := NULL;
      }
      data := d;
      copied := copied + sizeAlloc;
      sizeAlloc := newSizeAlloc;
      assert data[..size] == items;
    }

    /** Called when the last slot in use has been emptied and size still counts it. */
    method ShrinkData()
      requires Shape() && 0 < size && data[size - 1] == NULL
      modifies this`sizeAlloc, this`data, this`copied
      ensures sizeAlloc == ShrunkAlloc(sizeAllocMin, size, old(sizeAlloc)) == data.Length
      ensures var half := (old(sizeAlloc) + 1) / 2;
        sizeAlloc == if old(sizeAlloc) <= sizeAllocMin then old(sizeAlloc)
                     else if old(sizeAlloc) == 1 then 0
                     else if size <= half then half else old(sizeAlloc)
      ensures copied == old(copied) + if sizeAlloc == old(sizeAlloc) then 0 else sizeAlloc
      ensures data == old(data) || fresh(data)
      ensures size - 1 <= sizeAlloc
      ensures data[..size - 1] == old(data[..size - 1])
      ensures forall i :: size - 1 <= i < sizeAlloc ==> data[i] == NULL
    {
      if sizeAlloc == 0 || sizeAlloc <= sizeAllocMin {
        return;
      }
      if sizeAlloc == 1 {
        data := new Pointer[0];
        sizeAlloc := 0;
        return;
      }
      var newSizeAlloc := sizeAlloc - sizeAlloc / 2;
      if size - 1 >= newSizeAlloc {
        return;
      }
      var d := Reallocate(newSizeAlloc);
      data := d;
      sizeAlloc := newSizeAlloc;
      copied := copied + newSizeAlloc;
    }

    // -------------------------------------------------------------- searching

    /** The fast paths and the loop of arraylist_binary_search. */
    method Locate(p: Pointer) returns (index: int, insert: int)
      requires Valid() && sorted && size > 0
      ensures -1 <= index < size
      ensures index >= 0 ==> cmp(p, data[index]) == 0 && insert == index + 1
      ensures index < 0 ==> -1 <= insert < size
      ensures index < 0 ==> forall i :: 0 <= i < (if insert < 0 then size else insert) ==> cmp(p, data[i]) > 0
      ensures index < 0 && insert >= 0 ==> forall i :: insert <= i < size ==> cmp(p, data[i]) < 0
    {
      ghost var s := Items();
      var start, end := 0, size - 1;
      var rc := cmp(p, data[end]);
      if rc == 0 {
        return end, end + 1;
      }
      if rc > 0 {
        GreaterBelow(cmp, s, p, end);
        return -1, -1;
      }
      if size == 1 {
        return -1, 0;
      }
      rc := cmp(p, data[start]);
      if rc == 0 {
        return start, start + 1;
      }
      if rc < 0 {
        LessAbove(cmp, s, p, start);
        return -1, start;
      }
      if size == 2 {
        return -1, end;
      }
      start, end := start + 1, end - 1;
      index, insert := -1, -1;
      while start <= end
        invariant 1 <= start <= end + 1 <= size - 1
        invariant forall i :: 0 <= i < start ==> cmp(p, s[i]) > 0
        invariant forall i :: end < i < size ==> cmp(p, s[i]) < 0
        invariant index == -1 && (start > end ==> insert == start)
        decreases end - start
      {
        var middle := (start + end) / 2;
        rc := cmp(p, data[middle]);
        if rc == 0 {
          return middle, middle + 1;
        }
        if rc < 0 {
          LessAbove(cmp, s, p, middle);
          end := middle - 1;
        } else {
          GreaterBelow(cmp, s, p, middle);
          start := middle + 1;
        }
        if start > end {
          insert := if rc < 0 then middle else middle + 1;
        }
      }
    }

    /** The part after the label "end" of arraylist_binary_search: first and last duplicate. */
    method Widen(p: Pointer, found: nat) returns (first: nat, next: nat)
      requires Valid() && sorted && found < size && cmp(p, data[found]) == 0
      ensures first == FirstMatch(cmp, p, Items())
      ensures next == InsertionPoint(cmp, p, Items())
    {
      first := WidenDown(p, found);
      next := WidenUp(p, found);
    }

    method WidenDown(p: Pointer, found: nat) returns (first: nat)
      requires Valid() && sorted && found < size && cmp(p, data[found]) == 0
      ensures Valid() && first == FirstMatch(cmp, p, Items())
    {
      ghost var s := Items();
      EqualSides(cmp, s, p, found);
      var start := found - 1;
      while start >= 0
        invariant -1 <= start < found
        invariant forall i :: start < i <= found ==> cmp(p, s[i]) == 0
      {
        if cmp(p, data[start]) != 0 {
          GreaterBelow(cmp, s, p, start);
          break;
        }
        start := start - 1;
      }
      first := start + 1;
      FirstMatchUnique(cmp, s, p, first);
    }

    method WidenUp(p: Pointer, found: nat) returns (next: nat)
      requires Valid() && sorted && found < size && cmp(p, data[found]) == 0
      ensures next == InsertionPoint(cmp, p, Items())
    {
      ghost var s := Items();
      EqualSides(cmp, s, p, found);
      var end := found + 1;
      while end < size
        invariant found < end <= size
        invariant forall i :: found <= i < end ==> cmp(p, s[i]) == 0
      {
        if cmp(p, data[end]) != 0 {
          LessAbove(cmp, s, p, end);
          break;
        }
        end := end + 1;
      }
      next := end;
      InsertionPointUnique(cmp, s, p, next);
    }

    /** Binary search agrees with linear search, and the insertion point comes after all the
        elements that are equal. */
    method BinarySearch(p: Pointer) returns (r: Pointer, index: int, insert: int)
      requires Valid() && sorted && size > 0
      ensures index == FirstMatch(cmp, p, Items())
      ensures insert == InsertResult(cmp, p, Items())
      ensures r == if index >= 0 then Items()[index] else NULL
    {
      ghost var s := Items();
      index, insert := Locate(p);
      if index >= 0 && allowDuplicates {
        index, insert := Widen(p, index);
      } else if index >= 0 {
        OnlyMatch(s, p, index);
      } else {
        NoMatch(cmp, s, p, if insert < 0 then size else insert);
      }
      r := if index >= 0 then data[index] else NULL;
    }

    lemma OnlyMatch(s: seq<Pointer>, p: Pointer, k: nat)
      requires Preorder(cmp) && Sorted(cmp, s) && Distinct(cmp, s)
      requires k < |s| && cmp(p, s[k]) == 0
      ensures FirstMatch(cmp, p, s) == k && InsertionPoint(cmp, p, s) == k + 1
    {
      EqualSides(cmp, s, p, k);
      forall i | 0 <= i < |s| && i != k
        ensures cmp(p, s[i]) != 0
      {
        Same(cmp, s[k], p, s[i]);
        Opposite(cmp, s[i], p, s[k]);
      }
      InsertionPointUnique(cmp, s, p, k + 1);
    }

    method StandardSearch(p: Pointer) returns (r: Pointer, index: int, insert: int)
      requires Valid()
      ensures index == FirstMatch(cmp, p, Items()) && insert == -1
      ensures r == if index >= 0 then Items()[index] else NULL
    {
      ghost var s := Items();
      var i := 0;
      while i < size
        invariant 0 <= i <= size
        invariant forall k :: 0 <= k < i ==> cmp(p, s[k]) != 0
      {
        if cmp(data[i], p) == 0 {
          assert cmp(p, s[i]) == 0;
          return data[i], i, -1;
        }
        assert cmp(p, s[i]) != 0;
        i := i + 1;
      }
      return NULL, -1, -1;
    }

    method Search(p: Pointer) returns (r: Pointer, index: int, insert: int)
      requires Valid()
      ensures index == FirstMatch(cmp, p, Items())
      ensures insert == if sorted then InsertResult(cmp, p, Items()) else -1
      ensures r == if index >= 0 then Items()[index] else NULL
    {
      if size == 0 {
        return NULL, -1, -1;
      }
      if sorted {
        r, index, insert := BinarySearch(p);
      } else {
        r, index, insert := StandardSearch(p);
      }
    }

    // -------------------------------------------------------------- updates

    method RemoveElement(index: int) returns (removed: int)
      requires Valid()
      modifies this, data
      ensures Valid() && (data == old(data) || fresh(data))
      ensures Model() == RemoveState(sizeAllocMin, old(Model()), index)
      ensures removed == if 0 <= index < old(size) then index else -1
      ensures removed < 0 ==> Items() == old(Items()) && released == old(released)
      ensures removed >= 0 ==>
                && Items() == old(Items())[..index] + old(Items())[index + 1..]
                && released == old(released) + [old(Items())[index]]
    {
      if index < 0 || index >= size {
        return -1;
      }
      ghost var st := Model();
      RemoveAtKeepsInv(Cfg(), st, index);
      released := released + [data[index]];
      DropSlot(index);
      removed := index;
    }

    /** The part of arraylist_remove after the free callback. */
    method DropSlot(index: nat)
      requires Shape() && index < size
      modifies this`size, this`sizeAlloc, this`data, this`copied, data
      ensures Shape() && (data == old(data) || fresh(data))
      ensures Model() == Shrink(sizeAllocMin, old(Model())).(items := Without(old(Items()), index))
    {
      ghost var items := Items();
      CloseGap(index);
      ShrinkData();
      size := size - 1;
      assert data[..size] == Without(items, index);
    }

    /** The memmove and the memset of arraylist_remove. */
    method CloseGap(index: nat)
      requires Shape() && index < size
      modifies data
      ensures Shape() && data[size - 1] == NULL
      ensures data[..size - 1] == Without(old(Items()), index)
    {
      ghost var items := Items();
      if index < size - 1 {
        forall i | index <= i < size - 1 {
          data[i] := data[i + 1];
        }
        data[size - 1] := NULL;
      } else {
        data[index] := NULL;
      }
      assert data[..size - 1] == Without(items, index);
    }

    method InsertElement(index: int, p: Pointer) returns (inserted: nat)
      requires Valid()
      modifies this, data
      ensures Valid() && (data == old(data) || fresh(data))
      ensures Model() == InsertState(Cfg(), old(Model()), index, p)
      ensures inserted == InsertIndex(Cfg(), old(Model()), index, p)
      ensures inserted < |Items()| && Items()[inserted] == p
      ensures !sorted ==> inserted == if 0 <= index < |Items()| then index else |Items()| - 1
      ensures !sorted && allowDuplicates ==>
                Items() == old(Items())[..inserted] + [p] + old(Items())[inserted..]
    {
      ghost var st := Model();
      var at := MakeRoomFor(index, p);
      ghost var room := Model();
      if at < 0 || at > size {
        at := size;
      }
      GrowData();
      PutAt(at, p);
      assert Model() == InsertState(Cfg(), st, index, p);
      InsertKeepsInv(Cfg(), st, index, p);
      inserted := at;
    }

    /** The branches at the start of arraylist_insert, which remove duplicates. */
    method MakeRoomFor(index: int, p: Pointer) returns (at: int)
      requires Valid()
      modifies this, data
      ensures Valid() && (data == old(data) || fresh(data))
      ensures var (room, want) := MakeRoom(Cfg(), old(Model()), index, p);
        Model() == room && Position(at, size) == Position(want, size)
    {
      at := index;
      ghost var st := Model();
      if sorted {
        var r, insert;
        r, at, insert := Search(p);
        if at >= 0 && !allowDuplicates {
          RemoveEqualAt(at, p);
        } else {
          at := insert;
        }
      } else if !allowDuplicates {
        RemoveEqual(p);
      }
    }

    method RemoveEqualAt(at: nat, p: Pointer)
      requires Valid()
      modifies this, data
      ensures Valid() && (data == old(data) || fresh(data))
      ensures Model() == RemoveRun(Cfg(), old(Model()), at, p)
    {
      ghost var st := Model();
      while at < size && cmp(data[at], p) == 0
        invariant Valid() && (data == old(data) || fresh(data))
        invariant RemoveRun(Cfg(), Model(), at, p) == RemoveRun(Cfg(), st, at, p)
        decreases size
      {
        var _ := RemoveElement(at);
      }
    }

    method RemoveEqual(p: Pointer)
      requires Valid()
      modifies this, data
      ensures Valid() && (data == old(data) || fresh(data))
      ensures Model() == RemoveAll(Cfg(), old(Model()), 0, p)
    {
      ghost var st := Model();
      var i: nat := 0;
      while i < size
        invariant Valid() && (data == old(data) || fresh(data))
        invariant i <= size && RemoveAll(Cfg(), Model(), i, p) == RemoveAll(Cfg(), st, 0, p)
        decreases size - i
      {
        i := RemoveEqualTurn(i, p);
      }
    }

    method RemoveEqualTurn(i: nat, p: Pointer) returns (next: nat)
      requires Valid() && i < size
      modifies this, data
      ensures Valid() && (data == old(data) || fresh(data))
      ensures next <= size && size - next < old(size) - i
      ensures RemoveAll(Cfg(), Model(), next, p) == old(RemoveAll(Cfg(), Model(), i, p))
    {
      next := i;
      if cmp(data[i], p) == 0 {
        var _ := RemoveElement(i);
      } else {
        next := i + 1;
      }
    }

    /** The memmove and the assignment at the end of arraylist_insert. */
    method PutAt(at: nat, p: Pointer)
      requires Shape() && size + 1 <= sizeAlloc && at <= size
      modifies this`size, data
      ensures Shape() && Model() == old(Model()).(items := InsertAt(old(Items()), at, p))
    {
      ghost var items := Items();
      if at < size {
        forall i | at <= i < size {
          data[i + 1] := data[i];
        }
      }
      data[at] := p;
      size := size + 1;
      assert data[..size] == InsertAt(items, at, p);
    }

    method Add(p: Pointer) returns (inserted: nat)
      requires Valid()
      modifies this, data
      ensures Valid() && (data == old(data) || fresh(data))
      ensures Model() == InsertState(Cfg(), old(Model()), -1, p)
      ensures inserted == InsertIndex(Cfg(), old(Model()), -1, p)
      ensures inserted < |Items()| && Items()[inserted] == p
      ensures !sorted && allowDuplicates ==> Items() == old(Items()) + [p]
    {
      inserted := InsertElement(-1, p);
    }

    method ClearElements()
      requires Valid()
      modifies this, data
      ensures Valid() && (data == old(data) || fresh(data))
      ensures Model() == ClearState(sizeAllocMin, old(Model()))
      ensures Items() == [] && sizeAlloc == sizeAllocMin && released == old(released) + old(Items())
    {
      ghost var items := Items();
      ReleaseAll();
      if sizeAlloc != sizeAllocMin {
        data := new Pointer[sizeAllocMin](_ => NULL);
        sizeAlloc := sizeAllocMin;
      } else if sizeAlloc > 0 {
        forall i | 0 <= i < sizeAlloc {
          data[i] := NULL;
        }
      }
      size := 0;
      assert data[..size] == [];
    }

    /** The loop calling callback_free on every element, in arraylist_clear and arraylist_free. */
    method ReleaseAll()
      requires Valid()
      modifies this`released
      ensures released == old(released) + Items()
    {
      var i := 0;
      while i < size
        invariant 0 <= i <= size
        invariant released == old(released) + data[..i]
      {
        released := released + [data[i]];
        i := i + 1;
      }
    }

    /** arraylist_free: afterwards every pointer ever inserted has been released. */
    method Free()
      requires Valid()
      modifies this`released
      ensures released == old(released) + old(Items())
    {
      ReleaseAll();
    }
  }
}
