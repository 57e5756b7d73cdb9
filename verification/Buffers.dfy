/** "/buffer +N" and "/buffer -N": the walk around the circular list of buffers, which skips
    hidden buffers and counts a run of merged buffers once. */
module Buffers {
  import opened Text

  datatype Buffer = Buffer(number: int, hidden: bool)

  datatype Jump = SwitchTo(number: int) | Stay | InvalidNumber

  // ---------------------------------------------------------------- the walk

  /** The numbers discovered along s from p on: c is the current number, prev the number of
      the last visible buffer met. */
  function Discover(s: seq<Buffer>, p: nat, c: int, prev: int): seq<int>
    requires p <= |s|
    decreases |s| - p
  {
    if p == |s| then []
    else if s[p].hidden then Discover(s, p + 1, c, prev)
    else if s[p].number != c && s[p].number != prev
    then [s[p].number] + Discover(s, p + 1, c, s[p].number)
    else Discover(s, p + 1, c, s[p].number)
  }

  function Reverse<T>(s: seq<T>): (r: seq<T>)
    ensures |r| == |s|
    ensures forall i :: 0 <= i < |s| ==> r[i] == s[|s| - 1 - i]
  {
    if s == [] then [] else Reverse(s[1..]) + [s[0]]
  }

  /** The buffers in the order of next_buffer, from the one after the current buffer. */
  function After(buffers: seq<Buffer>, current: nat): seq<Buffer>
    requires current < |buffers|
  {
    buffers[current + 1..] + buffers[..current]
  }

  /** The buffers in the order of prev_buffer, from the one before the current buffer. */
  function Before(buffers: seq<Buffer>, current: nat): seq<Buffer>
    requires current < |buffers|
  {
    Reverse(buffers[..current]) + Reverse(buffers[current + 1..])
  }

  /** The n-th number found along a walk, if there are that many. */
  function Landing(walk: seq<Buffer>, c: int, n: int): Jump
    requires n > 0
  {
    var found := Discover(walk, 0, c, c);
    if n <= |found| then SwitchTo(found[n - 1]) else Stay
  }

  /** The amount that follows "+" or "-". */
  function Amount(text: string): Option<int> {
    var n := ParseLong(text);
    if n.Some? && n.value > 0 then n else None
  }

  /** Where p steps of next_buffer lead, and p steps of prev_buffer. */
  function Ahead(current: nat, p: nat, size: nat): nat
    requires current < size && p <= size
  {
    if current + p < size then current + p else current + p - size
  }

  function Behind(current: nat, p: nat, size: nat): nat
    requires current < size && p <= size
  {
    if p <= current then current - p else current + size - p
  }

  /** The search for the k-th number still to be found from p on, as the loops do it. */
  function Seek(walk: seq<Buffer>, p: nat, c: int, prev: int, k: int): Jump
    requires p <= |walk| && k > 0
    decreases |walk| - p
  {
    if p == |walk| then Stay
    else if walk[p].hidden then Seek(walk, p + 1, c, prev, k)
    else if walk[p].number == c || walk[p].number == prev then Seek(walk, p + 1, c, walk[p].number, k)
    else if k == 1 then SwitchTo(walk[p].number)
    else Seek(walk, p + 1, c, walk[p].number, k - 1)
  }

  lemma {:induction false} SeekLands(walk: seq<Buffer>, p: nat, c: int, prev: int, k: int)
    requires p <= |walk| && k > 0
    ensures var found := Discover(walk, p, c, prev);
      Seek(walk, p, c, prev, k) == if k <= |found| then SwitchTo(found[k - 1]) else Stay
    decreases |walk| - p
  {
    if p < |walk| {
      var b := walk[p];
      var next := if b.hidden then prev else b.number;
      if b.hidden || b.number == c || b.number == prev {
        SeekLands(walk, p + 1, c, next, k);
      } else if k > 1 {
        SeekLands(walk, p + 1, c, next, k - 1);
      }
    }
  }

  /** walk lists the buffers in the order in which the loop meets them. */
  ghost predicate MetAhead(buffers: seq<Buffer>, current: nat, walk: seq<Buffer>)
    requires current < |buffers|
  {
    && |walk| == |buffers| - 1
    && forall p :: 0 <= p < |walk| ==> walk[p] == buffers[Ahead(current, p + 1, |buffers|)]
  }

  ghost predicate MetBehind(buffers: seq<Buffer>, current: nat, walk: seq<Buffer>)
    requires current < |buffers|
  {
    && |walk| == |buffers| - 1
    && forall p :: 0 <= p < |walk| ==> walk[p] == buffers[Behind(current, p + 1, |buffers|)]
  }

  method WalkForward(buffers: seq<Buffer>, current: nat, number: int, ghost walk: seq<Buffer>) returns (r: Jump)
    requires current < |buffers| && number > 0
    requires MetAhead(buffers, current, walk)
    ensures r == Seek(walk, 0, buffers[current].number, buffers[current].number, number)
  {
    var c := buffers[current].number;
    var count, prev, ptr := 0, c, current;
    ghost var p := 0;
    while true
      invariant p <= |walk| && count < number
      invariant ptr == Ahead(current, p, |buffers|)
      invariant Seek(walk, p, c, prev, number - count) == Seek(walk, 0, c, c, number)
      decreases |walk| - p
    {
      ptr := ptr + 1;
      if ptr >= |buffers| {
        ptr := 0;
      }
      if ptr == current {
        break;
      }
      var b := buffers[ptr];
      assert walk[p] == b;
      if !b.hidden {
        if b.number != c && b.number != prev {
          count := count + 1;
          if count == number {
            return SwitchTo(b.number);
          }
        }
        prev := b.number;
      }
      p := p + 1;
    }
    r := Stay;
  }

  method WalkBackward(buffers: seq<Buffer>, current: nat, number: int, ghost walk: seq<Buffer>) returns (r: Jump)
    requires current < |buffers| && number > 0
    requires MetBehind(buffers, current, walk)
    ensures r == Seek(walk, 0, buffers[current].number, buffers[current].number, number)
  {
    var c := buffers[current].number;
    var count, prev, ptr := 0, c, current;
    ghost var p := 0;
    while true
      invariant p <= |walk| && count < number
      invariant ptr == Behind(current, p, |buffers|)
      invariant Seek(walk, p, c, prev, number - count) == Seek(walk, 0, c, c, number)
      decreases |walk| - p
    {
      if ptr == 0 {
        ptr := |buffers| - 1;
      } else {
        ptr := ptr - 1;
      }
      if ptr == current {
        break;
      }
      var b := buffers[ptr];
      assert walk[p] == b;
      if !b.hidden {
        if b.number != c && b.number != prev {
          count := count + 1;
          if count == number {
            return SwitchTo(b.number);
          }
        }
        prev := b.number;
      }
      p := p + 1;
    }
    r := Stay;
  }

  /** A printed number is an amount exactly when it is positive. */
  lemma AmountExact(n: int)
    requires IsLong(n)
    ensures Amount(IntText(n)) == if n > 0 then Some(n) else None
  {
    ParsePrinted(n);
  }

  method ForwardBy(buffers: seq<Buffer>, current: nat, n: int) returns (r: Jump)
    requires current < |buffers| && n > 0
    ensures r == Landing(After(buffers, current), buffers[current].number, n)
  {
    SeekLands(After(buffers, current), 0, buffers[current].number, buffers[current].number, n);
    r := WalkForward(buffers, current, n, After(buffers, current));
  }

  method JumpForward(buffers: seq<Buffer>, current: nat, text: string) returns (r: Jump)
    requires current < |buffers|
    ensures r == if Amount(text).None? then InvalidNumber
                 else Landing(After(buffers, current), buffers[current].number, Amount(text).value)
    ensures ParseLong(text).None? ==> r == InvalidNumber
    ensures forall n {:trigger IntText(n)} :: IsLong(n) && text == IntText(n) ==>
              r == if n > 0 then Landing(After(buffers, current), buffers[current].number, n) else InvalidNumber
  {
    forall n {:trigger IntText(n)} | IsLong(n) && text == IntText(n)
      ensures Amount(text) == if n > 0 then Some(n) else None
    {
      AmountExact(n);
    }
    var number := ParseLong(text);
    if number.None? || number.value <= 0 {
      return InvalidNumber;
    }
    r := ForwardBy(buffers, current, number.value);
  }

  method BackwardBy(buffers: seq<Buffer>, current: nat, n: int) returns (r: Jump)
    requires current < |buffers| && n > 0
    ensures r == Landing(Before(buffers, current), buffers[current].number, n)
  {
    SeekLands(Before(buffers, current), 0, buffers[current].number, buffers[current].number, n);
    r := WalkBackward(buffers, current, n, Before(buffers, current));
  }

  method JumpBackward(buffers: seq<Buffer>, current: nat, text: string) returns (r: Jump)
    requires current < |buffers|
    ensures r == if Amount(text).None? then InvalidNumber
                 else Landing(Before(buffers, current), buffers[current].number, Amount(text).value)
    ensures ParseLong(text).None? ==> r == InvalidNumber
    ensures forall n {:trigger IntText(n)} :: IsLong(n) && text == IntText(n) ==>
              r == if n > 0 then Landing(Before(buffers, current), buffers[current].number, n) else InvalidNumber
  {
    forall n {:trigger IntText(n)} | IsLong(n) && text == IntText(n)
      ensures Amount(text) == if n > 0 then Some(n) else None
    {
      AmountExact(n);
    }
    var number := ParseLong(text);
    if number.None? || number.value <= 0 {
      return InvalidNumber;
    }
    r := BackwardBy(buffers, current, number.value);
  }
}
