/** What the relative jumps promise: on a list sorted by number they step along the ring of
    distinct visible numbers, and "-N" undoes "+N". */
module BufferRing {
  import opened Buffers

  ghost predicate SortedBuffers(s: seq<Buffer>) {
    forall i, j :: 0 <= i < j < |s| ==> s[i].number <= s[j].number
  }

  ghost predicate ShownFrom(s: seq<Buffer>, p: nat, x: int) {
    exists k :: p <= k < |s| && !s[k].hidden && s[k].number == x
  }

  /** Some buffer with number x is not hidden. */
  ghost predicate Shown(s: seq<Buffer>, x: int) {
    ShownFrom(s, 0, x)
  }

  ghost predicate Ascending(s: seq<int>) {
    forall i, j :: 0 <= i < j < |s| ==> s[i] < s[j]
  }

  /** ring lists, in ascending order and once each, the current number and the numbers that
      have a visible buffer. */
  ghost predicate IsRing(buffers: seq<Buffer>, c: int, ring: seq<int>) {
    && Ascending(ring)
    && (forall x :: x in ring <==> x == c || Shown(buffers, x))
  }

  // ---------------------------------------------------------------- walks over sorted lists

  lemma {:induction false} DiscoverShift(s: seq<Buffer>, t: seq<Buffer>, q: nat, c: int, prev: int)
    requires q <= |t|
    ensures Discover(s + t, |s| + q, c, prev) == Discover(t, q, c, prev)
    decreases |t| - q
  {
    if q < |t| {
      assert (s + t)[|s| + q] == t[q];
      DiscoverShift(s, t, q + 1, c, if t[q].hidden then prev else t[q].number);
    }
  }

  /** The last visible number of s from p on, or prev. */
  function LastShown(s: seq<Buffer>, p: nat, prev: int): (r: int)
    requires p <= |s|
    ensures r == prev || exists k :: p <= k < |s| && s[k].number == r
    decreases |s| - p
  {
    if p == |s| then prev
    else LastShown(s, p + 1, if s[p].hidden then prev else s[p].number)
  }

  lemma {:induction false} DiscoverConcat(s: seq<Buffer>, t: seq<Buffer>, p: nat, c: int, prev: int)
    requires p <= |s|
    ensures Discover(s + t, p, c, prev) == Discover(s, p, c, prev) + Discover(t, 0, c, LastShown(s, p, prev))
    decreases |s| - p
  {
    if p == |s| {
      DiscoverShift(s, t, 0, c, prev);
    } else {
      assert (s + t)[p] == s[p];
      DiscoverConcat(s, t, p + 1, c, if s[p].hidden then prev else s[p].number);
    }
  }

  lemma {:induction false} PreviousAbsent(s: seq<Buffer>, p: nat, c: int, prev: int)
    requires p <= |s|
    requires prev == c || forall k :: p <= k < |s| ==> s[k].number != prev
    ensures Discover(s, p, c, prev) == Discover(s, p, c, c)
    decreases |s| - p
  {
    if p < |s| && s[p].hidden {
      PreviousAbsent(s, p + 1, c, prev);
    }
  }

  lemma {:induction false} DiscoverSorted(s: seq<Buffer>, p: nat, c: int, prev: int)
    requires p <= |s| && SortedBuffers(s)
    requires prev == c || forall k :: p <= k < |s| ==> prev <= s[k].number
    ensures Ascending(Discover(s, p, c, prev))
    ensures forall x :: x in Discover(s, p, c, prev) <==> x != c && x != prev && ShownFrom(s, p, x)
    decreases |s| - p
  {
    if p < |s| {
      var next := if s[p].hidden then prev else s[p].number;
      DiscoverSorted(s, p + 1, c, next);
      var rest := Discover(s, p + 1, c, next);
      forall x ensures ShownFrom(s, p, x) <==> (!s[p].hidden && s[p].number == x) || ShownFrom(s, p + 1, x) {
      }
      forall j | 0 <= j < |rest|
        ensures s[p].number <= rest[j] && rest[j] != next
      {
        assert rest[j] in rest;
      }
      assert Discover(s, p, c, prev) ==
        if !s[p].hidden && s[p].number != c && s[p].number != prev then [s[p].number] + rest else rest;
    }
  }

  // ---------------------------------------------------------------- the ring

  lemma {:induction false} AscendingUnique(a: seq<int>, b: seq<int>)
    requires Ascending(a) && Ascending(b)
    requires forall x :: x in a <==> x in b
    ensures a == b
  {
    if a == [] {
      assert forall k :: 0 <= k < |b| ==> b[k] in a;
    } else {
      assert a[0] in a && a[0] in b;
      assert b[0] in b && b[0] in a;
      assert a[0] == b[0];
      forall x ensures x in a[1..] <==> x in b[1..] {
        assert x in a <==> x == a[0] || x in a[1..];
        assert x in b <==> x == b[0] || x in b[1..];
      }
      AscendingUnique(a[1..], b[1..]);
      assert a == [a[0]] + a[1..] && b == [b[0]] + b[1..];
    }
  }

  /** The numbers below the current one and those above it. */
  lemma AroundCurrent(buffers: seq<Buffer>, current: nat) returns (low: seq<int>, high: seq<int>)
    requires current < |buffers| && SortedBuffers(buffers)
    ensures var c := buffers[current].number;
      && Discover(After(buffers, current), 0, c, c) == high + low
      && IsRing(buffers, c, low + [c] + high)
  {
    var c := buffers[current].number;
    var s, t := buffers[current + 1..], buffers[..current];
    high, low := Discover(s, 0, c, c), Discover(t, 0, c, c);
    DiscoverSorted(s, 0, c, c);
    DiscoverSorted(t, 0, c, c);
    DiscoverConcat(s, t, 0, c, c);
    PreviousAbsent(t, 0, c, LastShown(s, 0, c));
    forall x ensures Shown(buffers, x) && x != c <==> (x in high || x in low) {
      if Shown(buffers, x) && x != c {
        var k :| 0 <= k < |buffers| && !buffers[k].hidden && buffers[k].number == x;
        if k < current {
          assert t[k] == buffers[k];
        } else {
          assert s[k - current - 1] == buffers[k];
        }
      }
    }
    forall j | 0 <= j < |high| ensures c < high[j] {
      assert high[j] in high;
    }
    forall j | 0 <= j < |low| ensures low[j] < c {
      assert low[j] in low;
    }
  }

  lemma RingExists(buffers: seq<Buffer>, current: nat) returns (ring: seq<int>, i: nat)
    requires current < |buffers| && SortedBuffers(buffers)
    ensures IsRing(buffers, buffers[current].number, ring)
    ensures i < |ring| && ring[i] == buffers[current].number
  {
    var low, high := AroundCurrent(buffers, current);
    ring, i := low + [buffers[current].number] + high, |low|;
  }

  lemma FoundAhead(buffers: seq<Buffer>, current: nat, ring: seq<int>, i: nat)
    requires current < |buffers| && SortedBuffers(buffers)
    requires IsRing(buffers, buffers[current].number, ring)
    requires i < |ring| && ring[i] == buffers[current].number
    ensures Discover(After(buffers, current), 0, ring[i], ring[i]) == ring[i + 1..] + ring[..i]
  {
    var low, high := AroundCurrent(buffers, current);
    AscendingUnique(ring, low + [ring[i]] + high);
    assert ring[|low|] == ring[i];
    assert |low| == i;
  }

  /** "/buffer +N" lands N places further on the ring, and does nothing when the ring has no
      N other numbers. */
  lemma NthAhead(buffers: seq<Buffer>, current: nat, ring: seq<int>, i: nat, n: int)
    requires current < |buffers| && SortedBuffers(buffers)
    requires IsRing(buffers, buffers[current].number, ring)
    requires i < |ring| && ring[i] == buffers[current].number
    requires n > 0
    ensures Landing(After(buffers, current), ring[i], n)
      == if n < |ring| then SwitchTo(ring[(i + n) % |ring|]) else Stay
  {
    FoundAhead(buffers, current, ring, i);
    if n < |ring| {
      Turn(i + n, |ring|);
    }
  }

  lemma Turn(k: int, size: int)
    requires 0 < size && -size <= k < 2 * size
    ensures k % size == if k < 0 then k + size else if k < size then k else k - size
  {
  }

  // ---------------------------------------------------------------- the other direction

  /** The list seen from its end, with negated numbers: walking back is walking forward on it. */
  function Mirror(s: seq<Buffer>): (r: seq<Buffer>)
    ensures |r| == |s|
    ensures forall i {:trigger r[i]} :: 0 <= i < |s| ==>
      r[i] == Buffer(-s[|s| - 1 - i].number, s[|s| - 1 - i].hidden)
  {
    seq(|s|, i requires 0 <= i < |s| => Buffer(-s[|s| - 1 - i].number, s[|s| - 1 - i].hidden))
  }

  function Negated(s: seq<int>): (r: seq<int>)
    ensures |r| == |s|
    ensures forall i :: 0 <= i < |s| ==> r[i] == -s[i]
  {
    seq(|s|, i requires 0 <= i < |s| => -s[i])
  }

  lemma {:induction false} DiscoverNegated(s: seq<Buffer>, t: seq<Buffer>, p: nat, c: int, prev: int)
    requires p <= |s| == |t|
    requires forall k {:trigger t[k]} :: 0 <= k < |s| ==> t[k] == Buffer(-s[k].number, s[k].hidden)
    ensures Discover(t, p, -c, -prev) == Negated(Discover(s, p, c, prev))
    decreases |s| - p
  {
    if p < |s| {
      var next := if s[p].hidden then prev else s[p].number;
      DiscoverNegated(s, t, p + 1, c, next);
      var rest := Discover(s, p + 1, c, next);
      assert Negated([s[p].number] + rest) == [-s[p].number] + Negated(rest);
      assert t[p] == Buffer(-s[p].number, s[p].hidden);
    }
  }

  lemma BeforeIsMirroredAfter(buffers: seq<Buffer>, current: nat, k: nat)
    requires current < |buffers| && k < |buffers| - 1
    ensures var b := Before(buffers, current)[k];
      After(Mirror(buffers), |buffers| - 1 - current)[k] == Buffer(-b.number, b.hidden)
  {
  }

  lemma ReversedMembers(ring: seq<int>, x: int)
    ensures x in Reverse(Negated(ring)) <==> -x in ring
  {
    var back := Reverse(Negated(ring));
    if x in back {
      var k :| 0 <= k < |back| && back[k] == x;
      assert ring[|ring| - 1 - k] == -x;
    }
    if -x in ring {
      var k :| 0 <= k < |ring| && ring[k] == -x;
      assert back[|ring| - 1 - k] == x;
    }
  }

  lemma MirroredRing(buffers: seq<Buffer>, c: int, ring: seq<int>)
    requires SortedBuffers(buffers) && IsRing(buffers, c, ring)
    ensures SortedBuffers(Mirror(buffers))
    ensures IsRing(Mirror(buffers), -c, Reverse(Negated(ring)))
  {
    var m, back := Mirror(buffers), Reverse(Negated(ring));
    forall x ensures Shown(m, x) <==> Shown(buffers, -x) {
      if Shown(m, x) {
        var k :| 0 <= k < |m| && !m[k].hidden && m[k].number == x;
        assert buffers[|buffers| - 1 - k].number == -x;
      }
      if Shown(buffers, -x) {
        var k :| 0 <= k < |buffers| && !buffers[k].hidden && buffers[k].number == -x;
        assert m[|buffers| - 1 - k].number == x;
      }
    }
    forall x ensures x in back <==> -x in ring {
      ReversedMembers(ring, x);
    }
  }

  lemma MirroredWalk(buffers: seq<Buffer>, current: nat, c: int)
    requires current < |buffers|
    ensures Discover(After(Mirror(buffers), |buffers| - 1 - current), 0, -c, -c)
      == Negated(Discover(Before(buffers, current), 0, c, c))
  {
    var back, ahead := Before(buffers, current), After(Mirror(buffers), |buffers| - 1 - current);
    forall k {:trigger ahead[k]} | 0 <= k < |back|
      ensures ahead[k] == Buffer(-back[k].number, back[k].hidden)
    {
      BeforeIsMirroredAfter(buffers, current, k);
    }
    DiscoverNegated(back, ahead, 0, c, c);
  }

  lemma ReversedPart(ring: seq<int>, from: nat, to: nat)
    requires from <= to <= |ring|
    ensures Negated(Reverse(ring[from..to])) == Reverse(Negated(ring))[|ring| - to..|ring| - from]
  {
  }

  lemma NegatedConcat(s: seq<int>, t: seq<int>)
    ensures Negated(s + t) == Negated(s) + Negated(t)
  {
  }

  lemma ReversedHalves(ring: seq<int>, i: nat)
    requires i < |ring|
    ensures var back, j := Reverse(Negated(ring)), |ring| - 1 - i;
      Negated(Reverse(ring[..i]) + Reverse(ring[i + 1..])) == back[j + 1..] + back[..j]
  {
    ReversedPart(ring, 0, i);
    ReversedPart(ring, i + 1, |ring|);
    NegatedConcat(Reverse(ring[..i]), Reverse(ring[i + 1..]));
  }

  lemma NegatedOnce(s: seq<int>, t: seq<int>)
    requires Negated(s) == Negated(t)
    ensures s == t
  {
    forall k | 0 <= k < |s| ensures s[k] == t[k] {
      assert Negated(s)[k] == Negated(t)[k];
    }
  }

  lemma FoundBehind(buffers: seq<Buffer>, current: nat, ring: seq<int>, i: nat)
    requires current < |buffers| && SortedBuffers(buffers)
    requires IsRing(buffers, buffers[current].number, ring)
    requires i < |ring| && ring[i] == buffers[current].number
    ensures Discover(Before(buffers, current), 0, ring[i], ring[i]) == Reverse(ring[..i]) + Reverse(ring[i + 1..])
  {
    var c := ring[i];
    MirroredRing(buffers, c, ring);
    FoundAhead(Mirror(buffers), |buffers| - 1 - current, Reverse(Negated(ring)), |ring| - 1 - i);
    MirroredWalk(buffers, current, c);
    ReversedHalves(ring, i);
    NegatedOnce(Discover(Before(buffers, current), 0, c, c), Reverse(ring[..i]) + Reverse(ring[i + 1..]));
  }

  /** "/buffer -N" lands N places back on the ring. */
  lemma NthBehind(buffers: seq<Buffer>, current: nat, ring: seq<int>, i: nat, n: int)
    requires current < |buffers| && SortedBuffers(buffers)
    requires IsRing(buffers, buffers[current].number, ring)
    requires i < |ring| && ring[i] == buffers[current].number
    requires n > 0
    ensures Landing(Before(buffers, current), ring[i], n)
      == if n < |ring| then SwitchTo(ring[(i - n) % |ring|]) else Stay
  {
    FoundBehind(buffers, current, ring, i);
    if n < |ring| {
      Turn(i - n, |ring|);
    }
  }

  /** From wherever "/buffer +N" landed, "/buffer -N" comes back to the number it started from
      exactly when that number has a visible buffer. */
  lemma ThereAndBack(buffers: seq<Buffer>, current: nat, landed: nat, n: int)
    requires current < |buffers| && landed < |buffers| && SortedBuffers(buffers)
    requires n > 0
    requires Landing(After(buffers, current), buffers[current].number, n) == SwitchTo(buffers[landed].number)
    ensures Landing(Before(buffers, landed), buffers[landed].number, n) == SwitchTo(buffers[current].number)
      <==> Shown(buffers, buffers[current].number)
  {
    var c, d := buffers[current].number, buffers[landed].number;
    var ring, i := RingExists(buffers, current);
    NthAhead(buffers, current, ring, i, n);
    var there, j := RingExists(buffers, landed);
    NthBehind(buffers, landed, there, j, n);
    Turn(i + n, |ring|);
    assert d in ring && d != c;
    if Shown(buffers, c) {
      AscendingUnique(ring, there);
      assert j == (i + n) % |ring|;
      Turn(j - n, |ring|);
    } else if n < |there| {
      Turn(j - n, |there|);
      assert there[(j - n) % |there|] in there;
    }
  }
}
