/** "/buffer close": the ranges and names given as arguments are collected into an array list
    without duplicates. */
module BufferClose {
  import opened Text
  import opened ArraylistSpec
  import opened ArraylistRuns
  import opened ArraylistOrder
  import opened ArraylistClass

  /** A buffer of the list: its address and its number. */
  datatype Open = Open(pointer: Pointer, number: int)

  ghost predicate SortedOpen(buffers: seq<Open>) {
    && (forall i, j :: 0 <= i < j < |buffers| ==> buffers[i].number <= buffers[j].number)
    && (forall i :: 0 <= i < |buffers| ==> buffers[i].pointer != NULL)
  }

  // ---------------------------------------------------------------- arguments

  datatype Argument = Numbers(low: int, high: int) | Named(name: string) | Invalid

  function ParseArgument(arg: string): Argument {
    if arg == "" || !IsDigit(arg[0]) then Named(arg)
    else
      var dash := IndexOf(arg, '-', 0);
      var low := ParseLong(arg[..dash]);
      var high := if dash < |arg| then ParseLong(arg[dash + 1..]) else low;
      if low.Some? && high.Some? then Numbers(low.value, high.value) else Invalid
  }

  lemma NumberText(n: nat)
    requires IsLong(n)
    ensures IntText(n) != "" && IsDigit(IntText(n)[0]) && '-' !in IntText(n) && ParseLong(IntText(n)) == Some(n)
  {
    ParsePrinted(n);
  }

  /** A range "a-b", a single number, a name. */
  lemma RangeText(a: nat, b: nat)
    requires IsLong(a) && IsLong(b)
    ensures ParseArgument(IntText(a) + "-" + IntText(b)) == Numbers(a, b)
  {
    NumberText(a);
    NumberText(b);
    ArgumentExact(IntText(a), IntText(b));
  }

  lemma SingleText(a: nat)
    requires IsLong(a)
    ensures ParseArgument(IntText(a)) == Numbers(a, a)
  {
    NumberText(a);
    ArgumentExact(IntText(a), "");
  }

  /** A text starting with a digit is never a name, and is refused exactly when what is before its first "-"
      is no number, or what is after it. An empty text after it counts as 0. */
  lemma ArgumentExact(first: string, second: string)
    requires first != "" && IsDigit(first[0]) && '-' !in first
    ensures ParseArgument(first) == if ParseLong(first).None? then Invalid
                                    else Numbers(ParseLong(first).value, ParseLong(first).value)
    ensures ParseArgument(first + "-" + second)
         == if ParseLong(first).None? || ParseLong(second).None? then Invalid
            else Numbers(ParseLong(first).value, ParseLong(second).value)
  {
    var arg := first + "-" + second;
    assert IndexOf(first, '-', 0) == |first| && first[..|first|] == first;
    assert arg[|first|] == '-' && forall i :: 0 <= i < |first| ==> arg[i] == first[i];
    assert IndexOf(arg, '-', 0) == |first|;
    assert arg[..|first|] == first && arg[|first| + 1..] == second;
  }

  lemma NameText(name: string)
    ensures ParseArgument(name) == Named(name) <==> name == "" || !IsDigit(name[0])
  {
  }

  /** The buffers of the list, from index p on, whose number is in the range. */
  function InRange(buffers: seq<Open>, p: nat, low: int, high: int): seq<Pointer>
    requires p <= |buffers|
    decreases |buffers| - p
  {
    if p == |buffers| then []
    else (if low <= buffers[p].number <= high then [buffers[p].pointer] else [])
         + InRange(buffers, p + 1, low, high)
  }

  /** The buffers an argument mentions; find is the search by full name, then partial name. */
  function Mentioned(buffers: seq<Open>, find: string -> Pointer, a: Argument): seq<Pointer> {
    match a
    case Invalid => []
    case Numbers(low, high) => if low >= 1 && high >= 1 && high >= low then InRange(buffers, 0, low, high) else []
    case Named(name) => if find(name) == NULL then [] else [find(name)]
  }

  /** The buffers mentioned by the arguments from index p on. */
  function Mentions(buffers: seq<Open>, find: string -> Pointer, args: seq<string>, p: nat): seq<Pointer>
    requires p <= |args|
    decreases |args| - p
  {
    if p == |args| then []
    else Mentioned(buffers, find, ParseArgument(args[p])) + Mentions(buffers, find, args, p + 1)
  }

  /** No argument from index p on is invalid. */
  predicate Accepted(args: seq<string>, p: nat)
    requires p <= |args|
    decreases |args| - p
  {
    p == |args| || (!ParseArgument(args[p]).Invalid? && Accepted(args, p + 1))
  }

  // ---------------------------------------------------------------- collecting

  ghost predicate Collected(list: Arraylist, mentions: seq<Pointer>)
    reads list, list.data
  {
    && list.Valid()
    && list.Cfg() == Config(32, false, false, DefaultCmp)
    && list.Items() == LastMentions(DefaultCmp, mentions)
  }

  method AddMention(list: Arraylist, p: Pointer, ghost mentions: seq<Pointer>)
    requires Collected(list, mentions)
    modifies list, list.data
    ensures Collected(list, mentions + [p])
    ensures list.data == old(list.data) || fresh(list.data)
  {
    InsertStateItems(list.Cfg(), list.Model(), -1, p);
    AppendsAtEnd(list.Cfg(), list.Items(), p);
    LastMentionsAdd(DefaultCmp, mentions, p);
    var _ := list.Add(p);
  }

  lemma InRangeStep(buffers: seq<Open>, p: nat, low: int, high: int, mentions: seq<Pointer>)
    requires p < |buffers|
    ensures mentions + InRange(buffers, p, low, high) ==
      (if low <= buffers[p].number <= high then mentions + [buffers[p].pointer] else mentions)
      + InRange(buffers, p + 1, low, high)
  {
  }

  lemma {:induction false} BeyondRange(buffers: seq<Open>, p: nat, low: int, high: int)
    requires SortedOpen(buffers) && p <= |buffers|
    requires p < |buffers| ==> buffers[p].number > high
    ensures InRange(buffers, p, low, high) == []
    decreases |buffers| - p
  {
    if p < |buffers| {
      BeyondRange(buffers, p + 1, low, high);
    }
  }

  method AddRange(list: Arraylist, buffers: seq<Open>, low: int, high: int, ghost mentions: seq<Pointer>)
    requires Collected(list, mentions) && SortedOpen(buffers)
    modifies list, list.data
    ensures Collected(list, mentions + InRange(buffers, 0, low, high))
    ensures list.data == old(list.data) || fresh(list.data)
  {
    var p := 0;
    ghost var done := mentions;
    while p < |buffers| && buffers[p].number <= high
      invariant p <= |buffers|
      invariant Collected(list, done)
      invariant list.data == old(list.data) || fresh(list.data)
      invariant done + InRange(buffers, p, low, high) == mentions + InRange(buffers, 0, low, high)
    {
      InRangeStep(buffers, p, low, high, done);
      if buffers[p].number >= low {
        AddMention(list, buffers[p].pointer, done);
        done := done + [buffers[p].pointer];
      }
      p := p + 1;
    }
    BeyondRange(buffers, p, low, high);
    assert done + [] == done;
  }

  /** One argument; false when it starts with a digit but is no number and no range. */
  method AddArgument(list: Arraylist, buffers: seq<Open>, find: string -> Pointer, arg: string,
                     ghost mentions: seq<Pointer>)
    returns (ok: bool)
    requires Collected(list, mentions) && SortedOpen(buffers)
    modifies list, list.data
    ensures ok == !ParseArgument(arg).Invalid?
    ensures Collected(list, mentions + Mentioned(buffers, find, ParseArgument(arg)))
    ensures list.data == old(list.data) || fresh(list.data)
  {
    ok := true;
    assert mentions + [] == mentions;
    if arg != "" && IsDigit(arg[0]) {
      var dash := IndexOf(arg, '-', 0);
      var number1 := ParseLong(arg[..dash]);
      if number1.None? {
        return false;
      }
      var number2 := number1;
      if dash < |arg| {
        number2 := ParseLong(arg[dash + 1..]);
        if number2.None? {
          return false;
        }
      }
      if number1.value >= 1 && number2.value >= 1 && number2.value >= number1.value {
        AddRange(list, buffers, number1.value, number2.value, mentions);
      }
    } else {
      var buffer := find(arg);
      if buffer != NULL {
        AddMention(list, buffer, mentions);
      }
    }
  }

  lemma AppendTwice(s: seq<Pointer>, t: seq<Pointer>, u: seq<Pointer>)
    ensures s + (t + u) == (s + t) + u
  {
  }

  lemma MentionsStep(buffers: seq<Open>, find: string -> Pointer, args: seq<string>, p: nat, done: seq<Pointer>)
    requires p < |args|
    ensures done + Mentions(buffers, find, args, p)
      == (done + Mentioned(buffers, find, ParseArgument(args[p]))) + Mentions(buffers, find, args, p + 1)
  {
    AppendTwice(done, Mentioned(buffers, find, ParseArgument(args[p])), Mentions(buffers, find, args, p + 1));
  }

  method AddArguments(list: Arraylist, buffers: seq<Open>, find: string -> Pointer, args: seq<string>)
    returns (ok: bool)
    requires Collected(list, []) && SortedOpen(buffers)
    modifies list, list.data
    ensures ok == Accepted(args, 0)
    ensures ok ==> Collected(list, Mentions(buffers, find, args, 0))
    ensures list.data == old(list.data) || fresh(list.data)
  {
    var i := 0;
    ghost var done: seq<Pointer> := [];
    while i < |args|
      invariant i <= |args|
      invariant list.data == old(list.data) || fresh(list.data)
      invariant Accepted(args, 0) == Accepted(args, i)
      invariant Collected(list, done)
      invariant done + Mentions(buffers, find, args, i) == Mentions(buffers, find, args, 0)
    {
      MentionsStep(buffers, find, args, i, done);
      ok := AddArgument(list, buffers, find, args[i], done);
      if !ok {
        return;
      }
      done := done + Mentioned(buffers, find, ParseArgument(args[i]));
      i := i + 1;
    }
    assert done + [] == done;
    ok := true;
  }

  /** The list of buffers to close; when an argument is invalid nothing is closed. */
  method BuffersToClose(buffers: seq<Open>, current: Pointer, find: string -> Pointer, args: seq<string>)
    returns (ok: bool, list: Arraylist)
    requires SortedOpen(buffers)
    ensures fresh(list)
    ensures ok == Accepted(args, 0)
    ensures ok ==> Collected(list, if args == [] then [current] else Mentions(buffers, find, args, 0))
    ensures args == [] ==> ok && list.Items() == [current]
    ensures forall a: nat, b: nat {:trigger IntText(a), IntText(b)} ::
              IsLong(a) && IsLong(b) && args == [IntText(a) + "-" + IntText(b)] ==>
                ok && forall x :: x in list.Items() <==> InNumbers(buffers, a, b, x)
  {
    forall a: nat, b: nat {:trigger IntText(a), IntText(b)}
      | IsLong(a) && IsLong(b) && args == [IntText(a) + "-" + IntText(b)]
      ensures Accepted(args, 0)
      ensures forall x ::
        x in LastMentions(DefaultCmp, Mentions(buffers, find, args, 0)) <==> InNumbers(buffers, a, b, x)
    {
      RangeCollected(buffers, find, a, b);
    }
    list := new Arraylist(32, false, false, None);
    if args == [] {
      AddMention(list, current, []);
      assert [] + [current] == [current];
      LastMentionsAdd(DefaultCmp, [], current);
      assert LastMentions(DefaultCmp, []) == [] && Select(DefaultCmp, current, false, []) == [];
      ok := true;
    } else {
      ok := AddArguments(list, buffers, find, args);
    }
  }

  // ---------------------------------------------------------------- what is collected

  /** Index of the last mention of x, or -1. */
  function LastAt(ps: seq<Pointer>, x: Pointer): (r: int)
    ensures -1 <= r < |ps|
    ensures r >= 0 ==> ps[r] == x
    ensures forall i :: r < i < |ps| ==> ps[i] != x
  {
    if ps == [] then -1
    else
      var r := LastAt(ps[1..], x);
      if r >= 0 then r + 1 else if ps[0] == x then 0 else -1
  }

  lemma MentionedInRest(ps: seq<Pointer>)
    requires ps != []
    ensures MentionedAgain(DefaultCmp, ps) <==> ps[0] in ps[1..]
  {
    if i :| 1 <= i < |ps| && DefaultCmp(ps[0], ps[i]) == 0 {
      assert ps[1..][i - 1] == ps[0];
    }
    if ps[0] in ps[1..] {
      var i :| 0 <= i < |ps[1..]| && ps[1..][i] == ps[0];
      assert ps[i + 1] == ps[0];
    }
  }

  /** Every pointer mentioned is collected once, in the order of the last mentions. */
  lemma {:induction false} CollectedOnce(ps: seq<Pointer>)
    ensures var kept := LastMentions(DefaultCmp, ps);
      && (forall x :: x in kept <==> x in ps)
      && (forall i, j :: 0 <= i < j < |kept| ==> LastAt(ps, kept[i]) < LastAt(ps, kept[j]))
  {
    if ps != [] {
      var rest := LastMentions(DefaultCmp, ps[1..]);
      CollectedOnce(ps[1..]);
      assert forall x :: x in ps <==> x == ps[0] || x in ps[1..];
      assert forall x :: x in rest ==> LastAt(ps, x) == LastAt(ps[1..], x) + 1 > 0;
      MentionedInRest(ps);
    }
  }

  // ---------------------------------------------------------------- coverage

  ghost predicate IsAt(buffers: seq<Open>, k: nat, low: int, high: int, x: Pointer)
    requires k < |buffers|
  {
    buffers[k].pointer == x && low <= buffers[k].number <= high
  }

  /** What an argument covers, without the order. */
  ghost predicate Covers(buffers: seq<Open>, find: string -> Pointer, a: Argument, x: Pointer) {
    match a
    case Invalid => false
    case Numbers(low, high) =>
      low >= 1 && exists k :: 0 <= k < |buffers| && IsAt(buffers, k, low, high, x)
    case Named(name) => x != NULL && find(name) == x
  }

  lemma RangeStep(buffers: seq<Open>, p: nat, low: int, high: int, x: Pointer)
    requires p < |buffers|
    ensures x in InRange(buffers, p, low, high)
       <==> IsAt(buffers, p, low, high, x) || x in InRange(buffers, p + 1, low, high)
  {
    var first := if low <= buffers[p].number <= high then [buffers[p].pointer] else [];
    assert InRange(buffers, p, low, high) == first + InRange(buffers, p + 1, low, high);
  }

  ghost predicate AtFrom(buffers: seq<Open>, p: nat, low: int, high: int, x: Pointer) {
    exists k :: p <= k < |buffers| && IsAt(buffers, k, low, high, x)
  }

  lemma AtStep(buffers: seq<Open>, p: nat, low: int, high: int, x: Pointer)
    requires p < |buffers|
    ensures AtFrom(buffers, p, low, high, x)
       <==> IsAt(buffers, p, low, high, x) || AtFrom(buffers, p + 1, low, high, x)
  {
  }

  lemma {:induction false} RangeMembers(buffers: seq<Open>, p: nat, low: int, high: int, x: Pointer)
    requires p <= |buffers|
    ensures x in InRange(buffers, p, low, high) <==> AtFrom(buffers, p, low, high, x)
    decreases |buffers| - p
  {
    if p < |buffers| {
      RangeMembers(buffers, p + 1, low, high, x);
      RangeStep(buffers, p, low, high, x);
      AtStep(buffers, p, low, high, x);
    }
  }

  lemma MentionedIsCovered(buffers: seq<Open>, find: string -> Pointer, a: Argument, x: Pointer)
    ensures x in Mentioned(buffers, find, a) <==> Covers(buffers, find, a, x)
  {
    if a.Numbers? {
      RangeMembers(buffers, 0, a.low, a.high, x);
    }
  }

  ghost predicate Covered(buffers: seq<Open>, find: string -> Pointer, args: seq<string>, p: nat, x: Pointer) {
    exists i :: p <= i < |args| && Covers(buffers, find, ParseArgument(args[i]), x)
  }

  lemma MentionsSplit(buffers: seq<Open>, find: string -> Pointer, args: seq<string>, p: nat, x: Pointer)
    requires p < |args|
    ensures x in Mentions(buffers, find, args, p)
      <==> x in Mentioned(buffers, find, ParseArgument(args[p])) || x in Mentions(buffers, find, args, p + 1)
  {
  }

  lemma CoveredSplit(buffers: seq<Open>, find: string -> Pointer, args: seq<string>, p: nat, x: Pointer)
    requires p < |args|
    ensures Covered(buffers, find, args, p, x)
      <==> Covers(buffers, find, ParseArgument(args[p]), x) || Covered(buffers, find, args, p + 1, x)
  {
  }

  lemma {:induction false} MentionsMembers(buffers: seq<Open>, find: string -> Pointer, args: seq<string>,
                                           p: nat, x: Pointer)
    requires p <= |args|
    ensures x in Mentions(buffers, find, args, p) <==> Covered(buffers, find, args, p, x)
    decreases |args| - p
  {
    if p < |args| {
      MentionsMembers(buffers, find, args, p + 1, x);
      MentionedIsCovered(buffers, find, ParseArgument(args[p]), x);
      MentionsSplit(buffers, find, args, p, x);
      CoveredSplit(buffers, find, args, p, x);
    }
  }

  /** x is a buffer whose number is one of a, ..., b, numbers starting at 1. */
  ghost predicate InNumbers(buffers: seq<Open>, a: int, b: int, x: Pointer) {
    1 <= a && exists k :: 0 <= k < |buffers| && buffers[k].pointer == x && a <= buffers[k].number <= b
  }

  /** "/buffer close a-b" closes the buffers numbered from a to b, and no other. */
  lemma RangeCollected(buffers: seq<Open>, find: string -> Pointer, a: nat, b: nat)
    requires IsLong(a) && IsLong(b)
    ensures var args := [IntText(a) + "-" + IntText(b)];
      && Accepted(args, 0)
      && forall x :: x in LastMentions(DefaultCmp, Mentions(buffers, find, args, 0)) <==> InNumbers(buffers, a, b, x)
  {
    var args := [IntText(a) + "-" + IntText(b)];
    RangeText(a, b);
    CollectedOnce(Mentions(buffers, find, args, 0));
    forall x
      ensures x in Mentions(buffers, find, args, 0) <==> InNumbers(buffers, a, b, x)
    {
      MentionsSplit(buffers, find, args, 0, x);
      MentionedIsCovered(buffers, find, Numbers(a, b), x);
      if InNumbers(buffers, a, b, x) {
        var k :| 0 <= k < |buffers| && buffers[k].pointer == x && a <= buffers[k].number <= b;
        assert IsAt(buffers, k, a, b, x);
      }
    }
  }

  /** A buffer is collected exactly when an argument covers it, once, and the order is that of
      the last arguments that mention it. */
  lemma ClosesWhatIsCovered(buffers: seq<Open>, find: string -> Pointer, args: seq<string>, kept: seq<Pointer>)
    requires kept == LastMentions(DefaultCmp, Mentions(buffers, find, args, 0))
    ensures forall x :: x in kept <==> Covered(buffers, find, args, 0, x)
    ensures forall i, j :: 0 <= i < j < |kept| ==>
      LastAt(Mentions(buffers, find, args, 0), kept[i]) < LastAt(Mentions(buffers, find, args, 0), kept[j])
  {
    CollectedOnce(Mentions(buffers, find, args, 0));
    forall x ensures x in Mentions(buffers, find, args, 0) <==> Covered(buffers, find, args, 0, x) {
      MentionsMembers(buffers, find, args, 0, x);
    }
  }
}
