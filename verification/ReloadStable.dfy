/** Exactly when reloading a file twice is reloading it once, although some of its values are
    relative to the current one. */
module ReloadStable {
  import opened Text
  import opened OptionValue
  import opened Reload

  /** Applying the texts a second time changes nothing. */
  predicate Stable(def: Definition, v: Option<Value>, texts: seq<Option<string>>) {
    SetAll(def, SetAll(def, v, texts), texts) == SetAll(def, v, texts)
  }

  lemma TailUnanchored(def: Definition, texts: seq<Option<string>>)
    requires texts != [] && !Anchored(def, texts)
    ensures !Anchored(def, texts[1..]) && !(Absolute(def.kind, texts[0]) && Accepted(def, texts[0]))
  {
    forall k | 0 <= k < |texts[1..]|
      ensures !(Absolute(def.kind, texts[1..][k]) && Accepted(def, texts[1..][k]))
    {
      assert texts[1..][k] == texts[k + 1];
    }
  }

  // ---------------------------------------------------------------- booleans

  predicate IsToggle(def: Definition, text: Option<string>) {
    text.Some? && EqFold(text.value, "toggle") && def.check(text)
  }

  function Toggles(def: Definition, texts: seq<Option<string>>): nat {
    if texts == [] then 0 else (if IsToggle(def, texts[0]) then 1 else 0) + Toggles(def, texts[1..])
  }

  lemma ToggleOnce(def: Definition, v: Option<Value>, text: Option<string>)
    requires def.kind == Boolean && TypedOrNull(Boolean, v)
    requires !(Absolute(Boolean, text) && Accepted(def, text))
    ensures SetResult(def, v, text).0 == if IsToggle(def, text) then Some(Number((Base(v) + 1) % 2)) else v
  {
    if Absolute(Boolean, text) {
      AbsoluteSet(def, v, text);
    }
  }

  /** Without a value given outright, a boolean counts the toggles modulo 2, null counting as off. */
  lemma {:induction false} TogglesSetAll(def: Definition, v: Option<Value>, texts: seq<Option<string>>)
    requires def.kind == Boolean && TypedOrNull(Boolean, v) && !Anchored(def, texts)
    ensures SetAll(def, v, texts)
         == if Toggles(def, texts) == 0 then v else Some(Number((Base(v) + Toggles(def, texts)) % 2))
    decreases |texts|
  {
    if texts != [] {
      TailUnanchored(def, texts);
      ToggleOnce(def, v, texts[0]);
      TogglesSetAll(def, SetResult(def, v, texts[0]).0, texts[1..]);
    }
  }

  /** For a boolean, null or not: exactly when one of its lines gives a value outright or the toggles
      are even in number. */
  lemma BooleanStableExact(def: Definition, v: Option<Value>, texts: seq<Option<string>>)
    requires def.kind == Boolean && TypedOrNull(Boolean, v)
    ensures Stable(def, v, texts) <==> Anchored(def, texts) || Toggles(def, texts) % 2 == 0
  {
    if Anchored(def, texts) {
      AnchoredForgets(def, v, SetAll(def, v, texts), texts);
    } else {
      TogglesSetAll(def, v, texts);
      TogglesSetAll(def, SetAll(def, v, texts), texts);
    }
  }

  // ---------------------------------------------------------------- arithmetic

  lemma SumOfRemainders(a: nat, b: nat, m: nat)
    requires a < m && b < m
    ensures (a + b) % m == a <==> b == 0
  {
    if a + b >= m {
      ModOne(a + b - m, m);
      Small(a + b - m, m);
    } else {
      Small(a + b, m);
    }
  }

  lemma Small(a: nat, m: nat)
    requires a < m
    ensures a % m == a
  {
  }

  lemma ModSame(x: int, s: int, m: int)
    requires m > 0
    ensures (x + s) % m == x % m <==> s % m == 0
  {
    ModAdd(x, s, m);
    ModAdd(s, x % m, m);
    SumOfRemainders(x % m, s % m, m);
  }

  lemma ToIntTwice(a: int, k: int)
    ensures ToInt(ToInt(a) + k) == ToInt(a + k)
  {
    ModAdd(a + 0x8000_0000, k, 0x1_0000_0000);
  }

  lemma ToIntSame(n: int, k: int)
    requires IsInt(n)
    ensures ToInt(n + k) == n <==> k % 0x1_0000_0000 == 0
  {
    var m, x := 0x1_0000_0000, n + 0x8000_0000;
    ModSame(x, k, m);
    Small(x, m);
  }

  lemma Opposite(k: int, m: int)
    requires m > 0
    ensures (-k) % m == 0 <==> k % m == 0
  {
    if k % m == 0 {
      assert -k == (-(k / m)) * m;
      ModUnique(-k, -(k / m), 0, m);
    }
    if (-k) % m == 0 {
      assert k == (-((-k) / m)) * m;
      ModUnique(k, -((-k) / m), 0, m);
    }
  }

  /** "--" steps modulo the number of words whatever the sign of its amount. */
  lemma StepDown(words: seq<string>, base: int, text: string, k: int)
    requires 0 <= base < WordCount(words) && IsDecrement(text) && !IsIncrement(text) && ParseLong(text[2..]) == Some(k)
    ensures EnumTarget(words, base, text) == Some(Number((base - k) % WordCount(words)))
  {
    var m := WordCount(words);
    if k >= 0 {
      DecrementWord(words, base, text, k);
      BackStep(base, k, m);
    } else {
      ModAdd(-k, base + m, m);
      ModOne(base - k, m);
      assert base + m - Rem(k, m) == (-k) % m + (base + m);
    }
  }

  /** "++" with a negative amount goes back, and is refused below the first word. */
  lemma BackOrRefused(words: seq<string>, n: int, text: string, k: int)
    requires 0 <= n < WordCount(words) && IsIncrement(text) && ParseLong(text[2..]) == Some(k) && k < 0
    ensures var s := (-k) % WordCount(words);
      EnumTarget(words, n, text) == if n >= s then Some(Number(n - s)) else None
  {
    var m, s := WordCount(words), (-k) % WordCount(words);
    if n >= s {
      Small(n - s, m);
    } else {
      Small(s - n, m);
    }
  }

  /** Any other step is modulo the number of words. */
  lemma StepTarget(words: seq<string>, n: int, text: string, k: int)
    requires 0 <= n < WordCount(words) && (IsIncrement(text) || IsDecrement(text)) && ParseLong(text[2..]) == Some(k)
    requires IsIncrement(text) ==> k >= 0
    ensures EnumTarget(words, n, text) == Some(Number((n + if IsIncrement(text) then k else -k) % WordCount(words)))
  {
    if IsIncrement(text) {
      IncrementWord(words, n, text, k);
      ModAdd(k, n, WordCount(words));
    } else {
      StepDown(words, n, text, k);
    }
  }

  // ---------------------------------------------------------------- integers and words

  /** The amount of a relative text that is well formed: negative for "--". */
  function StepOf(def: Definition, text: Option<string>): Option<int> {
    if text.Some? && def.check(text) && (IsIncrement(text.value) || IsDecrement(text.value)) then
      var k := ParseLong(text.value[2..]);
      if k.None? then None else Some(if IsIncrement(text.value) then k.value else -k.value)
    else None
  }

  /** The same, from a value that accepts it: none of them when it is refused. */
  function StepFrom(def: Definition, v: Option<Value>, text: Option<string>): Option<int> {
    var k := StepOf(def, text);
    if k.Some? && Target(def.kind, v, text.value).Some? then k else None
  }

  /** The sum of the steps that are not refused, each at the value it meets. */
  function StepsTaken(def: Definition, v: Option<Value>, texts: seq<Option<string>>): int
    decreases |texts|
  {
    if texts == [] then 0
    else
      var k := StepFrom(def, v, texts[0]);
      (if k.Some? then k.value else 0) + StepsTaken(def, SetResult(def, v, texts[0]).0, texts[1..])
  }

  predicate Counts(kind: Kind) {
    kind.Integer? || kind.Enum?
  }

  /** An int counts modulo 2^32, a word modulo the number of words. */
  function Modulus(kind: Kind): (m: int)
    requires Counts(kind)
    ensures m > 0
  {
    if kind.Integer? then 0x1_0000_0000 else WordCount(kind.words)
  }

  function Wrapped(kind: Kind, n: int): int
    requires Counts(kind)
  {
    if kind.Integer? then ToInt(n) else n % WordCount(kind.words)
  }

  predicate InPlace(kind: Kind, v: Value)
    requires Counts(kind)
  {
    v.Number? && if kind.Integer? then IsInt(v.n) else 0 <= v.n < WordCount(kind.words)
  }

  lemma WrappedSame(kind: Kind, n: int, k: int)
    requires Counts(kind) && InPlace(kind, Number(n))
    ensures Wrapped(kind, n + k) == n <==> k % Modulus(kind) == 0
  {
    if kind.Integer? {
      ToIntSame(n, k);
    } else {
      ModSame(n, k, WordCount(kind.words));
      Small(n, WordCount(kind.words));
    }
  }

  lemma WrappedTwice(kind: Kind, n: int, k: int)
    requires Counts(kind)
    ensures Wrapped(kind, Wrapped(kind, n) + k) == Wrapped(kind, n + k) && InPlace(kind, Number(Wrapped(kind, n)))
  {
    if kind.Integer? {
      ToIntTwice(n, k);
    } else {
      ModAdd(n, k, WordCount(kind.words));
    }
  }

  /** A step through words, when it is accepted. */
  lemma WordMoves(words: seq<string>, n: int, text: string, k: int)
    requires 0 <= n < WordCount(words) && (IsIncrement(text) || IsDecrement(text)) && ParseLong(text[2..]) == Some(k)
    requires EnumTarget(words, n, text).Some?
    ensures EnumTarget(words, n, text)
         == Some(Number((n + if IsIncrement(text) then k else -k) % WordCount(words)))
  {
    if IsIncrement(text) && k < 0 {
      BackOrRefused(words, n, text, k);
      BackIsForward(n, -k, WordCount(words));
    } else {
      StepTarget(words, n, text, k);
    }
  }

  lemma BackIsForward(n: int, a: nat, m: int)
    requires 0 < m && a % m <= n < m
    ensures (n - a) % m == n - a % m
  {
    assert a == (a / m) * m + a % m;
    assert n - a == (-(a / m)) * m + (n - a % m) by {
      assert (-(a / m)) * m == -((a / m) * m);
    }
    ModUnique(n - a, -(a / m), n - a % m, m);
  }

  lemma OneStep(def: Definition, v: Option<Value>, text: Option<string>)
    requires Counts(def.kind) && (v.Some? ==> InPlace(def.kind, v.value))
    requires !(Absolute(def.kind, text) && Accepted(def, text))
    ensures SetResult(def, v, text).0
         == var k := StepFrom(def, v, text);
            if k.None? then v else Some(Number(Wrapped(def.kind, Base(v) + k.value)))
  {
    var k := StepFrom(def, v, text);
    if Absolute(def.kind, text) {
      AbsoluteSet(def, v, text);
    } else if k.Some? && def.kind.Enum? {
      WordMoves(def.kind.words, Base(v), text.value, ParseLong(text.value[2..]).value);
    }
  }

  /** Without a value given outright, a value that is not null moves by the steps taken. */
  lemma {:induction false} TakenSetAll(def: Definition, v: Option<Value>, texts: seq<Option<string>>)
    requires Counts(def.kind) && v.Some? && InPlace(def.kind, v.value) && !Anchored(def, texts)
    ensures SetAll(def, v, texts) == Some(Number(Wrapped(def.kind, Base(v) + StepsTaken(def, v, texts))))
    decreases |texts|
  {
    if texts == [] {
      WrappedSame(def.kind, Base(v), 0);
    } else {
      var next, k := SetResult(def, v, texts[0]).0, StepFrom(def, v, texts[0]);
      TailUnanchored(def, texts);
      OneStep(def, v, texts[0]);
      if k.Some? {
        WrappedTwice(def.kind, Base(v) + k.value, StepsTaken(def, next, texts[1..]));
      }
      TakenSetAll(def, next, texts[1..]);
    }
  }

  /** From null, either some step is taken, or all are refused and the value stays null. */
  lemma {:induction false} FromNull(def: Definition, texts: seq<Option<string>>)
    requires Counts(def.kind) && !Anchored(def, texts)
    ensures var w := SetAll(def, None, texts);
      if w.Some? then InPlace(def.kind, w.value) else StepsTaken(def, None, texts) == 0
    decreases |texts|
  {
    if texts != [] {
      var next, k := SetResult(def, None, texts[0]).0, StepFrom(def, None, texts[0]);
      TailUnanchored(def, texts);
      OneStep(def, None, texts[0]);
      if k.Some? {
        WrappedTwice(def.kind, k.value, 0);
        TakenSetAll(def, next, texts[1..]);
        WrappedTwice(def.kind, Base(next) + StepsTaken(def, next, texts[1..]), 0);
      } else {
        FromNull(def, texts[1..]);
      }
    }
  }

  lemma ValueAfter(def: Definition, v: Option<Value>, texts: seq<Option<string>>)
    requires Counts(def.kind) && TypedOrNull(def.kind, v) && !Anchored(def, texts)
    ensures var w := SetAll(def, v, texts);
      if w.Some? then InPlace(def.kind, w.value) else v.None?
  {
    if v.Some? {
      TakenSetAll(def, v, texts);
      WrappedTwice(def.kind, Base(v) + StepsTaken(def, v, texts), 0);
    } else {
      FromNull(def, texts);
    }
  }

  /** For an integer or a word, null or not, whatever the texts: exactly when one of them gives a value
      outright, or the steps that are not refused the second time add up to nothing. */
  lemma StepsStableExact(def: Definition, v: Option<Value>, texts: seq<Option<string>>)
    requires Counts(def.kind) && TypedOrNull(def.kind, v)
    ensures Stable(def, v, texts)
       <==> Anchored(def, texts) || StepsTaken(def, SetAll(def, v, texts), texts) % Modulus(def.kind) == 0
  {
    var w := SetAll(def, v, texts);
    if Anchored(def, texts) {
      AnchoredForgets(def, v, w, texts);
    } else {
      ValueAfter(def, v, texts);
      SecondTime(def, v, w, texts);
    }
  }

  lemma SecondTime(def: Definition, v: Option<Value>, w: Option<Value>, texts: seq<Option<string>>)
    requires Counts(def.kind) && !Anchored(def, texts) && w == SetAll(def, v, texts)
    requires if w.Some? then InPlace(def.kind, w.value) else v.None?
    ensures SetAll(def, w, texts) == w <==> StepsTaken(def, w, texts) % Modulus(def.kind) == 0
  {
    if w.Some? {
      ComesBack(def, w.value.n, texts);
    } else {
      FromNull(def, texts);
      Small(0, Modulus(def.kind));
    }
  }

  lemma ComesBack(def: Definition, n: int, texts: seq<Option<string>>)
    requires Counts(def.kind) && !Anchored(def, texts) && InPlace(def.kind, Number(n))
    ensures var w := Some(Number(n));
      SetAll(def, w, texts) == w <==> StepsTaken(def, w, texts) % Modulus(def.kind) == 0
  {
    var k := StepsTaken(def, Some(Number(n)), texts);
    TakenSetAll(def, Some(Number(n)), texts);
    WrappedSame(def.kind, n, k);
  }

  // ---------------------------------------------------------------- nothing refused

  /** The sum of all the steps. */
  function Steps(def: Definition, texts: seq<Option<string>>): int {
    if texts == [] then 0
    else
      var k := StepOf(def, texts[0]);
      (if k.Some? then k.value else 0) + Steps(def, texts[1..])
  }

  predicate NothingRefused(def: Definition, v: Option<Value>, texts: seq<Option<string>>)
    decreases |texts|
  {
    texts != [] ==>
      && StepFrom(def, v, texts[0]) == StepOf(def, texts[0])
      && NothingRefused(def, SetResult(def, v, texts[0]).0, texts[1..])
  }

  lemma {:induction false} AllTaken(def: Definition, v: Option<Value>, texts: seq<Option<string>>)
    requires NothingRefused(def, v, texts)
    ensures StepsTaken(def, v, texts) == Steps(def, texts)
    decreases |texts|
  {
    if texts != [] {
      AllTaken(def, SetResult(def, v, texts[0]).0, texts[1..]);
    }
  }

  /** When the value reached refuses none of the texts: exactly when one of them gives a value outright, or
      all the steps add up to nothing. */
  lemma UnrefusedStableExact(def: Definition, v: Option<Value>, texts: seq<Option<string>>)
    requires Counts(def.kind) && TypedOrNull(def.kind, v) && NothingRefused(def, SetAll(def, v, texts), texts)
    ensures Stable(def, v, texts) <==> Anchored(def, texts) || Steps(def, texts) % Modulus(def.kind) == 0
  {
    StepsStableExact(def, v, texts);
    AllTaken(def, SetAll(def, v, texts), texts);
  }

  /** A "++" whose amount is not negative; "--" is not concerned. */
  predicate NonNegative(text: Option<string>) {
    text.Some? && IsIncrement(text.value) ==>
      var k := ParseLong(text.value[2..]); k.Some? ==> k.value >= 0
  }

  predicate NonNegativeAmounts(texts: seq<Option<string>>) {
    forall k :: 0 <= k < |texts| ==> NonNegative(texts[k])
  }

  lemma {:induction false} WordsRefuseNothing(def: Definition, v: Option<Value>, texts: seq<Option<string>>)
    requires def.kind.Enum? && (v.Some? ==> InPlace(def.kind, v.value))
    requires !Anchored(def, texts) && NonNegativeAmounts(texts)
    ensures NothingRefused(def, v, texts)
    decreases |texts|
  {
    if texts != [] {
      var next, k := SetResult(def, v, texts[0]).0, StepOf(def, texts[0]);
      TailUnanchored(def, texts);
      OneStep(def, v, texts[0]);
      assert NonNegative(texts[0]) && forall i :: 0 <= i < |texts[1..]| ==> texts[1..][i] == texts[i + 1];
      if k.Some? {
        StepTarget(def.kind.words, Base(v), texts[0].value, ParseLong(texts[0].value[2..]).value);
        WrappedTwice(def.kind, Base(v) + k.value, 0);
      }
      WordsRefuseNothing(def, next, texts[1..]);
    }
  }

  /** For a word, null or not, with no "++" of a negative amount: exactly when one of its lines gives a
      word outright or the steps add up to a multiple of the number of words. */
  lemma WordStableExact(def: Definition, v: Option<Value>, texts: seq<Option<string>>)
    requires def.kind.Enum? && TypedOrNull(def.kind, v) && NonNegativeAmounts(texts)
    ensures Stable(def, v, texts) <==> Anchored(def, texts) || Steps(def, texts) % Modulus(def.kind) == 0
  {
    StepsStableExact(def, v, texts);
    if !Anchored(def, texts) {
      ValueAfter(def, v, texts);
      WordsRefuseNothing(def, SetAll(def, v, texts), texts);
      UnrefusedStableExact(def, v, texts);
    }
  }

  // ---------------------------------------------------------------- one relative text

  /** The texts that may move the value of an integer or a word. */
  function Relatives(def: Definition, texts: seq<Option<string>>): seq<Option<string>> {
    if texts == [] then []
    else (if StepOf(def, texts[0]).Some? then [texts[0]] else []) + Relatives(def, texts[1..])
  }

  lemma {:induction false} RelativesOnly(def: Definition, v: Option<Value>, texts: seq<Option<string>>)
    requires Counts(def.kind) && !Anchored(def, texts)
    ensures SetAll(def, v, texts) == SetAll(def, v, Relatives(def, texts))
    decreases |texts|
  {
    if texts != [] {
      var rest := Relatives(def, texts[1..]);
      TailUnanchored(def, texts);
      RelativesOnly(def, SetResult(def, v, texts[0]).0, texts[1..]);
      if StepOf(def, texts[0]).Some? {
        assert ([texts[0]] + rest)[1..] == rest;
      } else {
        assert [] + rest == rest;
        if Absolute(def.kind, texts[0]) {
          AbsoluteSet(def, v, texts[0]);
        }
      }
    }
  }

  lemma {:induction false} RelativeFirst(def: Definition, texts: seq<Option<string>>)
    ensures Relatives(def, texts) != [] ==> StepOf(def, Relatives(def, texts)[0]).Some?
  {
    if texts != [] {
      RelativeFirst(def, texts[1..]);
    }
  }

  /** A second step from n finds what the first one left: it is of no amount, or one of the two is refused. */
  predicate StopsAfterOne(kind: Kind, n: int, text: string)
    requires IsIncrement(text) || IsDecrement(text)
    requires ParseLong(text[2..]).Some? && Counts(kind)
  {
    var k := ParseLong(text[2..]).value;
    match kind
    case Integer(min, max) =>
      || k % 0x1_0000_0000 == 0
      || (IsIncrement(text) && (ToInt(n + k) > max || ToInt(n + 2 * k) > max))
      || (IsDecrement(text) && (ToInt(n - k) < min || ToInt(n - 2 * k) < min))
    case Enum(words) =>
      || k % WordCount(words) == 0
      || (IsIncrement(text) && k < 0 && n < 2 * ((-k) % WordCount(words)))
  }

  lemma TwoAdds(n: int, step: int)
    ensures ToInt(ToInt(n + step) + step) == ToInt(n + 2 * step)
    ensures ToInt(n + 2 * step) == ToInt(n + step) <==> step % 0x1_0000_0000 == 0
  {
    ToIntTwice(n + step, step);
    assert (n + step) + step == n + 2 * step;
    ToIntSame(ToInt(n + step), step);
  }

  lemma IncrementExact(min: int, max: int, n: int, text: string)
    requires IsIncrement(text) && ParseLong(text[2..]).Some?
    ensures var once := IntegerTarget(min, max, n, text);
      once.None? || IntegerTarget(min, max, Base(once), text) in {None, once}
      <==> StopsAfterOne(Integer(min, max), n, text)
  {
    TwoAdds(n, ParseLong(text[2..]).value);
  }

  lemma DecrementExact(min: int, max: int, n: int, text: string)
    requires IsDecrement(text) && ParseLong(text[2..]).Some?
    ensures var once := IntegerTarget(min, max, n, text);
      once.None? || IntegerTarget(min, max, Base(once), text) in {None, once}
      <==> StopsAfterOne(Integer(min, max), n, text)
  {
    var k := ParseLong(text[2..]).value;
    TwoAdds(n, -k);
    Opposite(k, 0x1_0000_0000);
  }

  lemma WordStepExact(words: seq<string>, n: int, text: string)
    requires 0 <= n < WordCount(words) && (IsIncrement(text) || IsDecrement(text)) && ParseLong(text[2..]).Some?
    ensures var once := EnumTarget(words, n, text);
      once.None? || EnumTarget(words, Base(once), text) in {None, once}
      <==> StopsAfterOne(Enum(words), n, text)
  {
    var k, m := ParseLong(text[2..]).value, WordCount(words);
    Opposite(k, m);
    if IsIncrement(text) && k < 0 {
      BackOrRefused(words, n, text, k);
      if n >= (-k) % m {
        BackOrRefused(words, n - (-k) % m, text, k);
      }
    } else {
      var step := if IsIncrement(text) then k else -k;
      StepTarget(words, n, text, k);
      StepTarget(words, (n + step) % m, text, k);
      ModAdd(n + step, step, m);
      ModSame(n + step, step, m);
    }
  }

  /** For a single relative text among texts that give no value outright. */
  lemma OneRelativeExact(def: Definition, v: Option<Value>, texts: seq<Option<string>>)
    requires TypedOrNull(def.kind, v) && Counts(def.kind)
    requires !Anchored(def, texts) && |Relatives(def, texts)| == 1
    ensures StepOf(def, Relatives(def, texts)[0]).Some?
    ensures Stable(def, v, texts) <==> StopsAfterOne(def.kind, Base(v), Relatives(def, texts)[0].value)
  {
    var relatives := Relatives(def, texts);
    RelativeFirst(def, texts);
    RelativesOnly(def, v, texts);
    RelativesOnly(def, SetAll(def, v, texts), texts);
    assert relatives[1..] == [];
    match def.kind {
      case Integer(min, max) =>
        if IsIncrement(relatives[0].value) {
          IncrementExact(min, max, Base(v), relatives[0].value);
        } else {
          DecrementExact(min, max, Base(v), relatives[0].value);
        }
      case Enum(words) => WordStepExact(words, Base(v), relatives[0].value);
    }
  }

  // ---------------------------------------------------------------- whole files

  /** From the value v the relative texts, if they matter, come to nothing: toggles cancel out, steps through
      words without a "++" of a negative amount cancel out, a single step stops, and in general the steps that
      are not refused the second time cancel out. */
  predicate Balanced(def: Definition, v: Option<Value>, texts: seq<Option<string>>) {
    || Anchored(def, texts)
    || (if def.kind.Boolean? then Toggles(def, texts) % 2 == 0
        else if def.kind.Str? then true
        else if def.kind.Enum? && NonNegativeAmounts(texts) then Steps(def, texts) % Modulus(def.kind) == 0
        else if |Relatives(def, texts)| == 1 then
          RelativeFirst(def, texts);
          StopsAfterOne(def.kind, Base(v), Relatives(def, texts)[0].value)
        else StepsTaken(def, SetAll(def, v, texts), texts) % Modulus(def.kind) == 0)
  }

  lemma OptionStableExact(def: Definition, v: Option<Value>, texts: seq<Option<string>>)
    requires TypedOrNull(def.kind, v)
    ensures Stable(def, v, texts) <==> Balanced(def, v, texts)
  {
    if Anchored(def, texts) || def.kind.Str? {
      SetAllTwice(def, v, texts);
    } else if def.kind.Boolean? {
      BooleanStableExact(def, v, texts);
    } else if def.kind.Enum? && NonNegativeAmounts(texts) {
      WordStableExact(def, v, texts);
    } else if |Relatives(def, texts)| == 1 {
      OneRelativeExact(def, v, texts);
    } else {
      StepsStableExact(def, v, texts);
    }
  }

  /** The texts that a file gives to an option. */
  function TextsFor(shape: Shape, text: string, s: nat, i: nat): seq<Option<string>> {
    Addressed(shape, -1, ParseText(text), At(s, i))
  }

  lemma ReloadOptionTwice(shape: Shape, cells: Cells, text: string, s: nat, i: nat)
    requires Fits(shape, cells) && s < |shape| && i < |shape[s].options|
    ensures var once := ReloadCells(shape, cells, text);
      ReloadCells(shape, once, text)[s][i] == once[s][i]
      <==> Stable(shape[s].options[i].def, cells[s][i].value, TextsFor(shape, text, s, i))
  {
    ReloadCell(shape, cells, text, s, i);
    ReloadCell(shape, ReloadCells(shape, cells, text), text, s, i);
  }

  lemma CellsEqual(shape: Shape, a: Cells, b: Cells)
    requires Fits(shape, a) && Fits(shape, b)
    ensures a == b <==> forall s, i :: 0 <= s < |shape| && 0 <= i < |shape[s].options| ==> a[s][i] == b[s][i]
  {
    if forall s, i :: 0 <= s < |shape| && 0 <= i < |shape[s].options| ==> a[s][i] == b[s][i] {
      forall s | 0 <= s < |shape| ensures a[s] == b[s] {
        assert |a[s]| == |b[s]| == |shape[s].options|;
      }
    }
  }

  /** Any file is reloaded twice as once, exactly when for each option a value is given outright or the
      relative texts come to nothing. */
  lemma ReloadIdempotentExact(shape: Shape, cells: Cells, text: string)
    requires Fits(shape, cells)
    requires forall s, i :: 0 <= s < |shape| && 0 <= i < |shape[s].options| ==>
      TypedOrNull(shape[s].options[i].def.kind, cells[s][i].value)
    ensures var once := ReloadCells(shape, cells, text);
      ReloadCells(shape, once, text) == once
      <==> forall s, i :: 0 <= s < |shape| && 0 <= i < |shape[s].options| ==>
             Balanced(shape[s].options[i].def, cells[s][i].value, TextsFor(shape, text, s, i))
  {
    var once := ReloadCells(shape, cells, text);
    CellsEqual(shape, ReloadCells(shape, once, text), once);
    forall s, i | 0 <= s < |shape| && 0 <= i < |shape[s].options|
      ensures ReloadCells(shape, once, text)[s][i] == once[s][i]
         <==> Balanced(shape[s].options[i].def, cells[s][i].value, TextsFor(shape, text, s, i))
    {
      ReloadOptionTwice(shape, cells, text, s, i);
      OptionStableExact(shape[s].options[i].def, cells[s][i].value, TextsFor(shape, text, s, i));
    }
  }
}
