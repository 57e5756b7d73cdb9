/** The value of one option: what a text means for each type, and what set, set_null and reset
    make of the current value. */
module OptionValue {
  import opened Text

  datatype Value = Number(n: int) | String(s: string)

  /** Boolean, integer with a range, integer among words (string_values), string. */
  datatype Kind = Boolean | Integer(min: int, max: int) | Enum(words: seq<string>) | Str

  datatype Rc = Changed | SameValue | Error

  datatype Definition = Definition(
    kind: Kind,
    default: Option<Value>,
    nullAllowed: bool,
    check: Option<string> -> bool   // callback_check_value; always true when there is none
  )

  predicate KindOk(kind: Kind) {
    match kind
    case Integer(min, max) => IsInt(min) && IsInt(max) && min <= max
    case Enum(words) => 0 < |words| <= INT_MAX
    case _ => true
  }

  /** The C type behind the void pointer, and the range that each type always respects. */
  predicate Typed(kind: Kind, v: Value) {
    match kind
    case Boolean => v == Number(0) || v == Number(1)
    case Integer(_, _) => v.Number? && IsInt(v.n)
    case Enum(words) => v.Number? && 0 <= v.n < |words|
    case Str => v.String?
  }

  predicate InRange(kind: Kind, v: Value) {
    && Typed(kind, v)
    && (kind.Integer? ==> kind.min <= v.n <= kind.max)
  }

  predicate TypedOrNull(kind: Kind, v: Option<Value>) {
    v.Some? ==> Typed(kind, v.value)
  }

  predicate WellFormed(def: Definition, v: Option<Value>) {
    && KindOk(def.kind)
    && TypedOrNull(def.kind, v) && TypedOrNull(def.kind, def.default)
    && (!def.nullAllowed ==> v.Some? && def.default.Some?)
  }

  // ---------------------------------------------------------------- meaning of a text

  const BOOLEAN_TRUE: seq<string> := ["on", "yes", "y", "true", "t", "1"]
  const BOOLEAN_FALSE: seq<string> := ["off", "no", "n", "false", "f", "0"]

  predicate IsTrueText(text: string) { WordIndex(BOOLEAN_TRUE, text) >= 0 }
  predicate IsFalseText(text: string) { WordIndex(BOOLEAN_FALSE, text) >= 0 }

  predicate IsIncrement(text: string) { |text| >= 2 && text[0] == '+' && text[1] == '+' }
  predicate IsDecrement(text: string) { |text| >= 2 && text[0] == '-' && text[1] == '-' }

  /** C's remainder, which takes the sign of the dividend. */
  function Rem(a: int, m: int): (r: int)
    requires m > 0
    ensures -m < r < m
  {
    if a >= 0 then a % m else -((-a) % m)
  }

  function WordCount(words: seq<string>): (m: int)
    ensures m > 0
  {
    if words == [] then 1 else |words|
  }

  function Base(cur: Option<Value>): int {
    if cur.Some? && cur.value.Number? then cur.value.n else 0
  }

  function BooleanTarget(cur: Option<Value>, text: string): Option<Value> {
    if EqFold(text, "toggle") then Some(Number(if cur == Some(Number(1)) then 0 else 1))
    else if IsTrueText(text) then Some(Number(1))
    else if IsFalseText(text) then Some(Number(0))
    else None
  }

  function IntegerTarget(min: int, max: int, base: int, text: string): Option<Value> {
    if IsIncrement(text) then
      var k := ParseLong(text[2..]);
      if k.Some? && ToInt(base + k.value) <= max then Some(Number(ToInt(base + k.value))) else None
    else if IsDecrement(text) then
      var k := ParseLong(text[2..]);
      if k.Some? && ToInt(base - k.value) >= min then Some(Number(ToInt(base - k.value))) else None
    else
      var k := ParseLong(text);
      if k.Some? && min <= ToInt(k.value) <= max then Some(Number(ToInt(k.value))) else None
  }

  function EnumTarget(words: seq<string>, base: int, text: string): Option<Value> {
    var m := WordCount(words);
    if IsIncrement(text) || IsDecrement(text) then
      var k := ParseLong(text[2..]);
      if k.None? then None
      else
        var step := Rem(k.value, m);
        var v := Rem(if IsIncrement(text) then base + step else base + m - step, m);
        if v >= 0 then Some(Number(v)) else None
    else
      var i := WordIndex(words, text);
      if i >= 0 then Some(Number(i)) else None
  }

  /** The value that text asks for when the current value is cur, if the text is accepted. */
  function Target(kind: Kind, cur: Option<Value>, text: string): Option<Value> {
    match kind
    case Boolean => BooleanTarget(cur, text)
    case Integer(min, max) => IntegerTarget(min, max, Base(cur), text)
    case Enum(words) => EnumTarget(words, Base(cur), text)
    case Str => Some(String(text))
  }

  // ---------------------------------------------------------------- operations

  function Assign(cur: Option<Value>, next: Option<Value>): (Option<Value>, Rc) {
    (next, if next == cur then SameValue else Changed)
  }

  function SetResult(def: Definition, cur: Option<Value>, text: Option<string>): (Option<Value>, Rc) {
    if !def.check(text) then (cur, Error)
    else if text.None? then Assign(cur, if def.nullAllowed then None else cur)
    else
      var v := Target(def.kind, cur, text.value);
      if v.None? then (cur, Error) else Assign(cur, v)
  }

  function SetNullResult(def: Definition, cur: Option<Value>): (Option<Value>, Rc) {
    if def.nullAllowed then Assign(cur, None) else (cur, Error)
  }

  function ResetResult(def: Definition, cur: Option<Value>): (Option<Value>, Rc) {
    if def.default.None? && !def.nullAllowed then (cur, Error) else Assign(cur, def.default)
  }

  function HasChanged(def: Definition, cur: Option<Value>): bool {
    cur != def.default
  }

  /** Value given to a new option by a text: an invalid text gives a value all the same. */
  function InitialValue(kind: Kind, text: string): Value {
    match kind
    case Boolean => Number(if IsTrueText(text) then 1 else 0)
    case Integer(min, max) =>
      var k := ParseLong(text);
      var n := if k.Some? then k.value else 0;
      Number(if n < min then min else if n > max then max else n)
    case Enum(words) =>
      var i := WordIndex(words, text);
      Number(if i >= 0 then i else 0)
    case Str => String(text)
  }

  function Initial(kind: Kind, text: Option<string>): Option<Value> {
    if text.None? then None else Some(InitialValue(kind, text.value))
  }

  /** The default and the value of a new option, or None when it is refused. */
  function NewValues(kind: Kind, nullAllowed: bool, default: Option<string>, value: Option<string>)
    : Option<(Option<Value>, Option<Value>)>
  {
    if nullAllowed then Some((Initial(kind, default), Initial(kind, value)))
    else
      var v := if value.Some? then value else default;
      var d := if default.Some? then default else value;
      if v.None? then None else Some((Initial(kind, d), Initial(kind, v)))
  }

  // ---------------------------------------------------------------- every run is well formed

  datatype Action = Set(text: Option<string>) | SetNull | Reset

  function Act(def: Definition, cur: Option<Value>, a: Action): (Option<Value>, Rc) {
    match a
    case Set(text) => SetResult(def, cur, text)
    case SetNull => SetNullResult(def, cur)
    case Reset => ResetResult(def, cur)
  }

  function RunActions(def: Definition, v: Option<Value>, actions: seq<Action>): Option<Value> {
    if actions == [] then v
    else Act(def, RunActions(def, v, actions[..|actions| - 1]), actions[|actions| - 1]).0
  }

  lemma TargetTyped(kind: Kind, cur: Option<Value>, text: string)
    requires KindOk(kind) && TypedOrNull(kind, cur)
    ensures TypedOrNull(kind, Target(kind, cur, text))
  {
  }

  lemma NewValuesWellFormed(kind: Kind, nullAllowed: bool, default: Option<string>, value: Option<string>,
                            check: Option<string> -> bool)
    requires KindOk(kind)
    ensures var r := NewValues(kind, nullAllowed, default, value);
      && (r.None? <==> !nullAllowed && default.None? && value.None?)
      && (r.Some? ==>
            && WellFormed(Definition(kind, r.value.0, nullAllowed, check), r.value.1)
            && (r.value.0.Some? ==> InRange(kind, r.value.0.value))
            && (r.value.1.Some? ==> InRange(kind, r.value.1.value)))
  {
  }

  /** From creation on, whatever is set or reset: a value that may not be null is not null, a boolean
      is 0 or 1, an index names a word, an integer fits in int. */
  lemma {:induction false} RunWellFormed(def: Definition, v: Option<Value>, actions: seq<Action>)
    requires WellFormed(def, v)
    ensures WellFormed(def, RunActions(def, v, actions))
  {
    if actions != [] {
      RunWellFormed(def, v, actions[..|actions| - 1]);
      var cur := RunActions(def, v, actions[..|actions| - 1]);
      var a := actions[|actions| - 1];
      if a.Set? && a.text.Some? {
        TargetTyped(def.kind, cur, a.text.value);
      }
    }
  }

  // ---------------------------------------------------------------- range of integers

  /** The bound that the relative forms do not check. */
  predicate Escapes(min: int, max: int, base: int, text: string) {
    if IsIncrement(text) then
      var k := ParseLong(text[2..]);
      k.Some? && ToInt(base + k.value) < min
    else
      IsDecrement(text) &&
      var k := ParseLong(text[2..]);
      k.Some? && ToInt(base - k.value) > max
  }

  /** An accepted text leaves the range exactly when it is relative and passes the unchecked bound. */
  lemma IntegerRangeExact(min: int, max: int, cur: Option<Value>, text: string)
    requires KindOk(Integer(min, max)) && TypedOrNull(Integer(min, max), cur)
    ensures var v := Target(Integer(min, max), cur, text);
      v.Some? ==> (InRange(Integer(min, max), v.value) <==> !Escapes(min, max, Base(cur), text))
  {
  }

  /** Relative amounts that are not negative, do not overflow and start from a value in range
      are safe. */
  lemma SafeAmounts(min: int, max: int, n: int, text: string)
    requires KindOk(Integer(min, max)) && min <= n <= max
    requires IsIncrement(text) || IsDecrement(text) ==>
               ParseLong(text[2..]).Some? ==>
                 var k := ParseLong(text[2..]).value;
                 0 <= k && IsInt(if IsIncrement(text) then n + k else n - k)
    ensures !Escapes(min, max, n, text)
  {
  }

  predicate InRangeOrNull(kind: Kind, v: Option<Value>) {
    v.Some? ==> InRange(kind, v.value)
  }

  /** The action is accepted and passes the bound that is not checked. */
  predicate Leaves(def: Definition, cur: Option<Value>, a: Action)
    requires def.kind.Integer?
  {
    && a.Set? && a.text.Some? && def.check(a.text)
    && Target(def.kind, cur, a.text.value).Some?
    && Escapes(def.kind.min, def.kind.max, Base(cur), a.text.value)
  }

  lemma StepInRange(def: Definition, cur: Option<Value>, a: Action)
    requires WellFormed(def, cur) && def.kind.Integer?
    requires InRangeOrNull(def.kind, cur) && InRangeOrNull(def.kind, def.default)
    ensures InRangeOrNull(def.kind, Act(def, cur, a).0) <==> !Leaves(def, cur, a)
  {
    if a.Set? && a.text.Some? {
      IntegerRangeExact(def.kind.min, def.kind.max, cur, a.text.value);
    }
  }

  /** The value is in range, or null, at the start and after every action. */
  predicate AlwaysInRange(def: Definition, v: Option<Value>, actions: seq<Action>) {
    && InRangeOrNull(def.kind, RunActions(def, v, actions))
    && (actions != [] ==> AlwaysInRange(def, v, actions[..|actions| - 1]))
  }

  /** No action passes the unchecked bound from the value it meets. */
  predicate NeverLeaves(def: Definition, v: Option<Value>, actions: seq<Action>)
    requires def.kind.Integer?
  {
    actions != [] ==>
      var front := actions[..|actions| - 1];
      NeverLeaves(def, v, front) && !Leaves(def, RunActions(def, v, front), actions[|actions| - 1])
  }

  lemma {:induction false} RunInRangeExact(def: Definition, v: Option<Value>, actions: seq<Action>)
    requires WellFormed(def, v) && def.kind.Integer?
    requires InRangeOrNull(def.kind, v) && InRangeOrNull(def.kind, def.default)
    ensures AlwaysInRange(def, v, actions) <==> NeverLeaves(def, v, actions)
  {
    if actions != [] {
      var front := actions[..|actions| - 1];
      RunInRangeExact(def, v, front);
      RunWellFormed(def, v, front);
      if AlwaysInRange(def, v, front) {
        StepInRange(def, RunActions(def, v, front), actions[|actions| - 1]);
      }
    }
  }

  /** A relative amount is safe where it is applied: to a value, not negative, without overflow. */
  predicate SafeAt(cur: Option<Value>, a: Action) {
    a.Set? && a.text.Some? && (IsIncrement(a.text.value) || IsDecrement(a.text.value)) ==>
      var k := ParseLong(a.text.value[2..]);
      k.Some? ==>
        && cur.Some? && 0 <= k.value
        && IsInt(if IsIncrement(a.text.value) then Base(cur) + k.value else Base(cur) - k.value)
  }

  predicate SafeRun(def: Definition, v: Option<Value>, actions: seq<Action>) {
    actions != [] ==>
      var front := actions[..|actions| - 1];
      SafeRun(def, v, front) && SafeAt(RunActions(def, v, front), actions[|actions| - 1])
  }

  /** With such amounts a run never leaves the range, nullable integers included. */
  lemma {:induction false} RunInRange(def: Definition, v: Option<Value>, actions: seq<Action>)
    requires WellFormed(def, v) && def.kind.Integer? && SafeRun(def, v, actions)
    requires InRangeOrNull(def.kind, v) && InRangeOrNull(def.kind, def.default)
    ensures AlwaysInRange(def, v, actions)
  {
    if actions != [] {
      var front, a := actions[..|actions| - 1], actions[|actions| - 1];
      var cur := RunActions(def, v, front);
      RunInRange(def, v, front);
      RunWellFormed(def, v, front);
      if a.Set? && a.text.Some? && cur.Some? {
        SafeAmounts(def.kind.min, def.kind.max, cur.value.n, a.text.value);
      }
      StepInRange(def, cur, a);
    }
  }

  predicate Increments(text: string, a: int) {
    IsIncrement(text) && ParseLong(text[2..]) == Some(a)
  }

  predicate Decrements(text: string, a: int) {
    IsDecrement(text) && ParseLong(text[2..]) == Some(a)
  }

  /** The texts a user types for a relative amount. */
  lemma AmountTexts(a: int)
    requires IsLong(a)
    ensures Increments("++" + IntText(a), a) && Decrements("--" + IntText(a), a)
  {
    ParsePrinted(a);
    assert ("++" + IntText(a))[2..] == IntText(a) && ("--" + IntText(a))[2..] == IntText(a);
  }

  lemma IncrementTarget(min: int, max: int, base: int, text: string, k: int)
    requires Increments(text, k)
    ensures IntegerTarget(min, max, base, text)
         == if ToInt(base + k) <= max then Some(Number(ToInt(base + k))) else None
  {
  }

  /** Every range can be left by a negative amount. */
  lemma NegativeAmountEscapes(min: int, max: int, n: int)
    requires KindOk(Integer(min, max)) && INT_MIN < min <= n <= max
    ensures Target(Integer(min, max), Some(Number(n)), "++" + IntText(min - 1 - n)) == Some(Number(min - 1))
  {
    AmountTexts(min - 1 - n);
    IncrementTarget(min, max, n, "++" + IntText(min - 1 - n), min - 1 - n);
  }

  lemma WrapsAround()
    ensures ToInt(INT_MAX + 1) == INT_MIN
  {
  }

  /** ... by a positive amount that wraps around. */
  lemma LargeAmountEscapes(min: int, max: int, n: int)
    requires KindOk(Integer(min, max)) && INT_MIN < min <= n <= max
    ensures INT_MAX + 1 - n > 0
    ensures Target(Integer(min, max), Some(Number(n)), "++" + IntText(INT_MAX + 1 - n)) == Some(Number(INT_MIN))
  {
    var k := INT_MAX + 1 - n;
    AmountTexts(k);
    WrapsAround();
    IncrementTarget(min, max, n, "++" + IntText(k), k);
  }

  /** ... and from a null value, which counts as 0. */
  lemma NullStartEscapes(min: int, max: int)
    requires KindOk(Integer(min, max)) && 0 < min
    ensures Target(Integer(min, max), None, "++" + IntText(0)) == Some(Number(0))
  {
    AmountTexts(0);
    IncrementTarget(min, max, 0, "++" + IntText(0), 0);
  }

  // ---------------------------------------------------------------- return codes and reset

  /** CHANGED exactly when the value before and the value after differ; otherwise it is kept. */
  lemma CodesExact(def: Definition, cur: Option<Value>, a: Action)
    ensures var (next, rc) := Act(def, cur, a); rc == Changed <==> next != cur
  {
  }

  /** Set: an error exactly when the text is refused, by the check callback or as no value of this type, and
      then nothing changes. A text accepted gives its value; no text gives null where null is allowed. */
  lemma SetExact(def: Definition, cur: Option<Value>, text: Option<string>)
    ensures var (next, rc) := SetResult(def, cur, text);
      && (rc == Error <==> !def.check(text) || (text.Some? && Target(def.kind, cur, text.value).None?))
      && (rc == Error ==> next == cur)
      && (rc != Error && text.Some? ==> next == Target(def.kind, cur, text.value))
      && (rc != Error && text.None? ==> next == if def.nullAllowed then None else cur)
      && (rc == SameValue <==> rc != Error && next == cur)
  {
  }

  lemma SetNullExact(def: Definition, cur: Option<Value>)
    ensures var (next, rc) := SetNullResult(def, cur);
      && (rc == Error <==> !def.nullAllowed)
      && (rc == Error ==> next == cur) && (rc != Error ==> next == None)
      && (rc == SameValue <==> rc != Error && next == cur)
  {
  }

  /** Reset fails only without a default where null is not allowed, and keeps the value then. Otherwise the
      option has its default, null included, and resetting again changes nothing. */
  lemma ResetTwice(def: Definition, cur: Option<Value>)
    ensures var (v, rc) := ResetResult(def, cur);
      && (rc == Error <==> def.default.None? && !def.nullAllowed)
      && (rc == Error ==> v == cur)
      && (rc != Error ==> v == def.default && ResetResult(def, v) == (v, SameValue))
  {
  }

  /** An option has changed exactly when resetting it would change it. */
  lemma ChangedExact(def: Definition, cur: Option<Value>)
    requires def.default.Some? || def.nullAllowed
    ensures HasChanged(def, cur) <==> ResetResult(def, cur).1 == Changed
    ensures !HasChanged(def, cur) ==> cur == def.default
  {
  }

  // ---------------------------------------------------------------- the texts of a value

  predicate SaysTrue(text: string) {
    EqFold("on", text) || EqFold("yes", text) || EqFold("y", text)
    || EqFold("true", text) || EqFold("t", text) || EqFold("1", text)
  }

  predicate SaysFalse(text: string) {
    EqFold("off", text) || EqFold("no", text) || EqFold("n", text)
    || EqFold("false", text) || EqFold("f", text) || EqFold("0", text)
  }

  lemma BooleanWords(text: string)
    ensures IsTrueText(text) <==> SaysTrue(text)
    ensures IsFalseText(text) <==> SaysFalse(text)
  {
    var t, f := WordIndex(BOOLEAN_TRUE, text), WordIndex(BOOLEAN_FALSE, text);
    assert BOOLEAN_TRUE[0] == "on" && BOOLEAN_TRUE[1] == "yes" && BOOLEAN_TRUE[2] == "y";
    assert BOOLEAN_TRUE[3] == "true" && BOOLEAN_TRUE[4] == "t" && BOOLEAN_TRUE[5] == "1";
    assert BOOLEAN_FALSE[0] == "off" && BOOLEAN_FALSE[1] == "no" && BOOLEAN_FALSE[2] == "n";
    assert BOOLEAN_FALSE[3] == "false" && BOOLEAN_FALSE[4] == "f" && BOOLEAN_FALSE[5] == "0";
  }

  /** What each text does to a boolean, in any case of its letters; any other text is refused. */
  lemma BooleanTextsExact(cur: Option<Value>, text: string)
    requires TypedOrNull(Boolean, cur)
    ensures Target(Boolean, cur, text)
         == if EqFold(text, "toggle") then (if cur == Some(Number(1)) then Some(Number(0)) else Some(Number(1)))
            else if SaysTrue(text) then Some(Number(1))
            else if SaysFalse(text) then Some(Number(0))
            else None
  {
    BooleanWords(text);
  }

  lemma DecrementTarget(min: int, max: int, base: int, text: string, k: int)
    requires Decrements(text, k)
    ensures IntegerTarget(min, max, base, text)
         == if ToInt(base - k) >= min then Some(Number(ToInt(base - k))) else None
  {
  }

  lemma NumberTarget(min: int, max: int, base: int, text: string, k: int)
    requires !IsIncrement(text) && !IsDecrement(text) && ParseLong(text) == Some(k)
    ensures IntegerTarget(min, max, base, text)
         == if min <= ToInt(k) <= max then Some(Number(ToInt(k))) else None
  {
  }

  lemma IncrementSet(min: int, max: int, cur: Option<Value>, text: string, k: int)
    requires TypedOrNull(Integer(min, max), cur) && Increments(text, k)
    ensures var n := ToInt((if cur.None? then 0 else cur.value.n) + k);
      Target(Integer(min, max), cur, text) == if n <= max then Some(Number(n)) else None
  {
    IncrementTarget(min, max, Base(cur), text, k);
  }

  lemma DecrementSet(min: int, max: int, cur: Option<Value>, text: string, k: int)
    requires TypedOrNull(Integer(min, max), cur) && Decrements(text, k)
    ensures var n := ToInt((if cur.None? then 0 else cur.value.n) - k);
      Target(Integer(min, max), cur, text) == if n >= min then Some(Number(n)) else None
  {
    DecrementTarget(min, max, Base(cur), text, k);
  }

  /** What the three forms of a printed number do to an integer, null counting as 0. */
  lemma IncrementTextExact(min: int, max: int, cur: Option<Value>, k: int)
    requires TypedOrNull(Integer(min, max), cur) && IsLong(k)
    ensures var n := ToInt((if cur.None? then 0 else cur.value.n) + k);
      Target(Integer(min, max), cur, "++" + IntText(k)) == if n <= max then Some(Number(n)) else None
  {
    AmountTexts(k);
    IncrementSet(min, max, cur, "++" + IntText(k), k);
  }

  lemma DecrementTextExact(min: int, max: int, cur: Option<Value>, k: int)
    requires TypedOrNull(Integer(min, max), cur) && IsLong(k)
    ensures var n := ToInt((if cur.None? then 0 else cur.value.n) - k);
      Target(Integer(min, max), cur, "--" + IntText(k)) == if n >= min then Some(Number(n)) else None
  {
    AmountTexts(k);
    DecrementSet(min, max, cur, "--" + IntText(k), k);
  }

  lemma NumberTextExact(min: int, max: int, cur: Option<Value>, k: int)
    requires TypedOrNull(Integer(min, max), cur) && IsLong(k)
    ensures Target(Integer(min, max), cur, IntText(k))
         == if min <= ToInt(k) <= max then Some(Number(ToInt(k))) else None
  {
    ParsePrinted(k);
    IntTextPlain(k);
    NumberTarget(min, max, Base(cur), IntText(k), k);
  }

  lemma IntTextPlain(k: int)
    ensures !IsIncrement(IntText(k)) && !IsDecrement(IntText(k))
  {
    assert k < 0 ==> IntText(k)[1..] == NatText(-k);
  }

  /** What a new option makes of a text: a number is brought into the range, and a text that is no value
      counts as off, 0, or the first word. */
  ghost predicate FirstValue(kind: Kind, text: string, v: Value) {
    match kind
    case Boolean => v == if SaysTrue(text) then Number(1) else Number(0)
    case Integer(min, max) =>
      && (ParseLong(text).None? ==> v == Number(if 0 < min then min else if 0 > max then max else 0))
      && (forall n {:trigger IntText(n)} :: IsLong(n) && text == IntText(n) ==>
            v == Number(if n < min then min else if n > max then max else n))
      && (forall n :: ParseLong(text) == Some(n) ==>
            v == Number(if n < min then min else if n > max then max else n))
    case Enum(words) =>
      && (forall i :: 0 <= i < |words| && EqFold(words[i], text) && (forall j :: 0 <= j < i ==> !EqFold(words[j], text))
            ==> v == Number(i))
      && ((forall i :: 0 <= i < |words| ==> !EqFold(words[i], text)) ==> v == Number(0))
    case Str => v == String(text)
  }

  lemma InitialIsFirst(kind: Kind, text: string)
    ensures FirstValue(kind, text, InitialValue(kind, text))
  {
    match kind
    case Boolean => BooleanWords(text);
    case Integer(min, max) =>
      forall n {:trigger IntText(n)} | IsLong(n) && text == IntText(n)
        ensures ParseLong(text) == Some(n)
      {
        ParsePrinted(n);
      }
    case Enum(words) =>
    case Str =>
  }

  /** The two values of a new option: each comes from its own text, and from the other one only when it has
      none and may not be null. */
  ghost predicate Starts(kind: Kind, nullAllowed: bool, default: Option<string>, text: Option<string>,
                         defaultValue: Option<Value>, value: Option<Value>)
  {
    && (if text.Some? then value.Some? && FirstValue(kind, text.value, value.value)
        else if nullAllowed || default.None? then value == None
        else value.Some? && FirstValue(kind, default.value, value.value))
    && (if default.Some? then defaultValue.Some? && FirstValue(kind, default.value, defaultValue.value)
        else if nullAllowed || text.None? then defaultValue == None
        else defaultValue.Some? && FirstValue(kind, text.value, defaultValue.value))
  }

  lemma NewValuesExact(kind: Kind, nullAllowed: bool, default: Option<string>, text: Option<string>)
    ensures var r := NewValues(kind, nullAllowed, default, text);
      && (r.None? <==> !nullAllowed && default.None? && text.None?)
      && (r.Some? ==> Starts(kind, nullAllowed, default, text, r.value.0, r.value.1))
  {
    if text.Some? {
      InitialIsFirst(kind, text.value);
    }
    if default.Some? {
      InitialIsFirst(kind, default.value);
    }
  }

  // ---------------------------------------------------------------- stepping through words

  /** Reducing an operand first makes no difference to the sum modulo m. */
  lemma ModAdd(x: int, b: int, m: int)
    requires m > 0
    ensures (x % m + b) % m == (x + b) % m
  {
    ModShift(x % m + b, x / m, m);
    assert x % m + b + (x / m) * m == x + b;
  }

  lemma {:induction false} ModShift(x: int, q: int, m: int)
    requires m > 0
    ensures (x + q * m) % m == x % m
    decreases if q < 0 then -q else q
  {
    if q > 0 {
      ModShift(x, q - 1, m);
      assert x + q * m == (x + (q - 1) * m) + m;
      ModOne(x + (q - 1) * m, m);
    } else if q < 0 {
      ModShift(x, q + 1, m);
      assert x + (q + 1) * m == (x + q * m) + m;
      ModOne(x + q * m, m);
    }
  }

  lemma ModOne(y: int, m: int)
    requires m > 0
    ensures (y + m) % m == y % m
  {
    assert y + m == (y / m + 1) * m + y % m;
    ModUnique(y + m, y / m + 1, y % m, m);
  }

  lemma {:induction false} AtLeast(d: int, m: int)
    requires d >= 1 && m > 0
    ensures d * m >= m
  {
    if d > 1 {
      AtLeast(d - 1, m);
      assert d * m == (d - 1) * m + m;
    }
  }

  lemma NegateProduct(d: int, m: int)
    ensures (-d) * m == -(d * m)
  {
  }

  lemma SmallMultiple(d: int, m: int)
    requires m > 0 && -m < d * m < m
    ensures d == 0
  {
    if d > 0 {
      AtLeast(d, m);
    } else if d < 0 {
      AtLeast(-d, m);
      NegateProduct(d, m);
    }
  }

  lemma ModUnique(y: int, q: int, r: int, m: int)
    requires m > 0 && 0 <= r < m && y == q * m + r
    ensures y % m == r
  {
    var d := y / m - q;
    assert y == (y / m) * m + y % m;
    assert d * m == (y / m) * m - q * m;
    SmallMultiple(d, m);
  }

  lemma IncrementWord(words: seq<string>, base: int, text: string, a: nat)
    requires 0 <= base < WordCount(words) && Increments(text, a)
    ensures EnumTarget(words, base, text) == Some(Number((base + a % WordCount(words)) % WordCount(words)))
  {
  }

  lemma DecrementWord(words: seq<string>, base: int, text: string, a: nat)
    requires 0 <= base < WordCount(words) && Decrements(text, a)
    ensures var m := WordCount(words);
      EnumTarget(words, base, text) == Some(Number((base + m - a % m) % m))
  {
  }

  lemma BackStep(i: int, a: nat, m: nat)
    requires 0 <= i < m
    ensures (i + m - a % m) % m == (i - a) % m
  {
    assert a == (a / m) * m + a % m;
    assert (a / m + 1) * m == (a / m) * m + m;
    ModShift(i - a, a / m + 1, m);
  }

  /** Stepping a words forward or back from a word is arithmetic modulo the number of words. */
  lemma StepForward(words: seq<string>, cur: Option<Value>, text: string, a: nat)
    requires Increments(text, a) && cur.Some? && Typed(Enum(words), cur.value)
    ensures Target(Enum(words), cur, text) == Some(Number((cur.value.n + a) % |words|))
  {
    IncrementWord(words, cur.value.n, text, a);
    ModAdd(a, cur.value.n, |words|);
  }

  lemma StepBack(words: seq<string>, cur: Option<Value>, text: string, a: nat)
    requires Decrements(text, a) && cur.Some? && Typed(Enum(words), cur.value)
    ensures Target(Enum(words), cur, text) == Some(Number((cur.value.n - a) % |words|))
  {
    DecrementWord(words, cur.value.n, text, a);
    BackStep(cur.value.n, a, |words|);
  }

  /** ++a then ++b is ++(a+b). */
  lemma StepThenStep(words: seq<string>, cur: Option<Value>, ta: string, tb: string, tab: string, a: nat, b: nat)
    requires cur.Some? && Typed(Enum(words), cur.value)
    requires Increments(ta, a) && Increments(tb, b) && Increments(tab, a + b)
    ensures Target(Enum(words), Target(Enum(words), cur, ta), tb) == Target(Enum(words), cur, tab)
  {
    StepForward(words, cur, ta, a);
    StepForward(words, cur, tab, a + b);
    StepForward(words, Target(Enum(words), cur, ta), tb, b);
    ModAdd(cur.value.n + a, b, |words|);
  }

  /** --a undoes ++a. */
  lemma StepThenBack(words: seq<string>, cur: Option<Value>, there: string, back: string, a: nat)
    requires cur.Some? && Typed(Enum(words), cur.value)
    requires Increments(there, a) && Decrements(back, a)
    ensures Target(Enum(words), Target(Enum(words), cur, there), back) == cur
  {
    StepForward(words, cur, there, a);
    StepBack(words, Target(Enum(words), cur, there), back, a);
    ReturnTrip(cur.value.n, a, |words|);
  }

  lemma ReturnTrip(i: int, a: int, m: int)
    requires 0 <= i < m
    ensures ((i + a) % m - a) % m == i
  {
    var b := 0 - a;
    ModAdd(i + a, b, m);
    assert i + a + b == i;
    assert (i + a) % m - a == (i + a) % m + b;
    assert i % m == i;
  }
}
