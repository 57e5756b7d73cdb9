/** When an option gets back the value it was written with: exact conditions for one option. */
module Restore {
  import opened Text
  import opened OptionValue
  import opened LineFormat

  /** The text that the reader hands to the option. */
  function PlainText(kind: Kind, v: Option<Value>): Option<string>
    requires TypedOrNull(kind, v)
  {
    if v.None? then None
    else if kind.Str? then Some(v.value.s)
    else Some(ValueText(kind, v.value))
  }

  predicate ValuePrintable(kind: Kind, v: Value)
    requires Typed(kind, v)
  {
    match kind
    case Str => OneLine(v.s)
    case Enum(words) => OneLine(words[v.n]) && BareTextOk(words[v.n])
    case _ => true
  }

  predicate Printable(name: string, kind: Kind, v: Option<Value>)
    requires TypedOrNull(kind, v)
  {
    if v.None? then NameAloneOk(name) else NameWithValueOk(name) && ValuePrintable(kind, v.value)
  }

  lemma DifferentStart(s: string, t: string)
    requires s != "" && t != "" && FoldChar(s[0]) != FoldChar(t[0])
    ensures !EqFold(s, t)
  {
  }

  lemma DifferentLength(s: string, t: string)
    requires |s| != |t|
    ensures !EqFold(s, t)
  {
    StrCaseCmpZero(s, t);
  }

  lemma BareText(w: string)
    requires w != "" && w[0] != ' ' && w[0] != 'n' && w[0] != 'N'
    requires w[|w| - 1] != ' ' && w[|w| - 1] != '\'' && w[|w| - 1] != '"'
    ensures BareTextOk(w)
  {
    DifferentStart(w, "null");
  }

  lemma {:induction false} DigitsOneLine(s: string)
    requires AllDigits(s)
    ensures OneLine(s)
  {
  }

  lemma IntTextBare(n: int)
    ensures OneLine(IntText(n)) && BareTextOk(IntText(n))
    ensures !IsIncrement(IntText(n)) && !IsDecrement(IntText(n))
  {
    var s := IntText(n);
    var d := NatText(if n < 0 then -n else n);
    DigitsOneLine(d);
    assert s[|s| - 1] == d[|d| - 1];
    BareText(s);
  }

  lemma BooleanBare()
    ensures OneLine("on") && BareTextOk("on") && OneLine("off") && BareTextOk("off")
  {
    BareText("on");
    BareText("off");
  }

  /** The printed value as it is read. */
  lemma ReadPrintedText(kind: Kind, v: Value)
    requires Typed(kind, v)
    ensures kind.Str? || ValuePrintable(kind, v) ==>
              ReadValue(" " + ValueText(kind, v)) == PlainText(kind, Some(v))
    ensures kind.Enum? && ReadValue(" " + ValueText(kind, v)) == PlainText(kind, Some(v)) ==>
              BareTextOk(kind.words[v.n])
    ensures ValuePrintable(kind, v) ==> OneLine(ValueText(kind, v))
    ensures OneLine(ValueText(kind, v)) <==> OneLine(PlainText(kind, Some(v)).value)
  {
    var t := ValueText(kind, v);
    match kind
    case Boolean =>
      BooleanBare();
      BareTextExact(t);
    case Integer(_, _) =>
      IntTextBare(v.n);
      BareTextExact(t);
    case Enum(words) =>
      BareTextExact(t);
    case Str =>
      QuotedText(v.s);
      assert " \"" + v.s + "\"" == " " + t;
      assert forall i :: 0 <= i < |v.s| ==> t[i + 1] == v.s[i];
      assert forall c :: c in t <==> c == '"' || c in v.s;
  }

  /** The line written for an option is read back as that option and value exactly when the name and
      the value are printable. */
  lemma PrintedLineExact(name: string, kind: Kind, v: Option<Value>)
    requires TypedOrNull(kind, v)
    ensures ReadLine(OptionText(name, kind, v) + "\n") == OptionLine(name, PlainText(kind, v))
       <==> Printable(name, kind, v)
  {
    var line := OptionText(name, kind, v) + "\n";
    ReadLineOneLine(line);
    if OneLine(name) {
      if v.None? {
        assert line == Escape(name) + name + "\n" by {
          assert Escape(name) + name + "" == Escape(name) + name;
        }
        ReadPrintedAlone(name);
      } else {
        var t := ValueText(kind, v.value);
        ReadPrintedText(kind, v.value);
        assert line == Escape(name) + name + " = " + t + "\n" by {
          assert Escape(name) + name + (" = " + t) == Escape(name) + name + " = " + t;
        }
        if OneLine(t) {
          ReadPrintedValue(name, t);
        }
      }
    }
  }

  // ---------------------------------------------------------------- setting the text read

  predicate WordRestorable(words: seq<string>, i: nat)
    requires i < |words|
  {
    var w := words[i];
    if IsIncrement(w) || IsDecrement(w) then |words| == 1 && ParseLong(w[2..]).Some?
    else forall j :: 0 <= j < i ==> !EqFold(words[j], w)
  }

  predicate Restorable(kind: Kind, v: Value)
    requires Typed(kind, v)
  {
    match kind
    case Integer(min, max) => min <= v.n <= max
    case Enum(words) => WordRestorable(words, v.n)
    case _ => true
  }

  lemma BooleanTexts(cur: Option<Value>)
    ensures BooleanTarget(cur, "on") == Some(Number(1))
    ensures BooleanTarget(cur, "off") == Some(Number(0))
  {
    DifferentLength("on", "toggle");
    DifferentLength("off", "toggle");
    EqFoldReflexive("on");
    EqFoldReflexive("off");
    assert BOOLEAN_TRUE[0] == "on" && BOOLEAN_FALSE[0] == "off";
    forall j | 0 <= j < |BOOLEAN_TRUE|
      ensures !EqFold(BOOLEAN_TRUE[j], "off")
    {
      if j == 1 {
        DifferentStart("yes", "off");
      } else {
        DifferentLength(BOOLEAN_TRUE[j], "off");
      }
    }
  }

  lemma WordFound(words: seq<string>, i: nat)
    requires i < |words|
    ensures WordIndex(words, words[i]) == i <==> forall j :: 0 <= j < i ==> !EqFold(words[j], words[i])
  {
    EqFoldReflexive(words[i]);
  }

  lemma RemSuccessor(x: int, m: int)
    requires m > 1 && -m < x < 2 * m && Rem(x, m) >= 0
    ensures Rem(x + 1, m) != Rem(x, m)
  {
    if x < m {
      RemBelow(x, m);
      if x + 1 < m {
        RemBelow(x + 1, m);
      }
    } else {
      RemAbove(x, m);
      if x + 1 < 2 * m {
        RemAbove(x + 1, m);
      }
    }
  }

  lemma RemBelow(x: int, m: int)
    requires m > 0 && -m < x < m
    ensures Rem(x, m) == x
  {
    if x >= 0 {
      ModUnique(x, 0, x, m);
    } else {
      ModUnique(-x, 0, -x, m);
    }
  }

  lemma RemAbove(x: int, m: int)
    requires m > 1 && m <= x < 2 * m
    ensures Rem(x, m) == x - m
  {
    ModOne(x - m, m);
  }

  lemma StepMoves(words: seq<string>, text: string)
    requires |words| > 1 && (IsIncrement(text) || IsDecrement(text))
    ensures EnumTarget(words, 0, text).None? || EnumTarget(words, 1, text) != EnumTarget(words, 0, text)
  {
    var m := |words|;
    var k := ParseLong(text[2..]);
    if k.Some? {
      var step := Rem(k.value, m);
      var x := if IsIncrement(text) then step else m - step;
      if Rem(x, m) >= 0 {
        RemSuccessor(x, m);
      }
    }
  }

  lemma OneWord(words: seq<string>, base: int, text: string)
    requires |words| == 1 && (IsIncrement(text) || IsDecrement(text))
    ensures EnumTarget(words, base, text) == if ParseLong(text[2..]).Some? then Some(Number(0)) else None
  {
  }

  ghost predicate AlwaysGives(kind: Kind, text: string, v: Value) {
    forall cur :: TypedOrNull(kind, cur) ==> Target(kind, cur, text) == Some(v)
  }

  lemma EnumRestores(words: seq<string>, i: nat)
    requires i < |words|
    ensures AlwaysGives(Enum(words), words[i], Number(i)) <==> WordRestorable(words, i)
  {
    var w, kind := words[i], Enum(words);
    if IsIncrement(w) || IsDecrement(w) {
      if |words| == 1 {
        forall base
          ensures EnumTarget(words, base, w) == if ParseLong(w[2..]).Some? then Some(Number(0)) else None
        {
          OneWord(words, base, w);
        }
        assert Target(kind, None, w) == EnumTarget(words, 0, w);
      } else {
        StepMoves(words, w);
        assert Target(kind, None, w) == EnumTarget(words, 0, w);
        assert Target(kind, Some(Number(1)), w) == EnumTarget(words, 1, w);
        assert TypedOrNull(kind, Some(Number(1))) && TypedOrNull(kind, None);
      }
    } else {
      WordFound(words, i);
      assert Target(kind, None, w) == EnumTarget(words, 0, w);
    }
  }

  lemma IntegerRestores(min: int, max: int, n: int)
    requires IsInt(n)
    ensures AlwaysGives(Integer(min, max), IntText(n), Number(n)) <==> min <= n <= max
  {
    ParsePrinted(n);
    IntTextBare(n);
    forall cur
      ensures Target(Integer(min, max), cur, IntText(n))
           == if min <= n <= max then Some(Number(n)) else None
    {
      PlainInteger(min, max, Base(cur), IntText(n), n);
    }
    assert TypedOrNull(Integer(min, max), None);
  }

  lemma PlainInteger(min: int, max: int, base: int, text: string, n: int)
    requires !IsIncrement(text) && !IsDecrement(text) && ParseLong(text) == Some(n) && IsInt(n)
    ensures IntegerTarget(min, max, base, text) == if min <= n <= max then Some(Number(n)) else None
  {
  }

  /** Whatever its current value, an option takes the value v from the text written for v exactly when v
      is restorable: a number in range, a word that is not hidden by an earlier one. */
  lemma RestoreExact(kind: Kind, v: Value)
    requires Typed(kind, v)
    ensures AlwaysGives(kind, PlainText(kind, Some(v)).value, v) <==> Restorable(kind, v)
  {
    match kind
    case Boolean =>
      forall cur
        ensures Target(kind, cur, "on") == Some(Number(1)) && Target(kind, cur, "off") == Some(Number(0))
      {
        BooleanTexts(cur);
      }
    case Integer(min, max) => IntegerRestores(min, max, v.n);
    case Enum(words) => EnumRestores(words, v.n);
    case Str =>
  }
}
