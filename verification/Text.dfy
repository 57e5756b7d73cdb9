/** The C string library as the configuration code uses it: case folding and
    case-insensitive comparison, searching, decimal numbers. */
module Text {

  datatype Option<+T> = None | Some(value: T)

  // ---------------------------------------------------------------- folding

  /** The lower-case form used by string_strcasecmp: only A-Z are converted. */
  function FoldChar(c: char): char {
    if 'A' <= c <= 'Z' then c - 'A' + 'a' else c
  }

  function Fold(s: string): (f: string)
    ensures |f| == |s|
    ensures forall i :: 0 <= i < |s| ==> f[i] == FoldChar(s[i])
  {
    if s == "" then "" else [FoldChar(s[0])] + Fold(s[1..])
  }

  predicate EqFold(s: string, t: string) {
    StrCaseCmp(s, t) == 0
  }

  /** string_strcasecmp: -1, 0 or 1. */
  function StrCaseCmp(s: string, t: string): (r: int)
    ensures -1 <= r <= 1
  {
    if s == "" then (if t == "" then 0 else -1)
    else if t == "" then 1
    else
      var a, b := FoldChar(s[0]), FoldChar(t[0]);
      if a < b then -1 else if a > b then 1 else StrCaseCmp(s[1..], t[1..])
  }

  /** Two strings compare equal exactly when their folded keys are equal. */
  lemma {:induction false} StrCaseCmpZero(s: string, t: string)
    ensures StrCaseCmp(s, t) == 0 <==> Fold(s) == Fold(t)
  {
    if s != "" && t != "" {
      StrCaseCmpZero(s[1..], t[1..]);
      assert Fold(s) == [FoldChar(s[0])] + Fold(s[1..]);
      assert Fold(t) == [FoldChar(t[0])] + Fold(t[1..]);
      if Fold(s) == Fold(t) {
        assert Fold(s)[0] == Fold(t)[0] && Fold(s)[1..] == Fold(t)[1..];
        assert Fold(s)[1..] == Fold(s[1..]) && Fold(t)[1..] == Fold(t[1..]);
      }
    }
  }

  lemma {:induction false} StrCaseCmpSwap(s: string, t: string)
    ensures StrCaseCmp(t, s) == -StrCaseCmp(s, t)
  {
    if s != "" && t != "" {
      StrCaseCmpSwap(s[1..], t[1..]);
    }
  }

  lemma {:induction false} StrCaseCmpTransitive(s: string, t: string, u: string)
    requires StrCaseCmp(s, t) <= 0 && StrCaseCmp(t, u) <= 0
    ensures StrCaseCmp(s, u) <= 0
    ensures StrCaseCmp(s, t) < 0 || StrCaseCmp(t, u) < 0 ==> StrCaseCmp(s, u) < 0
  {
    if s != "" && t != "" && u != "" && FoldChar(s[0]) == FoldChar(t[0]) == FoldChar(u[0]) {
      StrCaseCmpTransitive(s[1..], t[1..], u[1..]);
    }
  }

  /** The same letter in the two cases: a-z are 32 after A-Z. */
  predicate SameLetter(c: char, d: char) {
    c == d || ('A' <= c <= 'Z' && d as int == c as int + 32) || ('A' <= d <= 'Z' && c as int == d as int + 32)
  }

  lemma LetterFolds(c: char, d: char)
    ensures FoldChar(c) == FoldChar(d) <==> SameLetter(c, d)
  {
  }

  /** Two names are equal exactly when they differ at most in the case of the letters A to Z. */
  lemma {:induction false} EqFoldExact(s: string, t: string)
    ensures EqFold(s, t) <==> |s| == |t| && forall i :: 0 <= i < |s| ==> SameLetter(s[i], t[i])
  {
    if s != "" && t != "" {
      LetterFolds(s[0], t[0]);
      EqFoldExact(s[1..], t[1..]);
      if |s| == |t| && forall i :: 0 <= i < |s[1..]| ==> SameLetter(s[1..][i], t[1..][i]) {
        assert forall i :: 1 <= i < |s| ==> s[i] == s[1..][i - 1] && t[i] == t[1..][i - 1];
      }
    }
  }

  /** The first k characters are the same letters, and then s ends or has a smaller letter. */
  predicate BelowAt(s: string, t: string, k: nat) {
    && k <= |s| && k < |t|
    && (forall i :: 0 <= i < k ==> SameLetter(s[i], t[i]))
    && (k == |s| || FoldChar(s[k]) < FoldChar(t[k]))
  }

  /** The order is that of dictionaries on the lower-case letters. */
  lemma {:induction false} StrCaseCmpExact(s: string, t: string)
    ensures StrCaseCmp(s, t) < 0 <==> exists k: nat :: BelowAt(s, t, k)
  {
    if s == "" || t == "" {
      assert t != "" ==> BelowAt(s, t, 0);
    } else if FoldChar(s[0]) != FoldChar(t[0]) {
      assert BelowAt(s, t, 0) <==> FoldChar(s[0]) < FoldChar(t[0]);
      assert !SameLetter(s[0], t[0]);
    } else {
      StrCaseCmpExact(s[1..], t[1..]);
      assert SameLetter(s[0], t[0]);
      forall k: nat | BelowAt(s[1..], t[1..], k) ensures BelowAt(s, t, k + 1) {
      }
      forall k: nat | BelowAt(s, t, k) ensures k > 0 && BelowAt(s[1..], t[1..], k - 1) {
        assert k > 0;
      }
    }
  }

  lemma EqFoldLength(s: string, t: string)
    requires EqFold(s, t)
    ensures |s| == |t|
  {
    StrCaseCmpZero(s, t);
  }

  lemma EqFoldReflexive(s: string)
    ensures EqFold(s, s)
  {
    StrCaseCmpZero(s, s);
  }

  // ---------------------------------------------------------------- searching

  /** strchr: first position of c at or after from, or |s| if there is none. */
  function IndexOf(s: string, c: char, from: nat): (r: nat)
    requires from <= |s|
    ensures from <= r <= |s|
    ensures r < |s| ==> s[r] == c
    ensures forall i :: from <= i < r ==> s[i] != c
    decreases |s| - from
  {
    if from == |s| || s[from] == c then from else IndexOf(s, c, from + 1)
  }

  /** strstr for the two characters c, d: first position, or |s| if there is none. */
  function IndexOf2(s: string, c: char, d: char, from: nat): (r: nat)
    requires from <= |s|
    ensures from <= r <= |s|
    ensures r < |s| ==> r + 1 < |s| && s[r] == c && s[r + 1] == d
    ensures forall i :: from <= i < r && i + 1 < |s| ==> !(s[i] == c && s[i + 1] == d)
    decreases |s| - from
  {
    if from + 1 >= |s| then |s|
    else if s[from] == c && s[from + 1] == d then from
    else IndexOf2(s, c, d, from + 1)
  }

  /** The characters before the first c (the C string after writing NUL over it). */
  function CutAt(s: string, c: char): (r: string)
    ensures c !in r && r <= s
    ensures c !in s ==> r == s
  {
    s[..IndexOf(s, c, 0)]
  }

  /** Index of the first word equal to text, case ignored, or -1. */
  function WordIndex(words: seq<string>, text: string): (r: int)
    ensures -1 <= r < |words|
    ensures r >= 0 ==> EqFold(words[r], text)
    ensures forall i :: 0 <= i < (if r >= 0 then r else |words|) ==> !EqFold(words[i], text)
  {
    WordIndexFrom(words, text, 0)
  }

  function WordIndexFrom(words: seq<string>, text: string, from: nat): (r: int)
    requires from <= |words|
    ensures r == -1 || from <= r < |words|
    ensures r >= 0 ==> EqFold(words[r], text)
    ensures forall i :: from <= i < (if r >= 0 then r else |words|) ==> !EqFold(words[i], text)
    decreases |words| - from
  {
    if from == |words| then -1
    else if EqFold(words[from], text) then from
    else WordIndexFrom(words, text, from + 1)
  }

  // ---------------------------------------------------------------- numbers

  const LONG_MIN: int := -0x8000_0000_0000_0000
  const LONG_MAX: int := 0x7fff_ffff_ffff_ffff
  const INT_MIN: int := -0x8000_0000
  const INT_MAX: int := 0x7fff_ffff

  predicate IsInt(n: int) { INT_MIN <= n <= INT_MAX }
  predicate IsLong(n: int) { LONG_MIN <= n <= LONG_MAX }

  /** Conversion of a long to int: the low 32 bits, in two's complement. */
  function ToInt(n: int): (r: int)
    ensures IsInt(r)
    ensures IsInt(n) ==> r == n
    ensures (n - r) % 0x1_0000_0000 == 0
  {
    (n + 0x8000_0000) % 0x1_0000_0000 - 0x8000_0000
  }

  predicate IsDigit(c: char) { '0' <= c <= '9' }
  predicate IsSpace(c: char) { c == ' ' || '\t' <= c <= '\r' }

  predicate AllDigits(s: string) {
    forall i :: 0 <= i < |s| ==> IsDigit(s[i])
  }

  function DigitsValue(s: string): (n: nat)
    requires AllDigits(s)
  {
    if s == "" then 0 else DigitsValue(s[..|s| - 1]) * 10 + (s[|s| - 1] - '0') as nat
  }

  function SkipBlanks(s: string): string {
    if s != "" && IsSpace(s[0]) then SkipBlanks(s[1..]) else s
  }

  function Saturate(n: int): (r: int)
    ensures IsLong(r)
    ensures IsLong(n) ==> r == n
  {
    if n < LONG_MIN then LONG_MIN else if n > LONG_MAX then LONG_MAX else n
  }

  /** strtol in base 10 followed by the test "error && !error[0]": the number if the
      whole text was converted. The empty text converts to 0. */
  function ParseLong(s: string): (r: Option<int>)
    ensures r.Some? ==> IsLong(r.value)
  {
    if s == "" then Some(0)
    else
      var t := SkipBlanks(s);
      var negative := t != "" && t[0] == '-';
      var digits := if t != "" && (t[0] == '-' || t[0] == '+') then t[1..] else t;
      if digits != "" && AllDigits(digits) then
        var n: int := DigitsValue(digits);
        Some(Saturate(if negative then -n else n))
      else None
  }

  function DigitChar(d: nat): (c: char)
    requires d < 10
    ensures IsDigit(c) && (c - '0') as int == d
  {
    '0' + d as char
  }

  function NatText(n: nat): (s: string)
    ensures s != "" && AllDigits(s) && DigitsValue(s) == n
  {
    if n < 10 then
      assert DigitsValue("") == 0;
      var r := [DigitChar(n)];
      assert r[..|r| - 1] == "";
      r
    else
      var r := NatText(n / 10) + [DigitChar(n % 10)];
      assert r[..|r| - 1] == NatText(n / 10);
      r
  }

  /** printf "%d". */
  function IntText(n: int): (s: string)
    ensures s != ""
  {
    if n < 0 then "-" + NatText(-n) else NatText(n)
  }

  /** A printed number is read back. */
  lemma ParsePrinted(n: int)
    requires IsLong(n)
    ensures ParseLong(IntText(n)) == Some(n)
  {
    var s := IntText(n);
    assert !IsSpace(s[0]);
    assert SkipBlanks(s) == s;
    if n < 0 {
      assert s[1..] == NatText(-n);
    } else {
      assert IsDigit(s[0]);
    }
  }

  /** Blanks, a sign or none, and digits. */
  predicate IsNumber(s: string, blanks: string, sign: string, digits: string) {
    && s == blanks + sign + digits
    && (forall i :: 0 <= i < |blanks| ==> IsSpace(blanks[i]))
    && (sign == "" || sign == "+" || sign == "-")
    && digits != "" && AllDigits(digits)
  }

  lemma {:induction false} BlanksSkipped(blanks: string, rest: string)
    requires forall i :: 0 <= i < |blanks| ==> IsSpace(blanks[i])
    requires rest == "" || !IsSpace(rest[0])
    ensures SkipBlanks(blanks + rest) == rest
  {
    if blanks == "" {
      assert blanks + rest == rest;
    } else {
      assert (blanks + rest)[0] == blanks[0] && (blanks + rest)[1..] == blanks[1..] + rest;
      BlanksSkipped(blanks[1..], rest);
    }
  }

  lemma {:induction false} BlanksFound(s: string) returns (blanks: string)
    ensures s == blanks + SkipBlanks(s) && forall i :: 0 <= i < |blanks| ==> IsSpace(blanks[i])
  {
    if s != "" && IsSpace(s[0]) {
      var rest := BlanksFound(s[1..]);
      blanks := [s[0]] + rest;
      assert s == [s[0]] + s[1..];
    } else {
      blanks := "";
      assert s == "" + s;
    }
  }

  /** What strtol makes of such a text, out of range included. */
  lemma ParseNumber(s: string, blanks: string, sign: string, digits: string)
    requires IsNumber(s, blanks, sign, digits)
    ensures var d: int := DigitsValue(digits);
      var n := if sign == "-" then -d else d;
      ParseLong(s) == Some(if n < LONG_MIN then LONG_MIN else if n > LONG_MAX then LONG_MAX else n)
  {
    assert blanks + sign + digits == blanks + (sign + digits);
    BlanksSkipped(blanks, sign + digits);
    var t := sign + digits;
    assert sign != "" ==> t[0] == sign[0] && t[1..] == digits;
    assert sign == "" ==> t == digits;
  }

  lemma NumberFound(s: string) returns (blanks: string, sign: string, digits: string)
    requires s != "" && ParseLong(s).Some?
    ensures IsNumber(s, blanks, sign, digits)
  {
    blanks := BlanksFound(s);
    var t := SkipBlanks(s);
    var signed := t != "" && (t[0] == '-' || t[0] == '+');
    sign, digits := if signed then t[..1] else "", if signed then t[1..] else t;
    assert t == sign + digits;
    assert s == blanks + sign + digits;
    assert signed ==> sign == [t[0]];
  }

  /** Nothing else is a number, but for the empty text, which is 0. */
  lemma ParseLongExact(s: string)
    ensures ParseLong("") == Some(0)
    ensures ParseLong(s).Some? <==> s == "" || exists blanks, sign, digits :: IsNumber(s, blanks, sign, digits)
  {
    if s != "" && ParseLong(s).Some? {
      var blanks, sign, digits := NumberFound(s);
    } else if blanks, sign, digits :| IsNumber(s, blanks, sign, digits) {
      ParseNumber(s, blanks, sign, digits);
    }
  }

  lemma DigitsAppended(digits: string, c: char)
    requires AllDigits(digits) && IsDigit(c)
    ensures DigitsValue(digits + [c]) == 10 * DigitsValue(digits) + (c as int - '0' as int)
  {
    assert (digits + [c])[..|digits|] == digits;
  }

  /** A number is printed without leading zeros. */
  lemma {:induction false} NoLeadingZero(n: nat)
    ensures n > 0 ==> NatText(n)[0] != '0'
  {
    if n >= 10 {
      NoLeadingZero(n / 10);
    }
  }
}
