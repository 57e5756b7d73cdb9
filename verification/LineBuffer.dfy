/** The line parser of config_file_read_internal on its buffer: NUL characters are written into the
    line to cut it, and positions are moved along it. */
module LineBuffer {
  import opened Text
  import opened LineFormat

  /** The buffer holds the C string s at position from. */
  ghost predicate Holds(line: array<char>, from: nat, s: string)
    reads line
  {
    && from + |s| < line.Length
    && line[from..from + |s|] == s
    && line[from + |s|] == '\0'
    && '\0' !in s
  }

  lemma HoldsTail(line: array<char>, from: nat, s: string, n: nat)
    requires Holds(line, from, s) && n <= |s|
    ensures Holds(line, from + n, s[n..])
  {
    assert line[from + n..from + |s|] == line[from..from + |s|][n..];
  }

  lemma HoldsChar(line: array<char>, from: nat, s: string, i: nat)
    requires Holds(line, from, s) && i <= |s|
    ensures line[from + i] == if i < |s| then s[i] else '\0'
    ensures line[from + i] == '\0' <==> i == |s|
  {
    if i < |s| {
      assert line[from + i] == line[from..from + |s|][i];
    }
  }

  /** A string whose characters were not written to is still there. */
  lemma StillHolds(line: array<char>, before: seq<char>, from: nat, s: string)
    requires |before| == line.Length && from + |s| < |before|
    requires before[from..from + |s|] == s && before[from + |s|] == '\0' && '\0' !in s
    requires forall i :: from <= i <= from + |s| ==> line[i] == before[i]
    ensures Holds(line, from, s)
  {
    assert line[from..from + |s|] == before[from..from + |s|];
  }

  method StrLen(line: array<char>, from: nat, ghost s: string) returns (n: nat)
    requires Holds(line, from, s)
    ensures n == |s| && Holds(line, from, s)
  {
    n := 0;
    HoldsChar(line, from, s, 0);
    while line[from + n] != '\0'
      invariant n <= |s|
      invariant line[from + n] == '\0' <==> n == |s|
      decreases |s| - n
    {
      n := n + 1;
      HoldsChar(line, from, s, n);
    }
  }

  /** strchr, as an offset; strlen when c does not occur. */
  method StrChr(line: array<char>, from: nat, c: char, ghost s: string) returns (n: nat)
    requires Holds(line, from, s) && c != '\0'
    ensures n == IndexOf(s, c, 0) && Holds(line, from, s)
  {
    n := 0;
    HoldsChar(line, from, s, 0);
    while line[from + n] != '\0' && line[from + n] != c
      invariant n <= |s| && IndexOf(s, c, n) == IndexOf(s, c, 0)
      invariant line[from + n] == if n < |s| then s[n] else '\0'
      invariant line[from + n] == '\0' <==> n == |s|
      decreases |s| - n
    {
      n := n + 1;
      HoldsChar(line, from, s, n);
    }
  }

  /** strstr of " =", as an offset; strlen when it does not occur. */
  method StrStrSpaceEqual(line: array<char>, from: nat, ghost s: string) returns (n: nat)
    requires Holds(line, from, s)
    ensures n == IndexOf2(s, ' ', '=', 0) && Holds(line, from, s)
  {
    n := 0;
    HoldsChar(line, from, s, 0);
    while line[from + n] != '\0'
      invariant n <= |s| && IndexOf2(s, ' ', '=', n) == IndexOf2(s, ' ', '=', 0)
      invariant line[from + n] == if n < |s| then s[n] else '\0'
      invariant line[from + n] == '\0' <==> n == |s|
      decreases |s| - n
    {
      HoldsChar(line, from, s, n + 1);
      if line[from + n] == ' ' && line[from + n + 1] == '=' {
        return;
      }
      n := n + 1;
    }
  }

  /** Writing NUL at offset n leaves the first n characters. */
  method Cut(line: array<char>, from: nat, n: nat, ghost s: string)
    requires Holds(line, from, s) && n <= |s|
    modifies line
    ensures Holds(line, from, s[..n])
    ensures forall i :: 0 <= i < line.Length && i != from + n ==> line[i] == old(line[i])
  {
    line[from + n] := '\0';
    assert line[from..from + n] == s[..n];
  }

  /** The loops that move a position over spaces. */
  method SkipOver(line: array<char>, from: nat, ghost s: string) returns (to: nat)
    requires Holds(line, from, s)
    ensures to == from + |s| - |SkipSpaces(s)|
    ensures Holds(line, to, SkipSpaces(s))
  {
    to := from;
    ghost var t := s;
    HoldsChar(line, from, s, 0);
    while line[to] == ' '
      invariant Holds(line, to, t) && SkipSpaces(t) == SkipSpaces(s)
      invariant to + |t| == from + |s|
      invariant line[to] == if t != "" then t[0] else '\0'
      decreases |t|
    {
      HoldsTail(line, to, t, 1);
      to := to + 1;
      t := t[1..];
      HoldsChar(line, to, t, 0);
    }
  }

  method TrimOne(line: array<char>, from: nat, last: nat, ghost s: string)
    requires Holds(line, from, s) && |s| > 1 && last == from + |s| - 1 && line[last] == ' '
    modifies line
    ensures Holds(line, from, s[..|s| - 1]) && TrimEnd(s[..|s| - 1]) == TrimEnd(s)
    ensures forall i :: 0 <= i < line.Length && i != last ==> line[i] == old(line[i])
  {
    HoldsChar(line, from, s, |s| - 1);
    Cut(line, from, last - from, s);
  }

  /** The loops that cut spaces at the end, keeping the first character. */
  method TrimSpaces(line: array<char>, from: nat, n: nat, ghost s: string)
    requires Holds(line, from, s) && n == |s|
    modifies line
    ensures Holds(line, from, TrimEnd(s))
    ensures forall i :: 0 <= i < line.Length && !(from <= i < from + n) ==> line[i] == old(line[i])
  {
    ghost var t := s;
    var last: int := from + n - 1;
    while last > from && line[last] == ' '
      invariant Holds(line, from, t) && TrimEnd(t) == TrimEnd(s)
      invariant last == from + |t| - 1 && |t| <= n
      invariant forall i :: 0 <= i < line.Length && !(from <= i < from + n) ==> line[i] == old(line[i])
      decreases |t|
    {
      TrimOne(line, from, last, t);
      t := t[..|t| - 1];
      last := last - 1;
    }
    if t != "" {
      HoldsChar(line, from, t, |t| - 1);
    }
  }

  lemma UnquoteEnds(s: string)
    requires s != ""
    ensures var first, last := s[0], s[|s| - 1];
      Unquote(s) == if (first == '\'' && last == '\'') || (first == '"' && last == '"')
                    then if |s| == 1 then "" else s[1..][..|s| - 2]
                    else s
  {
    if |s| > 1 {
      assert s[1..][..|s| - 2] == s[1..|s| - 1];
    }
  }

  /** Drops the first and last character when they are the same quote. */
  method StripQuotes(line: array<char>, from: nat, n: nat, ghost s: string) returns (at: nat)
    requires Holds(line, from, s) && n == |s| && n > 0
    modifies line
    ensures Holds(line, at, Unquote(s))
    ensures forall i :: 0 <= i < line.Length && i < from ==> line[i] == old(line[i])
  {
    at := from;
    var last := from + n - 1;
    HoldsChar(line, from, s, 0);
    HoldsChar(line, from, s, n - 1);
    UnquoteEnds(s);
    if (line[at] == '\'' && line[last] == '\'') || (line[at] == '"' && line[last] == '"') {
      DropEnds(line, from, n, s);
      at := at + 1;
    }
  }

  /** NUL is written over the last character, which may be the first one too. */
  method DropEnds(line: array<char>, from: nat, n: nat, ghost s: string)
    requires Holds(line, from, s) && n == |s| && n > 0
    modifies line
    ensures Holds(line, from + 1, if n == 1 then "" else s[1..][..n - 2])
    ensures forall i :: 0 <= i < line.Length && i < from ==> line[i] == old(line[i])
  {
    HoldsTail(line, from, s, 1);
    if n == 1 {
      line[from + n - 1] := '\0';
    } else {
      Cut(line, from + 1, n - 2, s[1..]);
    }
  }

  /** The value after "=": None for undefined (null). */
  method ParseValue(line: array<char>, from: nat, ghost s: string) returns (value: Option<string>)
    requires Holds(line, from, s)
    modifies line
    ensures value == ReadValue(s)
    ensures forall i :: 0 <= i < line.Length && i < from ==> line[i] == old(line[i])
  {
    var pos := SkipOver(line, from, s);
    ghost var v := SkipSpaces(s);
    var n := StrLen(line, pos, v);
    assert line[pos..pos + n] == v;
    HoldsChar(line, pos, v, 0);
    if line[pos] == '\0' || EqFold(line[pos..pos + n], "null") {
      return None;
    }
    var text := TrimAndUnquote(line, pos, n, v);
    value := Some(text);
  }

  method TrimAndUnquote(line: array<char>, from: nat, n: nat, ghost s: string) returns (text: string)
    requires Holds(line, from, s) && n == |s| && n > 0
    modifies line
    ensures text == if n > 1 then Unquote(TrimEnd(s)) else s
    ensures forall i :: 0 <= i < line.Length && i < from ==> line[i] == old(line[i])
  {
    if n > 1 {
      TrimSpaces(line, from, n, s);
      var length := StrLen(line, from, TrimEnd(s));
      var pos := StripQuotes(line, from, length, TrimEnd(s));
      length := StrLen(line, pos, Unquote(TrimEnd(s)));
      text := line[pos..pos + length];
    } else {
      text := line[from..from + n];
    }
  }

  /** The " =" at offset k is cut off: the name stays before it, the value after it. */
  method CutName(line: array<char>, k: nat, ghost s: string)
    requires Holds(line, 0, s) && k + 2 <= |s|
    modifies line
    ensures Holds(line, 0, TrimEnd(s[..k])) && Holds(line, k + 2, s[k + 2..])
  {
    ghost var rest := s[k + 2..];
    HoldsTail(line, 0, s, k + 2);
    ghost var before := line[..];
    assert before[k + 2..k + 2 + |rest|] == rest;
    Cut(line, 0, k, s);
    TrimSpaces(line, 0, k, s[..k]);
    StillHolds(line, before, k + 2, rest);
  }

  /** The value is read after the name, which it leaves in place. */
  method ValueAfterName(line: array<char>, from: nat, ghost name: string, ghost rest: string)
    returns (value: Option<string>)
    requires Holds(line, 0, name) && |name| < from && Holds(line, from, rest)
    modifies line
    ensures value == ReadValue(rest) && Holds(line, 0, name)
  {
    ghost var before := line[..];
    assert before[0..|name|] == name;
    value := ParseValue(line, from, rest);
    StillHolds(line, before, 0, name);
  }

  /** The name, without the backslash that escapes its first character. */
  method ReadName(line: array<char>, ghost name: string) returns (text: string)
    requires Holds(line, 0, name)
    ensures text == StripEscape(name)
  {
    var n := StrLen(line, 0, name);
    HoldsChar(line, 0, name, 0);
    var start := if line[0] == '\\' then 1 else 0;
    assert line[0..n] == name;
    text := line[start..n];
  }

  /** An option line, from the first character of the buffer. */
  method ParseOption(line: array<char>, ghost s: string) returns (r: Line)
    requires Holds(line, 0, s)
    modifies line
    ensures r == ReadOption(s)
  {
    var k := StrStrSpaceEqual(line, 0, s);
    var length := StrLen(line, 0, s);
    var value := None;
    ghost var name := s;
    if k < length {
      CutName(line, k, s);
      name := TrimEnd(s[..k]);
      value := ValueAfterName(line, k + 2, name, s[k + 2..]);
    }
    var text := ReadName(line, name);
    r := OptionLine(text, value);
  }

  /** strchr, then NUL over the character found. */
  method CutFrom(line: array<char>, c: char, ghost s: string)
    requires Holds(line, 0, s) && c != '\0'
    modifies line
    ensures Holds(line, 0, CutAt(s, c))
  {
    var n := StrLen(line, 0, s);
    var cut := StrChr(line, 0, c, s);
    if cut < n {
      Cut(line, 0, cut, s);
    }
  }

  /** One line as read by fgets: the buffer is cut and the meaning of the line returned. */
  method ParseLine(line: array<char>, ghost s: string) returns (r: Line)
    requires Holds(line, 0, s)
    modifies line
    ensures r == ReadLine(s)
  {
    var pos := SkipOver(line, 0, s);
    ghost var p := SkipSpaces(s);
    HoldsChar(line, pos, p, 0);
    if line[pos] == '#' || line[pos] == '\r' || line[pos] == '\n' {
      return Ignored;
    }
    var length := StrLen(line, pos, p);
    var equal := StrChr(line, pos, '=', p);
    if line[pos] == '[' && equal == length {
      assert '=' !in p;
      r := ParseHeader(line, pos, s, p);
    } else {
      assert '=' in p || p == "" || p[0] != '[';
      CutFrom(line, '\r', s);
      CutFrom(line, '\n', CutAt(s, '\r'));
      r := ParseOption(line, CutAt(CutAt(s, '\r'), '\n'));
    }
  }

  /** strchr starts from the first character of the buffer, but only spaces come before "[". */
  lemma BracketAfterSpaces(s: string)
    ensures var p := SkipSpaces(s);
      IndexOf(s, ']', 0) == |s| - |p| + IndexOf(p, ']', 0)
  {
    if s != "" && s[0] == ' ' {
      BracketAfterSpaces(s[1..]);
      IndexOfShift(s, 0);
    }
  }

  lemma {:induction false} IndexOfShift(s: string, from: nat)
    requires s != "" && from <= |s| - 1
    ensures IndexOf(s, ']', from + 1) == IndexOf(s[1..], ']', from) + 1
    decreases |s| - from
  {
    if from < |s| - 1 && s[from + 1] != ']' {
      IndexOfShift(s, from + 1);
    }
  }

  method ParseHeader(line: array<char>, pos: nat, ghost s: string, ghost p: string) returns (r: Line)
    requires Holds(line, 0, s) && p == SkipSpaces(s) && pos == |s| - |p| && Holds(line, pos, p)
    requires p != "" && p[0] == '[' && '=' !in p
    modifies line
    ensures r == ReadLine(s)
  {
    var n := StrLen(line, 0, s);
    var close := StrChr(line, 0, ']', s);
    BracketAfterSpaces(s);
    if close == n {
      assert ']' !in p;
      return NoBracket;
    }
    var k := close - pos;
    assert p[k] == ']';
    Cut(line, pos, k, p);
    HoldsTail(line, pos, p[..k], 1);
    var length := StrLen(line, pos + 1, p[..k][1..]);
    r := Header(line[pos + 1..pos + 1 + length]);
  }
}
