/** The lines of a file as fgets gives them back: one piece a line when it fits in the buffer of the
    reader, several otherwise. */
module FileText {
  import opened Text
  import opened LineFormat
  import opened Reload

  function JoinLines(lines: seq<string>): string {
    if lines == [] then "" else lines[0] + "\n" + JoinLines(lines[1..])
  }

  lemma {:induction false} JoinConcat(a: seq<string>, b: seq<string>)
    ensures JoinLines(a + b) == JoinLines(a) + JoinLines(b)
  {
    if a == [] {
      assert a + b == b;
    } else {
      assert (a + b)[0] == a[0] && (a + b)[1..] == a[1..] + b;
      JoinConcat(a[1..], b);
    }
  }

  /** A line of a C string: neither an end of line nor a NUL inside. */
  predicate IsLine(line: string) {
    '\n' !in line && '\0' !in line
  }

  predicate AreLines(lines: seq<string>) {
    forall i :: 0 <= i < |lines| ==> IsLine(lines[i])
  }

  /** What the reader makes of a written line, piece by piece. */
  function PiecesOf(line: string): (r: seq<Line>)
    ensures r != []
    decreases |line|
  {
    if |line| < MAX_LINE then [ReadLine(line + "\n")]
    else [ReadLine(line[..MAX_LINE])] + PiecesOf(line[MAX_LINE..])
  }

  function Pieces(lines: seq<string>): seq<Line> {
    if lines == [] then [] else PiecesOf(lines[0]) + Pieces(lines[1..])
  }

  lemma {:induction false} PiecesConcat(a: seq<string>, b: seq<string>)
    ensures Pieces(a + b) == Pieces(a) + Pieces(b)
  {
    if a == [] {
      assert a + b == b;
    } else {
      assert (a + b)[0] == a[0] && (a + b)[1..] == a[1..] + b;
      PiecesConcat(a[1..], b);
      AppendTwice(PiecesOf(a[0]), Pieces(a[1..]), Pieces(b));
    }
  }

  lemma AppendTwice<T>(a: seq<T>, b: seq<T>, c: seq<T>)
    ensures a + (b + c) == (a + b) + c
  {
  }

  lemma NewlineAt(line: string, rest: string)
    requires '\n' !in line
    ensures IndexOf(line + "\n" + rest, '\n', 0) == |line|
  {
    var text := line + "\n" + rest;
    assert text[|line|] == '\n';
    assert forall i :: 0 <= i < |line| ==> text[i] == line[i];
  }

  lemma FirstChunk(line: string, rest: string)
    requires '\n' !in line && '\0' !in line && |line| < MAX_LINE
    ensures var text := line + "\n" + rest;
      && ChunkLength(text) == |line| + 1
      && text[..|line| + 1] == line + "\n" && text[|line| + 1..] == rest
      && CString(line + "\n") == line + "\n"
  {
    NewlineAt(line, rest);
    assert line + "\n" + rest == (line + "\n") + rest;
  }

  lemma FullChunk(line: string, rest: string)
    requires '\n' !in line && |line| >= MAX_LINE
    ensures var text := line + "\n" + rest;
      && ChunkLength(text) == MAX_LINE
      && text[..MAX_LINE] == line[..MAX_LINE] && text[MAX_LINE..] == line[MAX_LINE..] + "\n" + rest
  {
    NewlineAt(line, rest);
  }

  /** A NUL in a line hides what follows it on that line, and its end. */
  lemma NulHides(a: string, b: string, rest: string)
    requires IsLine(a) && '\n' !in b && |a| + |b| + 1 < MAX_LINE
    ensures ParseText(a + ['\0'] + b + "\n" + rest) == [ReadLine(a)] + ParseText(rest)
  {
    var line := a + ['\0'] + b;
    var text := line + "\n" + rest;
    NewlineAt(line, rest);
    assert text[..|line| + 1] == line + "\n" && text[|line| + 1..] == rest;
    CutAtPrefix(a, '\0', b + "\n");
    assert line + "\n" == a + ['\0'] + (b + "\n");
  }

  lemma CutAtAbsent(s: string, c: char)
    requires c !in s
    ensures CutAt(s, c) == s
  {
  }

  lemma CutAtEnd(line: string, c: char)
    requires '\n' !in line && c != '\n'
    ensures CutAt(line + "\n", c) == if c in line then CutAt(line, c) else line + "\n"
  {
    if c in line {
      CutAtConcat(line, "\n", c);
    }
  }

  lemma EndCut(line: string)
    requires '\n' !in line
    ensures CutAt(CutAt(line + "\n", '\r'), '\n') == CutAt(CutAt(line, '\r'), '\n')
  {
    CutAtEnd(line, '\r');
    CutAtAbsent(CutAt(line, '\r'), '\n');
    if '\r' !in line {
      CutAtPrefix(line, '\n', "");
      assert line + ['\n'] + "" == line + "\n";
    }
  }

  /** Without its end of line, a line that is not blank is read in the same way. */
  lemma EndNotNeeded(line: string)
    requires '\n' !in line && SkipSpaces(line) != ""
    ensures ReadLine(line) == ReadLine(line + "\n")
  {
    var p := SkipSpaces(line);
    SkipSpacesBeforeEnd(line);
    EndCut(line);
    assert (p + "\n")[0] == p[0];
    if ']' in p {
      CutAtConcat(p, "\n", ']');
    }
  }

  lemma {:induction false} OneMoreLine(line: string, rest: string)
    requires IsLine(line)
    ensures ParseText(line + "\n" + rest) == PiecesOf(line) + ParseText(rest)
    decreases |line|
  {
    if |line| < MAX_LINE {
      FirstChunk(line, rest);
    } else {
      var first, tail := ReadLine(line[..MAX_LINE]), line[MAX_LINE..];
      FullChunk(line, rest);
      CutAtAbsent(line[..MAX_LINE], '\0');
      OneMoreLine(tail, rest);
      AppendTwice([first], PiecesOf(tail), ParseText(rest));
    }
  }

  /** The lines of a text come back one by one from fgets, in pieces that fit in the buffer. */
  lemma {:induction false} ParseJoined(lines: seq<string>, rest: string)
    requires AreLines(lines)
    ensures ParseText(JoinLines(lines) + rest) == Pieces(lines) + ParseText(rest)
  {
    if lines == [] {
      assert "" + rest == rest;
    } else {
      var tail := JoinLines(lines[1..]) + rest;
      assert JoinLines(lines) + rest == lines[0] + "\n" + tail;
      OneMoreLine(lines[0], tail);
      ParseJoined(lines[1..], rest);
      AppendTwice(PiecesOf(lines[0]), Pieces(lines[1..]), ParseText(rest));
    }
  }

  lemma ParseLines(lines: seq<string>)
    requires AreLines(lines)
    ensures ParseText(JoinLines(lines)) == Pieces(lines)
  {
    ParseJoined(lines, "");
    assert JoinLines(lines) + "" == JoinLines(lines) && Pieces(lines) + [] == Pieces(lines);
  }

  /** A line that fits is one piece, its end being left for another when it just fits. */
  lemma FittingLine(line: string)
    requires '\n' !in line && |line| <= MAX_LINE && SkipSpaces(line) != ""
    ensures PiecesOf(line) == [ReadLine(line + "\n")] + if |line| == MAX_LINE then [Ignored] else []
  {
    if |line| == MAX_LINE {
      EndNotNeeded(line);
      assert line[..MAX_LINE] == line && line[MAX_LINE..] == "" && "" + "\n" == "\n";
      assert SkipSpaces("\n") == "\n" && PiecesOf("") == [ReadLine("\n")] == [Ignored];
    }
  }

  lemma FirstPiece(line: string)
    requires '\n' !in line && SkipSpaces(line) != ""
    ensures PiecesOf(line)[0] == if |line| <= MAX_LINE then ReadLine(line + "\n") else ReadLine(line[..MAX_LINE])
  {
    if |line| <= MAX_LINE {
      FittingLine(line);
    }
  }
}
