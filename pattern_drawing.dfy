/** A model of the square-pattern printer in control-flow/pattern_drawing.py.
    The script prints `size` rows; each row is `size` asterisks written one
    at a time, then a line break. Standard output is modelled as the
    sequence of characters the two `print` calls append to. */
module PatternDrawing {

  /** The characters one full run of the inner loop prints: `n` asterisks. */
  function Stars(n: nat): seq<char>
  {
    seq(n, _ => '*')
  }

  /** One printed row: the inner loop's asterisks, then the newline of the bare `print()`. */
  function Row(size: nat): seq<char>
  {
    Stars(size) + ['\n']
  }

  /** `k` copies of `s`, one after the other. */
  function Repeat(s: seq<char>, k: nat): seq<char>
  {
    if k == 0 then [] else s + Repeat(s, k - 1)
  }

  /** What the two loops write to standard output for a given size:
      nothing when the outer guard fails at once, otherwise `size` rows. */
  function Pattern(size: int): seq<char>
  {
    if size <= 0 then [] else Repeat(Row(size), size)
  }

  /** The script's two loops, with every `print` an append to `out`. */
  method DrawPattern(size: int) returns (out: seq<char>)
    ensures out == Pattern(size)
    ensures size <= 0 ==> out == []
  {
    out := [];
    var row := 0;
    while row < size
      invariant 0 <= row
      invariant row == 0 || row <= size
      invariant out == Repeat(Row(if size < 0 then 0 else size), row)
      decreases size - row
    {
      for col := 0 to size
        invariant out == Repeat(Row(size), row) + Stars(col)
      {
        out := out + ['*'];
      }
      out := out + ['\n'];
      RepeatAppend(Row(size), row);
      row := row + 1;
    }
  }

  /** Appending one more copy is the same as repeating once more. */
  lemma {:induction false} RepeatAppend(s: seq<char>, k: nat)
    ensures Repeat(s, k) + s == Repeat(s, k + 1)
  {
    if k > 0 {
      RepeatAppend(s, k - 1);
      calc {
        Repeat(s, k) + s;
        (s + Repeat(s, k - 1)) + s;
        s + (Repeat(s, k - 1) + s);
        s + Repeat(s, k);
      }
    }
  }

  // ---------------------------------------------------------------------
  // Lines of text: an independent reading of a character stream as
  // newline-terminated lines followed by an unterminated remainder.
  // ---------------------------------------------------------------------

  /** Position of the first line break in `s`, or `|s|` when there is none. */
  function NextBreak(s: seq<char>): (i: nat)
    ensures i <= |s|
    ensures i < |s| ==> s[i] == '\n'
    ensures forall j :: 0 <= j < i ==> s[j] != '\n'
  {
    if s == [] || s[0] == '\n' then 0 else 1 + NextBreak(s[1..])
  }

  /** The newline-terminated lines of `s`, without their terminators. */
  function Lines(s: seq<char>): seq<seq<char>>
    decreases |s|
  {
    var i := NextBreak(s);
    if i == |s| then [] else [s[..i]] + Lines(s[i + 1..])
  }

  /** The text after the last line break of `s` (all of `s` when it has none). */
  function Trailing(s: seq<char>): seq<char>
    decreases |s|
  {
    var i := NextBreak(s);
    if i == |s| then s else Trailing(s[i + 1..])
  }

  /** Each line followed by its terminator. */
  function Unlines(ls: seq<seq<char>>): seq<char>
  {
    if ls == [] then [] else ls[0] + ['\n'] + Unlines(ls[1..])
  }

  /** Splitting into lines loses nothing: the lines, re-terminated, and the
      remainder give back the stream. */
  lemma {:induction false} LinesRoundTrip(s: seq<char>)
    ensures Unlines(Lines(s)) + Trailing(s) == s
    decreases |s|
  {
    var i := NextBreak(s);
    if i < |s| {
      var line, rest := s[..i], s[i + 1..];
      assert s == line + ['\n'] + rest;
      LinesRoundTrip(rest);
      assert Lines(s) == [line] + Lines(rest);
      assert Trailing(s) == Trailing(rest);
    }
  }

  /** No line and no remainder holds a line break. */
  lemma {:induction false} LinesHaveNoBreaks(s: seq<char>)
    ensures forall k :: 0 <= k < |Lines(s)| ==> '\n' !in Lines(s)[k]
    ensures '\n' !in Trailing(s)
    decreases |s|
  {
    var i := NextBreak(s);
    if i < |s| {
      var line, rest := s[..i], s[i + 1..];
      LinesHaveNoBreaks(rest);
      assert Lines(s) == [line] + Lines(rest);
      assert '\n' !in line by {
        forall j | 0 <= j < i ensures line[j] != '\n' { }
      }
    }
  }

  /** A break-free line followed by a break is split off as the first line. */
  lemma SplitFirstLine(l: seq<char>, rest: seq<char>)
    requires '\n' !in l
    ensures Lines(l + ['\n'] + rest) == [l] + Lines(rest)
    ensures Trailing(l + ['\n'] + rest) == Trailing(rest)
  {
    var s := l + ['\n'] + rest;
    assert s[|l|] == '\n';
    assert forall j :: 0 <= j < |l| ==> s[j] == l[j];
    var i := NextBreak(s);
    assert i == |l|;
    assert s[..i] == l;
    assert s[i + 1..] == rest;
  }

  // ---------------------------------------------------------------------
  // Properties of the printed pattern.
  // ---------------------------------------------------------------------

  /** `k` copies of a break-free line and its break read back as `k` copies
      of that line, with nothing after the last break. */
  lemma {:induction false} RepeatLineLines(line: seq<char>, k: nat)
    requires '\n' !in line
    ensures |Lines(Repeat(line + ['\n'], k))| == k
    ensures forall j :: 0 <= j < k ==> Lines(Repeat(line + ['\n'], k))[j] == line
    ensures Trailing(Repeat(line + ['\n'], k)) == []
  {
    if k > 0 {
      var s, tail := Repeat(line + ['\n'], k), Repeat(line + ['\n'], k - 1);
      assert s == line + ['\n'] + tail;
      SplitFirstLine(line, tail);
      assert Lines(s) == [line] + Lines(tail);
      assert Trailing(s) == Trailing(tail);
      RepeatLineLines(line, k - 1);
    }
  }

  /** For a non-negative size the output is exactly `size` newline-terminated
      lines, each of exactly `size` asterisks. */
  lemma PatternLines(size: nat)
    ensures Lines(Pattern(size)) == seq(size, _ => Stars(size))
    ensures Trailing(Pattern(size)) == []
    ensures Unlines(Lines(Pattern(size))) == Pattern(size)
  {
    assert '\n' !in Stars(size);
    RepeatLineLines(Stars(size), size);
    LinesRoundTrip(Pattern(size));
  }

  /** `k` copies of `s` are `k * |s|` characters long. */
  lemma {:induction false} RepeatLength(s: seq<char>, k: nat)
    ensures |Repeat(s, k)| == k * |s|
  {
    if k > 0 {
      RepeatLength(s, k - 1);
    }
  }

  /** For a non-negative size the output is `size * (size + 1)` characters long. */
  lemma PatternLength(size: nat)
    ensures |Pattern(size)| == size * (size + 1)
  {
    RepeatLength(Row(size), size);
  }

  /** A non-positive size prints nothing: the outer guard fails at once. */
  lemma PatternEmpty(size: int)
    ensures Pattern(size) == [] <==> size <= 0
  {
  }

  /** Every character of `k` copies of `s` is a character of `s`. */
  lemma {:induction false} RepeatChars(s: seq<char>, k: nat, i: nat)
    requires i < |Repeat(s, k)|
    ensures Repeat(s, k)[i] in s
  {
    if i >= |s| {
      RepeatChars(s, k - 1, i - |s|);
    }
  }

  /** The output holds only asterisks and line breaks. */
  lemma PatternAlphabet(size: int)
    ensures forall i :: 0 <= i < |Pattern(size)| ==> Pattern(size)[i] == '*' || Pattern(size)[i] == '\n'
  {
    if size > 0 {
      forall i | 0 <= i < |Pattern(size)|
        ensures Pattern(size)[i] == '*' || Pattern(size)[i] == '\n'
      {
        RepeatChars(Row(size), size, i);
      }
    }
  }

  /** The `j`-th block of `|s|` characters of `k` copies of `s` is `s` itself. */
  lemma {:induction false} RepeatSlice(s: seq<char>, k: nat, j: nat)
    requires j < k
    ensures (j + 1) * |s| <= |Repeat(s, k)|
    ensures Repeat(s, k)[j * |s|..(j + 1) * |s|] == s
  {
    RepeatLength(s, k);
    RepeatLength(s, k - 1);
    if j > 0 {
      RepeatSlice(s, k - 1, j - 1);
      var t := Repeat(s, k - 1);
      assert j * |s| == |s| + (j - 1) * |s|;
      assert (j + 1) * |s| == |s| + j * |s|;
      assert Repeat(s, k)[j * |s|..(j + 1) * |s|] == t[(j - 1) * |s|..j * |s|];
    }
  }

  /** Every row is the same `size` asterisks and a line break, whatever its
      index: nothing the inner loop prints depends on `row`. */
  lemma PatternRow(size: nat, k: nat)
    requires k < size
    ensures (k + 1) * (size + 1) <= |Pattern(size)|
    ensures Pattern(size)[k * (size + 1)..(k + 1) * (size + 1)] == Stars(size) + ['\n']
  {
    RepeatSlice(Row(size), size, k);
  }

  /** Size 3 prints three lines of three asterisks. */
  lemma PatternOfThree()
    ensures Pattern(3) == "***\n***\n***\n"
  {
  }
}
