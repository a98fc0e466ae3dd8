/** Python's `str.splitlines()` (without `keepends`): the text is cut at every
    line boundary, a `"\r\n"` pair counts as one boundary, the boundaries are
    dropped, and a final boundary does not start an extra empty line. */
module Lines {
  import opened Text

  /** The line boundaries of `str.splitlines()`: `\n`, `\r`, U+000B, U+000C,
      U+001C, U+001D, U+001E, U+0085, U+2028 and U+2029. */
  predicate IsLineBreak(c: char) {
    c == '\n' || c == '\r' || c == '\U{0B}' || c == '\U{0C}' || ('\U{1C}' <= c <= '\U{1E}')
    || c == '\U{85}' || c == '\U{2028}' || c == '\U{2029}'
  }

  predicate NoBreak(s: string) {
    forall i :: 0 <= i < |s| ==> !IsLineBreak(s[i])
  }

  /** The only line boundary in `s`, if any, is `\n`. */
  predicate OnlyNewlines(s: string) {
    forall i :: 0 <= i < |s| && IsLineBreak(s[i]) ==> s[i] == '\n'
  }

  /** Index of the first line boundary in `s`, or `|s|` when there is none. */
  function FirstBreak(s: string): (k: nat)
    ensures k <= |s|
    ensures forall i :: 0 <= i < k ==> !IsLineBreak(s[i])
    ensures k < |s| ==> IsLineBreak(s[k])
  {
    if s == "" || IsLineBreak(s[0]) then 0 else 1 + FirstBreak(s[1..])
  }

  /** Number of characters the boundary at `k` occupies: two for `"\r\n"`. */
  function BreakWidth(s: string, k: nat): (w: nat)
    requires k < |s|
    ensures 1 <= w && k + w <= |s|
  {
    if s[k] == '\r' && k + 1 < |s| && s[k + 1] == '\n' then 2 else 1
  }

  /** `s.splitlines()`. */
  function SplitLines(s: string): (lines: seq<string>)
    ensures lines == [] <==> s == ""
    ensures forall k :: 0 <= k < |lines| ==> NoBreak(lines[k])
    decreases |s|
  {
    if s == "" then []
    else
      var k := FirstBreak(s);
      if k == |s| then
        [s]
      else
        assert NoBreak(s[..k]);
        [s[..k]] + SplitLines(s[k + BreakWidth(s, k)..])
  }

  /** Each line followed by `"\n"`: the text of a file whose lines all end in a
      newline. */
  function Terminated(lines: seq<string>): string {
    if lines == [] then "" else lines[0] + "\n" + Terminated(lines[1..])
  }

  /** The first boundary after a break-free prefix is where the prefix ends. */
  lemma FirstBreakAfter(line: string, rest: string)
    requires NoBreak(line) && rest != "" && IsLineBreak(rest[0])
    ensures FirstBreak(line + rest) == |line|
  {
    var s := line + rest;
    assert s[|line|] == rest[0];
    assert forall i :: 0 <= i < |line| ==> s[i] == line[i];
  }

  /** splitlines recovers the lines of a newline-terminated text. */
  lemma {:induction false} SplitLinesTerminated(lines: seq<string>)
    requires forall k :: 0 <= k < |lines| ==> NoBreak(lines[k])
    ensures SplitLines(Terminated(lines)) == lines
  {
    if lines != [] {
      var rest := Terminated(lines[1..]);
      var s := Terminated(lines);
      assert s == lines[0] + ("\n" + rest);
      FirstBreakAfter(lines[0], "\n" + rest);
      assert s[..|lines[0]|] == lines[0];
      assert s[|lines[0]| + 1..] == rest;
      SplitLinesTerminated(lines[1..]);
    }
  }

  /** Conversely, putting a newline after every line of a text whose only
      boundaries are newlines restores the text, plus a final newline if it had
      none. */
  lemma {:induction false} TerminatedSplitLines(s: string)
    requires OnlyNewlines(s)
    ensures Terminated(SplitLines(s)) == if s == "" || s[|s| - 1] == '\n' then s else s + "\n"
    decreases |s|
  {
    if s != "" {
      var k := FirstBreak(s);
      if k == |s| {
        assert !IsLineBreak(s[|s| - 1]);
      } else {
        var rest := s[k + 1..];
        OnlyNewlinesSuffix(s, k + 1);
        TerminatedSplitLines(rest);
        SplitLinesAtNewline(s, k);
        CutAt(s, k);
        TerminateAfterLine(s[..k], rest, Terminated(SplitLines(rest)));
      }
    }
  }

  /** Helper for TerminatedSplitLines: putting one line back in front of the
      rest of the text. */
  lemma TerminateAfterLine(line: string, rest: string, t: string)
    requires t == if rest == "" || rest[|rest| - 1] == '\n' then rest else rest + "\n"
    ensures var s := line + "\n" + rest;
      line + "\n" + t == if s[|s| - 1] == '\n' then s else s + "\n"
  {
    var s := line + "\n" + rest;
    if rest != "" {
      assert s[|s| - 1] == rest[|rest| - 1];
    }
  }

  /** Helper for TerminatedSplitLines: one step of splitlines at a `\n`. */
  lemma SplitLinesAtNewline(s: string, k: nat)
    requires k < |s| && k == FirstBreak(s) && s[k] == '\n'
    ensures SplitLines(s) == [s[..k]] + SplitLines(s[k + 1..])
    ensures Terminated(SplitLines(s)) == s[..k] + "\n" + Terminated(SplitLines(s[k + 1..]))
  {
    assert BreakWidth(s, k) == 1;
    var lines := SplitLines(s);
    assert lines[0] == s[..k] && lines[1..] == SplitLines(s[k + 1..]);
  }

  /** Helper for TerminatedSplitLines: `s` around its character at `k`. */
  lemma CutAt(s: string, k: nat)
    requires k < |s|
    ensures s == s[..k] + [s[k]] + s[k + 1..]
  {
  }

  /** Every line boundary written as `"\n"` (a `"\r\n"` pair as one `"\n"`);
      every other character is kept. */
  function NormalizeBreaks(s: string): (t: string)
    ensures OnlyNewlines(t)
    decreases |s|
  {
    if s == "" then ""
    else if |s| >= 2 && s[0] == '\r' && s[1] == '\n' then "\n" + NormalizeBreaks(s[2..])
    else if IsLineBreak(s[0]) then "\n" + NormalizeBreaks(s[1..])
    else [s[0]] + NormalizeBreaks(s[1..])
  }

  /** splitlines depends only on where the boundaries are, not on which
      boundary characters they are: writing every boundary as `"\n"` gives the
      same lines. With TerminatedSplitLines this pins the lines of any text. */
  lemma {:induction false} SplitLinesNormalized(s: string)
    ensures OnlyNewlines(NormalizeBreaks(s))
    ensures SplitLines(NormalizeBreaks(s)) == SplitLines(s)
    decreases |s|
  {
    if s != "" {
      var k := FirstBreak(s);
      if k == |s| {
        assert NoBreak(s);
        NormalizeAfterLine(s, "");
        assert s + "" == s;
      } else {
        var rest := s[k + BreakWidth(s, k)..];
        SplitLinesNormalized(rest);
        BeforeFirstBreak(s);
        NormalizeAtFirstBreak(s, k);
        SplitLinesAfterLine(s[..k], NormalizeBreaks(rest));
        assert SplitLines(s) == [s[..k]] + SplitLines(rest);
      }
    }
  }

  /** Any text, terminated line by line, is its normalized form with a final
      `"\n"` added if it had none. */
  lemma TerminatedSplitLinesAll(s: string)
    ensures var t := NormalizeBreaks(s);
      Terminated(SplitLines(s)) == if t == "" || t[|t| - 1] == '\n' then t else t + "\n"
  {
    SplitLinesNormalized(s);
    TerminatedSplitLines(NormalizeBreaks(s));
  }

  /** Helper for SplitLinesNormalized: a boundary-free line is copied through. */
  lemma {:induction false} NormalizeAfterLine(line: string, rest: string)
    requires NoBreak(line)
    ensures NormalizeBreaks(line + rest) == line + NormalizeBreaks(rest)
    decreases |line|
  {
    if line == "" {
      assert line + rest == rest;
    } else {
      var s := line + rest;
      assert s[0] == line[0] && s[1..] == line[1..] + rest;
      assert NoBreak(line[1..]) by {
        forall i | 0 <= i < |line[1..]|
          ensures !IsLineBreak(line[1..][i])
        {
          assert line[1..][i] == line[i + 1];
        }
      }
      NormalizeAfterLine(line[1..], rest);
      assert line == [line[0]] + line[1..];
    }
  }

  /** Helper for SplitLinesNormalized: the text before a boundary, when it
      holds none, is kept and that boundary becomes `"\n"`. */
  lemma NormalizeAtFirstBreak(s: string, k: nat)
    requires k < |s| && IsLineBreak(s[k]) && NoBreak(s[..k])
    ensures NormalizeBreaks(s) == s[..k] + "\n" + NormalizeBreaks(s[k + BreakWidth(s, k)..])
  {
    var line, tail := s[..k], s[k..];
    assert s == line + tail;
    NormalizeAfterLine(line, tail);
    NormalizeAtBreak(s, k);
    StringAssoc(line, "\n", NormalizeBreaks(s[k + BreakWidth(s, k)..]));
  }

  /** Helper for NormalizeAtFirstBreak. */
  lemma StringAssoc(a: string, b: string, c: string)
    ensures a + (b + c) == a + b + c
  {
  }

  /** Helper for SplitLinesNormalized: the text before the first boundary
      holds none. */
  lemma BeforeFirstBreak(s: string)
    ensures NoBreak(s[..FirstBreak(s)])
  {
    var k := FirstBreak(s);
    forall i | 0 <= i < k
      ensures !IsLineBreak(s[..k][i])
    {
      assert s[..k][i] == s[i];
    }
  }

  /** Helper for SplitLinesNormalized: one boundary becomes one `"\n"`. */
  lemma NormalizeAtBreak(s: string, k: nat)
    requires k < |s| && IsLineBreak(s[k])
    ensures NormalizeBreaks(s[k..]) == "\n" + NormalizeBreaks(s[k + BreakWidth(s, k)..])
  {
    var u := s[k..];
    assert u[0] == s[k];
    if BreakWidth(s, k) == 2 {
      assert u[1] == s[k + 1] && u[2..] == s[k + 2..];
    } else {
      assert u[1..] == s[k + 1..];
    }
  }

  /** Helper for SplitLinesNormalized: a line followed by `"\n"` is split off
      as the first line. */
  lemma SplitLinesAfterLine(line: string, rest: string)
    requires NoBreak(line)
    ensures SplitLines(line + "\n" + rest) == [line] + SplitLines(rest)
  {
    var t := line + "\n" + rest;
    assert t == line + ("\n" + rest);
    FirstBreakAfter(line, "\n" + rest);
    assert t[|line|] == '\n';
    assert BreakWidth(t, |line|) == 1;
    assert t[..|line|] == line && t[|line| + 1..] == rest;
  }

  /** The newline translation of reading a file in Python's text mode: each
      `"\r\n"` and each other `"\r"` becomes `"\n"`. */
  function UniversalNewlines(s: string): (t: string)
    ensures forall i :: 0 <= i < |t| ==> t[i] != '\r'
    decreases |s|
  {
    if s == "" then ""
    else if |s| >= 2 && s[0] == '\r' && s[1] == '\n' then "\n" + UniversalNewlines(s[2..])
    else if s[0] == '\r' then "\n" + UniversalNewlines(s[1..])
    else [s[0]] + UniversalNewlines(s[1..])
  }

  /** The translation is absorbed by normalizing the boundaries. */
  lemma {:induction false} NormalizeUniversal(s: string)
    ensures NormalizeBreaks(UniversalNewlines(s)) == NormalizeBreaks(s)
    decreases |s|
  {
    if s != "" {
      if |s| >= 2 && s[0] == '\r' && s[1] == '\n' {
        NormalizeUniversal(s[2..]);
        NormalizeNewline(UniversalNewlines(s[2..]));
      } else if s[0] == '\r' {
        NormalizeUniversal(s[1..]);
        NormalizeNewline(UniversalNewlines(s[1..]));
      } else {
        NormalizeUniversal(s[1..]);
        var u := [s[0]] + UniversalNewlines(s[1..]);
        assert u[0] == s[0] && u[1..] == UniversalNewlines(s[1..]);
      }
    }
  }

  /** Helper for NormalizeUniversal: a leading `"\n"` is kept. */
  lemma NormalizeNewline(x: string)
    ensures NormalizeBreaks("\n" + x) == "\n" + NormalizeBreaks(x)
  {
    assert ("\n" + x)[1..] == x;
  }

  /** Reading in text mode does not change the lines: splitlines of the
      translated text equals splitlines of the bytes as stored. */
  lemma ReadKeepsLines(s: string)
    ensures SplitLines(UniversalNewlines(s)) == SplitLines(s)
  {
    SplitLinesNormalized(s);
    SplitLinesNormalized(UniversalNewlines(s));
    NormalizeUniversal(s);
  }

  /** Helper for TerminatedSplitLines: a suffix keeps the property. */
  lemma OnlyNewlinesSuffix(s: string, j: nat)
    requires j <= |s| && OnlyNewlines(s)
    ensures OnlyNewlines(s[j..])
  {
    forall i | 0 <= i < |s| - j && IsLineBreak(s[j..][i])
      ensures s[j..][i] == '\n'
    {
      assert s[j..][i] == s[j + i];
    }
  }
}
