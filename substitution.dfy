/** Python's `str.replace(old, new)` and `str.split(sep)` for a non-empty
    pattern: one left-to-right scan that takes the leftmost occurrence, skips
    past it and carries on, so occurrences never overlap. */
module Substitution {
  import opened Text

  /** `pat` occurs in `s` starting at index `i`. */
  ghost predicate OccursAt(pat: string, s: string, i: nat) {
    i + |pat| <= |s| && s[i..i + |pat|] == pat
  }

  /** `pat in s`. */
  ghost predicate Occurs(pat: string, s: string) {
    exists i: nat :: OccursAt(pat, s, i)
  }

  /** `s.replace(pat, rep)`. Replacing the pattern by itself changes nothing. */
  function Replace(s: string, pat: string, rep: string): (r: string)
    requires pat != ""
    ensures rep == pat ==> r == s
    decreases |s|
  {
    if |s| < |pat| then s
    else if s[..|pat|] == pat then rep + Replace(s[|pat|..], pat, rep)
    else [s[0]] + Replace(s[1..], pat, rep)
  }

  /** `s.split(pat)`: the text between consecutive occurrences found by the same
      scan as Replace. No piece contains the pattern, and every cut is at the
      leftmost occurrence: no occurrence starts inside a piece and runs into
      the pattern after it. */
  function Split(s: string, pat: string): (pieces: seq<string>)
    requires pat != ""
    ensures |pieces| >= 1
    ensures |pieces[0]| <= |s| && pieces[0] == s[..|pieces[0]|]
    ensures |pieces| == 1 ==> pieces[0] == s
    ensures |pieces| > 1 ==> |pieces[0]| + |pat| <= |s| && s[..|pieces[0]| + |pat|] == pieces[0] + pat
    ensures forall k :: 0 <= k < |pieces| ==> !Occurs(pat, pieces[k])
    ensures forall k :: 0 <= k < |pieces| - 1 ==> !Occurs(pat, pieces[k] + pat[..|pat| - 1])
    decreases |s|
  {
    if |s| < |pat| then
      [s]
    else if s[..|pat|] == pat then
      var rest := Split(s[|pat|..], pat);
      ShortAbsent(pat[..|pat| - 1], pat);
      assert "" + pat[..|pat| - 1] == pat[..|pat| - 1];
      [""] + rest
    else
      var rest := Split(s[1..], pat);
      PrependPiece(s, pat, rest[0], |rest| > 1);
      [[s[0]] + rest[0]] + rest[1..]
  }

  /** Helper for Split: taking back the first character of `s`, which does
      not start an occurrence, keeps the first piece's properties. `cut` says
      whether an occurrence follows the piece. */
  lemma PrependPiece(s: string, pat: string, piece: string, cut: bool)
    requires pat != "" && |s| >= |pat| && s[..|pat|] != pat
    requires |piece| <= |s| - 1 && piece == s[1..][..|piece|] && !Occurs(pat, piece)
    requires !cut ==> piece == s[1..]
    requires cut ==> |piece| + |pat| <= |s| - 1 && s[1..][..|piece| + |pat|] == piece + pat
    requires cut ==> !Occurs(pat, piece + pat[..|pat| - 1])
    ensures var p := [s[0]] + piece;
      |p| <= |s| && p == s[..|p|] && !Occurs(pat, p)
      && (!cut ==> p == s)
      && (cut ==> |p| + |pat| <= |s| && s[..|p| + |pat|] == p + pat)
      && (cut ==> !Occurs(pat, p + pat[..|pat| - 1]))
  {
    PrependKeepsAbsent(s, piece, pat);
    if cut {
      var straddle := piece + pat[..|pat| - 1];
      assert s[1..][..|straddle|] == straddle;
      PrependKeepsAbsent(s, straddle, pat);
      assert [s[0]] + straddle == [s[0]] + piece + pat[..|pat| - 1];
      assert s[..1 + |piece| + |pat|] == [s[0]] + (piece + pat);
    } else {
      assert [s[0]] + s[1..] == s;
    }
  }

  /** Helper for Split: a text shorter than the pattern does not contain it. */
  lemma ShortAbsent(t: string, pat: string)
    requires |t| < |pat|
    ensures !Occurs(pat, t)
  {
  }

  /** Helper for Split: a prefix of `s` that does not start with `pat` gains no
      occurrence of `pat` by taking back the first character of `s`. */
  lemma PrependKeepsAbsent(s: string, piece: string, pat: string)
    requires pat != "" && |s| >= |pat| && s[..|pat|] != pat
    requires |piece| <= |s| - 1 && piece == s[1..][..|piece|]
    requires !Occurs(pat, piece)
    ensures !Occurs(pat, [s[0]] + piece)
  {
    var t := [s[0]] + piece;
    forall i: nat
      ensures !OccursAt(pat, t, i)
    {
      if i + |pat| <= |t| {
        if i == 0 {
          assert t[..|pat|] == s[..|pat|];
        } else {
          assert t[i..i + |pat|] == piece[i - 1..i - 1 + |pat|];
          assert !OccursAt(pat, piece, i - 1);
        }
      }
    }
  }

  /** Splitting and joining back with the same pattern restores the text. */
  lemma {:induction false} JoinSplit(s: string, pat: string)
    requires pat != ""
    ensures Join(Split(s, pat), pat) == s
    decreases |s|
  {
    if |s| < |pat| {
    } else if s[..|pat|] == pat {
      JoinSplit(s[|pat|..], pat);
      JoinEmptyFirst(Split(s[|pat|..], pat), pat);
    } else {
      var rest := Split(s[1..], pat);
      assert Split(s, pat) == [[s[0]] + rest[0]] + rest[1..];
      JoinSplit(s[1..], pat);
      JoinExtendFirst([s[0]], rest, pat);
      assert [s[0]] + s[1..] == s;
    }
  }

  /** Replace puts `rep` exactly where Split cut the text: it is
      `rep.join(s.split(pat))`. */
  lemma {:induction false} ReplaceIsJoinOfSplit(s: string, pat: string, rep: string)
    requires pat != ""
    ensures Replace(s, pat, rep) == Join(Split(s, pat), rep)
    decreases |s|
  {
    if |s| < |pat| {
    } else if s[..|pat|] == pat {
      ReplaceIsJoinOfSplit(s[|pat|..], pat, rep);
      JoinEmptyFirst(Split(s[|pat|..], pat), rep);
    } else {
      ReplaceIsJoinOfSplit(s[1..], pat, rep);
      JoinExtendFirst([s[0]], Split(s[1..], pat), rep);
    }
  }

  /** A text without the pattern comes back unchanged. */
  lemma {:induction false} ReplaceAbsent(s: string, pat: string, rep: string)
    requires pat != "" && !Occurs(pat, s)
    ensures Replace(s, pat, rep) == s
    decreases |s|
  {
    if |s| >= |pat| {
      assert !OccursAt(pat, s, 0) && s[0..|pat|] == s[..|pat|];
      forall i: nat
        ensures !OccursAt(pat, s[1..], i)
      {
        assert !OccursAt(pat, s, i + 1);
        if i + |pat| <= |s| - 1 {
          assert s[1..][i..i + |pat|] == s[i + 1..i + 1 + |pat|];
        }
      }
      ReplaceAbsent(s[1..], pat, rep);
    }
  }

  /** An occurrence at the very start is replaced, and a rest without the
      pattern is kept. */
  lemma ReplaceAtStart(pat: string, x: string, rep: string)
    requires pat != "" && !Occurs(pat, x)
    ensures Replace(pat + x, pat, rep) == rep + x
  {
    var s := pat + x;
    assert s[..|pat|] == pat && s[|pat|..] == x;
    ReplaceAbsent(x, pat, rep);
  }

  /** A leading stretch in which no occurrence starts is copied through. */
  lemma {:induction false} ReplaceKeepsPrefix(pre: string, t: string, pat: string, rep: string)
    requires pat != ""
    requires forall i: nat :: i < |pre| ==> !OccursAt(pat, pre + t, i)
    ensures Replace(pre + t, pat, rep) == pre + Replace(t, pat, rep)
    decreases |pre|
  {
    if pre != [] {
      var s := pre + t;
      if |s| < |pat| {
        assert Replace(t, pat, rep) == t;
      } else {
        assert !OccursAt(pat, s, 0) && s[0..|pat|] == s[..|pat|];
        assert s[1..] == pre[1..] + t;
        forall i: nat | i < |pre[1..]|
          ensures !OccursAt(pat, pre[1..] + t, i)
        {
          assert !OccursAt(pat, s, i + 1);
          if i + |pat| <= |s[1..]| {
            assert s[1..][i..i + |pat|] == s[i + 1..i + 1 + |pat|];
          }
        }
        ReplaceKeepsPrefix(pre[1..], t, pat, rep);
        assert s[0] == pre[0];
        assert pre == [pre[0]] + pre[1..];
        assert Replace(s, pat, rep) == [s[0]] + Replace(s[1..], pat, rep);
      }
    } else {
      assert pre + t == t;
    }
  }

  /** When the pattern's first character appears nowhere else in it, a text
      with exactly one occurrence `pre + pat + post` (no occurrence inside
      `pre` or `post`) has that occurrence, and only it, replaced. */
  lemma ReplaceSingle(pre: string, post: string, pat: string, rep: string)
    requires pat != "" && pat[0] !in pat[1..]
    requires !Occurs(pat, pre) && !Occurs(pat, post)
    ensures Replace(pre + pat + post, pat, rep) == pre + rep + post
  {
    var t := pat + post;
    assert pre + pat + post == pre + t;
    forall i: nat | i < |pre|
      ensures !OccursAt(pat, pre + t, i)
    {
      var s := pre + t;
      if i + |pat| <= |pre| {
        assert s[i..i + |pat|] == pre[i..i + |pat|];
        assert !OccursAt(pat, pre, i);
      } else if i + |pat| <= |s| {
        var d := |pre| - i;
        assert s[i..i + |pat|][d] == pat[0];
        assert pat[d] != pat[0] by {
          assert pat[d] == pat[1..][d - 1];
        }
      }
    }
    ReplaceKeepsPrefix(pre, t, pat, rep);
    assert t[..|pat|] == pat && t[|pat|..] == post;
    ReplaceAbsent(post, pat, rep);
  }
}
