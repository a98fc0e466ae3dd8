/** Python's argument-less `str.strip()`: drop the longest leading and the
    longest trailing run of whitespace, where whitespace is what
    `str.isspace()` accepts. */
module Whitespace {

  /** The characters `str.isspace()` accepts: U+0009..U+000D, U+001C..U+0020,
      U+0085, U+00A0, U+1680, U+2000..U+200A, U+2028, U+2029, U+202F, U+205F
      and U+3000. */
  predicate IsSpace(c: char) {
    ('\t' <= c <= '\r') || ('\U{1C}' <= c <= ' ') || c == '\U{85}' || c == '\U{A0}'
    || c == '\U{1680}' || ('\U{2000}' <= c <= '\U{200A}') || c == '\U{2028}'
    || c == '\U{2029}' || c == '\U{202F}' || c == '\U{205F}' || c == '\U{3000}'
  }

  /** Every character of `s` at an index in `[lo, hi)` is whitespace. */
  predicate SpaceBetween(s: string, lo: nat, hi: nat)
    requires lo <= hi <= |s|
  {
    forall k :: lo <= k < hi ==> IsSpace(s[k])
  }

  /** Neither the first nor the last character is whitespace. */
  predicate Trimmed(s: string) {
    s == "" || (!IsSpace(s[0]) && !IsSpace(s[|s| - 1]))
  }

  /** `r` is `s` with some whitespace removed from each end. */
  ghost predicate IsTrimOf(s: string, r: string) {
    exists i, j :: 0 <= i <= j <= |s| && r == s[i..j] && SpaceBetween(s, 0, i) && SpaceBetween(s, j, |s|)
  }

  /** `s.lstrip()`. */
  function LStrip(s: string): (r: string)
    ensures |r| <= |s| && r == s[|s| - |r|..]
    ensures SpaceBetween(s, 0, |s| - |r|)
    ensures r == "" || !IsSpace(r[0])
  {
    if s != "" && IsSpace(s[0]) then LStrip(s[1..]) else s
  }

  /** `s.rstrip()`. */
  function RStrip(s: string): (r: string)
    ensures |r| <= |s| && r == s[..|r|]
    ensures SpaceBetween(s, |r|, |s|)
    ensures r == "" || !IsSpace(r[|r| - 1])
  {
    if s != "" && IsSpace(s[|s| - 1]) then RStrip(s[..|s| - 1]) else s
  }

  /** `s.strip()`: a trimmed piece of `s` obtained by cutting whitespace off
      both ends. */
  function Strip(s: string): (r: string)
    ensures Trimmed(r)
    ensures IsTrimOf(s, r)
  {
    var t := LStrip(s);
    var r := RStrip(t);
    StripCuts(s, t, r);
    r
  }

  /** Helper for Strip: where the two strips cut `s`. */
  lemma StripCuts(s: string, t: string, r: string)
    requires |t| <= |s| && t == s[|s| - |t|..] && SpaceBetween(s, 0, |s| - |t|)
    requires t == "" || !IsSpace(t[0])
    requires |r| <= |t| && r == t[..|r|] && SpaceBetween(t, |r|, |t|)
    requires r == "" || !IsSpace(r[|r| - 1])
    ensures Trimmed(r) && IsTrimOf(s, r)
  {
    var i := |s| - |t|;
    assert r == s[i..i + |r|];
    assert SpaceBetween(s, i + |r|, |s|) by {
      forall k | i + |r| <= k < |s|
        ensures IsSpace(s[k])
      {
        assert s[k] == t[k - i];
      }
    }
    assert r != "" ==> r[0] == t[0];
  }

  /** Strip is the only way to trim `s`: any trimmed text obtained from `s` by
      cutting whitespace off its ends is `Strip(s)`. */
  lemma StripUnique(s: string, r: string)
    requires Trimmed(r) && IsTrimOf(s, r)
    ensures r == Strip(s)
  {
    TrimUnique(s, r, Strip(s));
  }

  /** Helper for StripUnique: `s` has at most one trimmed trim. */
  lemma TrimUnique(s: string, r: string, q: string)
    requires Trimmed(r) && IsTrimOf(s, r)
    requires Trimmed(q) && IsTrimOf(s, q)
    ensures r == q
  {
    var i, j := TrimCuts(s, r);
    var i', j' := TrimCuts(s, q);
    CutsAgree(s, i, j, i', j');
  }

  /** Helper for TrimUnique: where a trimmed trim of `s` is cut. */
  lemma TrimCuts(s: string, r: string) returns (i: nat, j: nat)
    requires Trimmed(r) && IsTrimOf(s, r)
    ensures i <= j <= |s| && r == s[i..j]
    ensures SpaceBetween(s, 0, i) && SpaceBetween(s, j, |s|)
    ensures i < j ==> !IsSpace(s[i]) && !IsSpace(s[j - 1])
  {
    i, j :| 0 <= i <= j <= |s| && r == s[i..j] && SpaceBetween(s, 0, i) && SpaceBetween(s, j, |s|);
    if r != "" {
      assert s[i] == r[0] && s[j - 1] == r[|r| - 1];
    }
  }

  /** Helper for TrimUnique: two ways of cutting whitespace off the ends of
      `s` that both leave a trimmed middle cut at the same places. */
  lemma CutsAgree(s: string, i: nat, j: nat, i': nat, j': nat)
    requires i <= j <= |s| && i' <= j' <= |s|
    requires SpaceBetween(s, 0, i) && SpaceBetween(s, j, |s|)
    requires SpaceBetween(s, 0, i') && SpaceBetween(s, j', |s|)
    requires i < j ==> !IsSpace(s[i]) && !IsSpace(s[j - 1])
    requires i' < j' ==> !IsSpace(s[i']) && !IsSpace(s[j' - 1])
    ensures s[i..j] == s[i'..j']
  {
  }

  /** Stripping twice is stripping once. */
  lemma StripIdempotent(s: string)
    ensures Strip(Strip(s)) == Strip(s)
  {
    var r := Strip(s);
    assert r == r[0..|r|];
    StripUnique(r, r);
  }

  /** Text that is already trimmed passes through Strip unchanged. */
  lemma StripTrimmed(s: string)
    requires Trimmed(s)
    ensures Strip(s) == s
  {
    assert s == s[0..|s|];
    StripUnique(s, s);
  }
}
