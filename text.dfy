/** Sequence-of-string helpers shared by the string operations: joining with a
    separator and suffix tests, with the semantics of Python's `str.join` and
    `str.endswith`. */
module Text {

  /** `sep.join(parts)`: the parts in order, with `sep` between consecutive ones. */
  function Join(parts: seq<string>, sep: string): string
    decreases |parts|
  {
    if |parts| == 0 then ""
    else if |parts| == 1 then parts[0]
    else parts[0] + sep + Join(parts[1..], sep)
  }

  /** `s.endswith(suffix)`. */
  predicate EndsWith(s: string, suffix: string) {
    |suffix| <= |s| && s[|s| - |suffix|..] == suffix
  }

  /** Joining is unaffected by growing the first part at its front. */
  lemma {:induction false} JoinExtendFirst(x: string, parts: seq<string>, sep: string)
    requires |parts| >= 1
    ensures Join([x + parts[0]] + parts[1..], sep) == x + Join(parts, sep)
  {
    var ps := [x + parts[0]] + parts[1..];
    if |parts| > 1 {
      assert ps[1..] == parts[1..];
    }
  }

  /** An empty first part contributes only the separator that follows it. */
  lemma JoinEmptyFirst(parts: seq<string>, sep: string)
    requires |parts| >= 1
    ensures Join([""] + parts, sep) == sep + Join(parts, sep)
  {
    assert ([""] + parts)[1..] == parts;
  }

  /** Appending pieces to `h` one after another, as successive `+=` do, is
      appending their concatenation at once. */
  lemma StepwiseAppend(h: string, a: string, b: string, c: string, d: string,
                    e: string, f: string, g: string, k: string)
    ensures h + a + b + c + d + e + f + g + k == h + (a + b + c + d + e + f + g + k)
  {
  }
}
