# Poem index generator — a Dafny model

`generate.py` builds the site's `index.html` from a directory of poem files.
It lists the poems directory and looks at every entry whose name ends in
`.txt`. It splits each such file into lines and skips a file with no lines.
The title is the first line with every `"Title: "` removed, then stripped.
The content is every line from the third on, joined with newlines, then
stripped. Each poem adds one four-line `<div class='poem'>` block to the
`poems_html` accumulator, in listing order. Finally every `{poems_html}` in
the page template is replaced by the accumulated blocks.

The model takes the directory listing as a sequence of `(name, text)` entries
and the template as a string, and computes the page text.

- `Text`, `Whitespace`, `Lines`, `Substitution` model the Python string
  operations the script relies on: `str.join`, `str.endswith`, `str.strip()`
  (whitespace is exactly what `str.isspace()` accepts), `str.splitlines()`
  (Python's full set of line boundaries, with `"\r\n"` as one boundary) and
  `str.replace` (a left-to-right scan over non-overlapping occurrences).
  Each one comes with an independent statement of what it means: Strip is the
  unique trimmed trim; splitlines gives the same lines as the text with every
  boundary written as `"\n"`, and on such text it is inverted by newline
  termination; Replace is `rep.join(s.split(pat))`, where the pieces of the
  split hold no occurrence, are cut at the leftmost occurrences and join back
  to the text.
- `PoemIndex` models the script itself. The per-file parse is written as
  functions (`TitleOf`, `ContentOf`, `Parse`). The `poems_html` loop is the
  method `BuildPoemsHtml`. Its four `+=` statements are kept as in the
  source, and it is proved equal to `Render(Poems(entries))`, the blocks of
  the contributing entries in order. The final substitution is
  `GeneratePage`.

Line 1 (the second line) is always dropped, whatever it holds, so an
`Author:` line in that place disappears. The title is taken from line 0
whether or not it starts with `Title: `.

## Model

| member | source | states |
|---|---|---|
| `Whitespace.Strip` | generate.py:23-24 | the stripped text has no whitespace at either end and is the input with whitespace cut off both ends |
| `Whitespace.StripUnique` | generate.py:23-24 | any trimmed text obtained by cutting whitespace off both ends of `s` is `Strip(s)` |
| `Whitespace.StripIdempotent` | generate.py:23-24 | stripping twice gives the same as stripping once |
| `Whitespace.StripTrimmed` | generate.py:24 | text with no whitespace at either end is left unchanged by strip |
| `Text.Join` | generate.py:24 | definition: the parts in order with the separator between consecutive ones; `Substitution.JoinSplit` shows it undoes a split and `PoemIndex.ContentKeepsLines` that the content keeps it |
| `Text.EndsWith` | generate.py:17 | definition: the text is at least as long as the suffix and ends with it; `PoemIndex.Parse` and `PoemIndex.SkippedEntry` give its effect on the index |
| `Lines.SplitLines` | generate.py:20 | the text gives no lines exactly when it is empty, and no line holds a line boundary |
| `Lines.NormalizeBreaks` | generate.py:20 | defined character by character: each `"\r\n"` and each other boundary becomes `"\n"`; the result has no boundary other than `\n` |
| `Lines.SplitLinesNormalized` | generate.py:20 | splitlines of any text equals splitlines of the text with every boundary written as `"\n"` |
| `Lines.SplitLinesTerminated` | generate.py:20 | splitlines of boundary-free lines, each followed by `\n`, gives back those lines |
| `Lines.TerminatedSplitLines` | generate.py:20 | for text whose only boundaries are `\n`, terminating each line restores the text, with a final `\n` added if it had none |
| `Lines.TerminatedSplitLinesAll` | generate.py:20 | for any text, terminating each line gives the text with every boundary written as `"\n"`, with a final `\n` added if it had none |
| `Lines.UniversalNewlines` | generate.py:19-20 | the newline translation of reading in text mode leaves no `\r` |
| `Lines.NormalizeUniversal` | generate.py:19-20 | normalizing the boundaries after the translation gives the same as normalizing the stored text |
| `Lines.ReadKeepsLines` | generate.py:19-20 | splitlines of the text as read equals splitlines of the text as stored |
| `Substitution.Replace` | generate.py:23 | replacing the pattern by itself changes nothing; `Substitution.ReplaceIsJoinOfSplit` gives its meaning as `rep.join(s.split(pat))` |
| `Substitution.Split` | generate.py:23 | the pieces of the scan hold no occurrence of the pattern; the first piece is a prefix of the text, followed by the pattern when there is a cut and the whole text otherwise; no occurrence starts inside a piece and runs into the pattern after it, so every cut is at the leftmost occurrence |
| `Substitution.JoinSplit` | generate.py:32 | joining the pieces back with the pattern restores the text |
| `Substitution.ReplaceIsJoinOfSplit` | generate.py:32 | replace puts the replacement exactly at the cuts of the split, so every non-overlapping occurrence found left to right is replaced |
| `Substitution.ReplaceAbsent` | generate.py:32 | text without the pattern is returned unchanged |
| `Substitution.ReplaceAtStart` | generate.py:23 | a leading occurrence is replaced and a rest without the pattern is kept |
| `Substitution.ReplaceSingle` | generate.py:32 | for a pattern whose first character does not recur in it, text with exactly one occurrence gets just that occurrence replaced and keeps the text around it |
| `PoemIndex.TitleOf` | generate.py:23 | the title has no whitespace at either end and is the first line, with `"Title: "` removed everywhere, trimmed at its ends |
| `PoemIndex.TitleOfHeader` | generate.py:23 | a first line `"Title: " + x` gives the stripped `x` when `x` does not itself hold the prefix |
| `PoemIndex.ContentOf` | generate.py:24 | the content has no whitespace at either end, is a trim of the lines from the third on joined by `\n`, and is empty for a file of at most two lines |
| `PoemIndex.ContentKeepsLines` | generate.py:24 | when those joined lines already have no whitespace at their ends, the content is exactly them, in their order |
| `PoemIndex.ParseReadsOnlyItsLines` | generate.py:23-24 | the title depends only on the first line and the content only on the lines from the third on |
| `PoemIndex.Contributes` | generate.py:17-22 | definition: the name ends in `.txt` and the text is not empty; `PoemIndex.Parse` proves this is exactly when a file yields a poem |
| `PoemIndex.Parse` | generate.py:16-24 | an entry yields a poem exactly when its name ends in `.txt` and its text is not empty, and that poem's title and content have no whitespace at their ends |
| `PoemIndex.NewlineOnlyFile` | generate.py:20-24 | a `.txt` file holding only a newline is not skipped and gives an empty title and content |
| `PoemIndex.Block` | generate.py:25-28 | definition: the concatenation of the four appended lines of one poem; `PoemIndex.BlockLayout` gives where the title and the content sit |
| `PoemIndex.BlockLayout` | generate.py:25-28 | a block is the fixed markup with the title and the content inserted verbatim at fixed offsets |
| `PoemIndex.Poems` | generate.py:16-22 | definition: the parse results of the entries that yield a poem, in entry order; `PoemIndex.PoemsMatchContributors` ties them one to one to the contributing entries |
| `PoemIndex.Render` | generate.py:25-28 | definition: the blocks of the poems concatenated in order; `PoemIndex.BuildPoemsHtml` proves the loop computes it and `PoemIndex.RenderPrefix` that it only grows |
| `PoemIndex.ContributingIndices` | generate.py:16-22 | the indices are increasing, all point at contributing entries, and every contributing entry is listed |
| `PoemIndex.PoemsMatchContributors` | generate.py:16-28 | there is one poem per contributing entry, and the j-th poem is the parse of the j-th contributing entry |
| `PoemIndex.PoemsAppend` | generate.py:16 | the poems of two runs of entries are those of the first run followed by those of the second |
| `PoemIndex.SkippedEntry` | generate.py:16-22 | an entry that is not a `.txt` file, or whose text is empty, changes nothing |
| `PoemIndex.BuildPoemsHtml` | generate.py:13-28 | the accumulated `poems_html` is the concatenation, in entry order, of the block of every contributing entry |
| `PoemIndex.RenderPrefix` | generate.py:13-28 | what the accumulator holds after the first k entries is a prefix of its final value |
| `PoemIndex.GeneratePage` | generate.py:31-32 | the page is the template with every `{poems_html}` replaced by the accumulated blocks |
| `PoemIndex.TemplateWithoutPlaceholder` | generate.py:32 | a template without the placeholder is written unchanged |
| `PoemIndex.TemplateSinglePlaceholder` | generate.py:32 | a template holding the placeholder once gets the blocks at that point, with the text around it kept |

## Left out

- Filesystem I/O is not modelled: `os.makedirs`, opening and reading the template and the poem files, writing `site/index.html`, and the UTF-8 encoding arguments. The template and the entries are inputs and the page is the result.
- A failed read is not modelled. In the script, a `.txt` entry that cannot be opened or decoded (a directory named `x.txt`, a file that is not valid UTF-8) raises an exception that ends the run before `site/index.html` is written. The model takes every entry to have a text, so it always produces a page.
- Reading a poem file in text mode turns `"\r\n"` and `"\r"` into `"\n"`. The parse takes the stored text, and `Lines.ReadKeepsLines` proves the lines are the same either way. The template is taken as read, after that translation.
- The `os.listdir` order depends on the operating system. The given sequence order is taken as the order, and nothing is sorted.
- The closing progress `print` is logging only. It counts all directory entries, not the poems rendered, and the model does not state it.
- `Substitution.Replace` requires a non-empty pattern. Python's behaviour for an empty pattern is not modelled. Both calls in the script pass a non-empty constant.
- Characters are Unicode scalar values. The whitespace set follows `str.isspace()` and the line-boundary set follows `str.splitlines()`, both written out as fixed character lists.
- Removing `"Title: "` is one pass, as in Python, so a removal can form a new occurrence: `"TitTitle: le: x"` gives the title `"Title: x"`. `TitleOf` states the one-pass behaviour and does not claim the title is free of the prefix.
