/** The poem index generator of generate.py: every `.txt` entry of the poems
    directory, in the order the directory lists them, becomes one HTML block
    (title from the first line, content from the third line on), and the
    blocks, concatenated, replace every `{poems_html}` in the page template.

    The directory listing is a sequence of entries and the template is a
    string; reading, writing and printing are not part of the model. */
module PoemIndex {
  import opened Text
  import opened Seqs
  import opened Substitution
  import opened Whitespace
  import opened Lines

  /** One directory entry: its file name and the text the file holds. */
  datatype Entry = Entry(name: string, text: string)

  /** What one poem file contributes to the page. */
  datatype Poem = Poem(title: string, content: string)

  const PoemSuffix := ".txt"
  const TitlePrefix := "Title: "
  const Placeholder := "{poems_html}"

  const PoemOpen := "<div class='poem'>\n"
  const TitleOpen := "  <div class='poem-title'>"
  const ContentOpen := "  <div class='poem-content'>"
  const DivClose := "</div>\n"
  const PoemClose := "</div>\n\n"

  /** Python's `lines[2:]`: empty when there are at most two lines. */
  function DropTwo(lines: seq<string>): seq<string> {
    if |lines| <= 2 then [] else lines[2..]
  }

  /** The title: the first line with every `"Title: "` removed, then stripped. */
  function TitleOf(first: string): (title: string)
    ensures Trimmed(title)
    ensures IsTrimOf(Replace(first, TitlePrefix, ""), title)
  {
    Strip(Replace(first, TitlePrefix, ""))
  }

  /** The content: the lines from the third on, joined by newlines, stripped. */
  function ContentOf(lines: seq<string>): (content: string)
    ensures Trimmed(content)
    ensures IsTrimOf(Join(DropTwo(lines), "\n"), content)
    ensures |lines| <= 2 ==> content == ""
  {
    Strip(Join(DropTwo(lines), "\n"))
  }

  /** The entry is a poem file that has at least one line. */
  predicate Contributes(e: Entry) {
    EndsWith(e.name, PoemSuffix) && e.text != ""
  }

  /** The poem an entry contributes, if any. */
  function Parse(e: Entry): (r: Option<Poem>)
    ensures r.Some? <==> Contributes(e)
    ensures r.Some? ==> Trimmed(r.value.title) && Trimmed(r.value.content)
  {
    if !EndsWith(e.name, PoemSuffix) then None
    else
      var lines := SplitLines(e.text);
      if |lines| == 0 then None
      else Some(Poem(TitleOf(lines[0]), ContentOf(lines)))
  }

  /** The poems of the entries, in entry order. */
  function Poems(entries: seq<Entry>): seq<Poem> {
    FilterMap(entries, Parse)
  }

  /** The four-line block of one poem. */
  function Block(p: Poem): string {
    PoemOpen + TitleOpen + p.title + DivClose + ContentOpen + p.content + DivClose + PoemClose
  }

  /** The blocks of the poems, concatenated in order. */
  function Render(poems: seq<Poem>): string {
    ConcatMap(poems, Block)
  }

  /** The positions of the contributing entries, in increasing order. */
  function ContributingIndices(entries: seq<Entry>): (idx: seq<nat>)
    ensures forall j :: 0 <= j < |idx| ==> idx[j] < |entries| && Contributes(entries[idx[j]])
    ensures forall j, k :: 0 <= j < k < |idx| ==> idx[j] < idx[k]
    ensures forall i :: 0 <= i < |entries| && Contributes(entries[i]) ==> i in idx
  {
    if entries == [] then []
    else
      var n := |entries| - 1;
      var init := ContributingIndices(entries[..n]);
      if Contributes(entries[n]) then init + [n] else init
  }

  /** Builds `poems_html` the way the script does: one pass over the entries,
      appending the four lines of each contributing file. */
  method BuildPoemsHtml(entries: seq<Entry>) returns (poemsHtml: string)
    ensures poemsHtml == Render(Poems(entries))
  {
    poemsHtml := "";
    for i := 0 to |entries|
      invariant poemsHtml == Render(Poems(entries[..i]))
    {
      PoemsStep(entries, i);
      var e := entries[i];
      if EndsWith(e.name, PoemSuffix) {
        var lines := SplitLines(e.text);
        if |lines| == 0 {
          continue;
        }
        var title := TitleOf(lines[0]);
        var content := ContentOf(lines);
        ghost var before := poemsHtml;
        poemsHtml := poemsHtml + PoemOpen;
        poemsHtml := poemsHtml + TitleOpen + title + DivClose;
        poemsHtml := poemsHtml + ContentOpen + content + DivClose;
        poemsHtml := poemsHtml + PoemClose;
        StepwiseAppend(before, PoemOpen, TitleOpen, title, DivClose, ContentOpen, content, DivClose, PoemClose);
      }
    }
    assert entries[..|entries|] == entries;
  }

  /** The page the script writes: the template with every placeholder
      replaced by the poems' blocks. */
  method GeneratePage(template: string, entries: seq<Entry>) returns (page: string)
    ensures page == Replace(template, Placeholder, Render(Poems(entries)))
  {
    var poemsHtml := BuildPoemsHtml(entries);
    page := Replace(template, Placeholder, poemsHtml);
  }

  // ---------------------------------------------------------------------
  // Properties of the per-file parse

  /** A header line `"Title: " + x` gives the stripped `x` (when `x` does not
      itself hold the prefix). */
  lemma TitleOfHeader(x: string)
    requires !Occurs(TitlePrefix, x)
    ensures TitleOf(TitlePrefix + x) == Strip(x)
  {
    ReplaceAtStart(TitlePrefix, x, "");
    assert "" + x == x;
  }

  /** The content never draws on the first two lines: files that differ only
      there have the same content, and the title depends on the first line
      only. */
  lemma ParseReadsOnlyItsLines(a: Entry, b: Entry)
    requires Contributes(a) && Contributes(b)
    ensures var la, lb := SplitLines(a.text), SplitLines(b.text);
      (la[0] == lb[0] ==> Parse(a).value.title == Parse(b).value.title)
      && (DropTwo(la) == DropTwo(lb) ==> Parse(a).value.content == Parse(b).value.content)
  {
  }

  /** When the lines from the third on, joined, already have no whitespace at
      either end, the content is exactly those lines joined in their order. */
  lemma ContentKeepsLines(lines: seq<string>)
    requires Trimmed(Join(DropTwo(lines), "\n"))
    ensures ContentOf(lines) == Join(DropTwo(lines), "\n")
  {
    StripTrimmed(Join(DropTwo(lines), "\n"));
  }

  /** A file holding one newline has one empty line: it still contributes,
      with an empty title and content. */
  lemma NewlineOnlyFile(name: string)
    requires EndsWith(name, PoemSuffix)
    ensures Parse(Entry(name, "\n")) == Some(Poem("", ""))
  {
    assert Terminated([""]) == "\n";
    SplitLinesTerminated([""]);
    assert Replace("", TitlePrefix, "") == "";
    StripTrimmed("");
    assert TitleOf("") == "" && ContentOf([""]) == "";
  }

  // ---------------------------------------------------------------------
  // Properties of the accumulation

  /** Processing entries in two runs gives the poems of each run, in order. */
  lemma PoemsAppend(a: seq<Entry>, b: seq<Entry>)
    ensures Poems(a + b) == Poems(a) + Poems(b)
  {
    FilterMapAppend(a, b, Parse);
  }

  /** An entry that does not contribute (not a `.txt` name, or an empty file)
      leaves the poems exactly as they would be without it. */
  lemma SkippedEntry(a: seq<Entry>, e: Entry, b: seq<Entry>)
    requires !Contributes(e)
    ensures Poems(a + [e] + b) == Poems(a + b)
  {
    PoemsAppend(a + [e], b);
    PoemsAppend(a, b);
    assert (a + [e])[..|a|] == a;
  }

  /** The poems correspond one to one, in order, to the contributing entries:
      there is one poem per contributing entry and the j-th poem is the parse
      of the j-th contributing entry. */
  lemma {:induction false} PoemsMatchContributors(entries: seq<Entry>)
    ensures var idx := ContributingIndices(entries);
      |Poems(entries)| == |idx|
      && forall j :: 0 <= j < |idx| ==> Parse(entries[idx[j]]) == Some(Poems(entries)[j])
  {
    if entries != [] {
      var n := |entries| - 1;
      var init := entries[..n];
      PoemsMatchContributors(init);
      forall j | 0 <= j < |ContributingIndices(init)|
        ensures entries[ContributingIndices(init)[j]] == init[ContributingIndices(init)[j]]
      {
      }
    }
  }

  /** Title and content go into a block verbatim, without escaping, at fixed
      places between the fixed markup. */
  lemma BlockLayout(p: Poem)
    ensures var b := Block(p);
            var t := |PoemOpen + TitleOpen|;
            var c := t + |p.title| + |DivClose + ContentOpen|;
            |b| == c + |p.content| + |DivClose + PoemClose|
            && b[..|PoemOpen|] == PoemOpen && b[c + |p.content|..] == DivClose + PoemClose
            && b[t..t + |p.title|] == p.title && b[c..c + |p.content|] == p.content
  {
  }

  /** Helper for BuildPoemsHtml: the poems after one more entry. */
  lemma PoemsStep(entries: seq<Entry>, i: nat)
    requires i < |entries|
    ensures Render(Poems(entries[..i + 1])) == match Parse(entries[i])
      case Some(p) => Render(Poems(entries[..i])) + Block(p)
      case None => Render(Poems(entries[..i]))
  {
    assert entries[..i + 1][..i] == entries[..i];
    match Parse(entries[i])
    case Some(p) =>
      ConcatMapAppend(Poems(entries[..i]), [p], Block);
    case None =>
  }

  /** `poems_html` only grows: what it holds after the first k entries is a
      prefix of its final value. */
  lemma RenderPrefix(entries: seq<Entry>, k: nat)
    requires k <= |entries|
    ensures var part := Render(Poems(entries[..k]));
      |part| <= |Render(Poems(entries))| && Render(Poems(entries))[..|part|] == part
  {
    assert entries == entries[..k] + entries[k..];
    PoemsAppend(entries[..k], entries[k..]);
    ConcatMapAppend(Poems(entries[..k]), Poems(entries[k..]), Block);
  }

  // ---------------------------------------------------------------------
  // Properties of the template substitution

  /** A template without the placeholder is written unchanged. */
  lemma TemplateWithoutPlaceholder(template: string, poemsHtml: string)
    requires !Occurs(Placeholder, template)
    ensures Replace(template, Placeholder, poemsHtml) == template
  {
    ReplaceAbsent(template, Placeholder, poemsHtml);
  }

  /** A template holding the placeholder once gets the blocks spliced in at
      that point, and the text around it is kept. */
  lemma TemplateSinglePlaceholder(before: string, after: string, poemsHtml: string)
    requires !Occurs(Placeholder, before) && !Occurs(Placeholder, after)
    ensures Replace(before + Placeholder + after, Placeholder, poemsHtml) == before + poemsHtml + after
  {
    assert '{' !in Placeholder[1..];
    ReplaceSingle(before, after, Placeholder, poemsHtml);
  }
}
