/**
 * The page sequence of `APAFormatter.to_html` (backend/app/utils/formatter.py).
 * The method appends one `apa-page` block after another and counts pages in
 * `page_counter`: the cover page, a table-of-contents page when there are
 * entries, an abstract page when there is abstract text, one page per body
 * entry and a references page when there are references. Each page carries
 * the same running head and its page number. The model keeps the pages as
 * values (running head, number, what the page shows) rather than HTML text.
 */
module Formatter {
  import opened Wrappers
  import opened Text
  import opened Sorting

  const RUNNING_HEAD_PREFIX: string := "Running head: "
  const TOC_LEADER: string := " ....... "

  /** An entry of `table_of_contents`: `section_title` and, when present, `page_number` as printed. */
  datatype TocLine = TocLine(sectionTitle: string, pageNumber: Option<string>)

  /** An entry of `body`: `page_number` and `content`, each absent or given as text. */
  datatype BodyEntry = BodyEntry(pageNumber: Option<string>, content: Option<string>)

  /** An entry of `references`: `author`, `year` and `title`, each absent or given as text. */
  datatype Reference = Reference(author: Option<string>, year: Option<string>, title: Option<string>)

  /** The parts of `data` that decide the pages: `cover.title`, the TOC, `abstract.text`, `body`, `references`. */
  datatype Document = Document(
    title: Option<string>,
    toc: seq<TocLine>,
    abstractText: Option<string>,
    body: seq<BodyEntry>,
    references: seq<Reference>)

  /** What a page shows below its running head and number. */
  datatype Section =
    | Cover(title: string)
    | Contents(lines: seq<string>)
    | AbstractPage(text: string)
    | ChapterPage(heading: string, content: string)
    | References(entries: seq<string>)

  datatype Page = Page(runningHead: string, number: nat, section: Section)

  /** `f"Running head: {cover.get('title','').upper()}"`. */
  function RunningHead(d: Document): string {
    RUNNING_HEAD_PREFIX + Upper(d.title.GetOr(""))
  }

  /** `f"<p>{entry['section_title']} ....... {entry.get('page_number','')}</p>"`, without the tags. */
  function TocText(e: TocLine): string {
    e.sectionTitle + TOC_LEADER + e.pageNumber.GetOr("")
  }

  /** `f"{author} ({year}). <i>{title}</i>."`. */
  function ReferenceText(r: Reference): string {
    r.author.GetOr("") + " (" + r.year.GetOr("") + "). <i>" + r.title.GetOr("") + "</i>."
  }

  function Chapter(b: BodyEntry): Section {
    ChapterPage("Chapter " + b.pageNumber.GetOr(""), b.content.GetOr(""))
  }

  /** Python truthiness of `abs_data.get("text")`. */
  predicate HasAbstract(d: Document) {
    d.abstractText.Some? && d.abstractText.value != ""
  }

  /** The cover, then the TOC page when there are entries, then the abstract page when there is text. */
  function FrontMatter(d: Document): seq<Section> {
    [Cover(d.title.GetOr(""))]
    + (if |d.toc| > 0 then [Contents(Project(d.toc, TocText))] else [])
    + (if HasAbstract(d) then [AbstractPage(d.abstractText.value)] else [])
  }

  /** The references page when there are references. */
  function BackMatter(d: Document): seq<Section> {
    if |d.references| > 0 then [References(Project(d.references, ReferenceText))] else []
  }

  /** The sections in the order `to_html` emits them. */
  function Sections(d: Document): seq<Section> {
    FrontMatter(d) + Project(d.body, Chapter) + BackMatter(d)
  }

  /** The sections numbered 1, 2, ... under one running head. */
  function Numbered(head: string, secs: seq<Section>): (r: seq<Page>)
    ensures |r| == |secs|
    ensures forall i :: 0 <= i < |r| ==> r[i] == Page(head, i + 1, secs[i])
  {
    seq(|secs|, i requires 0 <= i < |secs| => Page(head, i + 1, secs[i]))
  }

  /** The pages of `to_html`. */
  function Layout(d: Document): seq<Page> {
    Numbered(RunningHead(d), Sections(d))
  }

  /** Where the pages after the cover start: past the TOC and abstract pages that are present. */
  function FirstChapterIndex(d: Document): nat {
    1 + (if |d.toc| > 0 then 1 else 0) + (if HasAbstract(d) then 1 else 0)
  }

  /** The section at each position, by the range the position falls in. */
  lemma SectionAt(d: Document, i: nat)
    requires i < |Sections(d)|
    ensures |Sections(d)| == FirstChapterIndex(d) + |d.body| + (if |d.references| > 0 then 1 else 0)
    ensures i == 0 ==> Sections(d)[i] == Cover(d.title.GetOr(""))
    ensures i == 1 && |d.toc| > 0 ==> Sections(d)[i] == Contents(Project(d.toc, TocText))
    ensures i == FirstChapterIndex(d) - 1 && HasAbstract(d) ==> Sections(d)[i] == AbstractPage(d.abstractText.value)
    ensures FirstChapterIndex(d) <= i < FirstChapterIndex(d) + |d.body| ==>
      Sections(d)[i] == Chapter(d.body[i - FirstChapterIndex(d)])
    ensures i == FirstChapterIndex(d) + |d.body| ==> Sections(d)[i] == References(Project(d.references, ReferenceText))
  {
    var c := [Cover(d.title.GetOr(""))];
    var t: seq<Section> := if |d.toc| > 0 then [Contents(Project(d.toc, TocText))] else [];
    var a: seq<Section> := if HasAbstract(d) then [AbstractPage(d.abstractText.value)] else [];
    var b := Project(d.body, Chapter);
    var r: seq<Section> := if |d.references| > 0 then [References(Project(d.references, ReferenceText))] else [];
    assert FrontMatter(d) == c + t + a;
    assert Sections(d) == c + t + a + b + r;
    assert |c + t + a| == FirstChapterIndex(d);
  }

  /** The cover is page 1 and every page carries the same running head and its position as number. */
  lemma LayoutNumbers(d: Document)
    ensures |Layout(d)| > 0 && Layout(d)[0] == Page(RunningHead(d), 1, Cover(d.title.GetOr("")))
    ensures forall i :: 0 <= i < |Layout(d)| ==>
      Layout(d)[i].number == i + 1 && Layout(d)[i].runningHead == RunningHead(d)
  {
    SectionAt(d, 0);
  }

  /** The page count: the cover, one page for each optional part present, one page per body entry. */
  lemma LayoutLength(d: Document)
    ensures |Layout(d)| == 1 + (if |d.toc| > 0 then 1 else 0) + (if HasAbstract(d) then 1 else 0)
      + |d.body| + (if |d.references| > 0 then 1 else 0)
  {
    SectionAt(d, 0);
  }

  /** A table-of-contents page exists exactly when there are entries, and then it is page 2. */
  lemma LayoutContents(d: Document)
    ensures (exists i :: 0 <= i < |Layout(d)| && Layout(d)[i].section.Contents?) <==> |d.toc| > 0
    ensures |d.toc| > 0 ==> Layout(d)[1] == Page(RunningHead(d), 2, Contents(Project(d.toc, TocText)))
  {
    SectionAt(d, 0);
    if |d.toc| > 0 {
      SectionAt(d, 1);
      assert Layout(d)[1].section.Contents?;
    }
    forall i | 0 <= i < |Layout(d)| && Layout(d)[i].section.Contents?
      ensures |d.toc| > 0
    {
      SectionAt(d, i);
    }
  }

  /** An abstract page exists exactly when the abstract text is nonempty; it follows the cover and the TOC page. */
  lemma LayoutAbstract(d: Document)
    ensures (exists i :: 0 <= i < |Layout(d)| && Layout(d)[i].section.AbstractPage?) <==> HasAbstract(d)
    ensures HasAbstract(d) ==>
      Layout(d)[FirstChapterIndex(d) - 1]
      == Page(RunningHead(d), FirstChapterIndex(d), AbstractPage(d.abstractText.value))
  {
    SectionAt(d, 0);
    if HasAbstract(d) {
      SectionAt(d, FirstChapterIndex(d) - 1);
      assert Layout(d)[FirstChapterIndex(d) - 1].section.AbstractPage?;
    }
    forall i | 0 <= i < |Layout(d)| && Layout(d)[i].section.AbstractPage?
      ensures HasAbstract(d)
    {
      SectionAt(d, i);
    }
  }

  /** The k-th body entry is on its own page, numbered in input order and headed "Chapter {page_number}". */
  lemma LayoutChapters(d: Document, k: nat)
    requires k < |d.body|
    ensures Layout(d)[FirstChapterIndex(d) + k] == Page(RunningHead(d), FirstChapterIndex(d) + k + 1, Chapter(d.body[k]))
  {
    var f, b := FrontMatter(d), Project(d.body, Chapter);
    assert |f| == FirstChapterIndex(d);
    assert Sections(d)[|f| + k] == b[k];
  }

  /** The chapter pages are exactly the body entries: no other page is a chapter page. */
  lemma LayoutOnlyBodyChapters(d: Document, i: nat)
    requires i < |Layout(d)| && Layout(d)[i].section.ChapterPage?
    ensures FirstChapterIndex(d) <= i < FirstChapterIndex(d) + |d.body|
  {
    SectionAt(d, i);
  }

  /** A references page exists exactly when there are references; it is the last page and lists `author (year). title.`. */
  lemma LayoutReferences(d: Document)
    ensures (exists i :: 0 <= i < |Layout(d)| && Layout(d)[i].section.References?) <==> |d.references| > 0
    ensures |d.references| > 0 ==>
      var last := |Layout(d)| - 1;
      && Layout(d)[last] == Page(RunningHead(d), last + 1, References(Project(d.references, ReferenceText)))
      && forall j :: 0 <= j < |d.references| ==>
        Layout(d)[last].section.entries[j]
        == d.references[j].author.GetOr("") + " (" + d.references[j].year.GetOr("") + "). <i>"
           + d.references[j].title.GetOr("") + "</i>."
  {
    SectionAt(d, 0);
    if |d.references| > 0 {
      SectionAt(d, |Layout(d)| - 1);
    }
    forall i | 0 <= i < |Layout(d)| && Layout(d)[i].section.References?
      ensures |d.references| > 0
    {
      SectionAt(d, i);
    }
  }

  /**
   * `to_html` as the code runs it: the cover page, then `page_counter` from 2,
   * advanced after each page that is appended.
   */
  method ToPages(d: Document) returns (pages: seq<Page>)
    ensures pages == Layout(d)
  {
    var head := RunningHead(d);
    var pageCounter;
    pages, pageCounter := FrontPages(d, head);
    ghost var secs := FrontMatter(d);

    for i := 0 to |d.body|
      invariant secs == FrontMatter(d) + Project(d.body[..i], Chapter)
      invariant pages == Numbered(head, secs)
      invariant pageCounter == |secs| + 1
    {
      var bp := d.body[i];
      var page := ChapterPage("Chapter " + bp.pageNumber.GetOr(""), bp.content.GetOr(""));
      NumberedSnoc(head, secs, page);
      pages := pages + [Page(head, pageCounter, page)];
      assert d.body[..i + 1] == d.body[..i] + [bp];
      ProjectSnoc(d.body[..i], bp, Chapter);
      AppendAssoc(FrontMatter(d), Project(d.body[..i], Chapter), [page]);
      secs := secs + [page];
      pageCounter := pageCounter + 1;
    }
    assert d.body[..|d.body|] == d.body;

    if |d.references| > 0 {
      var refEntries := ReferenceEntries(d.references);
      NumberedSnoc(head, secs, References(refEntries));
      pages := pages + [Page(head, pageCounter, References(refEntries))];
      secs := secs + [References(refEntries)];
      pageCounter := pageCounter + 1;
    }
    assert secs == Sections(d);
  }

  /** The cover page, then the TOC and abstract pages with `page_counter` starting at 2. */
  method FrontPages(d: Document, head: string) returns (pages: seq<Page>, pageCounter: nat)
    ensures pages == Numbered(head, FrontMatter(d))
    ensures pageCounter == |pages| + 1
  {
    pages := [Page(head, 1, Cover(d.title.GetOr("")))];
    ghost var secs := [Cover(d.title.GetOr(""))];
    pageCounter := 2;

    var tocLines := TocLines(d.toc);
    if tocLines != [] {
      NumberedSnoc(head, secs, Contents(tocLines));
      pages := pages + [Page(head, pageCounter, Contents(tocLines))];
      secs := secs + [Contents(tocLines)];
      pageCounter := pageCounter + 1;
    }
    assert secs == [Cover(d.title.GetOr(""))] + (if |d.toc| > 0 then [Contents(Project(d.toc, TocText))] else []);

    if d.abstractText.Some? && d.abstractText.value != "" {
      NumberedSnoc(head, secs, AbstractPage(d.abstractText.value));
      pages := pages + [Page(head, pageCounter, AbstractPage(d.abstractText.value))];
      secs := secs + [AbstractPage(d.abstractText.value)];
      pageCounter := pageCounter + 1;
    }
    assert secs == FrontMatter(d);
  }

  /** The loop over `toc_list` that builds the TOC lines. */
  method TocLines(toc: seq<TocLine>) returns (lines: seq<string>)
    ensures lines == Project(toc, TocText)
  {
    lines := [];
    for i := 0 to |toc|
      invariant lines == Project(toc[..i], TocText)
    {
      assert toc[..i + 1] == toc[..i] + [toc[i]];
      ProjectSnoc(toc[..i], toc[i], TocText);
      lines := lines + [toc[i].sectionTitle + TOC_LEADER + toc[i].pageNumber.GetOr("")];
    }
    assert toc[..|toc|] == toc;
  }

  /** The loop over `refs` that builds the reference entries. */
  method ReferenceEntries(refs: seq<Reference>) returns (entries: seq<string>)
    ensures entries == Project(refs, ReferenceText)
  {
    entries := [];
    for i := 0 to |refs|
      invariant entries == Project(refs[..i], ReferenceText)
    {
      var r := refs[i];
      assert refs[..i + 1] == refs[..i] + [r];
      ProjectSnoc(refs[..i], r, ReferenceText);
      entries := entries + [r.author.GetOr("") + " (" + r.year.GetOr("") + "). <i>" + r.title.GetOr("") + "</i>."];
    }
    assert refs[..|refs|] == refs;
  }

  lemma AppendAssoc<T>(a: seq<T>, b: seq<T>, c: seq<T>)
    ensures (a + b) + c == a + (b + c)
  {
  }

  lemma NumberedSnoc(head: string, secs: seq<Section>, s: Section)
    ensures Numbered(head, secs + [s]) == Numbered(head, secs) + [Page(head, |secs| + 1, s)]
  {
    assert forall i :: 0 <= i < |secs| ==> (secs + [s])[i] == secs[i];
  }

  lemma ProjectSnoc<T, U>(s: seq<T>, x: T, f: T -> U)
    ensures Project(s + [x], f) == Project(s, f) + [f(x)]
  {
    assert forall i :: 0 <= i < |s| ==> (s + [x])[i] == s[i];
  }
}
