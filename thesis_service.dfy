/**
 * The thesis-structure operations of backend/app/services/thesisservice.py over
 * an in-memory model of the tables they touch: theses, table-of-contents rows,
 * body pages and abstracts, each keyed by thesis id. The unique index on
 * (thesis, order) of the table of contents and the one on (thesis, page_number)
 * of the body pages (backend/app/models/data.py) are the invariants `Valid`
 * keeps. As in the token store, a datatype holds the tables, functions on it say
 * what each operation does, and the class ThesisDb holds the same fields with
 * methods, written step by step as the service is, proved against them.
 */
module ThesisService {
  import opened Wrappers
  import opened Text
  import opened Sorting

  /** The text of the page get_body_pages and create_thesis fall back to. */
  const BLANK_PAGE: string := "(This page is intentionally left blank.)"

  /** A TableOfContents row; `page_number` may be null. */
  datatype TocEntry = TocEntry(sectionTitle: string, pageNumber: Option<int>, order: int)

  /** A BodyPage row; `body` may be null. */
  datatype BodyPage = BodyPage(pageNumber: int, body: Option<string>)

  datatype Thesis = Thesis(id: nat, title: string, course: Option<string>, instructor: Option<string>,
                           status: string, studentId: nat)

  /** The ValueErrors the service raises, and the IntegrityError of a unique index. */
  datatype ThesisError = ThesisNotFound | MissingRequiredField | StudentNotFound | IntegrityError

  datatype ThesisState = ThesisState(
    theses: map<nat, Thesis>,
    /** The ids present in the User table. */
    userIds: set<nat>,
    /** TableOfContents rows of each thesis, in insertion order. */
    toc: map<nat, seq<TocEntry>>,
    /** BodyPage rows of each thesis, in insertion order. */
    bodyPages: map<nat, seq<BodyPage>>,
    /** The Abstract row of each thesis, holding its text. */
    abstracts: map<nat, Option<string>>,
    /** The next value of the thesis AutoField. */
    nextId: nat)

  /** The rows a `.where(thesis_id == id)` select finds. */
  function Rows<T>(m: map<nat, seq<T>>, id: nat): seq<T> {
    if id in m then m[id] else []
  }

  predicate DistinctOrders(rows: seq<TocEntry>) {
    forall i, j :: 0 <= i < j < |rows| ==> rows[i].order != rows[j].order
  }

  predicate UniquePageNumbers(pages: seq<BodyPage>) {
    forall i, j :: 0 <= i < j < |pages| ==> pages[i].pageNumber != pages[j].pageNumber
  }

  /** Ids below the counter, pages and abstracts only for existing theses, and both unique indexes. */
  predicate Valid(s: ThesisState) {
    && (forall id :: id in s.theses ==> id < s.nextId && s.theses[id].id == id)
    && (forall id :: id in s.bodyPages ==> id in s.theses && UniquePageNumbers(s.bodyPages[id]))
    && (forall id :: id in s.abstracts ==> id in s.theses)
    && (forall id :: id in s.toc ==> DistinctOrders(s.toc[id]))
  }

  /** `.order_by(TableOfContents.order)`. */
  predicate ByOrder(a: TocEntry, b: TocEntry) {
    a.order <= b.order
  }

  /** `.order_by(BodyPage.page_number)`. */
  predicate ByPageNumber(a: BodyPage, b: BodyPage) {
    a.pageNumber <= b.pageNumber
  }

  lemma OrderingsTotal()
    ensures TotalPreorder(ByOrder)
    ensures TotalPreorder(ByPageNumber)
  {
  }

  // ---------------------------------------------------------------------------
  // Table of contents

  const COVER_ENTRY: TocEntry := TocEntry("Cover Page", Some(1), 1)
  const ABSTRACT_ENTRY: TocEntry := TocEntry("Abstract", Some(2), 2)

  /** `f"Page {page.page_number}"`. */
  function PageTitle(n: int): string {
    "Page " + IntToString(n)
  }

  function PageEntry(p: BodyPage, i: int): TocEntry {
    TocEntry(PageTitle(p.pageNumber), Some(i), i)
  }

  function ReferencesEntry(i: int): TocEntry {
    TocEntry("References", Some(i), i)
  }

  /** The table of contents get_table_of_contents builds from the body pages when none is stored. */
  function GeneratedToc(pages: seq<BodyPage>): seq<TocEntry> {
    TocAround(SortBy(pages, ByPageNumber))
  }

  /** The cover and abstract entries, one entry per page in the order given, then References. */
  function TocAround(sorted: seq<BodyPage>): seq<TocEntry> {
    [COVER_ENTRY, ABSTRACT_ENTRY] + PageEntries(sorted, 3, PageTitle) + [ReferencesEntry(|sorted| + 3)]
  }

  /** One entry per page, titled by its page number, their orders counting up from first. */
  function PageEntries(pages: seq<BodyPage>, first: int, title: int -> string): (r: seq<TocEntry>)
    ensures |r| == |pages|
    decreases |pages|
  {
    if pages == [] then []
    else [TocEntry(title(pages[0].pageNumber), Some(first), first)] + PageEntries(pages[1..], first + 1, title)
  }

  /** The i-th page has the i-th entry, of order first + i. */
  lemma {:induction false} PageEntriesAt(pages: seq<BodyPage>, first: int, title: int -> string, i: nat)
    requires i < |pages|
    ensures PageEntries(pages, first, title)[i] == TocEntry(title(pages[i].pageNumber), Some(first + i), first + i)
    decreases i
  {
    if i > 0 {
      PageEntriesAt(pages[1..], first + 1, title, i - 1);
    }
  }

  lemma {:induction false} PageEntriesSnoc(pages: seq<BodyPage>, p: BodyPage, first: int, title: int -> string)
    ensures PageEntries(pages + [p], first, title)
         == PageEntries(pages, first, title) + [TocEntry(title(p.pageNumber), Some(first + |pages|), first + |pages|)]
    decreases |pages|
  {
    var last := [TocEntry(title(p.pageNumber), Some(first + |pages|), first + |pages|)];
    if pages == [] {
      assert [p][1..] == [];
    } else {
      var e := [TocEntry(title(pages[0].pageNumber), Some(first), first)];
      var x := PageEntries(pages[1..], first + 1, title);
      assert (pages + [p])[1..] == pages[1..] + [p];
      assert PageEntries(pages + [p], first, title) == e + PageEntries(pages[1..] + [p], first + 1, title);
      PageEntriesSnoc(pages[1..], p, first + 1, title);
      assert e + (x + last) == (e + x) + last;
    }
  }

  /** The entries around the pages are numbered 1, 2, ... in order, opening with the cover and abstract and closing with References. */
  lemma TocAroundShape(sorted: seq<BodyPage>)
    ensures var g := TocAround(sorted);
      && |g| == |sorted| + 3
      && (forall i :: 0 <= i < |g| ==> g[i].order == i + 1 && g[i].pageNumber == Some(i + 1))
      && g[0].sectionTitle == "Cover Page" && g[1].sectionTitle == "Abstract"
      && g[|g| - 1].sectionTitle == "References"
  {
    var g := TocAround(sorted);
    TocAroundAt(sorted, 0);
    forall i | 0 <= i < |g|
      ensures g[i].order == i + 1 && g[i].pageNumber == Some(i + 1)
    {
      TocAroundAt(sorted, i);
    }
    TocAroundAt(sorted, 1);
    TocAroundAt(sorted, |g| - 1);
  }

  /** Between the abstract and References stand the pages' own entries, in the order given. */
  lemma TocAroundPages(sorted: seq<BodyPage>)
    ensures |TocAround(sorted)| == |sorted| + 3
    ensures TocAround(sorted)[2..|sorted| + 2] == PageEntries(sorted, 3, PageTitle)
  {
    var m := PageEntries(sorted, 3, PageTitle);
    var front: seq<TocEntry> := [COVER_ENTRY, ABSTRACT_ENTRY];
    assert TocAround(sorted) == front + m + [ReferencesEntry(|sorted| + 3)];
    assert TocAround(sorted)[2..|sorted| + 2] == m;
  }

  /** The entry at each position: cover, abstract, the pages in turn, References. */
  lemma TocAroundAt(sorted: seq<BodyPage>, i: nat)
    requires i < |sorted| + 3
    ensures |TocAround(sorted)| == |sorted| + 3
    ensures TocAround(sorted)[i]
      == if i == 0 then COVER_ENTRY
         else if i == 1 then ABSTRACT_ENTRY
         else if i < |sorted| + 2 then PageEntry(sorted[i - 2], i + 1)
         else ReferencesEntry(i + 1)
  {
    var m := PageEntries(sorted, 3, PageTitle);
    assert TocAround(sorted) == [COVER_ENTRY, ABSTRACT_ENTRY] + m + [ReferencesEntry(|sorted| + 3)];
    if 2 <= i < |sorted| + 2 {
      assert TocAround(sorted)[i] == m[i - 2];
      PageEntriesAt(sorted, 3, PageTitle, i - 2);
    }
  }

  /**
   * The generated list: the cover page and the abstract first, References
   * last, the i-th entry having order and page number i (counting from 1).
   */
  lemma GeneratedTocShape(pages: seq<BodyPage>)
    ensures var g := GeneratedToc(pages);
      && |g| == |pages| + 3
      && (forall i :: 0 <= i < |g| ==> g[i].order == i + 1 && g[i].pageNumber == Some(i + 1))
      && g[0].sectionTitle == "Cover Page" && g[1].sectionTitle == "Abstract"
      && g[|g| - 1].sectionTitle == "References"
  {
    TocAroundShape(SortBy(pages, ByPageNumber));
  }

  /** Between them, one entry per body page, titled "Page {page_number}", in ascending page number. */
  lemma GeneratedTocPages(pages: seq<BodyPage>)
    ensures var g := GeneratedToc(pages); var sorted := SortBy(pages, ByPageNumber);
      && |g| == |pages| + 3
      && SortedBy(sorted, ByPageNumber) && multiset(sorted) == multiset(pages)
      && g[2..|g| - 1] == PageEntries(sorted, 3, PageTitle)
  {
    TocAroundPages(SortBy(pages, ByPageNumber));
    OrderingsTotal();
    SortBySorted(pages, ByPageNumber);
  }

  /** The generated orders are 1, 2, ..., so they fit the unique index and are already in order. */
  lemma GeneratedOrdered(pages: seq<BodyPage>)
    ensures GeneratedToc(pages) != []
    ensures DistinctOrders(GeneratedToc(pages))
    ensures SortedBy(GeneratedToc(pages), ByOrder)
  {
    GeneratedTocShape(pages);
  }

  /**
   * Inserting rows one by one into a thesis's table of contents: a row whose
   * order is already present fails the unique index with IntegrityError, and
   * the rows inserted before it stay.
   */
  function InsertToc(rows: seq<TocEntry>, entries: seq<TocEntry>): (seq<TocEntry>, Outcome<ThesisError>)
    decreases |entries|
  {
    if entries == [] then (rows, Pass)
    else if HasOrder(rows, entries[0].order) then (rows, Fail(IntegrityError))
    else InsertToc(rows + [entries[0]], entries[1..])
  }

  predicate HasOrder(rows: seq<TocEntry>, order: int) {
    exists k :: 0 <= k < |rows| && rows[k].order == order
  }

  /**
   * The inserts all succeed exactly when the orders of the old and the new rows
   * are distinct, and then the table holds the old rows followed by the new;
   * either way the index is kept.
   */
  lemma {:induction false} InsertTocOutcome(rows: seq<TocEntry>, entries: seq<TocEntry>)
    requires DistinctOrders(rows)
    ensures DistinctOrders(InsertToc(rows, entries).0)
    ensures InsertToc(rows, entries).1.Pass? <==> DistinctOrders(rows + entries)
    ensures InsertToc(rows, entries).1.Pass? ==> InsertToc(rows, entries).0 == rows + entries
    ensures InsertToc(rows, entries).1.Fail? ==> InsertToc(rows, entries).1 == Fail(IntegrityError)
    decreases |entries|
  {
    if entries == [] {
      assert rows + entries == rows;
    } else if HasOrder(rows, entries[0].order) {
      var k :| 0 <= k < |rows| && rows[k].order == entries[0].order;
      assert (rows + entries)[k] == rows[k] && (rows + entries)[|rows|] == entries[0];
    } else {
      var rows' := rows + [entries[0]];
      assert DistinctOrders(rows');
      assert rows' + entries[1..] == rows + entries;
      InsertTocOutcome(rows', entries[1..]);
    }
  }

  /**
   * get_table_of_contents: the stored rows sorted by order; with none stored,
   * the generated list, which is stored and returned.
   */
  function GetToc(s: ThesisState, id: nat): (ThesisState, seq<TocEntry>) {
    var rows := Rows(s.toc, id);
    if rows != [] then (s, SortBy(rows, ByOrder))
    else
      var g := GeneratedToc(Rows(s.bodyPages, id));
      (s.(toc := s.toc[id := g]), g)
  }

  /** A second call returns what the first returned and changes nothing more. */
  lemma TocStable(s: ThesisState, id: nat)
    ensures var (s1, r1) := GetToc(s, id); GetToc(s1, id) == (s1, r1)
  {
    var rows := Rows(s.toc, id);
    if rows == [] {
      var g := GeneratedToc(Rows(s.bodyPages, id));
      GeneratedOrdered(Rows(s.bodyPages, id));
      SortByIdentity(g, ByOrder);
    }
  }

  /** The returned list is sorted by order, its orders are distinct, and only this thesis's rows change. */
  lemma GetTocSorted(s: ThesisState, id: nat)
    requires Valid(s)
    ensures var (s1, r) := GetToc(s, id);
      && SortedBy(r, ByOrder) && DistinctOrders(r) && r != []
      && Valid(s1) && s1.toc[id] == Rows(s1.toc, id)
      && multiset(r) == multiset(Rows(s1.toc, id))
      && s1 == s.(toc := s1.toc) && (forall other :: other != id ==> Rows(s1.toc, other) == Rows(s.toc, other))
  {
    var rows := Rows(s.toc, id);
    var (s1, r) := GetToc(s, id);
    if rows != [] {
      OrderingsTotal();
      SortBySorted(rows, ByOrder);
      DistinctOrdersPermutation(rows, r);
    } else {
      GeneratedOrdered(Rows(s.bodyPages, id));
    }
  }

  /** Rearranging rows keeps their orders distinct. */
  lemma DistinctOrdersPermutation(a: seq<TocEntry>, b: seq<TocEntry>)
    requires DistinctOrders(a) && multiset(a) == multiset(b)
    ensures DistinctOrders(b)
  {
    forall i, j | 0 <= i < j < |b|
      ensures b[i].order != b[j].order
    {
      if b[i] == b[j] {
        TwoOccurrences(b, i, j);
        var p, q := TwoPositions(a, b[i]);
        assert false;
      } else {
        assert b[i] in multiset(a) && b[j] in multiset(a);
        var p :| 0 <= p < |a| && a[p] == b[i];
        var q :| 0 <= q < |a| && a[q] == b[j];
        assert p < q ==> a[p].order != a[q].order;
        assert q < p ==> a[q].order != a[p].order;
      }
    }
  }

  lemma TwoOccurrences<T>(s: seq<T>, i: int, j: int)
    requires 0 <= i < j < |s| && s[i] == s[j]
    ensures multiset(s)[s[i]] >= 2
  {
    assert s == s[..j] + [s[j]] + s[j + 1..];
    assert s[..j][i] == s[i];
    assert s[i] in multiset(s[..j]);
  }

  lemma TwoPositions<T>(s: seq<T>, x: T) returns (p: int, q: int)
    requires multiset(s)[x] >= 2
    ensures 0 <= p < q < |s| && s[p] == x && s[q] == x
  {
    assert x in multiset(s);
    var k :| 0 <= k < |s| && s[k] == x;
    var rest := s[..k] + s[k + 1..];
    assert s == s[..k] + [s[k]] + s[k + 1..];
    assert multiset(s) == multiset(rest) + multiset{x};
    assert x in multiset(rest);
    var m :| 0 <= m < |rest| && rest[m] == x;
    if m < k {
      assert rest[m] == s[m];
      p, q := m, k;
    } else {
      assert rest[m] == s[m + 1];
      p, q := k, m + 1;
    }
  }

  /**
   * update_table_of_contents: delete the thesis's rows, insert the given ones
   * in turn, then return get_table_of_contents; a repeated order fails with
   * the rows inserted so far left in place.
   */
  function UpdateToc(s: ThesisState, id: nat, entries: seq<TocEntry>): (ThesisState, Result<seq<TocEntry>, ThesisError>) {
    var (rows, outcome) := InsertToc([], entries);
    var s1 := s.(toc := s.toc[id := rows]);
    if outcome.Fail? then (s1, Err(outcome.error))
    else
      var (s2, r) := GetToc(s1, id);
      (s2, Ok(r))
  }

  /** The update succeeds exactly when the given orders are distinct, and fails otherwise with IntegrityError. */
  lemma UpdateTocOutcome(s: ThesisState, id: nat, entries: seq<TocEntry>)
    ensures UpdateToc(s, id, entries).1.Ok? <==> DistinctOrders(entries)
    ensures UpdateToc(s, id, entries).1.Err? ==> UpdateToc(s, id, entries).1.error == IntegrityError
  {
    InsertTocOutcome([], entries);
    assert [] + entries == entries;
  }

  /** Whether it succeeds or not, the update leaves the other theses' rows alone. */
  lemma UpdateTocFrame(s: ThesisState, id: nat, entries: seq<TocEntry>)
    ensures forall other :: other != id ==> Rows(UpdateToc(s, id, entries).0.toc, other) == Rows(s.toc, other)
  {
    var s1 := s.(toc := s.toc[id := InsertToc([], entries).0]);
    GetTocOnlyThis(s1, id);
  }

  /** get_table_of_contents writes, if anything, only the rows of the thesis it reads. */
  lemma GetTocOnlyThis(s: ThesisState, id: nat)
    ensures forall other :: other != id ==> Rows(GetToc(s, id).0.toc, other) == Rows(s.toc, other)
  {
  }

  /** Whether it succeeds or fails part way, the update keeps the unique index. */
  lemma UpdateTocValid(s: ThesisState, id: nat, entries: seq<TocEntry>)
    requires Valid(s)
    ensures Valid(UpdateToc(s, id, entries).0)
  {
    InsertTocOutcome([], entries);
    var s1 := s.(toc := s.toc[id := InsertToc([], entries).0]);
    assert Valid(s1);
    if InsertToc([], entries).1.Pass? {
      GetTocSorted(s1, id);
    }
  }

  /**
   * With distinct orders the thesis's table of contents becomes exactly the
   * given entries, returned sorted by order; an empty list makes the read that
   * follows regenerate the table.
   */
  lemma UpdateTocReplaces(s: ThesisState, id: nat, entries: seq<TocEntry>)
    requires DistinctOrders(entries)
    ensures var (s1, r) := UpdateToc(s, id, entries);
      entries != [] ==>
        && Rows(s1.toc, id) == entries
        && r == Ok(SortBy(entries, ByOrder))
        && SortedBy(r.value, ByOrder) && multiset(r.value) == multiset(entries)
    ensures entries == [] ==> UpdateToc(s, id, entries).1 == Ok(GeneratedToc(Rows(s.bodyPages, id)))
  {
    InsertTocOutcome([], entries);
    assert [] + entries == entries;
    assert InsertToc([], entries) == (entries, Pass);
    OrderingsTotal();
    SortBySorted(entries, ByOrder);
  }

  // ---------------------------------------------------------------------------
  // Abstracts and body pages

  /** add_abstract: the thesis must exist; its one abstract is created or overwritten. */
  function PutAbstract(s: ThesisState, id: nat, text: Option<string>): (ThesisState, Outcome<ThesisError>) {
    if id !in s.theses then (s, Fail(ThesisNotFound))
    else (s.(abstracts := s.abstracts[id := text]), Pass)
  }

  /** Adding an abstract twice keeps only the second text; nothing else changes. */
  lemma AbstractOverwritten(s: ThesisState, id: nat, a: Option<string>, b: Option<string>)
    requires id in s.theses
    ensures PutAbstract(PutAbstract(s, id, a).0, id, b) == PutAbstract(s, id, b)
    ensures PutAbstract(s, id, b).0.abstracts[id] == b
    ensures forall other :: other != id && other in s.abstracts ==>
      PutAbstract(s, id, b).0.abstracts[other] == s.abstracts[other]
  {
    assert s.abstracts[id := a][id := b] == s.abstracts[id := b];
  }

  /** The body a page number holds, if a page has it. */
  function Lookup(pages: seq<BodyPage>, n: int): (r: Option<Option<string>>)
    ensures r.Some? <==> n in PageNumbers(pages)
  {
    if pages == [] then None
    else if pages[0].pageNumber == n then Some(pages[0].body)
    else Lookup(pages[1..], n)
  }

  function PageNumbers(pages: seq<BodyPage>): set<int> {
    if pages == [] then {} else {pages[0].pageNumber} + PageNumbers(pages[1..])
  }

  lemma {:induction false} PageNumbersIndex(pages: seq<BodyPage>, n: int)
    ensures n in PageNumbers(pages) <==> exists i :: 0 <= i < |pages| && pages[i].pageNumber == n
  {
    if pages != [] {
      PageNumbersIndex(pages[1..], n);
      if n in PageNumbers(pages[1..]) {
        var i :| 0 <= i < |pages[1..]| && pages[1..][i].pageNumber == n;
        assert pages[i + 1].pageNumber == n;
      }
      if exists i :: 0 <= i < |pages| && pages[i].pageNumber == n {
        var i :| 0 <= i < |pages| && pages[i].pageNumber == n;
        if i > 0 {
          assert pages[1..][i - 1].pageNumber == n;
        }
      }
    }
  }

  /** `BodyPage.get_or_create(thesis, page_number)` then `body = text; save()`. */
  function Upsert(pages: seq<BodyPage>, n: int, body: Option<string>): seq<BodyPage>
    decreases |pages|
  {
    if pages == [] then [BodyPage(n, body)]
    else if pages[0].pageNumber == n then [BodyPage(n, body)] + pages[1..]
    else [pages[0]] + Upsert(pages[1..], n, body)
  }

  /**
   * After the upsert the page number holds the new body, every other page
   * number reads as before, and at most one page has each number.
   */
  lemma {:induction false} UpsertSpec(pages: seq<BodyPage>, n: int, body: Option<string>)
    requires UniquePageNumbers(pages)
    ensures Lookup(Upsert(pages, n, body), n) == Some(body)
    ensures forall m :: m != n ==> Lookup(Upsert(pages, n, body), m) == Lookup(pages, m)
    ensures PageNumbers(Upsert(pages, n, body)) == PageNumbers(pages) + {n}
    ensures UniquePageNumbers(Upsert(pages, n, body))
    ensures |Upsert(pages, n, body)| == if n in PageNumbers(pages) then |pages| else |pages| + 1
    decreases |pages|
  {
    if pages != [] {
      var rest := pages[1..];
      assert UniquePageNumbers(rest);
      if pages[0].pageNumber == n {
        assert Upsert(pages, n, body)[1..] == rest;
        assert n !in PageNumbers(rest) by {
          PageNumbersIndex(rest, n);
        }
        assert UniquePageNumbers(Upsert(pages, n, body));
      } else {
        UpsertSpec(rest, n, body);
        var r := Upsert(pages, n, body);
        assert r[1..] == Upsert(rest, n, body);
        assert pages[0].pageNumber !in PageNumbers(rest) by {
          PageNumbersIndex(rest, pages[0].pageNumber);
        }
        forall j | 1 <= j < |r|
          ensures r[0].pageNumber != r[j].pageNumber
        {
          PageNumbersIndex(r[1..], pages[0].pageNumber);
          assert r[1..][j - 1] == r[j];
        }
        assert UniquePageNumbers(r);
      }
    }
  }

  /** Upserting the same page number twice keeps only the second body. */
  lemma {:induction false} UpsertOverwrites(pages: seq<BodyPage>, n: int, a: Option<string>, b: Option<string>)
    ensures Upsert(Upsert(pages, n, a), n, b) == Upsert(pages, n, b)
    decreases |pages|
  {
    if pages != [] && pages[0].pageNumber != n {
      UpsertOverwrites(pages[1..], n, a, b);
      assert Upsert(pages, n, a)[1..] == Upsert(pages[1..], n, a);
    }
  }

  /**
   * add_body_page: the thesis must exist; the page with that number is created
   * or overwritten. A missing page number (None) makes the insert of
   * `get_or_create` break the NOT NULL column, an IntegrityError, with nothing
   * written.
   */
  function PutBodyPage(s: ThesisState, id: nat, n: Option<int>, body: Option<string>): (ThesisState, Outcome<ThesisError>) {
    if id !in s.theses then (s, Fail(ThesisNotFound))
    else if n.None? then (s, Fail(IntegrityError))
    else (s.(bodyPages := s.bodyPages[id := Upsert(Rows(s.bodyPages, id), n.value, body)]), Pass)
  }

  /** The upsert keeps the state valid, and changes only this thesis's pages. */
  lemma PutBodyPageValid(s: ThesisState, id: nat, n: Option<int>, body: Option<string>)
    requires Valid(s)
    ensures var (s1, r) := PutBodyPage(s, id, n, body);
      && Valid(s1)
      && (r.Pass? <==> id in s.theses && n.Some?)
      && (id in s.theses && n.None? ==> r == Fail(IntegrityError) && s1 == s)
      && (r.Pass? ==> Lookup(Rows(s1.bodyPages, id), n.value) == Some(body))
      && (r.Pass? ==> forall m :: m != n.value ==> Lookup(Rows(s1.bodyPages, id), m) == Lookup(Rows(s.bodyPages, id), m))
      && (forall other :: other != id ==> Rows(s1.bodyPages, other) == Rows(s.bodyPages, other))
  {
    if id in s.theses && n.Some? {
      UpsertSpec(Rows(s.bodyPages, id), n.value, body);
    }
  }

  /** get_body_pages: the stored pages, or a single blank page 1 when there are none. */
  function BodyPagesOrBlank(pages: seq<BodyPage>): (r: seq<BodyPage>)
    ensures r != []
    ensures pages != [] ==> r == pages
    ensures pages == [] ==> r == [BodyPage(1, Some(BLANK_PAGE))]
  {
    if pages == [] then [BodyPage(1, Some(BLANK_PAGE))] else pages
  }

  /**
   * What get_body_pages reads after the writes: a thesis without pages reads
   * as the blank page 1 alone; once add_body_page has stored (n, body), the
   * read holds that page, each number once, and the fallback is gone unless
   * the stored page is itself the blank page 1.
   */
  lemma BodyPagesAfterPut(s: ThesisState, id: nat, n: int, body: Option<string>)
    requires Valid(s)
    requires id in s.theses
    ensures Rows(s.bodyPages, id) == [] ==> BodyPagesOrBlank(Rows(s.bodyPages, id)) == [BodyPage(1, Some(BLANK_PAGE))]
    ensures var read := BodyPagesOrBlank(Rows(PutBodyPage(s, id, Some(n), body).0.bodyPages, id));
      && BodyPage(n, body) in read
      && UniquePageNumbers(read)
      && Lookup(read, n) == Some(body)
      && (read == [BodyPage(1, Some(BLANK_PAGE))] ==> n == 1 && body == Some(BLANK_PAGE))
  {
    var s1 := PutBodyPage(s, id, Some(n), body).0;
    PutBodyPageValid(s, id, Some(n), body);
    var rows := Rows(s1.bodyPages, id);
    assert n in PageNumbers(rows);
    assert rows != [];
    LookupFinds(rows, n);
  }

  /** Under the unique index, the page Lookup reports is in the list. */
  lemma {:induction false} LookupFinds(pages: seq<BodyPage>, n: int)
    requires Lookup(pages, n).Some?
    ensures BodyPage(n, Lookup(pages, n).value) in pages
    decreases |pages|
  {
    if pages[0].pageNumber != n {
      LookupFinds(pages[1..], n);
    }
  }

  // ---------------------------------------------------------------------------
  // Creating a thesis

  /** An item of `body_pages`; `page.get("page_number")` is None when the key is missing. */
  datatype PageInput = PageInput(pageNumber: Option<int>, body: Option<string>)

  /** `thesis_data`: a missing key and a null value read alike. */
  datatype ThesisInput = ThesisInput(
    title: Option<string>, course: Option<string>, instructor: Option<string>,
    status: Option<string>, studentId: Option<nat>, abstractText: Option<string>,
    bodyPages: Option<seq<PageInput>>)

  /** Python truthiness of an optional string. */
  predicate Truthy(s: Option<string>) {
    s.Some? && s.value != ""
  }

  /** `not title or not status or not student_id` is false. */
  predicate HasRequired(d: ThesisInput) {
    Truthy(d.title) && Truthy(d.status) && d.studentId.Some? && d.studentId.value != 0
  }

  predicate HasPages(d: ThesisInput) {
    d.bodyPages.Some? && d.bodyPages.value != []
  }

  /**
   * add_body_page for each given page in turn, until the first one without a
   * page number, whose call raises and ends the loop.
   */
  function UpsertAll(pages: seq<BodyPage>, items: seq<PageInput>): seq<BodyPage>
    decreases |items|
  {
    if items == [] || items[0].pageNumber.None? then pages
    else UpsertAll(Upsert(pages, items[0].pageNumber.value, items[0].body), items[1..])
  }

  /** How many items the loop stores: those before the first item without a page number. */
  function StoredCount(items: seq<PageInput>): (k: nat)
    ensures k <= |items|
    ensures forall i :: 0 <= i < k ==> items[i].pageNumber.Some?
    ensures k < |items| ==> items[k].pageNumber.None?
    decreases |items|
  {
    if items == [] || items[0].pageNumber.None? then 0 else 1 + StoredCount(items[1..])
  }

  /** The page numbers of the stored items. */
  function InputNumbers(items: seq<PageInput>): set<int>
    decreases |items|
  {
    if items == [] || items[0].pageNumber.None? then {}
    else {items[0].pageNumber.value} + InputNumbers(items[1..])
  }

  lemma {:induction false} InputNumbersIndex(items: seq<PageInput>, n: int)
    ensures n in InputNumbers(items) <==> exists i :: 0 <= i < StoredCount(items) && items[i].pageNumber == Some(n)
    decreases |items|
  {
    if items != [] && items[0].pageNumber.Some? {
      var rest := items[1..];
      InputNumbersIndex(rest, n);
      if n in InputNumbers(rest) {
        var i :| 0 <= i < StoredCount(rest) && rest[i].pageNumber == Some(n);
        assert items[i + 1].pageNumber == Some(n);
      }
      if exists i :: 0 <= i < StoredCount(items) && items[i].pageNumber == Some(n) {
        var i :| 0 <= i < StoredCount(items) && items[i].pageNumber == Some(n);
        if i > 0 {
          assert rest[i - 1].pageNumber == Some(n);
        }
      }
    }
  }

  /** Item i is stored, and no later stored item has its page number: its body is the one that stays. */
  predicate LastStored(items: seq<PageInput>, i: int) {
    && 0 <= i < StoredCount(items)
    && forall j :: i < j < StoredCount(items) ==> items[j].pageNumber != items[i].pageNumber
  }

  /** One step of the loop: the item at i is stored and the rest follow, or the loop ends there. */
  lemma UpsertAllStep(rows: seq<BodyPage>, items: seq<PageInput>, i: nat)
    requires i < |items|
    ensures items[i].pageNumber.None? ==> UpsertAll(rows, items[i..]) == rows && StoredCount(items[i..]) == 0
    ensures items[i].pageNumber.Some? ==>
      && UpsertAll(rows, items[i..]) == UpsertAll(Upsert(rows, items[i].pageNumber.value, items[i].body), items[i + 1..])
      && StoredCount(items[i..]) == 1 + StoredCount(items[i + 1..])
  {
    assert items[i..][0] == items[i] && items[i..][1..] == items[i + 1..];
  }

  /**
   * After the upserts the page numbers are the old ones and the stored ones,
   * each on one page; each stored number holds the body of the last item with
   * that number, and every other number reads as before.
   */
  lemma {:induction false} UpsertAllSpec(pages: seq<BodyPage>, items: seq<PageInput>)
    requires UniquePageNumbers(pages)
    ensures PageNumbers(UpsertAll(pages, items)) == PageNumbers(pages) + InputNumbers(items)
    ensures UniquePageNumbers(UpsertAll(pages, items))
    ensures forall i :: LastStored(items, i) ==>
      Lookup(UpsertAll(pages, items), items[i].pageNumber.value) == Some(items[i].body)
    ensures forall n :: n !in InputNumbers(items) ==> Lookup(UpsertAll(pages, items), n) == Lookup(pages, n)
    decreases |items|
  {
    if items != [] && items[0].pageNumber.Some? {
      var n0, rest := items[0].pageNumber.value, items[1..];
      var p1 := Upsert(pages, n0, items[0].body);
      var r := UpsertAll(pages, items);
      UpsertSpec(pages, n0, items[0].body);
      UpsertAllSpec(p1, rest);
      assert StoredCount(items) == 1 + StoredCount(rest);
      forall i | LastStored(items, i)
        ensures Lookup(r, items[i].pageNumber.value) == Some(items[i].body)
      {
        if i == 0 {
          InputNumbersIndex(rest, n0);
        } else {
          assert items[i] == rest[i - 1];
          forall j | i - 1 < j < StoredCount(rest)
            ensures rest[j].pageNumber != rest[i - 1].pageNumber
          {
            assert items[j + 1] == rest[j];
          }
          assert LastStored(rest, i - 1);
        }
      }
    }
  }

  /**
   * create_thesis: the required fields and the student are checked before
   * anything is written; then the thesis row, the abstract when its text is
   * truthy, and the given body pages, or else a blank page 1. There is no
   * transaction: an item without a page number raises the IntegrityError of
   * add_body_page, and the thesis, its abstract and the pages stored before it
   * stay written.
   */
  function Create(s: ThesisState, d: ThesisInput): (ThesisState, Result<Thesis, ThesisError>) {
    if !HasRequired(d) then (s, Err(MissingRequiredField))
    else if d.studentId.value !in s.userIds then (s, Err(StudentNotFound))
    else
      var id := s.nextId;
      var t := Thesis(id, d.title.value, d.course, d.instructor, d.status.value, d.studentId.value);
      var s1 := s.(theses := s.theses[id := t], nextId := id + 1);
      var s2 := if Truthy(d.abstractText) then PutAbstract(s1, id, d.abstractText).0 else s1;
      var pages := if HasPages(d) then UpsertAll(Rows(s2.bodyPages, id), d.bodyPages.value)
                   else Upsert(Rows(s2.bodyPages, id), 1, Some(BLANK_PAGE));
      var failed := HasPages(d) && StoredCount(d.bodyPages.value) < |d.bodyPages.value|;
      (s2.(bodyPages := s2.bodyPages[id := pages]), if failed then Err(IntegrityError) else Ok(t))
  }

  /**
   * A missing required field or an unknown student is refused with nothing
   * written; a valid request fails only on an item without a page number.
   */
  lemma CreateValidation(s: ThesisState, d: ThesisInput)
    ensures Create(s, d).1.Err? <==>
      || !HasRequired(d) || d.studentId.value !in s.userIds
      || (HasPages(d) && StoredCount(d.bodyPages.value) < |d.bodyPages.value|)
    ensures !HasRequired(d) || d.studentId.value !in s.userIds ==> Create(s, d).0 == s
    ensures !HasRequired(d) ==> Create(s, d).1 == Err(MissingRequiredField)
    ensures HasRequired(d) && d.studentId.value !in s.userIds ==> Create(s, d).1 == Err(StudentNotFound)
  {
  }

  /**
   * Once validation passes the thesis row is written with the next id and the
   * given fields, whether or not the page loop later fails; its abstract exists
   * exactly when the text is truthy; its pages carry exactly the stored page
   * numbers, one page each, each holding the body of the last item with that
   * number, or are the single blank page 1; the result is the thesis unless an
   * item lacks a page number; the state stays valid.
   */
  lemma CreatedThesis(s: ThesisState, d: ThesisInput)
    requires Valid(s)
    requires HasRequired(d) && d.studentId.value in s.userIds
    ensures var (s1, r) := Create(s, d); var id := s.nextId; var t := s1.theses[id];
      && id !in s.theses && s1.nextId == s.nextId + 1 && s1.theses == s.theses[id := t]
      && t == Thesis(id, d.title.value, d.course, d.instructor, d.status.value, d.studentId.value)
      && (r.Err? <==> HasPages(d) && StoredCount(d.bodyPages.value) < |d.bodyPages.value|)
      && (r.Err? ==> r.error == IntegrityError)
      && (r.Ok? ==> r.value == t)
      && (id in s1.abstracts <==> Truthy(d.abstractText))
      && (Truthy(d.abstractText) ==> s1.abstracts[id] == d.abstractText)
      && (HasPages(d) ==> PageNumbers(s1.bodyPages[id]) == InputNumbers(d.bodyPages.value))
      && (HasPages(d) ==> forall i :: LastStored(d.bodyPages.value, i) ==>
            Lookup(s1.bodyPages[id], d.bodyPages.value[i].pageNumber.value) == Some(d.bodyPages.value[i].body))
      && (!HasPages(d) ==> s1.bodyPages[id] == [BodyPage(1, Some(BLANK_PAGE))])
      && Valid(s1)
  {
    var id := s.nextId;
    assert id !in s.theses;
    CreatedPages(s, d);
  }

  /**
   * The pages a created thesis ends with: the only body pages written, holding
   * the stored numbers with the last body given for each, or the blank page 1.
   */
  lemma CreatedPages(s: ThesisState, d: ThesisInput)
    requires Valid(s)
    requires HasRequired(d) && d.studentId.value in s.userIds
    ensures var s1 := Create(s, d).0; var id := s.nextId;
      && id in s1.bodyPages && s1.bodyPages == s.bodyPages[id := s1.bodyPages[id]]
      && UniquePageNumbers(s1.bodyPages[id])
      && (HasPages(d) ==> PageNumbers(s1.bodyPages[id]) == InputNumbers(d.bodyPages.value))
      && (HasPages(d) ==> forall i :: LastStored(d.bodyPages.value, i) ==>
            Lookup(s1.bodyPages[id], d.bodyPages.value[i].pageNumber.value) == Some(d.bodyPages.value[i].body))
      && (!HasPages(d) ==> s1.bodyPages[id] == [BodyPage(1, Some(BLANK_PAGE))])
  {
    var id := s.nextId;
    assert id !in s.theses && Rows(s.bodyPages, id) == [];
    if HasPages(d) {
      UpsertAllSpec([], d.bodyPages.value);
    }
  }

  /** The tables, as the service methods change them step by step. */
  class ThesisDb {
    var theses: map<nat, Thesis>
    var userIds: set<nat>
    var toc: map<nat, seq<TocEntry>>
    var bodyPages: map<nat, seq<BodyPage>>
    var abstracts: map<nat, Option<string>>
    var nextId: nat

    function State(): ThesisState
      reads this
    {
      ThesisState(theses, userIds, toc, bodyPages, abstracts, nextId)
    }

    /** Empty thesis tables beside the given user ids. */
    constructor (users: set<nat>)
      ensures State() == ThesisState(map[], users, map[], map[], map[], 1)
      ensures Valid(State())
    {
      theses, userIds, toc, bodyPages, abstracts, nextId := map[], users, map[], map[], map[], 1;
    }

    /** The `TableOfContents.create` loop, failing at the first repeated order. */
    method InsertTocRows(id: nat, entries: seq<TocEntry>) returns (r: Outcome<ThesisError>)
      modifies this`toc
      ensures toc == old(toc)[id := InsertToc(Rows(old(toc), id), entries).0]
      ensures r == InsertToc(Rows(old(toc), id), entries).1
    {
      var rows := Rows(toc, id);
      var i := 0;
      while i < |entries|
        invariant 0 <= i <= |entries|
        invariant toc == old(toc)
        invariant InsertToc(rows, entries[i..]) == InsertToc(Rows(old(toc), id), entries)
      {
        assert entries[i..][1..] == entries[i + 1..];
        if HasOrder(rows, entries[i].order) {
          toc := toc[id := rows];
          return Fail(IntegrityError);
        }
        rows := rows + [entries[i]];
        i := i + 1;
      }
      toc := toc[id := rows];
      r := Pass;
    }

    method GetTableOfContents(id: nat) returns (r: seq<TocEntry>)
      modifies this`toc
      ensures (State(), r) == GetToc(old(State()), id)
    {
      var stored := Rows(toc, id);
      if stored != [] {
        return SortBy(stored, ByOrder);
      }
      var sections := BuildToc(SortBy(Rows(bodyPages, id), ByPageNumber));
      GeneratedOrdered(Rows(bodyPages, id));
      InsertTocOutcome([], sections);
      assert [] + sections == sections;
      var _ := InsertTocRows(id, sections);
      r := sections;
    }

    /** The list get_table_of_contents builds: cover, abstract, a "Page n" entry per page, References. */
    static method BuildToc(pages: seq<BodyPage>) returns (sections: seq<TocEntry>)
      ensures sections == TocAround(pages)
    {
      sections := [COVER_ENTRY, ABSTRACT_ENTRY];
      var i := 0;
      while i < |pages|
        invariant 0 <= i <= |pages|
        invariant sections == [COVER_ENTRY, ABSTRACT_ENTRY] + PageEntries(pages[..i], 3, PageTitle)
      {
        PageEntriesSnoc(pages[..i], pages[i], 3, PageTitle);
        assert pages[..i + 1] == pages[..i] + [pages[i]];
        sections := sections + [PageEntry(pages[i], i + 3)];
        i := i + 1;
      }
      assert pages[..i] == pages;
      sections := sections + [ReferencesEntry(|sections| + 1)];
    }

    method UpdateTableOfContents(id: nat, entries: seq<TocEntry>) returns (r: Result<seq<TocEntry>, ThesisError>)
      modifies this`toc
      ensures (State(), r) == UpdateToc(old(State()), id, entries)
    {
      toc := toc[id := []];
      var outcome := InsertTocRows(id, entries);
      assert toc == old(toc)[id := InsertToc([], entries).0];
      if outcome.Fail? {
        return Err(outcome.error);
      }
      var result := GetTableOfContents(id);
      r := Ok(result);
    }

    method AddAbstract(id: nat, text: Option<string>) returns (r: Outcome<ThesisError>)
      modifies this`abstracts
      ensures (State(), r) == PutAbstract(old(State()), id, text)
    {
      if id !in theses {
        return Fail(ThesisNotFound);
      }
      abstracts := abstracts[id := text];
      r := Pass;
    }

    method AddBodyPage(id: nat, n: Option<int>, body: Option<string>) returns (r: Outcome<ThesisError>)
      modifies this`bodyPages
      ensures (State(), r) == PutBodyPage(old(State()), id, n, body)
    {
      if id !in theses {
        return Fail(ThesisNotFound);
      }
      if n.None? {
        return Fail(IntegrityError);
      }
      bodyPages := bodyPages[id := Upsert(Rows(bodyPages, id), n.value, body)];
      r := Pass;
    }

    method GetBodyPages(id: nat) returns (r: seq<BodyPage>)
      ensures r == BodyPagesOrBlank(Rows(bodyPages, id))
    {
      var pages := Rows(bodyPages, id);
      if pages == [] {
        return [BodyPage(1, Some(BLANK_PAGE))];
      }
      r := pages;
    }

    /**
     * The `for page in initial_body_pages` loop: add_body_page for each item,
     * stopping at the first one whose call raises.
     */
    method AddBodyPages(id: nat, items: seq<PageInput>) returns (r: Outcome<ThesisError>)
      requires id in theses
      modifies this`bodyPages
      ensures bodyPages == old(bodyPages)[id := UpsertAll(Rows(old(bodyPages), id), items)]
      ensures r == if StoredCount(items) < |items| then Fail(IntegrityError) else Pass
    {
      // the page list of this thesis, empty while it has none
      bodyPages := bodyPages[id := Rows(bodyPages, id)];
      ghost var start := bodyPages;
      var i := 0;
      while i < |items|
        invariant 0 <= i <= StoredCount(items)
        invariant bodyPages == start[id := Rows(bodyPages, id)]
        invariant UpsertAll(Rows(bodyPages, id), items[i..]) == UpsertAll(Rows(start, id), items)
        invariant StoredCount(items[i..]) == StoredCount(items) - i
      {
        UpsertAllStep(Rows(bodyPages, id), items, i);
        var o := AddBodyPage(id, items[i].pageNumber, items[i].body);
        if o.Fail? {
          return o;
        }
        i := i + 1;
      }
      assert items[i..] == [];
      r := Pass;
    }

    method CreateThesis(d: ThesisInput) returns (r: Result<Thesis, ThesisError>)
      modifies this
      ensures (State(), r) == Create(old(State()), d)
    {
      if !Truthy(d.title) || !Truthy(d.status) || d.studentId.None? || d.studentId.value == 0 {
        return Err(MissingRequiredField);
      }
      if d.studentId.value !in userIds {
        return Err(StudentNotFound);
      }
      var id := nextId;
      var t := Thesis(id, d.title.value, d.course, d.instructor, d.status.value, d.studentId.value);
      theses := theses[id := t];
      nextId := nextId + 1;
      if Truthy(d.abstractText) {
        var _ := AddAbstract(id, d.abstractText);
      }
      if HasPages(d) {
        var o := AddBodyPages(id, d.bodyPages.value);
        if o.Fail? {
          return Err(o.error);
        }
      } else {
        var _ := AddBodyPage(id, Some(1), Some(BLANK_PAGE));
      }
      r := Ok(t);
    }
  }
}
