/**
 * The chapter list of frontend/src/hooks/useThesisBody.js. The hook keeps the
 * chapters of a thesis in React state and replaces that state with a fresh
 * array on every change, so each operation here is a function from the old
 * list (and selection) to the new one. Sorting is the stable
 * `Array.prototype.sort` with the comparator `(a.order || 0) - (b.order || 0)`.
 * The server calls the hook makes are inputs: the reply to addChapter is
 * the new chapter's id, None when the request fails.
 */
module Chapters {
  import opened Wrappers
  import opened Sorting

  datatype Chapter = Chapter(id: nat, name: string, content: string, order: Option<int>)

  /** `c.order || 0`: a missing order sorts as 0. */
  function OrderKey(c: Chapter): int {
    if c.order.Some? then c.order.value else 0
  }

  predicate ByOrderKey(a: Chapter, b: Chapter) {
    OrderKey(a) <= OrderKey(b)
  }

  lemma ByOrderKeyTotal()
    ensures TotalPreorder(ByOrderKey)
  {
  }

  function IdOf(c: Chapter): nat { c.id }

  function OrderOf(c: Chapter): Option<int> { c.order }

  predicate UniqueIds(chs: seq<Chapter>) {
    forall i, j :: 0 <= i < j < |chs| ==> chs[i].id != chs[j].id
  }

  /** The keys strictly ascend along the list, as after loading chapters with distinct orders. */
  predicate StrictlyOrdered(chs: seq<Chapter>) {
    forall i, j :: 0 <= i < j < |chs| ==> OrderKey(chs[i]) < OrderKey(chs[j])
  }

  /** `chapters.findIndex((c) => c.id === id)`: the first position with the id, or -1. */
  function FindIndex(chs: seq<Chapter>, id: nat): (r: int)
    ensures -1 <= r < |chs|
    ensures r >= 0 ==> chs[r].id == id && forall k :: 0 <= k < r ==> chs[k].id != id
    ensures r == -1 <==> forall k :: 0 <= k < |chs| ==> chs[k].id != id
    decreases |chs|
  {
    if chs == [] then -1
    else if chs[0].id == id then 0
    else
      var k := FindIndex(chs[1..], id);
      if k < 0 then -1 else k + 1
  }

  /** `updated[i] = {...chs[i], order: chs[j].order}; updated[j] = {...chs[j], order: chs[i].order}`. */
  function SwapOrders(chs: seq<Chapter>, i: int, j: int): seq<Chapter>
    requires 0 <= i < |chs| && 0 <= j < |chs| && i != j
  {
    chs[i := chs[i].(order := chs[j].order)][j := chs[j].(order := chs[i].order)]
  }

  /** moveChapterUp: swap orders with the chapter above and sort; nothing when first or absent. */
  function MoveUp(chs: seq<Chapter>, id: nat): seq<Chapter> {
    var idx := FindIndex(chs, id);
    if idx <= 0 then chs else SortBy(SwapOrders(chs, idx - 1, idx), ByOrderKey)
  }

  /** moveChapterDown: swap orders with the chapter below and sort; nothing when last or absent. */
  function MoveDown(chs: seq<Chapter>, id: nat): seq<Chapter> {
    var idx := FindIndex(chs, id);
    if idx < 0 || idx >= |chs| - 1 then chs else SortBy(SwapOrders(chs, idx + 1, idx), ByOrderKey)
  }

  /**
   * The chapters at k-1 and k trade places while each position keeps its
   * order value, which is how the swap looks once the list is sorted again.
   */
  function SwapAt(chs: seq<Chapter>, k: int): seq<Chapter>
    requires 0 < k < |chs|
  {
    chs[k - 1 := chs[k].(order := chs[k - 1].order)][k := chs[k - 1].(order := chs[k].order)]
  }

  /** Trading the same two neighbours twice restores the list. */
  lemma SwapAtInvolution(chs: seq<Chapter>, k: int)
    requires 0 < k < |chs|
    ensures SwapAt(SwapAt(chs, k), k) == chs
  {
    var w := SwapAt(SwapAt(chs, k), k);
    assert w[k - 1] == chs[k - 1] && w[k] == chs[k];
  }

  /** The first chapter, or a chapter not in the list, does not move up; the last, or an absent one, does not move down. */
  lemma MoveNoOp(chs: seq<Chapter>, id: nat)
    requires UniqueIds(chs)
    ensures (forall k :: 0 <= k < |chs| ==> chs[k].id != id) ==> MoveUp(chs, id) == chs && MoveDown(chs, id) == chs
    ensures chs != [] && chs[0].id == id ==> MoveUp(chs, id) == chs
    ensures chs != [] && chs[|chs| - 1].id == id ==> MoveDown(chs, id) == chs
  {
  }

  /** b holds as many chapters as a, with the same ids and the same order values, possibly rearranged. */
  predicate Rearranged(a: seq<Chapter>, b: seq<Chapter>) {
    && |b| == |a|
    && multiset(Project(b, IdOf)) == multiset(Project(a, IdOf))
    && multiset(Project(b, OrderOf)) == multiset(Project(a, OrderOf))
  }

  /** Moving up keeps the chapters' ids and the multiset of their order values. */
  lemma MoveUpPreserves(chs: seq<Chapter>, id: nat)
    ensures Rearranged(chs, MoveUp(chs, id))
  {
    var idx := FindIndex(chs, id);
    if idx > 0 {
      assert MoveUp(chs, id) == SortBy(SwapOrders(chs, idx - 1, idx), ByOrderKey);
      SortedSwapPreserves(chs, idx - 1, idx);
    } else {
      assert MoveUp(chs, id) == chs;
      assert Rearranged(chs, chs);
    }
  }

  /** Moving down keeps the chapters' ids and the multiset of their order values. */
  lemma MoveDownPreserves(chs: seq<Chapter>, id: nat)
    ensures Rearranged(chs, MoveDown(chs, id))
  {
    var idx := FindIndex(chs, id);
    if 0 <= idx < |chs| - 1 {
      assert MoveDown(chs, id) == SortBy(SwapOrders(chs, idx + 1, idx), ByOrderKey);
      SortedSwapPreserves(chs, idx + 1, idx);
    } else {
      assert MoveDown(chs, id) == chs;
      assert Rearranged(chs, chs);
    }
  }

  lemma SortedSwapPreserves(chs: seq<Chapter>, i: int, j: int)
    requires 0 <= i < |chs| && 0 <= j < |chs| && i != j
    ensures Rearranged(chs, SortBy(SwapOrders(chs, i, j), ByOrderKey))
  {
    SwapOrdersPreserves(chs, i, j);
    SwapOrdersIds(chs, i, j);
    SortByProject(SwapOrders(chs, i, j), ByOrderKey, IdOf);
    SortByProject(SwapOrders(chs, i, j), ByOrderKey, OrderOf);
  }

  lemma SwapOrdersPreserves(chs: seq<Chapter>, i: int, j: int)
    requires 0 <= i < |chs| && 0 <= j < |chs| && i != j
    ensures multiset(Project(SwapOrders(chs, i, j), OrderOf)) == multiset(Project(chs, OrderOf))
  {
    var o := Project(chs, OrderOf);
    var u := chs[i := chs[i].(order := chs[j].order)];
    ProjectUpdate(chs, i, chs[i].(order := chs[j].order), OrderOf);
    ProjectUpdate(u, j, chs[j].(order := chs[i].order), OrderOf);
    assert Project(SwapOrders(chs, i, j), OrderOf) == o[i := o[j]][j := o[i]];
    SwapMultiset(o, i, j);
  }

  lemma ProjectUpdate<T, U>(s: seq<T>, i: int, v: T, f: T -> U)
    requires 0 <= i < |s|
    ensures Project(s[i := v], f) == Project(s, f)[i := f(v)]
  {
    var a, b := Project(s[i := v], f), Project(s, f)[i := f(v)];
    assert |a| == |b|;
    forall k | 0 <= k < |a|
      ensures a[k] == b[k]
    {
    }
  }

  lemma SwapOrdersIds(chs: seq<Chapter>, i: int, j: int)
    requires 0 <= i < |chs| && 0 <= j < |chs| && i != j
    ensures Project(SwapOrders(chs, i, j), IdOf) == Project(chs, IdOf)
  {
    var w := SwapOrders(chs, i, j);
    assert forall k :: 0 <= k < |chs| ==> w[k].id == chs[k].id;
    SameIds(w, chs);
  }

  lemma {:induction false} SameIds(a: seq<Chapter>, b: seq<Chapter>)
    requires |a| == |b| && forall k :: 0 <= k < |a| ==> a[k].id == b[k].id
    ensures Project(a, IdOf) == Project(b, IdOf)
  {
    if a != [] {
      SameIds(a[1..], b[1..]);
    }
  }

  /** Exchanging two elements keeps the multiset. */
  lemma SwapMultiset<T>(s: seq<T>, i: int, j: int)
    requires 0 <= i < |s| && 0 <= j < |s|
    ensures multiset(s[i := s[j]][j := s[i]]) == multiset(s)
  {
  }

  /** Swapping two neighbours' orders gives the same chapters as trading their places. */
  lemma SwapOrdersIsSwapAt(chs: seq<Chapter>, k: int)
    requires 0 < k < |chs|
    ensures multiset(SwapOrders(chs, k - 1, k)) == multiset(SwapAt(chs, k))
    ensures multiset(SwapOrders(chs, k, k - 1)) == multiset(SwapAt(chs, k))
  {
    var u := SwapOrders(chs, k - 1, k);
    var w := SwapAt(chs, k);
    var v := u[k - 1 := u[k]][k := u[k - 1]];
    assert |v| == |w|;
    assert forall i :: 0 <= i < |w| ==> v[i] == w[i];
    assert w == v;
    SwapMultiset(u, k - 1, k);
    var u' := SwapOrders(chs, k, k - 1);
    assert forall i :: 0 <= i < |u| ==> u'[i] == u[i];
    assert u' == u;
  }

  /**
   * With distinct ids and strictly ascending keys, moving the chapter at k up
   * trades it with its neighbour above, and the keys still strictly ascend.
   */
  lemma MoveUpSwaps(chs: seq<Chapter>, id: nat, k: int)
    requires UniqueIds(chs) && StrictlyOrdered(chs)
    requires 0 < k < |chs| && chs[k].id == id
    ensures MoveUp(chs, id) == SwapAt(chs, k)
    ensures StrictlyOrdered(MoveUp(chs, id)) && UniqueIds(MoveUp(chs, id))
  {
    assert FindIndex(chs, id) == k;
    SwapOrdersIsSwapAt(chs, k);
    SwapAtKeeps(chs, k);
    SortedSwap(SwapOrders(chs, k - 1, k), SwapAt(chs, k));
  }

  /** Moving the chapter at k down trades it with its neighbour below, keeping the keys strictly ascending. */
  lemma MoveDownSwaps(chs: seq<Chapter>, id: nat, k: int)
    requires UniqueIds(chs) && StrictlyOrdered(chs)
    requires 0 <= k < |chs| - 1 && chs[k].id == id
    ensures MoveDown(chs, id) == SwapAt(chs, k + 1)
    ensures StrictlyOrdered(MoveDown(chs, id)) && UniqueIds(MoveDown(chs, id))
  {
    assert FindIndex(chs, id) == k;
    SwapOrdersIsSwapAt(chs, k + 1);
    SwapAtKeeps(chs, k + 1);
    SortedSwap(SwapOrders(chs, k + 1, k), SwapAt(chs, k + 1));
  }

  /** Sorting a rearrangement of a list whose keys strictly ascend yields that list. */
  lemma SortedSwap(updated: seq<Chapter>, w: seq<Chapter>)
    requires StrictlyOrdered(w) && multiset(updated) == multiset(w)
    ensures SortBy(updated, ByOrderKey) == w
  {
    var a := SortBy(updated, ByOrderKey);
    ByOrderKeyTotal();
    SortBySorted(updated, ByOrderKey);
    forall x, y | x in a && y in a && ByOrderKey(x, y) && ByOrderKey(y, x)
      ensures x == y
    {
      assert x in multiset(w) && y in multiset(w);
      var i :| 0 <= i < |w| && w[i] == x;
      var j :| 0 <= j < |w| && w[j] == y;
      StrictKeysInjective(w, i, j);
    }
    SortedPermutationUnique(a, w, ByOrderKey);
  }

  /** Strictly ascending keys are distinct: equal keys sit at one position. */
  lemma StrictKeysInjective(w: seq<Chapter>, i: int, j: int)
    requires StrictlyOrdered(w) && 0 <= i < |w| && 0 <= j < |w|
    ensures OrderKey(w[i]) == OrderKey(w[j]) ==> i == j
  {
  }

  /** The trade keeps ids in place and each position's key, so it keeps both invariants. */
  lemma SwapAtKeeps(chs: seq<Chapter>, k: int)
    requires 0 < k < |chs|
    ensures forall i :: 0 <= i < |chs| ==> SwapAt(chs, k)[i].id == (if i == k - 1 then chs[k].id else if i == k then chs[k - 1].id else chs[i].id)
    ensures forall i :: 0 <= i < |chs| ==> OrderKey(SwapAt(chs, k)[i]) == OrderKey(chs[i])
    ensures UniqueIds(chs) ==> UniqueIds(SwapAt(chs, k))
    ensures StrictlyOrdered(chs) ==> StrictlyOrdered(SwapAt(chs, k))
  {
    var w := SwapAt(chs, k);
    if UniqueIds(chs) {
      forall i, j | 0 <= i < j < |w|
        ensures w[i].id != w[j].id
      {
        var i' := if i == k - 1 then k else if i == k then k - 1 else i;
        var j' := if j == k - 1 then k else if j == k then k - 1 else j;
        assert w[i].id == chs[i'].id && w[j].id == chs[j'].id && i' != j';
        if i' < j' {
          assert chs[i'].id != chs[j'].id;
        } else {
          assert chs[j'].id != chs[i'].id;
        }
      }
    }
  }

  /** Moving a chapter up and then down again restores the list, and the reverse too. */
  lemma MoveUpThenDown(chs: seq<Chapter>, id: nat, k: int)
    requires UniqueIds(chs) && StrictlyOrdered(chs)
    requires 0 < k < |chs| && chs[k].id == id
    ensures MoveDown(MoveUp(chs, id), id) == chs
    ensures MoveUp(MoveDown(chs, chs[k - 1].id), chs[k - 1].id) == chs
  {
    SwapAtKeeps(chs, k);
    MoveUpSwaps(chs, id, k);
    var w := SwapAt(chs, k);
    assert w[k - 1].id == id;
    MoveDownSwaps(w, id, k - 1);
    SwapAtInvolution(chs, k);
    MoveDownSwaps(chs, chs[k - 1].id, k - 1);
    assert w[k].id == chs[k - 1].id;
    MoveUpSwaps(w, chs[k - 1].id, k);
  }

  /** updateChapterContent: the chapters with that id get the new content; nothing else changes. */
  function UpdateContent(chs: seq<Chapter>, id: nat, content: string): (r: seq<Chapter>)
    ensures |r| == |chs|
    ensures forall i :: 0 <= i < |r| ==>
      && r[i].id == chs[i].id && r[i].name == chs[i].name && r[i].order == chs[i].order
      && r[i].content == if chs[i].id == id then content else chs[i].content
  {
    seq(|chs|, i requires 0 <= i < |chs| => if chs[i].id == id then chs[i].(content := content) else chs[i])
  }

  /** `maxOrder`: 0 for no chapters, else the largest key. */
  function MaxOrder(chs: seq<Chapter>): (m: int)
    ensures forall i :: 0 <= i < |chs| ==> OrderKey(chs[i]) <= m
    ensures chs != [] ==> exists i :: 0 <= i < |chs| && OrderKey(chs[i]) == m
    ensures chs == [] ==> m == 0
    decreases |chs|
  {
    if |chs| <= 1 then (if chs == [] then 0 else OrderKey(chs[0]))
    else
      var rest := MaxOrder(chs[1..]);
      assert forall i :: 1 <= i < |chs| ==> OrderKey(chs[i]) <= rest by {
        forall i | 1 <= i < |chs| ensures OrderKey(chs[i]) <= rest {
          assert chs[i] == chs[1..][i - 1];
        }
      }
      if OrderKey(chs[0]) >= rest then OrderKey(chs[0])
      else
        assert exists i :: 1 <= i < |chs| && OrderKey(chs[i]) == rest by {
          var j :| 0 <= j < |chs[1..]| && OrderKey(chs[1..][j]) == rest;
          assert chs[j + 1] == chs[1..][j];
        }
        rest
  }

  /** The hook's state: the chapter list, the selected chapter id and the error message. */
  datatype HookState = HookState(chapters: seq<Chapter>, selected: Option<nat>, error: string)

  /** The selection is empty or names a chapter in the list. */
  predicate SelectionValid(st: HookState) {
    st.selected.None? || exists i :: 0 <= i < |st.chapters| && st.chapters[i].id == st.selected.value
  }

  /** loadChapters: the fetched chapters sorted by key, the first one selected if there is one. */
  function Load(st: HookState, fetched: Option<seq<Chapter>>): HookState {
    match fetched
    case None => st.(error := "Failed to load chapters.")
    case Some(db) =>
      var sorted := SortBy(db, ByOrderKey);
      st.(chapters := sorted, selected := if sorted != [] then Some(sorted[0].id) else st.selected)
  }

  /** Loaded chapters are the fetched ones sorted by key, and the one selected has the smallest key. */
  lemma LoadSorts(st: HookState, db: seq<Chapter>)
    ensures SortedBy(Load(st, Some(db)).chapters, ByOrderKey)
    ensures multiset(Load(st, Some(db)).chapters) == multiset(db)
    ensures db != [] ==>
      && Load(st, Some(db)).selected == Some(Load(st, Some(db)).chapters[0].id)
      && forall c :: c in db ==> OrderKey(Load(st, Some(db)).chapters[0]) <= OrderKey(c)
    ensures st.selected.None? ==> SelectionValid(Load(st, Some(db)))
  {
    var sorted := SortBy(db, ByOrderKey);
    ByOrderKeyTotal();
    SortBySorted(db, ByOrderKey);
    forall c | c in db && db != []
      ensures OrderKey(sorted[0]) <= OrderKey(c)
    {
      assert c in multiset(sorted);
      var i :| 0 <= i < |sorted| && sorted[i] == c;
      if i > 0 {
        assert ByOrderKey(sorted[0], sorted[i]);
      }
    }
  }

  const ADD_ERROR: string := "Could not add chapter. Please try again."
  const DELETE_ERROR: string := "Could not delete chapter. Please try again."

  /**
   * addNewChapter: the new chapter has empty content and order maxOrder + 1;
   * it joins the list, which is sorted again, and becomes the selection.
   */
  function AddNewChapter(st: HookState, name: string, created: Option<nat>): HookState {
    match created
    case None => st.(error := ADD_ERROR)
    case Some(newId) =>
      st.(chapters := SortBy(st.chapters + [NewChapter(st.chapters, name, newId)], ByOrderKey),
          selected := Some(newId))
  }

  /** `{name, content: "", order: maxOrder + 1}`, as the server returns it with its id. */
  function NewChapter(chs: seq<Chapter>, name: string, newId: nat): Chapter {
    Chapter(newId, name, "", Some(MaxOrder(chs) + 1))
  }

  /**
   * The new chapter's key exceeds every other, so on a sorted list it is
   * appended last; it is selected and the selection stays valid.
   */
  lemma AddNewChapterAppends(st: HookState, name: string, newId: nat)
    requires SortedBy(st.chapters, ByOrderKey)
    ensures AddNewChapter(st, name, Some(newId)).chapters == st.chapters + [NewChapter(st.chapters, name, newId)]
    ensures forall c :: c in st.chapters ==> OrderKey(c) < OrderKey(NewChapter(st.chapters, name, newId))
  {
    AppendLargest(st.chapters, NewChapter(st.chapters, name, newId));
  }

  /** The new chapter is selected, and the list holds it. */
  lemma AddNewChapterSelects(st: HookState, name: string, newId: nat)
    ensures AddNewChapter(st, name, Some(newId)).selected == Some(newId)
    ensures SelectionValid(AddNewChapter(st, name, Some(newId)))
  {
    var ch := NewChapter(st.chapters, name, newId);
    var s := st.chapters + [ch];
    var r := SortBy(s, ByOrderKey);
    assert ch in multiset(r) by {
      assert s[|s| - 1] == ch;
    }
    var i :| 0 <= i < |r| && r[i] == ch;
  }

  /** A chapter whose key exceeds every other stays last when appended to a sorted list. */
  lemma AppendLargest(chs: seq<Chapter>, ch: Chapter)
    requires SortedBy(chs, ByOrderKey)
    requires forall i :: 0 <= i < |chs| ==> OrderKey(chs[i]) < OrderKey(ch)
    ensures SortBy(chs + [ch], ByOrderKey) == chs + [ch]
  {
    var s := chs + [ch];
    forall i, j | 0 <= i < j < |s|
      ensures ByOrderKey(s[i], s[j])
    {
      assert s[i] == chs[i];
      if j < |chs| {
        assert s[j] == chs[j];
      }
    }
    SortByIdentity(s, ByOrderKey);
  }

  /** `chapters.filter((ch) => ch.id !== id)`. */
  function Without(chs: seq<Chapter>, id: nat): (r: seq<Chapter>)
    ensures forall c :: c in r <==> c in chs && c.id != id
    ensures |r| <= |chs|
    decreases |chs|
  {
    if chs == [] then []
    else (if chs[0].id == id then [] else [chs[0]]) + Without(chs[1..], id)
  }

  /** Filtering a concatenation filters each part: the kept chapters keep their order. */
  lemma {:induction false} WithoutAppend(a: seq<Chapter>, b: seq<Chapter>, id: nat)
    ensures Without(a + b, id) == Without(a, id) + Without(b, id)
    decreases |a|
  {
    if a != [] {
      var head := if a[0].id == id then [] else [a[0]];
      assert (a + b)[0] == a[0] && (a + b)[1..] == a[1..] + b;
      WithoutAppend(a[1..], b, id);
      assert Without(a + b, id) == head + (Without(a[1..], id) + Without(b, id));
    } else {
      assert a + b == b;
    }
  }

  /**
   * The filter leaves nothing exactly when every chapter has the id; otherwise
   * the first chapter it leaves is the first one of the list with another id.
   */
  lemma {:induction false} WithoutHead(chs: seq<Chapter>, id: nat)
    ensures Without(chs, id) == [] <==> forall i :: 0 <= i < |chs| ==> chs[i].id == id
    ensures Without(chs, id) != [] ==> exists i :: (0 <= i < |chs| && Without(chs, id)[0] == chs[i]
      && chs[i].id != id && forall k :: 0 <= k < i ==> chs[k].id == id)
    decreases |chs|
  {
    if chs != [] {
      var rest := chs[1..];
      WithoutHead(rest, id);
      if chs[0].id == id {
        assert Without(chs, id) == Without(rest, id);
        if Without(rest, id) != [] {
          var i :| 0 <= i < |rest| && Without(rest, id)[0] == rest[i]
            && rest[i].id != id && forall k :: 0 <= k < i ==> rest[k].id == id;
          assert chs[i + 1] == rest[i];
          forall k | 0 <= k < i + 1
            ensures chs[k].id == id
          {
            if k > 0 {
              assert chs[k] == rest[k - 1];
            }
          }
        }
        forall i | 0 <= i < |chs| && Without(chs, id) == []
          ensures chs[i].id == id
        {
          if i > 0 {
            assert chs[i] == rest[i - 1];
          }
        }
      } else {
        assert Without(chs, id)[0] == chs[0];
      }
    }
  }

  /** deleteChapter: drop the chapter; when it was selected, select the first remaining one or none. */
  function DeleteChapter(st: HookState, id: nat, deleted: bool): HookState {
    if !deleted then st.(error := DELETE_ERROR)
    else
      var updated := Without(st.chapters, id);
      var sel := if st.selected == Some(id) then (if updated != [] then Some(updated[0].id) else None)
                 else st.selected;
      st.(chapters := updated, selected := sel)
  }

  /**
   * After a deletion no chapter has the id, every other chapter stays, the
   * selection moves only if it was the deleted chapter, and then to the first
   * chapter of the old list with another id, or to none when there is no such
   * chapter; it stays valid.
   */
  lemma DeleteChapterSpec(st: HookState, id: nat)
    requires SelectionValid(st)
    ensures var st' := DeleteChapter(st, id, true);
      && (forall c :: c in st'.chapters <==> c in st.chapters && c.id != id)
      && (st.selected != Some(id) ==> st'.selected == st.selected)
      && (st.selected == Some(id) ==>
            && (st'.selected.None? <==> forall i :: 0 <= i < |st.chapters| ==> st.chapters[i].id == id)
            && (st'.selected.Some? ==> exists i :: (0 <= i < |st.chapters| && st.chapters[i].id == st'.selected.value
                  && st.chapters[i].id != id && forall k :: 0 <= k < i ==> st.chapters[k].id == id)))
      && SelectionValid(st')
  {
    var st' := DeleteChapter(st, id, true);
    WithoutHead(st.chapters, id);
    if st.selected.Some? && st.selected != Some(id) {
      var i :| 0 <= i < |st.chapters| && st.chapters[i].id == st.selected.value;
      assert st.chapters[i] in st'.chapters;
      var j :| 0 <= j < |st'.chapters| && st'.chapters[j] == st.chapters[i];
    }
    if st'.selected.Some? && st.selected == Some(id) {
      assert st'.chapters[0].id == st'.selected.value;
    }
  }

  /** The moves and content edits keep a valid selection valid. */
  lemma EditsKeepSelection(st: HookState, id: nat, content: string)
    requires SelectionValid(st)
    ensures SelectionValid(st.(chapters := MoveUp(st.chapters, id)))
    ensures SelectionValid(st.(chapters := MoveDown(st.chapters, id)))
    ensures SelectionValid(st.(chapters := UpdateContent(st.chapters, id, content)))
  {
    if st.selected.Some? {
      var x := st.selected.value;
      MoveUpPreserves(st.chapters, id);
      MoveDownPreserves(st.chapters, id);
      var i :| 0 <= i < |st.chapters| && st.chapters[i].id == x;
      assert x == Project(st.chapters, IdOf)[i];
      IdPresent(MoveUp(st.chapters, id), st.chapters, x);
      IdPresent(MoveDown(st.chapters, id), st.chapters, x);
    }
  }

  lemma IdPresent(r: seq<Chapter>, chs: seq<Chapter>, x: nat)
    requires multiset(Project(r, IdOf)) == multiset(Project(chs, IdOf))
    requires x in Project(chs, IdOf)
    ensures exists i :: 0 <= i < |r| && r[i].id == x
  {
    assert x in multiset(Project(r, IdOf));
    var i :| 0 <= i < |r| && Project(r, IdOf)[i] == x;
  }

  /** `chapters.find((ch) => ch.id === selectedChapterId)`. */
  function SelectedChapter(st: HookState): (r: Option<Chapter>)
    ensures r.Some? ==> r.value in st.chapters && st.selected == Some(r.value.id)
    ensures r.None? <==> !SelectionValid(st) || st.selected.None?
  {
    match st.selected
    case None => None
    case Some(x) =>
      var k := FindIndex(st.chapters, x);
      if k < 0 then None else Some(st.chapters[k])
  }

  /** The members of the object useThesisBody returns, and of what ThesisBody.jsx destructures from it. */
  datatype HookMember =
    | ChaptersList | SelectedChapterMember | Loading | ErrorMessage | FormattedContent
    | MoveChapterUp | MoveChapterDown | UpdateChapterContent | AddNewChapterMember | DeleteChapterMember
    | SetSelectedChapterId

  /** What ThesisBody.jsx takes from the hook. */
  const USED_BY_THESIS_BODY: set<HookMember> :=
    {ChaptersList, SelectedChapterMember, Loading, ErrorMessage, FormattedContent, MoveChapterUp,
     MoveChapterDown, UpdateChapterContent, AddNewChapterMember, DeleteChapterMember, SetSelectedChapterId}

  /** The hook's return object as written. */
  const RETURNED_AS_WRITTEN: set<HookMember> :=
    {ChaptersList, SelectedChapterMember, Loading, ErrorMessage, FormattedContent, MoveChapterUp,
     MoveChapterDown, UpdateChapterContent, SetSelectedChapterId}

  /** The return object with the two operations the hook defines but leaves out. */
  const RETURNED: set<HookMember> := RETURNED_AS_WRITTEN + {AddNewChapterMember, DeleteChapterMember}

  /** The members a destructuring finds; each other one is `undefined`, and calling it throws. */
  function Missing(returned: set<HookMember>, used: set<HookMember>): (r: set<HookMember>)
    ensures forall m :: m in r <==> m in used && m !in returned
  {
    used - returned
  }

  /** As written, ThesisBody.jsx's addNewChapter and deleteChapter are undefined. */
  lemma AsWrittenLacksAddAndDelete()
    ensures Missing(RETURNED_AS_WRITTEN, USED_BY_THESIS_BODY) == {AddNewChapterMember, DeleteChapterMember}
  {
  }

  /** With both added, every member ThesisBody.jsx uses is provided. */
  lemma ReturnedCoversUse()
    ensures Missing(RETURNED, USED_BY_THESIS_BODY) == {}
  {
  }
}
