/** The paged transaction list (app/components/TransactionsList.tsx): a live
    first page from a snapshot listener, and "next" / "previous" buttons
    that page through the ledger ten entries at a time with a page cache.
    The kid's transactions are given in query order (`date` descending);
    a cursor is the number of entries up to and including the last one
    shown, which is what `startAfter(lastVisible)` skips. */
module Pagination {
  import opened Common
  import opened Kids

  const PageSize: nat := 10

  /** One cached page: its entries, its cursor, and whether it was full. */
  datatype PageData = PageData(docs: seq<Transaction>, lastVisible: Option<nat>, hasMore: bool)

  /** `transactions`, `hasMore`, `currentPage` and `pageData`. */
  datatype ListState = ListState(shown: seq<Transaction>, hasMore: bool, currentPage: nat, pages: seq<PageData>)

  /** `limit(10)` after skipping `from` entries. `hasMore` is the code's
      `!snapshot.empty && docs.length === 10`. */
  function Fetch(ordered: seq<Transaction>, from: nat): (p: PageData)
    ensures |p.docs| <= PageSize
    ensures p.hasMore <==> |p.docs| == PageSize
    ensures p.lastVisible.Some? <==> |p.docs| > 0
    ensures from <= |ordered| ==> from + |p.docs| <= |ordered| && p.docs == ordered[from..from + |p.docs|]
    ensures from <= |ordered| ==> (|p.docs| == PageSize || from + |p.docs| == |ordered|)
    ensures from >= |ordered| ==> p.docs == []
    ensures p.lastVisible.Some? ==> p.lastVisible.value == from + |p.docs|
  {
    var start := if from <= |ordered| then from else |ordered|;
    var end := if start + PageSize <= |ordered| then start + PageSize else |ordered|;
    var docs := ordered[start..end];
    PageData(docs, if |docs| == 0 then None else Some(end), |docs| > 0 && |docs| == PageSize)
  }

  /** Page `k` (counting from 0) of the ledger. */
  function PageAt(ordered: seq<Transaction>, k: nat): PageData {
    Fetch(ordered, k * PageSize)
  }

  /** Following a page's cursor fetches the page after it. */
  lemma CursorLeadsToNextPage(ordered: seq<Transaction>, k: nat)
    requires PageAt(ordered, k).lastVisible.Some?
    ensures Fetch(ordered, PageAt(ordered, k).lastVisible.value) == PageAt(ordered, k + 1)
  {
    var p := PageAt(ordered, k);
    var c := p.lastVisible.value;
    if |p.docs| < PageSize {
      assert c == |ordered|;
      assert (k + 1) * PageSize >= |ordered|;
    } else {
      assert c == (k + 1) * PageSize;
    }
  }

  /** The list before the listener's first answer: the server-rendered
      entries on page 1 and no cache. */
  function Start(initial: seq<Transaction>): ListState {
    ListState(initial, false, 1, [])
  }

  /** The snapshot callback as written: the first page replaces the cache,
      but `currentPage` is left as it was. */
  function OnSnapshot(st: ListState, ordered: seq<Transaction>): (r: ListState)
    ensures r.pages == [PageAt(ordered, 0)] && r.shown == PageAt(ordered, 0).docs
    ensures r.hasMore == PageAt(ordered, 0).hasMore
    ensures r.currentPage == st.currentPage
  {
    var page := PageAt(ordered, 0);
    st.(shown := page.docs, hasMore := page.hasMore, pages := [page])
  }

  /** `loadPage('prev')`: from page `n > 1`, show cached page `n - 1` if the
      cache has it; otherwise do nothing. */
  function LoadPrev(st: ListState): (r: ListState)
    ensures r.pages == st.pages
    ensures st.currentPage <= 1 ==> r == st
    ensures 2 <= st.currentPage <= |st.pages| + 1 ==>
              && r.currentPage == st.currentPage - 1
              && r.shown == st.pages[st.currentPage - 2].docs
              && r.hasMore == st.pages[st.currentPage - 2].hasMore
    ensures st.currentPage > |st.pages| + 1 ==> r == st
  {
    if st.currentPage <= 1 then st
    else if st.currentPage - 2 < |st.pages| then
      var prev := st.pages[st.currentPage - 2];
      st.(shown := prev.docs, hasMore := prev.hasMore, currentPage := st.currentPage - 1)
    else st
  }

  /** The cursor `loadPage('next')` starts from: `pageData[currentPage - 1]?.lastVisible`. */
  function NextCursor(st: ListState): Option<nat> {
    if 1 <= st.currentPage <= |st.pages| then st.pages[st.currentPage - 1].lastVisible else None
  }

  /** `loadPage('next')` as written: fetch after the current page's cursor
      and push the result at the END of the cache. `ok` is whether
      `getDocs` succeeds; a failure changes nothing. */
  function LoadNext(st: ListState, ordered: seq<Transaction>, ok: bool): (r: ListState)
    ensures NextCursor(st).None? || !ok ==> r == st
    ensures NextCursor(st).Some? && ok ==>
              && r.currentPage == st.currentPage + 1
              && r.pages == st.pages + [Fetch(ordered, NextCursor(st).value)]
              && r.shown == Fetch(ordered, NextCursor(st).value).docs
              && r.hasMore == Fetch(ordered, NextCursor(st).value).hasMore
  {
    match NextCursor(st)
    case None => st
    case Some(cursor) =>
      if !ok then st
      else
        var page := Fetch(ordered, cursor);
        ListState(page.docs, page.hasMore, st.currentPage + 1, st.pages + [page])
  }

  /** What the user can do, with the buttons' `disabled` conditions: Next
      needs `hasMore`, Previous needs a page above 1. */
  datatype ListEvent = Snapshot | Prev | Next(ok: bool)

  function Step(st: ListState, ordered: seq<Transaction>, ev: ListEvent): ListState {
    match ev
    case Snapshot => OnSnapshot(st, ordered)
    case Prev => LoadPrev(st)
    case Next(ok) => if st.hasMore then LoadNext(st, ordered, ok) else st
  }

  function Run(st: ListState, ordered: seq<Transaction>, evs: seq<ListEvent>): ListState
    decreases |evs|
  {
    if evs == [] then st else Run(Step(st, ordered, evs[0]), ordered, evs[1..])
  }

  /** The page the list claims to show is the page it shows, and the cache
      holds the true pages 1..|pages| in order. */
  ghost predicate Aligned(st: ListState, ordered: seq<Transaction>) {
    && 1 <= st.currentPage <= |st.pages|
    && (forall k :: 0 <= k < |st.pages| ==> st.pages[k] == PageAt(ordered, k))
    && st.shown == st.pages[st.currentPage - 1].docs
    && st.hasMore == st.pages[st.currentPage - 1].hasMore
  }

  /** As written, paging only forward is correct: from an aligned state
      whose current page is the last cached one, Next stays aligned. */
  lemma LoadNextAlignedAtEnd(st: ListState, ordered: seq<Transaction>, ok: bool)
    requires Aligned(st, ordered) && st.currentPage == |st.pages|
    ensures Aligned(LoadNext(st, ordered, ok), ordered)
  {
    if NextCursor(st).Some? && ok {
      CursorLeadsToNextPage(ordered, st.currentPage - 1);
    }
  }

  /** A page with ten entries after it is full and its cursor is its end. */
  lemma FullPage(ordered: seq<Transaction>, k: nat)
    requires (k + 1) * PageSize <= |ordered|
    ensures PageAt(ordered, k) == PageData(ordered[k * PageSize .. (k + 1) * PageSize], Some((k + 1) * PageSize), true)
  {
  }

  lemma {:induction false} RunAppend(st: ListState, ordered: seq<Transaction>, a: seq<ListEvent>, b: seq<ListEvent>)
    ensures Run(st, ordered, a + b) == Run(Run(st, ordered, a), ordered, b)
    decreases |a|
  {
    if a == [] {
      assert a + b == b;
    } else {
      assert (a + b)[0] == a[0] && (a + b)[1..] == a[1..] + b;
      RunAppend(Step(st, ordered, a[0]), ordered, a[1..], b);
    }
  }

  lemma RunOne(st: ListState, ordered: seq<Transaction>, ev: ListEvent)
    ensures Run(st, ordered, [ev]) == Step(st, ordered, ev)
  {
  }

  /** Two steps forward from a fresh list with at least 30 entries. */
  lemma TwoPagesForward(ordered: seq<Transaction>)
    requires |ordered| >= 30
    ensures Run(Start([]), ordered, [Snapshot, Next(true), Next(true)])
         == ListState(PageAt(ordered, 2).docs, true, 3, [PageAt(ordered, 0), PageAt(ordered, 1), PageAt(ordered, 2)])
  {
    var p0, p1, p2 := PageAt(ordered, 0), PageAt(ordered, 1), PageAt(ordered, 2);
    FullPage(ordered, 0);
    FullPage(ordered, 1);
    FullPage(ordered, 2);
    var s1 := ListState(p0.docs, true, 1, [p0]);
    var s2 := ListState(p1.docs, true, 2, [p0, p1]);
    var s3 := ListState(p2.docs, true, 3, [p0, p1, p2]);
    assert Step(Start([]), ordered, Snapshot) == s1;
    assert Step(s1, ordered, Next(true)) == s2;
    assert Step(s2, ordered, Next(true)) == s3;
    RunAppend(Start([]), ordered, [Snapshot], [Next(true), Next(true)]);
    RunAppend(s1, ordered, [Next(true)], [Next(true)]);
    RunOne(Start([]), ordered, Snapshot);
    RunOne(s1, ordered, Next(true));
    RunOne(s2, ordered, Next(true));
  }

  /** Going back one page, then Next, appends a second copy of the page
      after the current one; the following Next then starts from that
      copy's predecessor's cursor. With 50 entries, next, next, previous,
      next, next, next shows page 4's entries under "Page 5". */
  lemma NextAfterPrevRepeatsPage(ordered: seq<Transaction>)
    requires |ordered| >= 50 && ordered[30] != ordered[40]
    ensures var r := Run(Start([]), ordered, [Snapshot, Next(true), Next(true), Prev, Next(true), Next(true), Next(true)]);
            && r.currentPage == 5
            && r.shown == PageAt(ordered, 3).docs
            && r.shown != PageAt(ordered, 4).docs
            && !Aligned(r, ordered)
  {
    var p3, p4 := PageAt(ordered, 3), PageAt(ordered, 4);
    ForwardBackForwardState(ordered, [Snapshot, Next(true), Next(true), Prev, Next(true), Next(true), Next(true)]);
    FullPage(ordered, 3);
    FullPage(ordered, 4);
    assert p3.docs[0] == ordered[30] && p4.docs[0] == ordered[40];
    assert p3.docs != p4.docs;
  }

  /** The state the seven events of `NextAfterPrevRepeatsPage` reach. */
  lemma ForwardBackForwardState(ordered: seq<Transaction>, evs: seq<ListEvent>)
    requires |ordered| >= 50
    requires evs == [Snapshot, Next(true), Next(true), Prev, Next(true), Next(true), Next(true)]
    ensures var p0, p1, p2, p3 := PageAt(ordered, 0), PageAt(ordered, 1), PageAt(ordered, 2), PageAt(ordered, 3);
            Run(Start([]), ordered, evs) == ListState(p3.docs, true, 5, [p0, p1, p2, p2, p3, p3])
  {
    var p0, p1, p2 := PageAt(ordered, 0), PageAt(ordered, 1), PageAt(ordered, 2);
    TwoPagesForward(ordered);
    BackThenForward(ordered);
    assert evs[..3] == [Snapshot, Next(true), Next(true)];
    assert evs[3..] == [Prev, Next(true), Next(true), Next(true)];
    RunThrough(Start([]), ordered, evs[..3], evs[3..], ListState(p2.docs, true, 3, [p0, p1, p2]));
    assert evs[..3] + evs[3..] == evs;
  }

  /** Running `a + b` passes through the state `a` reaches. */
  lemma RunThrough(st: ListState, ordered: seq<Transaction>, a: seq<ListEvent>, b: seq<ListEvent>, mid: ListState)
    requires Run(st, ordered, a) == mid
    ensures Run(st, ordered, a + b) == Run(mid, ordered, b)
  {
    RunAppend(st, ordered, a, b);
  }

  /** From page 3 of a ledger of at least 50 entries: previous, then next
      three times. The cache ends with two copies each of pages 3 and 4. */
  lemma BackThenForward(ordered: seq<Transaction>)
    requires |ordered| >= 50
    ensures var p0, p1, p2, p3 := PageAt(ordered, 0), PageAt(ordered, 1), PageAt(ordered, 2), PageAt(ordered, 3);
            Run(ListState(p2.docs, true, 3, [p0, p1, p2]), ordered, [Prev, Next(true), Next(true), Next(true)])
              == ListState(p3.docs, true, 5, [p0, p1, p2, p2, p3, p3])
  {
    var p0, p1, p2, p3 := PageAt(ordered, 0), PageAt(ordered, 1), PageAt(ordered, 2), PageAt(ordered, 3);
    FullPage(ordered, 1);
    FullPage(ordered, 2);
    FullPage(ordered, 3);
    var s3 := ListState(p2.docs, true, 3, [p0, p1, p2]);
    var s4 := ListState(p1.docs, true, 2, [p0, p1, p2]);
    var s5 := ListState(p2.docs, true, 3, [p0, p1, p2, p2]);
    var s6 := ListState(p3.docs, true, 4, [p0, p1, p2, p2, p3]);
    var s7 := ListState(p3.docs, true, 5, [p0, p1, p2, p2, p3, p3]);
    assert Step(s3, ordered, Prev) == s4;
    assert Step(s4, ordered, Next(true)) == s5;
    assert Step(s5, ordered, Next(true)) == s6;
    assert Step(s6, ordered, Next(true)) == s7;
    RunAppend(s3, ordered, [Prev], [Next(true), Next(true), Next(true)]);
    RunAppend(s4, ordered, [Next(true)], [Next(true), Next(true)]);
    RunAppend(s5, ordered, [Next(true)], [Next(true)]);
    RunOne(s3, ordered, Prev);
    RunOne(s4, ordered, Next(true));
    RunOne(s5, ordered, Next(true));
    RunOne(s6, ordered, Next(true));
  }

  /** A snapshot while on page 3 shows page 1 under "Page 3", and both
      buttons then do nothing: the cache holds only page 1. */
  lemma SnapshotStrandsPaging(ordered: seq<Transaction>, ok: bool)
    requires |ordered| >= 30
    ensures var r := Run(Start([]), ordered, [Snapshot, Next(true), Next(true), Snapshot]);
            && r.currentPage == 3
            && r.shown == PageAt(ordered, 0).docs
            && LoadPrev(r) == r
            && LoadNext(r, ordered, ok) == r
            && !Aligned(r, ordered)
  {
    var p0, p1, p2 := PageAt(ordered, 0), PageAt(ordered, 1), PageAt(ordered, 2);
    var s3 := ListState(p2.docs, true, 3, [p0, p1, p2]);
    TwoPagesForward(ordered);
    FullPage(ordered, 0);
    var s4 := ListState(p0.docs, true, 3, [p0]);
    assert Step(s3, ordered, Snapshot) == s4;
    RunAppend(Start([]), ordered, [Snapshot, Next(true), Next(true)], [Snapshot]);
    assert [Snapshot, Next(true), Next(true)] + [Snapshot] == [Snapshot, Next(true), Next(true), Snapshot];
    RunOne(s3, ordered, Snapshot);
  }

  // ---------------------------------------------------------------------
  // The intended behaviour
  // ---------------------------------------------------------------------

  /** The snapshot callback, corrected: back to page 1 with the new first page. */
  function OnSnapshotFixed(st: ListState, ordered: seq<Transaction>): (r: ListState)
    ensures Aligned(r, ordered)
    ensures r.currentPage == 1 && r.shown == PageAt(ordered, 0).docs
  {
    var page := PageAt(ordered, 0);
    ListState(page.docs, page.hasMore, 1, [page])
  }

  /** `loadPage('next')`, corrected: the fetched page becomes the cache
      entry just after the current page, dropping any stale entries. */
  function LoadNextFixed(st: ListState, ordered: seq<Transaction>, ok: bool): (r: ListState)
    requires 1 <= st.currentPage <= |st.pages|
    ensures NextCursor(st).None? || !ok ==> r == st
    ensures NextCursor(st).Some? && ok ==>
              && r.currentPage == st.currentPage + 1
              && r.pages == st.pages[..st.currentPage] + [Fetch(ordered, NextCursor(st).value)]
              && r.shown == Fetch(ordered, NextCursor(st).value).docs
              && r.hasMore == Fetch(ordered, NextCursor(st).value).hasMore
  {
    match NextCursor(st)
    case None => st
    case Some(cursor) =>
      if !ok then st
      else
        var page := Fetch(ordered, cursor);
        ListState(page.docs, page.hasMore, st.currentPage + 1, st.pages[..st.currentPage] + [page])
  }

  lemma PrevKeepsAligned(st: ListState, ordered: seq<Transaction>)
    requires Aligned(st, ordered)
    ensures Aligned(LoadPrev(st), ordered)
  {
  }

  lemma NextFixedKeepsAligned(st: ListState, ordered: seq<Transaction>, ok: bool)
    requires Aligned(st, ordered)
    ensures Aligned(LoadNextFixed(st, ordered, ok), ordered)
  {
    if NextCursor(st).Some? && ok {
      CursorLeadsToNextPage(ordered, st.currentPage - 1);
    }
  }

  function StepFixed(st: ListState, ordered: seq<Transaction>, ev: ListEvent): ListState
    requires Aligned(st, ordered)
  {
    match ev
    case Snapshot => OnSnapshotFixed(st, ordered)
    case Prev => LoadPrev(st)
    case Next(ok) => if st.hasMore then LoadNextFixed(st, ordered, ok) else st
  }

  lemma StepFixedKeepsAligned(st: ListState, ordered: seq<Transaction>, ev: ListEvent)
    requires Aligned(st, ordered)
    ensures Aligned(StepFixed(st, ordered, ev), ordered)
  {
    match ev
    case Snapshot =>
    case Prev => PrevKeepsAligned(st, ordered);
    case Next(ok) => if st.hasMore { NextFixedKeepsAligned(st, ordered, ok); }
  }

  /** With both corrections, every sequence of clicks and snapshots keeps
      the list aligned: "Page n" shows entries 10(n-1)+1 to 10n. */
  function RunFixed(st: ListState, ordered: seq<Transaction>, evs: seq<ListEvent>): (r: ListState)
    requires Aligned(st, ordered)
    ensures Aligned(r, ordered)
    ensures r.shown == PageAt(ordered, r.currentPage - 1).docs
    decreases |evs|
  {
    if evs == [] then st
    else
      StepFixedKeepsAligned(st, ordered, evs[0]);
      RunFixed(StepFixed(st, ordered, evs[0]), ordered, evs[1..])
  }

  /** The corrected list, started the way the component starts, shows the
      right page after any sequence of events. */
  lemma FixedListShowsTruePage(initial: seq<Transaction>, ordered: seq<Transaction>, evs: seq<ListEvent>)
    ensures var r := RunFixed(OnSnapshotFixed(Start(initial), ordered), ordered, evs);
            var from := (r.currentPage - 1) * PageSize;
            && (from <= |ordered| ==>
                  r.shown == ordered[from .. if from + PageSize <= |ordered| then from + PageSize else |ordered|])
            && (from > |ordered| ==> r.shown == [])
  {
    var r := RunFixed(OnSnapshotFixed(Start(initial), ordered), ordered, evs);
    PageAtSlice(ordered, r.currentPage - 1);
  }

  /** Page `k` is entries `10k` up to `10k + 10`, cut at the ledger's end. */
  lemma PageAtSlice(ordered: seq<Transaction>, k: nat)
    ensures var from := k * PageSize;
            && (from <= |ordered| ==>
                  PageAt(ordered, k).docs == ordered[from .. if from + PageSize <= |ordered| then from + PageSize else |ordered|])
            && (from > |ordered| ==> PageAt(ordered, k).docs == [])
  {
  }
}
