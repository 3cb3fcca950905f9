/** The result-list traversal `crawl_period_pages` of src/crawler.py: walk the
    list pages, and on each page the rows in order; skip rows without an id cell
    or title link; apply the cutoff counter when a cutoff date is set; ask the
    callback whether the id is new; open, extract and save new rows; then move to
    the next page through the page-number control or the next-group button.

    The browser is replaced by data: the pages the site shows, one after each
    successful click, and for each row what its cells say and whether opening it
    succeeds. The storage is the `DataStorage` object the callback writes to. */
module Traversal {
  import opened Wrappers
  import opened Text
  import opened Dict
  import opened Json
  import opened Storage
  import opened Dates
  import opened Extractor
  import opened Callback

  /** One `tr.grid_body_row`. `opens` says whether the click on the title and the
      wait for the detail page succeed; when they raise, the row's handler goes
      back to the list and nothing is saved. `detail` is the detail page's
      sections, `crawledAt` the clock reading and `saveFault` the file append
      that fails during the save, if any. */
  datatype Row = Row(
    hasIdCell: bool, hasTitleLink: bool, text: string, idText: string, titleText: string,
    opens: bool, detail: seq<Section>, crawledAt: string, saveFault: WriteFault)

  /** The pagination control found after a page: the number `current_page + 1`,
      the next-group button, neither, or a click that raises. */
  datatype NextControl = NextIndex | NextGroup | NoNextControl | PaginationFails

  datatype Page = Page(rows: seq<Row>, next: NextControl)

  /** `stop_on_duplicate` and the parsed `cutoff_date`. */
  datatype Policy = Policy(stopOnDuplicate: bool, cutoff: Option<Date>)

  /** The loop state: the storage, `consecutive_old_count` and the ids saved so far. */
  datatype Walk = Walk(store: StoreState, oldCount: nat, saved: seq<string>)

  datatype EndReason = NoRows | LastPage | PaginationError | CutoffReached | DuplicateFound

  /** After some rows: still going, or `stop_signal` raised. */
  datatype Step = Running(walk: Walk) | Stopped(walk: Walk, reason: EndReason)

  /** The end of the traversal: the state, why it ended, and `current_page`. */
  datatype Outcome = Outcome(walk: Walk, reason: EndReason, currentPage: nat)

  const MaxOldCount: nat := 3

  // ---------------------------------------------------------------------------
  // The record saved for a row

  function FieldsValue(d: Dict<string>): Value {
    Obj(seq(|d|, i requires 0 <= i < |d| => (d[i].0, Str(d[i].1))))
  }

  function RecordsValue(rs: seq<Dict<string>>): Value {
    Arr(seq(|rs|, i requires 0 <= i < |rs| => FieldsValue(rs[i])))
  }

  function BodyValue(b: Body): Value {
    match b
    case TableBody(fields) => FieldsValue(fields)
    case GridBody(records) => RecordsValue(records)
  }

  function SectionsValue(d: Dict<Body>): Value {
    Obj(seq(|d|, i requires 0 <= i < |d| => (d[i].0, BodyValue(d[i].1))))
  }

  /** `extracted_data` with `id`, `title` and `crawled_at` assigned after the
      `sections` and `files` the extractor returned. */
  function StampRecord(detail: Detail, id: string, title: string, crawledAt: string): Value {
    var extracted := [("sections", SectionsValue(detail.sections)), ("files", RecordsValue(detail.files))];
    Obj(Put(Put(Put(extracted, "id", Str(id)), "title", Str(title)), "crawled_at", Str(crawledAt)))
  }

  // ---------------------------------------------------------------------------
  // One row

  /** The cutoff test of a row. `Unchecked`: no cutoff, or no `dddd/dd/dd` in the
      row text. `Unparsable`: the match is not a calendar date, so `strptime`
      raises and the row's handler takes over. */
  datatype DateCheck = Unchecked | Unparsable | Stale | Current

  function CheckDate(cutoff: Option<Date>, text: string): DateCheck {
    if cutoff.None? then Unchecked
    else
      match FindDate(text)
      case None => Unchecked
      case Some(i) =>
        match ParseYmd(DateDigits(text, i))
        case None => Unparsable
        case Some(d) => if Before(d, cutoff.value) then Stale else Current
  }

  /** A row with both the id cell and the title link. */
  predicate Listed(row: Row) {
    row.hasIdCell && row.hasTitleLink
  }

  /** The novelty check, and for a new id the detail page and the save. */
  function Visit(p: Policy, row: Row, w: Walk): Step {
    var id := CleanText(row.idText);
    if !CallbackSpec(w.store, Null, id, true, NoFault).1 then
      if p.stopOnDuplicate then Stopped(w, DuplicateFound) else Running(w)
    else if !row.opens then Running(w)
    else
      var record := StampRecord(DetailOf(row.detail), id, CleanText(row.titleText), row.crawledAt);
      Running(w.(store := CallbackSpec(w.store, record, id, false, row.saveFault).0, saved := w.saved + [id]))
  }

  function RowStep(p: Policy, row: Row, w: Walk): Step {
    if !Listed(row) then Running(w)
    else
      match CheckDate(p.cutoff, row.text)
      case Unparsable => Running(w)
      case Stale =>
        var w' := w.(oldCount := w.oldCount + 1);
        if w'.oldCount >= MaxOldCount then Stopped(w', CutoffReached) else Running(w')
      case Current => Visit(p, row, w.(oldCount := 0))
      case Unchecked => Visit(p, row, w)
  }

  /** The rows of one page in order, up to a stop signal. */
  function RunRows(p: Policy, rows: seq<Row>, w: Walk): Step
    decreases |rows|
  {
    if rows == [] then Running(w)
    else
      match RunRows(p, rows[..|rows| - 1], w)
      case Stopped(w', reason) => Stopped(w', reason)
      case Running(w') => RowStep(p, rows[|rows| - 1], w')
  }

  /** The traversal from the page with index `k` (`current_page == k + 1`). A page
      beyond the given ones shows no rows. */
  function Crawl(p: Policy, pages: seq<Page>, k: nat, w: Walk): Outcome
    decreases |pages| - k
  {
    if k >= |pages| || pages[k].rows == [] then Outcome(w, NoRows, k + 1)
    else
      match RunRows(p, pages[k].rows, w)
      case Stopped(w', reason) => Outcome(w', reason, k + 1)
      case Running(w') =>
        match pages[k].next
        case NoNextControl => Outcome(w', LastPage, k + 1)
        case PaginationFails => Outcome(w', PaginationError, k + 1)
        case NextIndex => Crawl(p, pages, k + 1, w')
        case NextGroup => Crawl(p, pages, k + 1, w')
  }

  function CrawlSpec(p: Policy, pages: seq<Page>, st: StoreState): Outcome {
    Crawl(p, pages, 0, Walk(st, 0, []))
  }

  // ---------------------------------------------------------------------------
  // The loops

  /** The body of the row loop: returns the new counter, the saved ids and the
      stop signal with its reason. */
  method ProcessRow(storage: DataStorage, p: Policy, row: Row, oldCount: nat, saved: seq<string>)
    returns (count: nat, savedAfter: seq<string>, stop: Option<EndReason>)
    modifies storage
    ensures var s := RowStep(p, row, Walk(old(storage.State()), oldCount, saved));
      Walk(storage.State(), count, savedAfter) == s.walk
      && (stop.Some? <==> s.Stopped?) && (s.Stopped? ==> stop.value == s.reason)
  {
    count, savedAfter, stop := oldCount, saved, None;
    if !row.hasIdCell || !row.hasTitleLink {
      return;
    }
    if p.cutoff.Some? {
      var found := FindDate(row.text);
      if found.Some? {
        var rowDate := ParseYmd(DateDigits(row.text, found.value));
        if rowDate.None? {
          return;
        }
        if Before(rowDate.value, p.cutoff.value) {
          count := count + 1;
          if count >= MaxOldCount {
            stop := Some(CutoffReached);
          }
          return;
        }
        count := 0;
      }
    }
    var id := CleanText(row.idText);
    var title := CleanText(row.titleText);
    var shouldProcess := SaveCallback(storage, Null, id, true, NoFault);
    if !shouldProcess {
      if p.stopOnDuplicate {
        stop := Some(DuplicateFound);
      }
      return;
    }
    if !row.opens {
      return;
    }
    var detail := ExtractDetailInfo(row.detail);
    var record := StampRecord(detail, id, title, row.crawledAt);
    var _ := SaveCallback(storage, record, id, false, row.saveFault);
    savedAfter := saved + [id];
  }

  /** `crawl_period_pages`: returns the ids saved, in order, why the walk ended and
      the final `current_page`. */
  method CrawlPeriodPages(storage: DataStorage, pages: seq<Page>, stopOnDuplicate: bool, cutoffDate: Option<string>)
    returns (saved: seq<string>, reason: EndReason, currentPage: nat)
    modifies storage
    ensures var o := CrawlSpec(Policy(stopOnDuplicate, ParseCutoff(cutoffDate)), pages, old(storage.State()));
      storage.State() == o.walk.store && saved == o.walk.saved
      && reason == o.reason && currentPage == o.currentPage
  {
    var p := Policy(stopOnDuplicate, ParseCutoff(cutoffDate));
    ghost var goal := CrawlSpec(p, pages, storage.State());
    currentPage := 1;
    var count: nat := 0;
    saved := [];
    var k := 0;
    while true
      invariant k <= |pages| && currentPage == k + 1
      invariant Crawl(p, pages, k, Walk(storage.State(), count, saved)) == goal
      decreases |pages| - k
    {
      if k == |pages| || pages[k].rows == [] {
        reason := NoRows;
        break;
      }
      var rows := pages[k].rows;
      ghost var start := Walk(storage.State(), count, saved);
      var stopSignal := false;
      for i := 0 to |rows|
        invariant RunRows(p, rows[..i], start) == Running(Walk(storage.State(), count, saved))
      {
        assert rows[..i + 1][..i] == rows[..i];
        var stop;
        count, saved, stop := ProcessRow(storage, p, rows[i], count, saved);
        if stop.Some? {
          stopSignal := true;
          reason := stop.value;
          RunRowsAfterStop(p, rows[..i + 1], rows[i + 1..], start);
          assert rows[..i + 1] + rows[i + 1..] == rows;
          break;
        }
      }
      if stopSignal {
        break;
      }
      assert rows[..|rows|] == rows;
      if pages[k].next == NoNextControl {
        reason := LastPage;
        break;
      }
      if pages[k].next == PaginationFails {
        reason := PaginationError;
        break;
      }
      k := k + 1;
      currentPage := currentPage + 1;
    }
  }

  // ---------------------------------------------------------------------------
  // Properties

  /** Rows after a stop signal are never looked at. */
  lemma {:induction false} RunRowsAfterStop(p: Policy, rows: seq<Row>, more: seq<Row>, w: Walk)
    requires RunRows(p, rows, w).Stopped?
    ensures RunRows(p, rows + more, w) == RunRows(p, rows, w)
    decreases |more|
  {
    if more == [] {
      assert rows + more == rows;
    } else {
      var n := |more| - 1;
      assert (rows + more)[..|rows + more| - 1] == rows + more[..n];
      RunRowsAfterStop(p, rows, more[..n], w);
    }
  }

  /** The record stamped on a row is a non-empty object with the keys in the order
      they were assigned, carrying the cleaned id and title. */
  lemma StampRecordShape(detail: Detail, id: string, title: string, crawledAt: string)
    ensures var v := StampRecord(detail, id, title, crawledAt);
      v.Obj? && Truthy(v)
      && Keys(v.members) == ["sections", "files", "id", "title", "crawled_at"]
      && Get(v.members, "id") == Some(Str(id))
      && Get(v.members, "title") == Some(Str(title))
      && Get(v.members, "crawled_at") == Some(Str(crawledAt))
  {
    var extracted := [("sections", SectionsValue(detail.sections)), ("files", RecordsValue(detail.files))];
    var a := Put(extracted, "id", Str(id));
    var b := Put(a, "title", Str(title));
    var c := Put(b, "crawled_at", Str(crawledAt));
    PutKeys(extracted, "id", Str(id));
    PutKeys(a, "title", Str(title));
    PutKeys(b, "crawled_at", Str(crawledAt));
    assert Keys(extracted) == ["sections", "files"];
    PutGet(a, "title", Str(title), "id");
    PutGet(b, "crawled_at", Str(crawledAt), "id");
    PutGet(b, "crawled_at", Str(crawledAt), "title");
    PutGet(extracted, "id", Str(id), "id");
    PutGet(a, "title", Str(title), "title");
    PutGet(b, "crawled_at", Str(crawledAt), "crawled_at");
  }

  // Saved ids

  /** The walk's ids against the state it started from: the known ids are the
      starting ones plus the saved ones, and the saved ids are distinct and were
      all new. */
  ghost predicate Tracks(st0: StoreState, w: Walk) {
    (forall x :: x in w.store.visited <==> x in st0.visited || x in w.saved)
    && Distinct(w.saved)
    && (forall x :: x in w.saved ==> x !in st0.visited)
  }

  lemma RowStepTracks(p: Policy, row: Row, st0: StoreState, w: Walk)
    requires Tracks(st0, w)
    ensures Tracks(st0, RowStep(p, row, w).walk)
  {
    var w' := if Listed(row) && CheckDate(p.cutoff, row.text) == Current then w.(oldCount := 0) else w;
    var id := CleanText(row.idText);
    if Listed(row) && (CheckDate(p.cutoff, row.text) == Current || CheckDate(p.cutoff, row.text) == Unchecked)
      && id !in w.store.visited && row.opens
    {
      var record := StampRecord(DetailOf(row.detail), id, CleanText(row.titleText), row.crawledAt);
      StampRecordShape(DetailOf(row.detail), id, CleanText(row.titleText), row.crawledAt);
      assert RowStep(p, row, w) == Visit(p, row, w');
      var st' := AfterSave(w.store, record, id, row.saveFault);
      assert RowStep(p, row, w).walk == w'.(store := st', saved := w.saved + [id]);
      assert st'.visited == w.store.visited + {id};
    }
  }

  lemma {:induction false} RunRowsTracks(p: Policy, rows: seq<Row>, st0: StoreState, w: Walk)
    requires Tracks(st0, w)
    ensures Tracks(st0, RunRows(p, rows, w).walk)
    decreases |rows|
  {
    if rows != [] {
      var n := |rows| - 1;
      RunRowsTracks(p, rows[..n], st0, w);
      if RunRows(p, rows[..n], w).Running? {
        RowStepTracks(p, rows[n], st0, RunRows(p, rows[..n], w).walk);
      }
    }
  }

  lemma {:induction false} CrawlTracks(p: Policy, pages: seq<Page>, k: nat, st0: StoreState, w: Walk)
    requires Tracks(st0, w)
    ensures Tracks(st0, Crawl(p, pages, k, w).walk)
    decreases |pages| - k
  {
    if k < |pages| && pages[k].rows != [] {
      RunRowsTracks(p, pages[k].rows, st0, w);
      if RunRows(p, pages[k].rows, w).Running? {
        CrawlTracks(p, pages, k + 1, st0, RunRows(p, pages[k].rows, w).walk);
      }
    }
  }

  /** The traversal saves each id at most once, only ids that were not known when
      it started, and afterwards the storage knows exactly the old ids and the
      saved ones. */
  lemma SavedIdsAreNew(p: Policy, pages: seq<Page>, st: StoreState)
    ensures var o := CrawlSpec(p, pages, st);
      Distinct(o.walk.saved)
      && (forall x :: x in o.walk.saved ==> x !in st.visited && x in o.walk.store.visited)
      && (forall x :: x in o.walk.store.visited ==> x in st.visited || x in o.walk.saved)
      && st.visited <= o.walk.store.visited
  {
    CrawlTracks(p, pages, 0, st, Walk(st, 0, []));
  }

  // The cutoff counter

  /** A listed row whose date is before the cutoff is not opened and adds one to
      the counter; the third in a row stops the traversal. A dated row on or after
      the cutoff resets the counter; a row without a date, or without a cutoff,
      leaves it alone, as does an unlisted row. */
  lemma RowStepCounter(p: Policy, row: Row, w: Walk)
    ensures Listed(row) && CheckDate(p.cutoff, row.text) == Stale ==>
      RowStep(p, row, w).walk == w.(oldCount := w.oldCount + 1)
      && (RowStep(p, row, w).Stopped? <==> w.oldCount + 1 >= MaxOldCount)
    ensures Listed(row) && CheckDate(p.cutoff, row.text) == Current ==> RowStep(p, row, w).walk.oldCount == 0
    ensures !Listed(row) || CheckDate(p.cutoff, row.text) == Unchecked || CheckDate(p.cutoff, row.text) == Unparsable ==>
      RowStep(p, row, w).walk.oldCount == w.oldCount
    ensures !Listed(row) || CheckDate(p.cutoff, row.text) == Unparsable ==> RowStep(p, row, w) == Running(w)
  {
  }

  predicate StaleRow(p: Policy, row: Row) {
    Listed(row) && CheckDate(p.cutoff, row.text) == Stale
  }

  /** A run of stale rows counts up from where the counter stood, and stops the
      traversal on the row that brings it to three. */
  lemma {:induction false} StaleRowsStop(p: Policy, rows: seq<Row>, w: Walk)
    requires w.oldCount < MaxOldCount
    requires forall i :: 0 <= i < |rows| ==> StaleRow(p, rows[i])
    ensures RunRows(p, rows, w) ==
      if w.oldCount + |rows| >= MaxOldCount then Stopped(w.(oldCount := MaxOldCount), CutoffReached)
      else Running(w.(oldCount := w.oldCount + |rows|))
    decreases |rows|
  {
    if rows != [] {
      var n := |rows| - 1;
      var init := rows[..n];
      forall i | 0 <= i < |init|
        ensures StaleRow(p, init[i])
      {
        assert init[i] == rows[i];
      }
      StaleRowsStop(p, init, w);
      var w' := w.(oldCount := w.oldCount + n);
      if w.oldCount + n >= MaxOldCount {
        assert RunRows(p, rows, w) == RunRows(p, init, w);
      } else {
        assert RunRows(p, init, w) == Running(w');
        StaleRowStep(p, rows[n], w');
        assert RunRows(p, rows, w) == RowStep(p, rows[n], w');
      }
    }
  }

  /** One stale row: the counter goes up by one, and the traversal stops when it
      reaches three. */
  lemma StaleRowStep(p: Policy, row: Row, w: Walk)
    requires StaleRow(p, row)
    ensures RowStep(p, row, w) ==
      if w.oldCount + 1 >= MaxOldCount then Stopped(w.(oldCount := w.oldCount + 1), CutoffReached)
      else Running(w.(oldCount := w.oldCount + 1))
  {
  }

  /** The counter is not reset between pages: after a page whose rows did not stop
      the traversal and a successful click, the next page starts from the walk the
      previous page left, counter included. */
  lemma PageBoundaryKeepsCounter(p: Policy, pages: seq<Page>, k: nat, w: Walk)
    requires k < |pages| && pages[k].rows != [] && RunRows(p, pages[k].rows, w).Running?
    requires pages[k].next == NextIndex || pages[k].next == NextGroup
    ensures Crawl(p, pages, k, w) == Crawl(p, pages, k + 1, RunRows(p, pages[k].rows, w).walk)
  {
  }

  /** A page that begins with enough stale rows to bring the counter to three
      stops there, whatever rows follow. */
  lemma StaleOpeningStops(p: Policy, rows: seq<Row>, m: nat, w: Walk)
    requires m <= |rows| && w.oldCount < MaxOldCount <= w.oldCount + m
    requires forall i :: 0 <= i < m ==> StaleRow(p, rows[i])
    ensures RunRows(p, rows, w) == Stopped(w.(oldCount := MaxOldCount), CutoffReached)
  {
    var opening := rows[..m];
    assert forall i :: 0 <= i < |opening| ==> StaleRow(p, opening[i]);
    StaleRowsStop(p, opening, w);
    RunRowsAfterStop(p, opening, rows[m..], w);
    assert opening + rows[m..] == rows;
  }

  /** A stop raised by the rows of the page after a click ends the traversal on
      that page, with that page's walk and reason. */
  lemma StopOnNextPage(p: Policy, pages: seq<Page>, k: nat, w: Walk, w1: Walk, s: Step)
    requires k + 1 < |pages| && pages[k].rows != [] && Clicks(pages[k].next)
    requires RunRows(p, pages[k].rows, w) == Running(w1)
    requires pages[k + 1].rows != [] && RunRows(p, pages[k + 1].rows, w1) == s && s.Stopped?
    ensures Crawl(p, pages, k, w) == Outcome(s.walk, s.reason, k + 2)
  {
    PageBoundaryKeepsCounter(p, pages, k, w);
  }

  /** Stale rows that end one page and stale rows that open the next add up: once
      the counter reaches three on the next page, the traversal stops there. */
  lemma StaleRowsAcrossPages(p: Policy, pages: seq<Page>, w: Walk, m: nat)
    requires |pages| >= 2 && pages[0].rows != [] && Clicks(pages[0].next)
    requires forall i :: 0 <= i < |pages[0].rows| ==> StaleRow(p, pages[0].rows[i])
    requires w.oldCount + |pages[0].rows| < MaxOldCount <= w.oldCount + |pages[0].rows| + m
    requires m <= |pages[1].rows| && forall i :: 0 <= i < m ==> StaleRow(p, pages[1].rows[i])
    ensures Crawl(p, pages, 0, w) == Outcome(w.(oldCount := MaxOldCount), CutoffReached, 2)
  {
    var w1 := w.(oldCount := w.oldCount + |pages[0].rows|);
    StaleRowsStop(p, pages[0].rows, w);
    StaleOpeningStops(p, pages[1].rows, m, w1);
    StopOnNextPage(p, pages, 0, w, w1, Stopped(w.(oldCount := MaxOldCount), CutoffReached));
  }

  // How the traversal ends

  /** Why a page's rows stop the traversal: the cutoff, only when one is set, or a
      known id, only with `stop_on_duplicate`. */
  lemma {:induction false} RunRowsStopReason(p: Policy, rows: seq<Row>, w: Walk)
    ensures var s := RunRows(p, rows, w);
      s.Stopped? ==> (s.reason == CutoffReached && p.cutoff.Some?) || (s.reason == DuplicateFound && p.stopOnDuplicate)
    decreases |rows|
  {
    if rows != [] {
      RunRowsStopReason(p, rows[..|rows| - 1], w);
    }
  }

  predicate Clicks(c: NextControl) {
    c == NextIndex || c == NextGroup
  }

  /** The traversal from page `k` passes each page that has rows, does not stop and
      shows a next control, and ends on the first other page: without rows, last
      page, pagination error, or a stop raised by its rows. `current_page` is one
      more than the index of that page. */
  lemma {:induction false} CrawlEnds(p: Policy, pages: seq<Page>, k: nat, w: Walk)
    requires k <= |pages|
    ensures var o := Crawl(p, pages, k, w); var last := o.currentPage - 1;
      k <= last <= |pages|
      && (forall j :: k <= j < last ==> pages[j].rows != [] && Clicks(pages[j].next))
      && (o.reason == NoRows <==> last == |pages| || pages[last].rows == [])
      && (o.reason == LastPage ==> last < |pages| && pages[last].next == NoNextControl)
      && (o.reason == PaginationError ==> last < |pages| && pages[last].next == PaginationFails)
      && (o.reason == CutoffReached ==> p.cutoff.Some?)
      && (o.reason == DuplicateFound ==> p.stopOnDuplicate)
    decreases |pages| - k
  {
    if k < |pages| && pages[k].rows != [] {
      RunRowsStopReason(p, pages[k].rows, w);
      if RunRows(p, pages[k].rows, w).Running? && Clicks(pages[k].next) {
        CrawlEnds(p, pages, k + 1, RunRows(p, pages[k].rows, w).walk);
      }
    }
  }

  /** From the start: `current_page - 1` successful clicks, each after a page
      with rows; no cutoff means the cutoff never ends the walk, and without
      `stop_on_duplicate` a known id never does. */
  lemma TraversalEnd(p: Policy, pages: seq<Page>, st: StoreState)
    ensures var o := CrawlSpec(p, pages, st);
      1 <= o.currentPage <= |pages| + 1
      && (forall j :: 0 <= j < o.currentPage - 1 ==> pages[j].rows != [] && Clicks(pages[j].next))
      && (p.cutoff.None? ==> o.reason != CutoffReached)
      && (!p.stopOnDuplicate ==> o.reason != DuplicateFound)
  {
    CrawlEnds(p, pages, 0, Walk(st, 0, []));
  }

  /** With `stop_on_duplicate`, a listed row that passes the cutoff test and
      carries a known id ends the traversal; without it only that row is passed
      over. */
  lemma KnownIdRow(p: Policy, row: Row, w: Walk)
    requires Listed(row) && CleanText(row.idText) in w.store.visited
    requires CheckDate(p.cutoff, row.text) == Unchecked || CheckDate(p.cutoff, row.text) == Current
    ensures var w' := if CheckDate(p.cutoff, row.text) == Current then w.(oldCount := 0) else w;
      RowStep(p, row, w) == if p.stopOnDuplicate then Stopped(w', DuplicateFound) else Running(w')
  {
  }

  // What a history run saves

  /** The cleaned ids of the listed rows whose detail page opens, in row order. */
  function OpenedIds(rows: seq<Row>): seq<string> {
    if rows == [] then []
    else
      var r := rows[|rows| - 1];
      OpenedIds(rows[..|rows| - 1]) + (if Listed(r) && r.opens then [CleanText(r.idText)] else [])
  }

  /** The ids in order, each kept at its first occurrence and only when not in `seen`. */
  function FirstSeen(ids: seq<string>, seen: set<string>): seq<string> {
    if ids == [] then []
    else
      var prior := FirstSeen(ids[..|ids| - 1], seen);
      var x := ids[|ids| - 1];
      if x in seen || x in prior then prior else prior + [x]
  }

  /** Without a cutoff and without `stop_on_duplicate` (history mode), a page's
      rows never stop the traversal, and the ids saved are the opened rows' ids
      that were not known, each at its first occurrence, in order. */
  lemma {:induction false} HistoryPageSaves(p: Policy, rows: seq<Row>, w: Walk)
    requires p.cutoff.None? && !p.stopOnDuplicate
    ensures RunRows(p, rows, w).Running?
    ensures RunRows(p, rows, w).walk.saved == w.saved + FirstSeen(OpenedIds(rows), w.store.visited)
    ensures forall x :: (x in RunRows(p, rows, w).walk.store.visited
      <==> x in w.store.visited || x in FirstSeen(OpenedIds(rows), w.store.visited))
    decreases |rows|
  {
    if rows != [] {
      var n := |rows| - 1;
      var r := rows[n];
      HistoryPageSaves(p, rows[..n], w);
      var mid := RunRows(p, rows[..n], w).walk;
      var id := CleanText(r.idText);
      if Listed(r) && r.opens && id !in mid.store.visited {
        StampRecordShape(DetailOf(r.detail), id, CleanText(r.titleText), r.crawledAt);
      }
      assert OpenedIds(rows) == OpenedIds(rows[..n]) + (if Listed(r) && r.opens then [id] else []);
      if Listed(r) && r.opens {
        assert OpenedIds(rows)[..|OpenedIds(rows)| - 1] == OpenedIds(rows[..n]);
      } else {
        assert OpenedIds(rows) == OpenedIds(rows[..n]);
      }
    }
  }

  lemma {:induction false} OpenedIdsAppend(a: seq<Row>, b: seq<Row>)
    ensures OpenedIds(a + b) == OpenedIds(a) + OpenedIds(b)
    decreases |b|
  {
    if b == [] {
      assert a + b == a;
    } else {
      var n := |b| - 1;
      assert (a + b)[..|a + b| - 1] == a + b[..n];
      OpenedIdsAppend(a, b[..n]);
    }
  }

  function Known(ids: seq<string>): set<string> {
    set x | x in ids
  }

  /** First occurrences over two runs: the second run sees the ids the first one
      kept as known. */
  lemma {:induction false} FirstSeenAppend(a: seq<string>, b: seq<string>, seen: set<string>)
    ensures FirstSeen(a + b, seen) == FirstSeen(a, seen) + FirstSeen(b, seen + Known(FirstSeen(a, seen)))
    decreases |b|
  {
    if b == [] {
      assert a + b == a;
    } else {
      var n := |b| - 1;
      assert (a + b)[..|a + b| - 1] == a + b[..n];
      FirstSeenAppend(a, b[..n], seen);
    }
  }

  /** The rows of the pages with indexes `k` up to `n`. */
  function RowsBetween(pages: seq<Page>, k: nat, n: nat): seq<Row>
    requires n <= |pages|
    decreases n - k
  {
    if k >= n then [] else pages[k].rows + RowsBetween(pages, k + 1, n)
  }

  /** The last page index the traversal looked at, or `|pages|` when it ran past
      the given pages. */
  function PagesSeen(pages: seq<Page>, o: Outcome): nat {
    Min(o.currentPage, |pages|)
  }

  /** The saved ids of one page followed by those of the pages after it. */
  lemma SavedCompose(saved: seq<string>, ra: seq<Row>, rb: seq<Row>, v: set<string>, v': set<string>)
    requires v' == v + Known(FirstSeen(OpenedIds(ra), v))
    ensures saved + FirstSeen(OpenedIds(ra), v) + FirstSeen(OpenedIds(rb), v')
         == saved + FirstSeen(OpenedIds(ra + rb), v)
  {
    OpenedIdsAppend(ra, rb);
    FirstSeenAppend(OpenedIds(ra), OpenedIds(rb), v);
  }

  lemma {:induction false} HistoryCrawlSaves(p: Policy, pages: seq<Page>, k: nat, w: Walk)
    requires p.cutoff.None? && !p.stopOnDuplicate && k <= |pages|
    ensures var o := Crawl(p, pages, k, w);
      k <= PagesSeen(pages, o)
      && o.walk.saved == w.saved + FirstSeen(OpenedIds(RowsBetween(pages, k, PagesSeen(pages, o))), w.store.visited)
    decreases |pages| - k
  {
    var o := Crawl(p, pages, k, w);
    if k == |pages| || pages[k].rows == [] {
      assert o == Outcome(w, NoRows, k + 1);
      var m := PagesSeen(pages, o);
      assert RowsBetween(pages, k, m) == [] by {
        if m == k + 1 {
          assert RowsBetween(pages, k, m) == pages[k].rows + RowsBetween(pages, k + 1, m);
        }
      }
      assert w.saved + [] == w.saved;
    } else {
      var rows := pages[k].rows;
      HistoryPageSaves(p, rows, w);
      var w' := RunRows(p, rows, w).walk;
      assert RunRows(p, rows, w) == Running(w');
      var f := FirstSeen(OpenedIds(rows), w.store.visited);
      if Clicks(pages[k].next) {
        assert o == Crawl(p, pages, k + 1, w');
        HistoryCrawlSaves(p, pages, k + 1, w');
        var m := PagesSeen(pages, o);
        assert RowsBetween(pages, k, m) == rows + RowsBetween(pages, k + 1, m);
        assert w'.store.visited == w.store.visited + Known(f);
        SavedCompose(w.saved, rows, RowsBetween(pages, k + 1, m), w.store.visited, w'.store.visited);
      } else {
        assert o == Outcome(w', o.reason, k + 1);
        assert RowsBetween(pages, k, k + 1) == rows + RowsBetween(pages, k + 1, k + 1);
        assert rows + [] == rows;
      }
    }
  }

  /** A history run saves, in order, the first occurrence of every opened row's id
      that the storage did not know, over all pages it looked at. */
  lemma HistorySaves(p: Policy, pages: seq<Page>, st: StoreState)
    requires p.cutoff.None? && !p.stopOnDuplicate
    ensures var o := CrawlSpec(p, pages, st);
      o.walk.saved == FirstSeen(OpenedIds(RowsBetween(pages, 0, PagesSeen(pages, o))), st.visited)
  {
    HistoryCrawlSaves(p, pages, 0, Walk(st, 0, []));
  }

  // What a scheduled run saves

  /** The listed row with index `i` carries a known id: one the storage held
      before the walk, or one saved from an earlier opened row. */
  predicate KnownAt(rows: seq<Row>, seen: set<string>, i: nat)
    requires i < |rows|
  {
    Listed(rows[i]) && CleanText(rows[i].idText) in seen + Known(OpenedIds(rows[..i]))
  }

  function FirstKnownFrom(rows: seq<Row>, seen: set<string>, from: nat): (r: Option<nat>)
    ensures r.Some? ==> from <= r.value < |rows| && KnownAt(rows, seen, r.value)
    ensures forall j :: from <= j < |rows| && (r.None? || j < r.value) ==> !KnownAt(rows, seen, j)
    decreases |rows| - from
  {
    if from >= |rows| then None
    else if KnownAt(rows, seen, from) then Some(from)
    else FirstKnownFrom(rows, seen, from + 1)
  }

  /** The index of the first listed row with a known id, if there is one. */
  function FirstKnown(rows: seq<Row>, seen: set<string>): (r: Option<nat>)
    ensures r.Some? ==> r.value < |rows| && KnownAt(rows, seen, r.value)
    ensures forall j :: 0 <= j < |rows| && (r.None? || j < r.value) ==> !KnownAt(rows, seen, j)
  {
    FirstKnownFrom(rows, seen, 0)
  }

  /** The rows before the first listed row with a known id. */
  function UpToKnown(rows: seq<Row>, seen: set<string>): seq<Row> {
    match FirstKnown(rows, seen)
    case Some(i) => rows[..i]
    case None => rows
  }

  /** The first known row is the index that the characterisation names. */
  lemma FirstKnownIs(rows: seq<Row>, seen: set<string>, r: Option<nat>)
    requires r.Some? ==> r.value < |rows| && KnownAt(rows, seen, r.value)
    requires forall j :: 0 <= j < |rows| && (r.None? || j < r.value) ==> !KnownAt(rows, seen, j)
    ensures FirstKnown(rows, seen) == r
  {
  }

  lemma KnownAppend(a: seq<string>, b: seq<string>)
    ensures Known(a + b) == Known(a) + Known(b)
  {
  }

  /** Whether a row is known depends only on the rows before it. */
  lemma KnownAtPrefix(rows: seq<Row>, m: nat, seen: set<string>, j: nat)
    requires j < m <= |rows|
    ensures KnownAt(rows, seen, j) <==> KnownAt(rows[..m], seen, j)
  {
    assert rows[..m][..j] == rows[..j];
  }

  /** A row after `a` is known in `a + b` exactly when it is known in `b` with the
      ids opened in `a` added to the known ones. */
  lemma KnownAtShift(a: seq<Row>, b: seq<Row>, seen: set<string>, j: nat)
    requires j < |b|
    ensures KnownAt(a + b, seen, |a| + j) <==> KnownAt(b, seen + Known(OpenedIds(a)), j)
  {
    assert (a + b)[..|a| + j] == a + b[..j];
    assert (a + b)[|a| + j] == b[j];
    OpenedIdsAppend(a, b[..j]);
    KnownAppend(OpenedIds(a), OpenedIds(b[..j]));
  }

  /** An index found in a list, as an index into that list with `d` rows put in
      front of it. */
  function ShiftIndex(f: Option<nat>, d: nat): (r: Option<nat>)
    ensures r.Some? <==> f.Some?
    ensures r.Some? ==> r.value - d == f.value
  {
    match f
    case Some(i) => Some(d + i)
    case None => None
  }

  /** Searching `a + b` from a row of `b` is searching `b`, with the ids opened in
      `a` known. */
  lemma {:induction false} FirstKnownFromShift(a: seq<Row>, b: seq<Row>, seen: set<string>, i: nat)
    requires i <= |b|
    ensures FirstKnownFrom(a + b, seen, |a| + i)
         == ShiftIndex(FirstKnownFrom(b, seen + Known(OpenedIds(a)), i), |a|)
    decreases |b| - i
  {
    if i < |b| {
      FirstKnownFromStep(a, b, seen, i);
      if FirstKnownFrom(b, seen + Known(OpenedIds(a)), i) != Some(i) {
        FirstKnownFromShift(a, b, seen, i + 1);
      }
    } else {
      assert FirstKnownFrom(b, seen + Known(OpenedIds(a)), i) == None;
      assert FirstKnownFrom(a + b, seen, |a| + i) == None;
    }
  }

  /** One step of both searches: the row `i` of `b` and the row `|a| + i` of
      `a + b` are both known or both not. */
  lemma FirstKnownFromStep(a: seq<Row>, b: seq<Row>, seen: set<string>, i: nat)
    requires i < |b|
    ensures FirstKnownFrom(b, seen + Known(OpenedIds(a)), i) == Some(i)
      ==> FirstKnownFrom(a + b, seen, |a| + i) == Some(|a| + i)
    ensures FirstKnownFrom(b, seen + Known(OpenedIds(a)), i) != Some(i) ==>
      FirstKnownFrom(b, seen + Known(OpenedIds(a)), i) == FirstKnownFrom(b, seen + Known(OpenedIds(a)), i + 1)
      && FirstKnownFrom(a + b, seen, |a| + i) == FirstKnownFrom(a + b, seen, |a| + (i + 1))
  {
    KnownAtShift(a, b, seen, i);
  }

  /** Rows of `a` that are not known do not stop the search in `a + b`. */
  lemma {:induction false} FirstKnownFromSkip(a: seq<Row>, b: seq<Row>, seen: set<string>, i: nat)
    requires i <= |a|
    requires forall j :: i <= j < |a| ==> !KnownAt(a, seen, j)
    ensures FirstKnownFrom(a + b, seen, i) == FirstKnownFrom(a + b, seen, |a|)
    decreases |a| - i
  {
    if i < |a| {
      assert (a + b)[..|a|] == a;
      KnownAtPrefix(a + b, |a|, seen, i);
      FirstKnownFromSkip(a, b, seen, i + 1);
    }
  }

  /** When `a` holds no known row, the search in `a + b` continues in `b`, with the
      ids opened in `a` known. */
  lemma FirstKnownAppend(a: seq<Row>, b: seq<Row>, seen: set<string>)
    requires FirstKnown(a, seen).None?
    ensures FirstKnown(a + b, seen) == ShiftIndex(FirstKnown(b, seen + Known(OpenedIds(a))), |a|)
  {
    FirstKnownFromSkip(a, b, seen, 0);
    FirstKnownFromShift(a, b, seen, 0);
    assert |a| + 0 == |a|;
  }

  /** The rows before the first known row, over two lists the first of which
      holds no known row. */
  lemma UpToKnownAppend(a: seq<Row>, b: seq<Row>, seen: set<string>)
    requires FirstKnown(a, seen).None?
    ensures UpToKnown(a + b, seen) == a + UpToKnown(b, seen + Known(OpenedIds(a)))
  {
    var f := FirstKnown(b, seen + Known(OpenedIds(a)));
    FirstKnownAppend(a, b, seen);
    if f.Some? {
      assert (a + b)[..|a| + f.value] == a + b[..f.value];
    }
  }

  /** One more row: the first known row of the longer list is that of the shorter
      one, or else the new row when it is known. */
  lemma FirstKnownSnoc(rows: seq<Row>, seen: set<string>)
    requires rows != []
    ensures var n := |rows| - 1;
      var f := FirstKnown(rows[..n], seen);
      FirstKnown(rows, seen) == if f.Some? then f else if KnownAt(rows, seen, n) then Some(n) else None
  {
    var n := |rows| - 1;
    var f := FirstKnown(rows[..n], seen);
    forall j | 0 <= j < n
      ensures KnownAt(rows, seen, j) <==> KnownAt(rows[..n], seen, j)
    {
      KnownAtPrefix(rows, n, seen, j);
    }
    FirstKnownIs(rows, seen, if f.Some? then f else if KnownAt(rows, seen, n) then Some(n) else None);
  }

  /** With `stop_on_duplicate` and no cutoff (the scheduled modes), a page's rows
      stop the traversal exactly when a listed row carries a known id, and only
      with `DuplicateFound`; the ids saved are those of the opened rows before it,
      in row order. */
  lemma {:induction false} ScheduledPageSaves(p: Policy, rows: seq<Row>, w: Walk)
    requires p.cutoff.None? && p.stopOnDuplicate
    ensures var s := RunRows(p, rows, w);
      var before := UpToKnown(rows, w.store.visited);
      (s.Stopped? <==> FirstKnown(rows, w.store.visited).Some?)
      && (s.Stopped? ==> s.reason == DuplicateFound)
      && s.walk.saved == w.saved + OpenedIds(before)
      && s.walk.store.visited == w.store.visited + Known(OpenedIds(before))
    decreases |rows|
  {
    var v := w.store.visited;
    if rows == [] {
      assert UpToKnown(rows, v) == [];
    } else {
      var n := |rows| - 1;
      var init, r := rows[..n], rows[n];
      assert rows == init + [r];
      ScheduledPageSaves(p, init, w);
      if FirstKnown(init, v).Some? {
        ScheduledPageAfterStop(p, init, r, w);
      } else {
        ScheduledPageNext(p, init, r, w);
      }
    }
  }

  /** A page whose first rows already stopped the traversal: the next row changes
      nothing. */
  lemma ScheduledPageAfterStop(p: Policy, init: seq<Row>, r: Row, w: Walk)
    requires FirstKnown(init, w.store.visited).Some?
    requires RunRows(p, init, w).Stopped?
    requires RunRows(p, init, w).walk.saved == w.saved + OpenedIds(UpToKnown(init, w.store.visited))
    requires RunRows(p, init, w).walk.store.visited
          == w.store.visited + Known(OpenedIds(UpToKnown(init, w.store.visited)))
    ensures var rows := init + [r];
      var s := RunRows(p, rows, w);
      RunRows(p, rows, w) == RunRows(p, init, w)
      && FirstKnown(rows, w.store.visited) == FirstKnown(init, w.store.visited)
      && UpToKnown(rows, w.store.visited) == UpToKnown(init, w.store.visited)
  {
    var rows := init + [r];
    var v := w.store.visited;
    assert rows[..|rows| - 1] == init;
    FirstKnownSnoc(rows, v);
    var i := FirstKnown(init, v).value;
    assert rows[..i] == init[..i];
  }

  /** A page whose first rows hold no known id: the next row decides. */
  lemma ScheduledPageNext(p: Policy, init: seq<Row>, r: Row, w: Walk)
    requires p.cutoff.None? && p.stopOnDuplicate
    requires FirstKnown(init, w.store.visited).None?
    requires RunRows(p, init, w).Running?
    requires RunRows(p, init, w).walk.saved == w.saved + OpenedIds(init)
    requires RunRows(p, init, w).walk.store.visited == w.store.visited + Known(OpenedIds(init))
    ensures var rows := init + [r];
      var s := RunRows(p, rows, w);
      var before := UpToKnown(rows, w.store.visited);
      (s.Stopped? <==> FirstKnown(rows, w.store.visited).Some?)
      && (s.Stopped? ==> s.reason == DuplicateFound)
      && s.walk.saved == w.saved + OpenedIds(before)
      && s.walk.store.visited == w.store.visited + Known(OpenedIds(before))
  {
    var rows := init + [r];
    var v := w.store.visited;
    var n := |init|;
    assert rows[..n] == init;
    assert rows[n] == r;
    var mid := RunRows(p, init, w).walk;
    var id := CleanText(r.idText);
    var newIds := if Listed(r) && r.opens then [id] else [];
    assert RunRows(p, rows, w) == RowStep(p, r, mid);
    ScheduledRowStep(p, r, mid);
    FirstKnownSnoc(rows, v);
    assert KnownAt(rows, v, n) <==> Listed(r) && id in mid.store.visited;
    assert OpenedIds(rows) == OpenedIds(init) + newIds;
    KnownAppend(OpenedIds(init), newIds);
  }

  /** One row of a scheduled run: a listed row with a known id stops it, and a
      listed row with a new id that opens is saved. */
  lemma ScheduledRowStep(p: Policy, r: Row, w: Walk)
    requires p.cutoff.None? && p.stopOnDuplicate
    ensures var s := RowStep(p, r, w);
      var id := CleanText(r.idText);
      var newIds := if Listed(r) && r.opens then [id] else [];
      (s.Stopped? <==> Listed(r) && id in w.store.visited)
      && (s.Stopped? ==> s == Stopped(w, DuplicateFound))
      && (s.Running? ==>
            s.walk.saved == w.saved + newIds && s.walk.store.visited == w.store.visited + Known(newIds))
  {
    var id := CleanText(r.idText);
    if Listed(r) && r.opens && id !in w.store.visited {
      StampRecordShape(DetailOf(r.detail), id, CleanText(r.titleText), r.crawledAt);
    }
  }

  /** The saved ids of one page with no known row followed by those of the pages
      after it. */
  lemma ScheduledCompose(saved: seq<string>, ra: seq<Row>, rb: seq<Row>, v: set<string>)
    requires FirstKnown(ra, v).None?
    ensures saved + OpenedIds(ra) + OpenedIds(UpToKnown(rb, v + Known(OpenedIds(ra))))
         == saved + OpenedIds(UpToKnown(ra + rb, v))
  {
    UpToKnownAppend(ra, rb, v);
    OpenedIdsAppend(ra, UpToKnown(rb, v + Known(OpenedIds(ra))));
  }

  /** What a scheduled traversal from page `k` with state `w` achieves, stated
      for the rows of the pages it looked at: the ids saved are those of the
      opened rows before the first listed known-id row, it ends with
      `DuplicateFound` exactly when there is such a row, and then on that row's
      page. */
  ghost predicate ScheduledOutcome(pages: seq<Page>, k: nat, w: Walk, o: Outcome) {
    var rows := RowsBetween(pages, k, PagesSeen(pages, o));
    k <= PagesSeen(pages, o)
    && o.walk.saved == w.saved + OpenedIds(UpToKnown(rows, w.store.visited))
    && (o.reason == DuplicateFound <==> FirstKnown(rows, w.store.visited).Some?)
    && (o.reason == DuplicateFound ==>
          (k < o.currentPage <= |pages|
           && |RowsBetween(pages, k, o.currentPage - 1)| <= FirstKnown(rows, w.store.visited).value))
  }

  lemma {:induction false} ScheduledCrawlSaves(p: Policy, pages: seq<Page>, k: nat, w: Walk)
    requires p.cutoff.None? && p.stopOnDuplicate && k <= |pages|
    ensures ScheduledOutcome(pages, k, w, Crawl(p, pages, k, w))
    decreases |pages| - k
  {
    var o := Crawl(p, pages, k, w);
    var v := w.store.visited;
    if k == |pages| || pages[k].rows == [] {
      assert o == Outcome(w, NoRows, k + 1);
      var m := PagesSeen(pages, o);
      assert RowsBetween(pages, k, m) == [] by {
        if m == k + 1 {
          assert RowsBetween(pages, k, m) == pages[k].rows + RowsBetween(pages, k + 1, m);
        }
      }
      assert UpToKnown([], v) == [];
      assert w.saved + [] == w.saved;
    } else {
      var rows := pages[k].rows;
      var s := RunRows(p, rows, w);
      ScheduledPageSaves(p, rows, w);
      if s.Running? && Clicks(pages[k].next) {
        var w' := s.walk;
        assert o == Crawl(p, pages, k + 1, w');
        ScheduledCrawlSaves(p, pages, k + 1, w');
        assert UpToKnown(rows, v) == rows;
        ScheduledClickCompose(pages, k, w, w', o);
      } else {
        assert o.walk == s.walk && o.currentPage == k + 1;
        assert o.reason == DuplicateFound <==> s.Stopped?;
        ScheduledOnePage(pages, k, w, s, o);
      }
    }
  }

  /** The outcome when the traversal ends on page `k`, stated for the rows from
      that page. */
  lemma ScheduledOnePage(pages: seq<Page>, k: nat, w: Walk, s: Step, o: Outcome)
    requires k < |pages|
    requires o.walk == s.walk && o.currentPage == k + 1
    requires o.reason == DuplicateFound <==> s.Stopped?
    requires var before := UpToKnown(pages[k].rows, w.store.visited);
      (s.Stopped? <==> FirstKnown(pages[k].rows, w.store.visited).Some?)
      && s.walk.saved == w.saved + OpenedIds(before)
    ensures ScheduledOutcome(pages, k, w, o)
  {
    var rows := pages[k].rows;
    assert PagesSeen(pages, o) == k + 1;
    assert RowsBetween(pages, k, k + 1) == rows + RowsBetween(pages, k + 1, k + 1);
    assert rows + [] == rows;
    assert RowsBetween(pages, k, k) == [];
  }

  /** The outcome after a click, stated for the rows from page `k`: joins the
      facts about page `k` with those about the pages after it. */
  lemma ScheduledClickCompose(pages: seq<Page>, k: nat, w: Walk, w': Walk, o: Outcome)
    requires k < |pages| && pages[k].rows != []
    requires FirstKnown(pages[k].rows, w.store.visited).None?
    requires w'.saved == w.saved + OpenedIds(pages[k].rows)
    requires w'.store.visited == w.store.visited + Known(OpenedIds(pages[k].rows))
    requires ScheduledOutcome(pages, k + 1, w', o)
    ensures ScheduledOutcome(pages, k, w, o)
  {
    var v := w.store.visited;
    var rows := pages[k].rows;
    var m := PagesSeen(pages, o);
    var rest := RowsBetween(pages, k + 1, m);
    assert RowsBetween(pages, k, m) == rows + rest;
    ScheduledCompose(w.saved, rows, rest, v);
    FirstKnownAppend(rows, rest, v);
    if o.reason == DuplicateFound {
      assert RowsBetween(pages, k, o.currentPage - 1) == rows + RowsBetween(pages, k + 1, o.currentPage - 1);
    }
  }

  /** An interval or cron run saves, in row order, the ids of the opened rows
      before the first listed row whose id is known (held by the storage, or
      saved earlier in the run). It ends with `DuplicateFound` exactly when there
      is such a row among the pages it looked at, and then on that row's page,
      without a further click. */
  lemma ScheduledSaves(p: Policy, pages: seq<Page>, st: StoreState)
    requires p.cutoff.None? && p.stopOnDuplicate
    ensures var o := CrawlSpec(p, pages, st);
      var rows := RowsBetween(pages, 0, PagesSeen(pages, o));
      o.walk.saved == OpenedIds(UpToKnown(rows, st.visited))
      && (o.reason == DuplicateFound <==> FirstKnown(rows, st.visited).Some?)
      && (o.reason == DuplicateFound ==>
            (0 < o.currentPage <= |pages|
             && |RowsBetween(pages, 0, o.currentPage - 1)| <= FirstKnown(rows, st.visited).value))
  {
    ScheduledCrawlSaves(p, pages, 0, Walk(st, 0, []));
    var o := CrawlSpec(p, pages, st);
    assert [] + o.walk.saved == o.walk.saved;
  }
}
