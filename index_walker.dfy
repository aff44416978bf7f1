/**
 * The page-by-page walk of `get_books_list` (gutenberg/crawl.py): the set of processed IDs,
 * which listings get scheduled, how the results are appended and how the next page is chosen.
 * The HTML parser of an index page is a parameter.
 */
module IndexWalker {
  import opened Wrappers
  import opened Strings
  import opened Transport
  import opened Locator
  import opened Bibliography
  import opened Orchestrator

  const StartUrl := "https://www.gutenberg.org/ebooks/search/?sort_order=downloads&languages=en"

  /** The `li.booklink` entries of a page and the `href` of its "Next" link, if any. */
  datatype Page = Page(listings: seq<Listing>, next: Option<string>)

  type PageParser = string -> Page

  /** The IDs of some listings. */
  function Ids(listings: seq<Listing>): set<string> {
    if listings == [] then {} else Ids(listings[..|listings| - 1]) + {BookId(listings[|listings| - 1].href)}
  }

  lemma {:induction false} InIds(listings: seq<Listing>, id: string)
    ensures id in Ids(listings) <==> exists i :: 0 <= i < |listings| && BookId(listings[i].href) == id
  {
    if listings != [] {
      var front := listings[..|listings| - 1];
      InIds(front, id);
      if id in Ids(front) {
        var i :| 0 <= i < |front| && BookId(front[i].href) == id;
        assert listings[i] == front[i];
      }
      forall i | 0 <= i < |front| ensures listings[i] == front[i] { }
    }
  }

  predicate DistinctIds(listings: seq<Listing>) {
    forall i, j :: 0 <= i < j < |listings| ==> BookId(listings[i].href) != BookId(listings[j].href)
  }

  /** The IDs of some records. */
  function RecordIds(books: seq<BookRecord>): set<string> {
    if books == [] then {} else RecordIds(books[..|books| - 1]) + {books[|books| - 1].id}
  }

  lemma {:induction false} InRecordIds(books: seq<BookRecord>, id: string)
    ensures id in RecordIds(books) <==> exists i :: 0 <= i < |books| && books[i].id == id
  {
    if books != [] {
      var front := books[..|books| - 1];
      InRecordIds(front, id);
      if id in RecordIds(front) {
        var i :| 0 <= i < |front| && front[i].id == id;
        assert books[i] == front[i];
      }
      forall i | 0 <= i < |front| ensures books[i] == front[i] { }
    }
  }

  predicate DistinctRecords(books: seq<BookRecord>) {
    forall i, j :: 0 <= i < j < |books| ==> books[i].id != books[j].id
  }

  /** The listings scheduled for download, and the processed set afterwards. */
  datatype Scheduled = Scheduled(tasks: seq<Listing>, processed: set<string>)

  /** The scheduling loop: a listing is scheduled only if its ID is new, and the ID is marked at once. */
  function Schedule(processed: set<string>, listings: seq<Listing>): Scheduled {
    if listings == [] then Scheduled([], processed)
    else
      var s := Schedule(processed, listings[..|listings| - 1]);
      var listing := listings[|listings| - 1];
      var id := BookId(listing.href);
      if id in s.processed then s else Scheduled(s.tasks + [listing], s.processed + {id})
  }

  /** Afterwards the processed set is the old one plus every ID on the page. */
  lemma {:induction false} ScheduleProcessed(processed: set<string>, listings: seq<Listing>)
    ensures Schedule(processed, listings).processed == processed + Ids(listings)
  {
    if listings != [] {
      var front := listings[..|listings| - 1];
      var x := listings[|listings| - 1];
      ScheduleProcessed(processed, front);
    }
  }

  /** The ID of every listing is among the IDs of the listings. */
  lemma IdInIds(listings: seq<Listing>, i: nat)
    requires i < |listings|
    ensures BookId(listings[i].href) in Ids(listings)
  {
    InIds(listings, BookId(listings[i].href));
  }

  /** Appending a listing with a new ID keeps the IDs distinct. */
  lemma DistinctSnoc(tasks: seq<Listing>, x: Listing)
    requires DistinctIds(tasks) && BookId(x.href) !in Ids(tasks)
    ensures DistinctIds(tasks + [x])
  {
    var t := tasks + [x];
    forall i, j | 0 <= i < j < |t| ensures BookId(t[i].href) != BookId(t[j].href) {
      assert t[i] == tasks[i];
      if j == |tasks| {
        IdInIds(tasks, i);
      } else {
        assert t[j] == tasks[j];
      }
    }
  }

  /** The scheduled listings have pairwise distinct IDs. */
  lemma {:induction false} ScheduleDistinct(processed: set<string>, listings: seq<Listing>)
    ensures DistinctIds(Schedule(processed, listings).tasks)
  {
    if listings != [] {
      var front := listings[..|listings| - 1];
      var x := listings[|listings| - 1];
      ScheduleDistinct(processed, front);
      ScheduleIds(processed, front);
      ScheduleProcessed(processed, front);
      var s := Schedule(processed, front);
      if BookId(x.href) !in s.processed {
        DistinctSnoc(s.tasks, x);
      }
    }
  }

  /** The IDs of the scheduled listings are exactly the page's IDs that were not processed before. */
  lemma {:induction false} ScheduleIds(processed: set<string>, listings: seq<Listing>)
    ensures Ids(Schedule(processed, listings).tasks) == Ids(listings) - processed
  {
    if listings != [] {
      var front := listings[..|listings| - 1];
      var x := listings[|listings| - 1];
      var id := BookId(x.href);
      ScheduleIds(processed, front);
      ScheduleProcessed(processed, front);
      var s := Schedule(processed, front);
      assert Ids(listings) == Ids(front) + {id};
      if id !in s.processed {
        var tasks := s.tasks + [x];
        assert tasks[..|s.tasks|] == s.tasks;
        assert Ids(tasks) == Ids(s.tasks) + {id};
        assert Schedule(processed, listings).tasks == tasks;
      } else {
        assert id in processed || id in Ids(front);
        assert Schedule(processed, listings).tasks == s.tasks;
      }
    }
  }

  /** The scheduled listings keep the page's order. */
  lemma {:induction false} ScheduleKeepsOrder(processed: set<string>, listings: seq<Listing>)
    ensures IsSubsequence(Schedule(processed, listings).tasks, listings)
  {
    if listings != [] {
      var front := listings[..|listings| - 1];
      var x := listings[|listings| - 1];
      ScheduleKeepsOrder(processed, front);
      var s := Schedule(processed, front);
      if BookId(x.href) !in s.processed {
        var tasks := s.tasks + [x];
        assert tasks[..|tasks| - 1] == s.tasks;
        assert tasks[|tasks| - 1] == x;
      }
    }
  }

  /**
   * Scheduling one more listing: it is appended exactly when its ID is neither processed before
   * nor on the page before it, so of a repeated ID the first listing is the one kept.
   */
  lemma ScheduleSnoc(processed: set<string>, listings: seq<Listing>, x: Listing)
    ensures Schedule(processed, listings + [x]).tasks ==
            Schedule(processed, listings).tasks + (if BookId(x.href) in processed + Ids(listings) then [] else [x])
  {
    assert (listings + [x])[..|listings|] == listings;
    ScheduleProcessed(processed, listings);
  }

  /** Every scheduling fact at once. */
  lemma ScheduleSpec(processed: set<string>, listings: seq<Listing>)
    ensures var s := Schedule(processed, listings);
      && s.processed == processed + Ids(listings)
      && IsSubsequence(s.tasks, listings)
      && DistinctIds(s.tasks)
      && Ids(s.tasks) == Ids(listings) - processed
  {
    ScheduleProcessed(processed, listings);
    ScheduleDistinct(processed, listings);
    ScheduleIds(processed, listings);
    ScheduleKeepsOrder(processed, listings);
  }

  /** `[result for result in results if result]`, with the results in task order. */
  function Results(net: Network, parse: BibParser, tasks: seq<Listing>): seq<BookRecord> {
    if tasks == [] then []
    else
      Results(net, parse, tasks[..|tasks| - 1]) +
      match RecordFor(net, parse, tasks[|tasks| - 1])
      case Some(r) => [r]
      case None => []
  }

  /** Every record comes from a task, and there are no more records than tasks. */
  lemma {:induction false} ResultsFromTasks(net: Network, parse: BibParser, tasks: seq<Listing>)
    ensures var books := Results(net, parse, tasks);
      RecordIds(books) <= Ids(tasks) && |books| <= |tasks|
  {
    if tasks != [] {
      var front := tasks[..|tasks| - 1];
      var x := tasks[|tasks| - 1];
      ResultsFromTasks(net, parse, front);
      var prior := Results(net, parse, front);
      assert Ids(tasks) == Ids(front) + {BookId(x.href)};
      match RecordFor(net, parse, x)
      case Some(r) =>
        RecordIdIsBookId(net, parse, x);
        var books := prior + [r];
        assert Results(net, parse, tasks) == books;
        assert books[..|prior|] == prior;
        assert RecordIds(books) == RecordIds(prior) + {r.id};
      case None =>
        assert Results(net, parse, tasks) == prior;
    }
  }

  /** Dropping the last of distinct listings keeps them distinct, and its ID is not among the rest. */
  lemma DistinctFront(tasks: seq<Listing>)
    requires tasks != [] && DistinctIds(tasks)
    ensures var front := tasks[..|tasks| - 1];
      DistinctIds(front) && BookId(tasks[|tasks| - 1].href) !in Ids(front)
  {
    var front := tasks[..|tasks| - 1];
    var id := BookId(tasks[|tasks| - 1].href);
    forall i, j | 0 <= i < j < |front| ensures BookId(front[i].href) != BookId(front[j].href) {
      assert front[i] == tasks[i] && front[j] == tasks[j];
    }
    InIds(front, id);
    forall i | 0 <= i < |front| ensures BookId(front[i].href) != id {
      assert front[i] == tasks[i];
    }
  }

  /** Appending a record with a new ID keeps the records' IDs distinct. */
  lemma DistinctRecordSnoc(books: seq<BookRecord>, r: BookRecord)
    requires DistinctRecords(books) && r.id !in RecordIds(books)
    ensures DistinctRecords(books + [r])
  {
    var all := books + [r];
    forall i, j | 0 <= i < j < |all| ensures all[i].id != all[j].id {
      assert all[i] == books[i];
      if j == |books| {
        InRecordIds(books, books[i].id);
      } else {
        assert all[j] == books[j];
      }
    }
  }

  /** When the tasks' IDs are distinct, so are the records'. */
  lemma {:induction false} ResultsDistinct(net: Network, parse: BibParser, tasks: seq<Listing>)
    requires DistinctIds(tasks)
    ensures DistinctRecords(Results(net, parse, tasks))
  {
    if tasks != [] {
      var front := tasks[..|tasks| - 1];
      var x := tasks[|tasks| - 1];
      DistinctFront(tasks);
      ResultsDistinct(net, parse, front);
      ResultsFromTasks(net, parse, front);
      var prior := Results(net, parse, front);
      match RecordFor(net, parse, x)
      case Some(r) =>
        RecordIdIsBookId(net, parse, x);
        assert Results(net, parse, tasks) == prior + [r];
        DistinctRecordSnoc(prior, r);
      case None =>
        assert Results(net, parse, tasks) == prior;
    }
  }

  /** Every record comes from a scheduled task, and when the tasks' IDs are distinct so are the records'. */
  lemma ResultsSpec(net: Network, parse: BibParser, tasks: seq<Listing>)
    requires DistinctIds(tasks)
    ensures var books := Results(net, parse, tasks);
      && RecordIds(books) <= Ids(tasks)
      && DistinctRecords(books)
      && |books| <= |tasks|
  {
    ResultsFromTasks(net, parse, tasks);
    ResultsDistinct(net, parse, tasks);
  }

  /** The variables of the `while True` loop: `processed_books`, `books`, `index_url`, and whether it broke out. */
  datatype CrawlState = CrawlState(processed: set<string>, books: seq<BookRecord>, indexUrl: string, finished: bool)

  /** One iteration of the `while True` loop. */
  function NextState(s: CrawlState, net: Network, parsePage: PageParser, parse: BibParser): CrawlState {
    var text := Fetched(net, s.indexUrl);
    if s.finished || !HasText(text) then s
    else
      var page := parsePage(text.value);
      if page.listings == [] then s.(finished := true)
      else
        var scheduled := Schedule(s.processed, page.listings);
        var books := s.books + Results(net, parse, scheduled.tasks);
        match page.next
        case Some(href) => CrawlState(scheduled.processed, books, Host + href, false)
        case None => CrawlState(scheduled.processed, books, s.indexUrl, true)
  }

  /** The listings one iteration schedules for download. */
  function StepTasks(s: CrawlState, net: Network, parsePage: PageParser): seq<Listing> {
    var text := Fetched(net, s.indexUrl);
    if s.finished || !HasText(text) || parsePage(text.value).listings == [] then []
    else Schedule(s.processed, parsePage(text.value).listings).tasks
  }

  /**
   * How an iteration ends: a failed or empty index fetch changes nothing (the same URL is
   * fetched again), a page without listings stops, a page without "Next" stops after it is
   * processed, and otherwise the next URL is the site root followed by the link.
   */
  lemma Pagination(s: CrawlState, net: Network, parsePage: PageParser, parse: BibParser)
    requires !s.finished
    ensures var text := Fetched(net, s.indexUrl);
      var s' := NextState(s, net, parsePage, parse);
      && (!HasText(text) ==> s' == s)
      && (HasText(text) && parsePage(text.value).listings == [] ==>
            s' == s.(finished := true))
      && (HasText(text) && parsePage(text.value).listings != [] ==>
            var page := parsePage(text.value);
            && s'.processed == s.processed + Ids(page.listings)
            && s'.books == s.books + Results(net, parse, StepTasks(s, net, parsePage))
            && (page.next.Some? ==> !s'.finished && s'.indexUrl == Host + page.next.value)
            && (page.next.None? ==> s'.finished && s'.indexUrl == s.indexUrl))
  {
    var text := Fetched(net, s.indexUrl);
    if HasText(text) && parsePage(text.value).listings != [] {
      ScheduleSpec(s.processed, parsePage(text.value).listings);
    }
  }

  /** Every record was scheduled, and no two records share an ID. */
  ghost predicate Consistent(s: CrawlState) {
    RecordIds(s.books) <= s.processed && DistinctRecords(s.books)
  }

  lemma {:induction false} RecordIdsAppend(a: seq<BookRecord>, b: seq<BookRecord>)
    ensures RecordIds(a + b) == RecordIds(a) + RecordIds(b)
  {
    if b == [] {
      assert a + b == a;
    } else {
      RecordIdsAppend(a, b[..|b| - 1]);
      assert (a + b)[..|a + b| - 1] == a + b[..|b| - 1];
    }
  }

  lemma DistinctRecordsConcat(a: seq<BookRecord>, b: seq<BookRecord>)
    requires DistinctRecords(a) && DistinctRecords(b) && RecordIds(a) !! RecordIds(b)
    ensures DistinctRecords(a + b)
  {
    var all := a + b;
    forall i, j | 0 <= i < j < |all| ensures all[i].id != all[j].id {
      if j >= |a| {
        assert all[j] == b[j - |a|];
        InRecordIds(b, all[j].id);
        if i < |a| {
          assert all[i] == a[i];
          InRecordIds(a, all[i].id);
        } else {
          assert all[i] == b[i - |a|];
        }
      } else {
        assert all[i] == a[i] && all[j] == a[j];
      }
    }
  }

  lemma StepKeepsConsistent(s: CrawlState, net: Network, parsePage: PageParser, parse: BibParser)
    requires Consistent(s)
    ensures Consistent(NextState(s, net, parsePage, parse))
  {
    var text := Fetched(net, s.indexUrl);
    if !s.finished && HasText(text) && parsePage(text.value).listings != [] {
      var listings := parsePage(text.value).listings;
      var tasks := Schedule(s.processed, listings).tasks;
      ScheduleSpec(s.processed, listings);
      ResultsSpec(net, parse, tasks);
      var added := Results(net, parse, tasks);
      var books := s.books + added;
      RecordIdsAppend(s.books, added);
      DistinctRecordsConcat(s.books, added);
      var s' := NextState(s, net, parsePage, parse);
      assert s'.books == books && s'.processed == s.processed + Ids(listings);
    }
  }

  /** At most `fuel` iterations, stopping early when the loop breaks. */
  function RunFor(s: CrawlState, fuel: nat, net: Network, parsePage: PageParser, parse: BibParser): CrawlState
    decreases fuel
  {
    if fuel == 0 || s.finished then s
    else RunFor(NextState(s, net, parsePage, parse), fuel - 1, net, parsePage, parse)
  }

  /** Everything those iterations schedule, in order. */
  function RunTasks(s: CrawlState, fuel: nat, net: Network, parsePage: PageParser, parse: BibParser): seq<Listing>
    decreases fuel
  {
    if fuel == 0 || s.finished then []
    else StepTasks(s, net, parsePage) + RunTasks(NextState(s, net, parsePage, parse), fuel - 1, net, parsePage, parse)
  }

  lemma StepTasksSpec(s: CrawlState, net: Network, parsePage: PageParser, parse: BibParser)
    ensures var tasks := StepTasks(s, net, parsePage);
      && DistinctIds(tasks)
      && Ids(tasks) !! s.processed
      && Ids(tasks) <= NextState(s, net, parsePage, parse).processed
      && s.processed <= NextState(s, net, parsePage, parse).processed
  {
    var text := Fetched(net, s.indexUrl);
    if !s.finished && HasText(text) && parsePage(text.value).listings != [] {
      ScheduleSpec(s.processed, parsePage(text.value).listings);
    }
  }

  lemma {:induction false} IdsAppend(a: seq<Listing>, b: seq<Listing>)
    ensures Ids(a + b) == Ids(a) + Ids(b)
  {
    if b == [] {
      assert a + b == a;
    } else {
      IdsAppend(a, b[..|b| - 1]);
      assert (a + b)[..|a + b| - 1] == a + b[..|b| - 1];
    }
  }

  lemma DistinctConcat(a: seq<Listing>, b: seq<Listing>)
    requires DistinctIds(a) && DistinctIds(b) && Ids(a) !! Ids(b)
    ensures DistinctIds(a + b)
  {
    var all := a + b;
    forall i, j | 0 <= i < j < |all| ensures BookId(all[i].href) != BookId(all[j].href) {
      if j >= |a| {
        assert all[j] == b[j - |a|];
        IdInIds(b, j - |a|);
        if i < |a| {
          assert all[i] == a[i];
          IdInIds(a, i);
        } else {
          assert all[i] == b[i - |a|];
        }
      } else {
        assert all[i] == a[i] && all[j] == a[j];
      }
    }
  }

  /**
   * Over any number of iterations, no ID is scheduled twice, none that was processed at the
   * start is scheduled again, and every scheduled ID ends up processed.
   */
  lemma {:induction false} AtMostOncePerRun(s: CrawlState, fuel: nat, net: Network, parsePage: PageParser, parse: BibParser)
    ensures var tasks := RunTasks(s, fuel, net, parsePage, parse);
      var last := RunFor(s, fuel, net, parsePage, parse);
      && DistinctIds(tasks)
      && Ids(tasks) !! s.processed
      && s.processed + Ids(tasks) <= last.processed
    decreases fuel
  {
    if fuel > 0 && !s.finished {
      var s' := NextState(s, net, parsePage, parse);
      var here := StepTasks(s, net, parsePage);
      var later := RunTasks(s', fuel - 1, net, parsePage, parse);
      StepTasksSpec(s, net, parsePage, parse);
      AtMostOncePerRun(s', fuel - 1, net, parsePage, parse);
      IdsAppend(here, later);
      DistinctConcat(here, later);
      assert RunTasks(s, fuel, net, parsePage, parse) == here + later;
      assert RunFor(s, fuel, net, parsePage, parse) == RunFor(s', fuel - 1, net, parsePage, parse);
    }
  }

  lemma {:induction false} RunKeepsConsistent(s: CrawlState, fuel: nat, net: Network, parsePage: PageParser, parse: BibParser)
    requires Consistent(s)
    ensures Consistent(RunFor(s, fuel, net, parsePage, parse))
    decreases fuel
  {
    if fuel > 0 && !s.finished {
      StepKeepsConsistent(s, net, parsePage, parse);
      RunKeepsConsistent(NextState(s, net, parsePage, parse), fuel - 1, net, parsePage, parse);
    }
  }

  /**
   * With an index URL whose fetch keeps failing, the loop never moves on: however many
   * iterations run, the state is the one it started with and the walk has not finished.
   */
  lemma {:induction false} StuckOnFailedIndexFetch(s: CrawlState, fuel: nat, net: Network, parsePage: PageParser, parse: BibParser)
    requires !s.finished && !HasText(Fetched(net, s.indexUrl))
    ensures RunFor(s, fuel, net, parsePage, parse) == s
    decreases fuel
  {
    if fuel > 0 {
      StuckOnFailedIndexFetch(s, fuel - 1, net, parsePage, parse);
    }
  }

  lemma ResultsSnoc(net: Network, parse: BibParser, tasks: seq<Listing>, t: nat)
    requires t < |tasks|
    ensures var r := RecordFor(net, parse, tasks[t]);
      Results(net, parse, tasks[..t + 1]) == Results(net, parse, tasks[..t]) + (if r.Some? then [r.value] else [])
  {
    assert tasks[..t + 1][..t] == tasks[..t];
  }

  /** `asyncio.gather` over the download tasks, run one after the other, keeping the records found. */
  method Gather(net: Network, parse: BibParser, tasks: seq<Listing>) returns (found: seq<BookRecord>)
    ensures found == Results(net, parse, tasks)
  {
    found := [];
    for t := 0 to |tasks|
      invariant found == Results(net, parse, tasks[..t])
    {
      var result, probed := DownloadBook(net, parse, tasks[t]);
      ResultsSnoc(net, parse, tasks, t);
      if result.Some? {
        found := found + [result.value];
      }
    }
    assert tasks[..|tasks|] == tasks;
  }

  /** The crawl of `get_books_list`, one run of the `while True` loop at a time. */
  class Crawler {
    var processed: set<string>
    var books: seq<BookRecord>
    var indexUrl: string
    var finished: bool

    function State(): CrawlState
      reads this
    {
      CrawlState(processed, books, indexUrl, finished)
    }

    constructor ()
      ensures State() == CrawlState({}, [], StartUrl, false)
    {
      processed, books, indexUrl, finished := {}, [], StartUrl, false;
    }

    /** The scheduling loop over one page: new IDs are marked processed and their listings kept. */
    method ScheduleListings(listings: seq<Listing>) returns (tasks: seq<Listing>)
      modifies this
      ensures Scheduled(tasks, processed) == Schedule(old(processed), listings)
      ensures books == old(books) && indexUrl == old(indexUrl) && finished == old(finished)
    {
      tasks := [];
      for j := 0 to |listings|
        invariant Scheduled(tasks, processed) == Schedule(old(processed), listings[..j])
        invariant books == old(books) && indexUrl == old(indexUrl) && finished == old(finished)
      {
        var listing := listings[j];
        var id := BookId(listing.href);
        assert listings[..j + 1][..j] == listings[..j];
        if id !in processed {
          tasks := tasks + [listing];
          processed := processed + {id};
        }
      }
      assert listings[..|listings|] == listings;
    }

    /** The body of the `while True` loop. */
    method Step(net: Network, parsePage: PageParser, parse: BibParser)
      requires !finished
      modifies this
      ensures State() == NextState(old(State()), net, parsePage, parse)
    {
      ghost var s := State();
      var text, sleeps, attempts := FetchText(net, indexUrl);
      assert text == Fetched(net, s.indexUrl);
      if !HasText(text) {
        return;
      }
      var page := parsePage(text.value);
      if page.listings == [] {
        finished := true;
        return;
      }
      var tasks := ScheduleListings(page.listings);
      var found := Gather(net, parse, tasks);
      ghost var scheduled := Schedule(s.processed, page.listings);
      assert scheduled.tasks == tasks && scheduled.processed == processed;
      books := books + found;
      match page.next {
        case Some(href) => indexUrl := Host + href;
        case None => finished := true;
      }
    }

    /** At most `fuel` iterations of the `while True` loop. */
    method Crawl(net: Network, parsePage: PageParser, parse: BibParser, fuel: nat)
      modifies this
      ensures State() == RunFor(old(State()), fuel, net, parsePage, parse)
    {
      var k := 0;
      while k < fuel && !finished
        invariant k <= fuel
        invariant RunFor(old(State()), fuel, net, parsePage, parse) == RunFor(State(), fuel - k, net, parsePage, parse)
      {
        Step(net, parsePage, parse);
        k := k + 1;
      }
    }
  }
}
