/** The crawl of `scrapeWebsite` and the writes of `saveToCsv`, as a fold
    over the pages of every seed.

    The browser is abstracted away: a seed is the page its address loads
    followed by every page reached through the next-page link, each page an
    address and its listing blocks in document order. The CSV file is a
    sequence of flushes, one per `saveToCsv` call, each recording whether
    the header record was written in front of the page's rows. The run
    starts by truncating the file and with the id counter at 1. */
module Crawl {
  import opened Wrappers
  import opened PageContext
  import opened ListingParser

  // ---------------------------------------------------------------------
  // Pages and page extraction
  // ---------------------------------------------------------------------

  /** What the page offers for one `.property-details` element: the
      trimmed heading, the whitespace-collapsed text, and the trimmed first
      and second items of its description list (area and build year). */
  datatype ListingBlock = ListingBlock(title: string, text: string, areaText: string, yearText: string)

  /** A rendered result page: its current address and its listing blocks. */
  datatype Page = Page(url: string, blocks: seq<ListingBlock>)

  /** One seed address: the page it loads, then the pages reached by
      following the next-page link until there is none. */
  datatype Seed = Seed(first: Page, following: seq<Page>)

  /** `scrapeCurrentPage`: one result per block, in document order, each
      carrying the region and category read off the page address and the
      normalised area. */
  function ScrapeCurrentPage(page: Page): (results: seq<ScrapedListing>)
    ensures |results| == |page.blocks|
    ensures forall i :: 0 <= i < |results| ==>
      && results[i].lokacija == Region(page.url)
      && results[i].tip == Category(page.url)
      && results[i].title == page.blocks[i].title
      && results[i].textContent == page.blocks[i].text
      && results[i].m2 == NormaliseArea(page.blocks[i].areaText)
      && results[i].letoGradnje == page.blocks[i].yearText
  {
    var lokacija := Region(page.url);
    var tip := Category(page.url);
    seq(|page.blocks|, i requires 0 <= i < |page.blocks| =>
      var b := page.blocks[i];
      ScrapedListing(b.title, b.text, NormaliseArea(b.areaText), b.yearText, lokacija, tip))
  }

  // ---------------------------------------------------------------------
  // The sink and the header rule
  // ---------------------------------------------------------------------

  /** One `saveToCsv` call: the header record if it was written, then the
      page's rows. */
  datatype Flush = Flush(withHeader: bool, rows: seq<Listing>)

  /** A line of the CSV file. */
  datatype CsvLine = HeaderLine | DataLine(listing: Listing)

  /** When the header record is written. `CounterIs26` is the rule in the
      source (the counter, already advanced past the page, equals 26);
      `FirstFlush` writes it on the first `saveToCsv` call of the run. */
  datatype HeaderRule = CounterIs26 | FirstFlush

  /** The value the source compares the counter with. */
  const HeaderCounter: int := 26

  /** The run's state: the id counter and the file written so far. */
  datatype CrawlState = CrawlState(counter: int, sink: seq<Flush>)

  /** A run either goes through every page or stops at the first listing
      that throws; the rows already written stay in the file. */
  datatype Outcome = Finished(state: CrawlState) | Aborted(state: CrawlState, error: ParseError)

  /** The rows of the file, in write order. */
  function Rows(sink: seq<Flush>): seq<Listing> {
    if |sink| == 0 then [] else Rows(sink[..|sink| - 1]) + sink[|sink| - 1].rows
  }

  /** The number of rows written up to and including flush `k`. */
  function RowsThrough(sink: seq<Flush>, k: int): nat
    requires 0 <= k < |sink|
  {
    |Rows(sink[..k + 1])|
  }

  /** The lines of the file, in write order. */
  function Table(sink: seq<Flush>): seq<CsvLine> {
    if |sink| == 0 then []
    else
      var f := sink[|sink| - 1];
      Table(sink[..|sink| - 1])
        + (if f.withHeader then [HeaderLine] else [])
        + seq(|f.rows|, i requires 0 <= i < |f.rows| => DataLine(f.rows[i]))
  }

  /** The run is in step with its file: the counter is one past the number
      of rows written, and the rows carry the ids 1, 2, 3, ... in order. */
  predicate Consistent(st: CrawlState) {
    && st.counter == 1 + |Rows(st.sink)|
    && forall i :: 0 <= i < |Rows(st.sink)| ==> Rows(st.sink)[i].id == i + 1
  }

  /** The state of a run whose file holds the first `k` flushes of `sink`. */
  function StateAt(sink: seq<Flush>, k: nat): CrawlState
    requires k <= |sink|
  {
    CrawlState(1 + |Rows(sink[..k])|, sink[..k])
  }

  /** `truncateSync` and `globalIdCounter = 1`. */
  function Start(): (st: CrawlState)
    ensures st.sink == [] && Consistent(st)
  {
    CrawlState(1, [])
  }

  /** Whether a flush writes the header, given the counter after the
      page's listings were numbered and whether this is the first flush. */
  function HeaderDue(rule: HeaderRule, counterAfter: int, firstFlush: bool): bool {
    match rule
    case CounterIs26 => counterAfter == HeaderCounter
    case FirstFlush => firstFlush
  }


  /** `saveToCsv`: append the header record when due, then the rows. */
  function SaveToCsv(rule: HeaderRule, st: CrawlState, rows: seq<Listing>): (st': CrawlState)
    ensures st'.counter == st.counter
    ensures |st'.sink| == |st.sink| + 1 && st'.sink[..|st.sink|] == st.sink
    ensures st'.sink[|st.sink|].rows == rows
    ensures st'.sink[|st.sink|].withHeader <==>
      (if rule == CounterIs26 then st.counter == HeaderCounter else st.sink == [])
  {
    var s := st.sink + [Flush(HeaderDue(rule, st.counter, st.sink == []), rows)];
    assert s[..|st.sink|] == st.sink;
    CrawlState(st.counter, s)
  }

  lemma RowsAppend(sink: seq<Flush>, f: Flush)
    ensures Rows(sink + [f]) == Rows(sink) + f.rows
  {
  }

  // ---------------------------------------------------------------------
  // One page
  // ---------------------------------------------------------------------

  /** A page parser: a page and the counter before it, to the page's
      listings and the counter after them, or the exception that aborts. */
  type PageParser = (Page, int) -> Result<Batch, ParseError>

  /** The batch holds one listing per block of the page, numbered on from
      `counter`, and the counter advances past them. */
  predicate NumberedFrom(page: Page, counter: int, batch: Batch) {
    && |batch.listings| == |page.blocks|
    && batch.next == counter + |page.blocks|
    && forall i :: 0 <= i < |batch.listings| ==> batch.listings[i].id == counter + i
  }

  /** Every batch the parser returns is numbered on from its counter. */
  ghost predicate NumbersListings(parse: PageParser) {
    forall page, counter :: parse(page, counter).Ok? ==> NumberedFrom(page, counter, parse(page, counter).value)
  }

  /** Extracting the page and running `parseResults` on it. */
  function ParsePage(page: Page, counter: int): (r: Result<Batch, ParseError>)
    ensures r.Ok? ==> NumberedFrom(page, counter, r.value)
  {
    ParseResults(ScrapeCurrentPage(page), counter)
  }

  lemma ParsePageNumbers()
    ensures NumbersListings(ParsePage)
  {
  }

  /** One page of the crawl: parse with the current counter, then save.
      A successful page adds exactly one flush holding that page's batch;
      a failing one leaves the file as it was. */
  function ProcessPage(rule: HeaderRule, parse: PageParser, st: CrawlState, page: Page): (r: Result<CrawlState, ParseError>)
    ensures r.Err? <==> parse(page, st.counter).Err?
    ensures r.Err? ==> r.error == parse(page, st.counter).error
    ensures r.Ok? ==>
      && |r.value.sink| == |st.sink| + 1
      && r.value.sink[..|st.sink|] == st.sink
      && parse(page, st.counter) == Ok(Batch(r.value.sink[|st.sink|].rows, r.value.counter))
      && r.value.sink[|st.sink|].withHeader == HeaderDue(rule, r.value.counter, st.sink == [])
  {
    match parse(page, st.counter)
    case Err(e) => Err(e)
    case Ok(batch) => Ok(SaveToCsv(rule, CrawlState(batch.next, st.sink), batch.listings))
  }

  /** A processed page keeps the run in step with its file: the new rows
      continue the numbering exactly where the file left off. */
  lemma ProcessPageConsistent(rule: HeaderRule, parse: PageParser, st: CrawlState, page: Page)
    requires NumbersListings(parse)
    requires Consistent(st)
    requires ProcessPage(rule, parse, st, page).Ok?
    ensures Consistent(ProcessPage(rule, parse, st, page).value)
  {
  }

  // ---------------------------------------------------------------------
  // The crawl
  // ---------------------------------------------------------------------

  /** Every page of every seed, seed after seed, each seed's pages in
      the order the next-page link visits them. */
  function AllPages(seeds: seq<Seed>): (pages: seq<Page>)
    ensures |pages| >= |seeds|
    ensures |seeds| > 0 ==> pages[0] == seeds[0].first
  {
    if |seeds| == 0 then []
    else [seeds[0].first] + seeds[0].following + AllPages(seeds[1..])
  }

  /** One seed is crawled as its first page followed by the pages its
      next-page link reaches; with `AllPagesAppend` this fixes the page
      list of any seed list. */
  lemma AllPagesOneSeed(s: Seed)
    ensures AllPages([s]) == [s.first] + s.following
  {
  }

  /** The pages of a list of seeds are those of its first part, then
      those of the rest. */
  lemma {:induction false} AllPagesAppend(a: seq<Seed>, b: seq<Seed>)
    ensures AllPages(a + b) == AllPages(a) + AllPages(b)
    decreases |a|
  {
    if |a| == 0 {
      assert a + b == b;
    } else {
      assert (a + b)[1..] == a[1..] + b;
      AllPagesAppend(a[1..], b);
    }
  }

  /** The fold over the pages: one `ProcessPage` per page, in order,
      stopping at the first page whose parse throws. The file only grows;
      a finished run adds exactly one flush per page, an aborted one fewer
      flushes than pages and stops at the page that throws. */
  function RunPages(rule: HeaderRule, parse: PageParser, st: CrawlState, pages: seq<Page>): (out: Outcome)
    ensures st.sink <= out.state.sink
    ensures out.Finished? ==> |out.state.sink| == |st.sink| + |pages|
    ensures out.Aborted? ==>
      && |out.state.sink| < |st.sink| + |pages|
      && ProcessPage(rule, parse, out.state, pages[|out.state.sink| - |st.sink|]) == Err(out.error)
    decreases |pages|
  {
    if |pages| == 0 then Finished(st)
    else
      match ProcessPage(rule, parse, st, pages[0])
      case Err(e) => Aborted(st, e)
      case Ok(st1) =>
        var out := RunPages(rule, parse, st1, pages[1..]);
        assert out.Aborted? ==>
          pages[1..][|out.state.sink| - |st1.sink|] == pages[|out.state.sink| - |st.sink|];
        out
  }

  /** Numbering never restarts: a run that starts in step with its file
      ends in step with it, whether it finishes or aborts. */
  lemma {:induction false} RunPagesConsistent(rule: HeaderRule, parse: PageParser, st: CrawlState, pages: seq<Page>)
    requires NumbersListings(parse)
    requires Consistent(st)
    ensures Consistent(RunPages(rule, parse, st, pages).state)
    decreases |pages|
  {
    if |pages| > 0 {
      match ProcessPage(rule, parse, st, pages[0])
      case Err(_) =>
      case Ok(st1) =>
        ProcessPageConsistent(rule, parse, st, pages[0]);
        RunPagesConsistent(rule, parse, st1, pages[1..]);
    }
  }

  /** A run whose first page succeeds continues from the state that page
      leaves, with the file it wrote as a prefix of the final one. */
  lemma RunPagesStep(rule: HeaderRule, parse: PageParser, st: CrawlState, pages: seq<Page>)
    requires |pages| > 0 && ProcessPage(rule, parse, st, pages[0]).Ok?
    ensures RunPages(rule, parse, st, pages)
      == RunPages(rule, parse, ProcessPage(rule, parse, st, pages[0]).value, pages[1..])
  {
  }

  /** The first flush a run adds is what processing its first page yields
      on the file the run started from. */
  lemma ReplayFirst(rule: HeaderRule, parse: PageParser, st: CrawlState, pages: seq<Page>, sink: seq<Flush>)
    requires NumbersListings(parse)
    requires Consistent(st)
    requires sink == RunPages(rule, parse, st, pages).state.sink
    requires |st.sink| < |sink|
    ensures ProcessPage(rule, parse, StateAt(sink, |st.sink|), pages[0]) == Ok(StateAt(sink, |st.sink| + 1))
  {
    var st1 := ProcessPage(rule, parse, st, pages[0]).value;
    RunPagesStep(rule, parse, st, pages);
    ProcessPageConsistent(rule, parse, st, pages[0]);
    assert sink[..|st.sink|] == st.sink;
    assert sink[..|st.sink| + 1] == st1.sink;
  }

  /** Every flush a run adds can be replayed: flush `k` of the file `sink`
      the run ends with is exactly what processing its page yields on the
      file written before it. So flush `k` holds that page's listings, in
      page order. */
  lemma {:induction false} RunPagesReplay(rule: HeaderRule, parse: PageParser, st: CrawlState, pages: seq<Page>, sink: seq<Flush>, k: int)
    requires NumbersListings(parse)
    requires Consistent(st)
    requires sink == RunPages(rule, parse, st, pages).state.sink
    requires |st.sink| <= k < |sink|
    ensures ProcessPage(rule, parse, StateAt(sink, k), pages[k - |st.sink|]) == Ok(StateAt(sink, k + 1))
    decreases |pages|
  {
    if k == |st.sink| {
      ReplayFirst(rule, parse, st, pages, sink);
    } else {
      var st1 := ProcessPage(rule, parse, st, pages[0]).value;
      RunPagesStep(rule, parse, st, pages);
      ProcessPageConsistent(rule, parse, st, pages[0]);
      RunPagesReplay(rule, parse, st1, pages[1..], sink, k);
      assert pages[1..][k - |st1.sink|] == pages[k - |st.sink|];
    }
  }

  /** The fold over a concatenation of pages is the fold over the first
      part continued with the fold over the second, unless the first part
      aborts: seeds are processed strictly one after another. */
  lemma {:induction false} RunPagesAppend(rule: HeaderRule, parse: PageParser, st: CrawlState, p1: seq<Page>, p2: seq<Page>)
    ensures RunPages(rule, parse, st, p1 + p2) ==
      match RunPages(rule, parse, st, p1)
      case Finished(st1) => RunPages(rule, parse, st1, p2)
      case Aborted(_, _) => RunPages(rule, parse, st, p1)
    decreases |p1|
  {
    if |p1| == 0 {
      assert p1 + p2 == p2;
    } else {
      assert (p1 + p2)[0] == p1[0];
      assert (p1 + p2)[1..] == p1[1..] + p2;
      match ProcessPage(rule, parse, st, p1[0])
      case Err(_) =>
      case Ok(st1) => RunPagesAppend(rule, parse, st1, p1[1..], p2);
    }
  }

  // ---------------------------------------------------------------------
  // The whole run
  // ---------------------------------------------------------------------

  /** `scrapeWebsite`: truncate the file, set the counter to 1, then
      every page of every seed. */
  function ScrapeWebsite(rule: HeaderRule, seeds: seq<Seed>): (out: Outcome)
    ensures out.Finished? ==> |out.state.sink| == |AllPages(seeds)|
    ensures out.Aborted? ==> |out.state.sink| < |AllPages(seeds)|
  {
    RunPages(rule, ParsePage, Start(), AllPages(seeds))
  }

  /** Ids over the whole run are exactly 1..N in write order, N the number
      of rows written, and the counter ends at N + 1, also when the run
      aborts. */
  lemma ScrapeWebsiteIds(rule: HeaderRule, seeds: seq<Seed>)
    ensures var out := ScrapeWebsite(rule, seeds);
      && out.state.counter == |Rows(out.state.sink)| + 1
      && forall i :: 0 <= i < |Rows(out.state.sink)| ==> Rows(out.state.sink)[i].id == i + 1
  {
    ParsePageNumbers();
    RunPagesConsistent(rule, ParsePage, Start(), AllPages(seeds));
  }

  /** The flushes a run from the start writes, finished or not. */
  function Written(rule: HeaderRule, parse: PageParser, pages: seq<Page>): seq<Flush> {
    RunPages(rule, parse, Start(), pages).state.sink
  }

  /** Flush k of a run from the start is page k, parsed with the counter
      one past the rows written before it; its header flag follows the
      rule with the counter after that page. */
  lemma RunFlush(rule: HeaderRule, parse: PageParser, pages: seq<Page>, sink: seq<Flush>, k: int)
    requires NumbersListings(parse)
    requires sink == Written(rule, parse, pages)
    requires 0 <= k < |sink|
    ensures parse(pages[k], 1 + |Rows(sink[..k])|) == Ok(Batch(sink[k].rows, 1 + |Rows(sink[..k + 1])|))
    ensures sink[k].withHeader == HeaderDue(rule, 1 + |Rows(sink[..k + 1])|, k == 0)
  {
    RunPagesReplay(rule, parse, Start(), pages, sink, k);
    FlushOfStep(rule, parse, sink, k, pages[k]);
  }

  /** When page `page` takes the file from its first `k` flushes to its
      first `k + 1`, flush `k` holds that page parsed with the counter
      one past the rows before it, with the header flag the rule gives. */
  lemma FlushOfStep(rule: HeaderRule, parse: PageParser, sink: seq<Flush>, k: int, page: Page)
    requires 0 <= k < |sink|
    requires ProcessPage(rule, parse, StateAt(sink, k), page) == Ok(StateAt(sink, k + 1))
    ensures parse(page, 1 + |Rows(sink[..k])|) == Ok(Batch(sink[k].rows, 1 + |Rows(sink[..k + 1])|))
    ensures sink[k].withHeader == HeaderDue(rule, 1 + |Rows(sink[..k + 1])|, k == 0)
  {
  }

  // ---------------------------------------------------------------------
  // The header rule
  // ---------------------------------------------------------------------

  /** As written, the header goes in front of a page's rows exactly when
      the counter after that page is 26, i.e. when 25 rows have been
      written including that page's. */
  lemma HeaderAsWritten(parse: PageParser, pages: seq<Page>, sink: seq<Flush>)
    requires NumbersListings(parse)
    requires sink == Written(CounterIs26, parse, pages)
    ensures forall k :: 0 <= k < |sink| ==> (sink[k].withHeader <==> |Rows(sink[..k + 1])| == 25)
  {
    forall k | 0 <= k < |sink| ensures sink[k].withHeader <==> |Rows(sink[..k + 1])| == 25 {
      RunFlush(CounterIs26, parse, pages, sink, k);
    }
  }

  /** As written, the first flush carries the header exactly when the first
      page holds 25 listings. */
  lemma HeaderFirstIff25(parse: PageParser, pages: seq<Page>, sink: seq<Flush>)
    requires NumbersListings(parse)
    requires sink == Written(CounterIs26, parse, pages)
    ensures |sink| > 0 ==> (sink[0].withHeader <==> |pages[0].blocks| == 25)
  {
  }

  /** Rows written up to and including flush k grow strictly with k when
      no flush is empty. */
  lemma {:induction false} RowsPrefixGrow(sink: seq<Flush>, j: nat, k: nat)
    requires j < k < |sink|
    requires forall i :: 0 <= i < |sink| ==> |sink[i].rows| > 0
    ensures |Rows(sink[..j + 1])| < |Rows(sink[..k + 1])|
    decreases k - j
  {
    assert sink[..k + 1][..k] == sink[..k];
    assert Rows(sink[..k + 1]) == Rows(sink[..k]) + sink[k].rows;
    if j + 1 < k {
      RowsPrefixGrow(sink, j, k - 1);
    }
  }

  /** As written, when no page is empty the header is written at most once,
      since the counter passes 26 only once. */
  lemma HeaderAtMostOnce(parse: PageParser, pages: seq<Page>, sink: seq<Flush>)
    requires NumbersListings(parse)
    requires forall i :: 0 <= i < |pages| ==> |pages[i].blocks| > 0
    requires sink == Written(CounterIs26, parse, pages)
    ensures forall j, k :: 0 <= j < |sink| && 0 <= k < |sink| && sink[j].withHeader && sink[k].withHeader ==> j == k
  {
    HeaderAsWritten(parse, pages, sink);
    forall i | 0 <= i < |sink| ensures |sink[i].rows| > 0 {
      var counter := 1 + |Rows(sink[..i])|;
      RunFlush(CounterIs26, parse, pages, sink, i);
      assert NumberedFrom(pages[i], counter, parse(pages[i], counter).value);
    }
    forall j, k | 0 <= j < |sink| && 0 <= k < |sink| && sink[j].withHeader && sink[k].withHeader
      ensures j == k
    {
      if j < k { RowsPrefixGrow(sink, j, k); }
      if k < j { RowsPrefixGrow(sink, k, j); }
    }
  }

  /** The file holds a header line exactly when one of its flushes wrote
      the header. */
  lemma {:induction false} HeaderLineIff(sink: seq<Flush>)
    ensures HeaderLine in Table(sink) <==> exists k :: 0 <= k < |sink| && sink[k].withHeader
    decreases |sink|
  {
    if |sink| > 0 {
      var init := sink[..|sink| - 1];
      var f := sink[|sink| - 1];
      var data := seq(|f.rows|, i requires 0 <= i < |f.rows| => DataLine(f.rows[i]));
      HeaderLineIff(init);
      assert HeaderLine !in data;
      if exists k :: 0 <= k < |init| && init[k].withHeader {
        var k :| 0 <= k < |init| && init[k].withHeader;
        assert sink[k] == init[k];
      }
      if exists k :: 0 <= k < |sink| && sink[k].withHeader {
        var k :| 0 <= k < |sink| && sink[k].withHeader;
        if k < |init| { assert init[k] == sink[k]; }
      }
    }
  }

  /** As written, the file of a run holds a header line exactly when the
      rows written reach exactly 25 at the end of some page: a run whose
      pages step over 25 (a first page of 30 listings, say) never writes
      the header. */
  lemma HeaderPresentIff25(parse: PageParser, pages: seq<Page>, sink: seq<Flush>)
    requires NumbersListings(parse)
    requires sink == Written(CounterIs26, parse, pages)
    ensures HeaderLine in Table(sink) <==> exists k :: 0 <= k < |sink| && RowsThrough(sink, k) == 25
  {
    HeaderAsWritten(parse, pages, sink);
    HeaderLineIff(sink);
    if HeaderLine in Table(sink) {
      var k :| 0 <= k < |sink| && sink[k].withHeader;
      assert RowsThrough(sink, k) == 25;
    }
    if exists k :: 0 <= k < |sink| && RowsThrough(sink, k) == 25 {
      var k :| 0 <= k < |sink| && RowsThrough(sink, k) == 25;
      assert sink[k].withHeader;
    }
  }

  /** As written, a run over a single page holding a number of listings
      other than 25 writes no header line, even when it writes every one
      of the page's rows. */
  lemma SinglePageHeaderMissing(parse: PageParser, page: Page, sink: seq<Flush>)
    requires NumbersListings(parse)
    requires |page.blocks| != 25
    requires sink == Written(CounterIs26, parse, [page])
    ensures HeaderLine !in Table(sink)
    ensures RunPages(CounterIs26, parse, Start(), [page]).Finished? ==> |Rows(sink)| == |page.blocks|
  {
  }

  /** The same for the scraper itself: one seed whose only page holds, say,
      two listings yields a file of two data lines and no header line. */
  lemma AsWrittenHeaderMissing(page: Page)
    requires |page.blocks| != 25
    ensures HeaderLine !in Table(ScrapeWebsite(CounterIs26, [Seed(page, [])]).state.sink)
    ensures ScrapeWebsite(CounterIs26, [Seed(page, [])]).Finished? ==>
      |Rows(ScrapeWebsite(CounterIs26, [Seed(page, [])]).state.sink)| == |page.blocks|
  {
    assert AllPages([Seed(page, [])]) == [page];
    ParsePageNumbers();
    SinglePageHeaderMissing(ParsePage, page, ScrapeWebsite(CounterIs26, [Seed(page, [])]).state.sink);
  }

  /** A file whose first flush alone wrote the header starts with the
      header line and holds no other. */
  lemma {:induction false} HeaderLineOnlyFirst(sink: seq<Flush>)
    requires |sink| > 0 && sink[0].withHeader
    requires forall k :: 0 < k < |sink| ==> !sink[k].withHeader
    ensures |Table(sink)| > 0 && Table(sink)[0] == HeaderLine
    ensures forall i :: 0 < i < |Table(sink)| ==> Table(sink)[i] != HeaderLine
    decreases |sink|
  {
    var f := sink[|sink| - 1];
    var data := seq(|f.rows|, i requires 0 <= i < |f.rows| => DataLine(f.rows[i]));
    if |sink| == 1 {
      assert sink[..0] == [];
      assert Table(sink) == [HeaderLine] + data;
    } else {
      var init := sink[..|sink| - 1];
      HeaderLineOnlyFirst(init);
      assert Table(sink) == Table(init) + data;
    }
  }

  /** With the header written on the first flush, a run that writes
      anything starts its file with the header line and writes no other. */
  lemma FirstFlushHeaderOnce(parse: PageParser, pages: seq<Page>, sink: seq<Flush>)
    requires NumbersListings(parse)
    requires sink == Written(FirstFlush, parse, pages)
    ensures forall k :: 0 <= k < |sink| ==> (sink[k].withHeader <==> k == 0)
    ensures |sink| > 0 ==> |Table(sink)| > 0 && Table(sink)[0] == HeaderLine
    ensures forall i :: 0 < i < |Table(sink)| ==> Table(sink)[i] != HeaderLine
  {
    forall k | 0 <= k < |sink| ensures sink[k].withHeader <==> k == 0 {
      RunFlush(FirstFlush, parse, pages, sink, k);
    }
    if |sink| > 0 {
      HeaderLineOnlyFirst(sink);
    }
  }

  /** The corrected rule on the whole run: the file starts with the header
      line whenever anything was written, and holds no other. */
  lemma ScrapeWebsiteHeaderOnce(seeds: seq<Seed>)
    ensures |ScrapeWebsite(FirstFlush, seeds).state.sink| > 0 ==>
      |Table(ScrapeWebsite(FirstFlush, seeds).state.sink)| > 0 && Table(ScrapeWebsite(FirstFlush, seeds).state.sink)[0] == HeaderLine
    ensures forall i :: 0 < i < |Table(ScrapeWebsite(FirstFlush, seeds).state.sink)| ==>
      Table(ScrapeWebsite(FirstFlush, seeds).state.sink)[i] != HeaderLine
  {
    ParsePageNumbers();
    FirstFlushHeaderOnce(ParsePage, AllPages(seeds), ScrapeWebsite(FirstFlush, seeds).state.sink);
  }

  /** Both header rules write the same rows and end the same way: the rule
      decides only where the header line goes. */
  lemma {:induction false} RunPagesRulesAgree(parse: PageParser, st1: CrawlState, st2: CrawlState, pages: seq<Page>)
    requires st1.counter == st2.counter && Rows(st1.sink) == Rows(st2.sink) && |st1.sink| == |st2.sink|
    ensures var o1 := RunPages(CounterIs26, parse, st1, pages);
      var o2 := RunPages(FirstFlush, parse, st2, pages);
      && o1.Finished? == o2.Finished?
      && (o1.Aborted? ==> o1.error == o2.error)
      && o1.state.counter == o2.state.counter
      && Rows(o1.state.sink) == Rows(o2.state.sink)
      && |o1.state.sink| == |o2.state.sink|
    decreases |pages|
  {
    if |pages| > 0 {
      var r1 := ProcessPage(CounterIs26, parse, st1, pages[0]);
      var r2 := ProcessPage(FirstFlush, parse, st2, pages[0]);
      if r1.Ok? {
        var f1 := r1.value.sink[|st1.sink|];
        var f2 := r2.value.sink[|st2.sink|];
        assert r1.value.sink == st1.sink + [f1];
        assert r2.value.sink == st2.sink + [f2];
        RowsAppend(st1.sink, f1);
        RowsAppend(st2.sink, f2);
        RunPagesRulesAgree(parse, r1.value, r2.value, pages[1..]);
      }
    }
  }

  lemma ScrapeWebsiteRulesAgree(seeds: seq<Seed>)
    ensures var o1 := ScrapeWebsite(CounterIs26, seeds);
      var o2 := ScrapeWebsite(FirstFlush, seeds);
      && o1.Finished? == o2.Finished?
      && (o1.Aborted? ==> o1.error == o2.error)
      && Rows(o1.state.sink) == Rows(o2.state.sink)
      && |o1.state.sink| == |o2.state.sink|
      && o1.state.counter == o2.state.counter
  {
    RunPagesRulesAgree(ParsePage, Start(), Start(), AllPages(seeds));
  }

  /** Running a list of seeds is running its first seeds, then, unless
      they aborted, the remaining seeds from where they left off. */
  lemma ScrapeWebsiteSeedAfterSeed(rule: HeaderRule, a: seq<Seed>, b: seq<Seed>)
    ensures ScrapeWebsite(rule, a + b) ==
      match ScrapeWebsite(rule, a)
      case Finished(st) => RunPages(rule, ParsePage, st, AllPages(b))
      case Aborted(_, _) => ScrapeWebsite(rule, a)
  {
    AllPagesAppend(a, b);
    RunPagesAppend(rule, ParsePage, Start(), AllPages(a), AllPages(b));
  }
}
