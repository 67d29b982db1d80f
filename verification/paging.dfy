/** The two paginated GBIF crawls of the browser script: the flora
    inventory around the point (biblio-patri.js, lines 272-286), which is
    all-or-nothing, and the per-species detailed crawl (lines 175-190),
    which keeps whatever it had when a page fails. Each request is answered
    by a scripted response, a function of the requested offset. */
module Paging {
  import opened Occurrences

  /** What one request yields: a page of results with the end-of-records
      flag, a response that is not ok, or a thrown error (network failure
      or an unreadable body) with its message. A page without `results`
      is an `Ok` page with none. */
  datatype Page = Ok(results: seq<Occurrence>, endOfRecords: bool) | NotOk | Threw(message: string)

  /** The search answered at each offset. */
  type Search = nat -> Page

  const PageSize: nat := 1000
  const InventoryMaxPages: nat := 12
  const DetailMaxPages: nat := 10

  const GbifUnavailable: string := "L'API GBIF est indisponible."
  const NoPlantsNearby: string := "Aucune occurrence de plante trouvée à proximité."

  /** An ok page that does not announce the end: the crawl asks for more. */
  predicate Continues(p: Page) {
    p.Ok? && !p.endOfRecords
  }

  /** Why a crawl stopped. */
  datatype Stop = EndOfRecords | PageCap | Failed(response: Page)

  /** The offsets requested, in order, the results gathered from the ok
      pages, and why the crawl stopped. */
  datatype Crawl = Crawl(offsets: seq<nat>, results: seq<Occurrence>, stop: Stop)

  /** Reference reading: the results of the pages `lo` to `hi - 1`, an
      answer that is not ok contributing none. */
  function ResultsBetween(search: Search, lo: nat, hi: nat): seq<Occurrence>
    decreases hi - lo
  {
    if lo >= hi then []
    else (if search(lo * PageSize).Ok? then search(lo * PageSize).results else []) + ResultsBetween(search, lo + 1, hi)
  }

  /** The `for (page = ...; page < cap ...; page++)` loop from page `page`
      on: request the page, stop on a failure or on the end of records,
      and stop after the cap. Pages `page`, `page + 1`, ... are requested
      in order, and never more than the cap allows. */
  function CrawlFrom(search: Search, page: nat, cap: nat): (c: Crawl)
    requires page < cap
    ensures 1 <= |c.offsets| <= cap - page
    ensures forall i :: 0 <= i < |c.offsets| ==> c.offsets[i] == (page + i) * PageSize
    decreases cap - page
  {
    var offset := page * PageSize;
    var response := search(offset);
    if !response.Ok? then
      Crawl([offset], [], Failed(response))
    else if response.endOfRecords then
      Crawl([offset], response.results, EndOfRecords)
    else if page + 1 == cap then
      Crawl([offset], response.results, PageCap)
    else
      var rest := CrawlFrom(search, page + 1, cap);
      Crawl([offset] + rest.offsets, response.results + rest.results, rest.stop)
  }

  /** The page requested last by a crawl. */
  function LastPage(search: Search, c: Crawl): Page
    requires c.offsets != []
  {
    search(c.offsets[|c.offsets| - 1])
  }

  /** Every page requested before the last one continued. */
  predicate ContinuedBeforeLast(search: Search, c: Crawl) {
    forall i :: 0 <= i < |c.offsets| - 1 ==> Continues(search(c.offsets[i]))
  }

  lemma {:induction false} CrawlContinues(search: Search, page: nat, cap: nat)
    requires page < cap
    ensures ContinuedBeforeLast(search, CrawlFrom(search, page, cap))
    decreases cap - page
  {
    var c := CrawlFrom(search, page, cap);
    if Continues(search(page * PageSize)) && page + 1 < cap {
      var rest := CrawlFrom(search, page + 1, cap);
      CrawlContinues(search, page + 1, cap);
      assert c.offsets == [page * PageSize] + rest.offsets;
      forall i | 1 <= i < |c.offsets| - 1
        ensures Continues(search(c.offsets[i]))
      {
        assert c.offsets[i] == rest.offsets[i - 1];
      }
    }
  }

  /** Why the crawl stopped: the last page failed, ended the records, or
      was the cap-th and continued. */
  lemma {:induction false} CrawlStops(search: Search, page: nat, cap: nat)
    requires page < cap
    ensures var c := CrawlFrom(search, page, cap);
      var last := LastPage(search, c);
      && (c.stop.Failed? <==> !last.Ok?)
      && (c.stop.Failed? ==> c.stop.response == last)
      && (c.stop == EndOfRecords <==> last.Ok? && last.endOfRecords)
      && (c.stop == PageCap <==> Continues(last))
      && (c.stop == PageCap ==> page + |c.offsets| == cap)
    decreases cap - page
  {
    var c := CrawlFrom(search, page, cap);
    if Continues(search(page * PageSize)) && page + 1 < cap {
      var rest := CrawlFrom(search, page + 1, cap);
      CrawlStops(search, page + 1, cap);
      assert c.offsets == [page * PageSize] + rest.offsets;
      assert LastPage(search, c) == LastPage(search, rest);
    }
  }

  /** The crawl gathers the results of the ok pages it requested. */
  lemma {:induction false} CrawlResults(search: Search, page: nat, cap: nat)
    requires page < cap
    ensures var c := CrawlFrom(search, page, cap);
      c.stop.Failed? ==> c.results == ResultsBetween(search, page, page + |c.offsets| - 1)
    ensures var c := CrawlFrom(search, page, cap);
      !c.stop.Failed? ==> c.results == ResultsBetween(search, page, page + |c.offsets|)
    decreases cap - page
  {
    var c := CrawlFrom(search, page, cap);
    var response := search(page * PageSize);
    if Continues(response) && page + 1 < cap {
      var rest := CrawlFrom(search, page + 1, cap);
      CrawlResults(search, page + 1, cap);
      assert |c.offsets| == 1 + |rest.offsets|;
      assert c.results == response.results + rest.results;
    } else {
      assert |c.offsets| == 1;
      assert ResultsBetween(search, page + 1, page + 1) == [];
    }
  }

  // ---------------------------------------------------------------------------
  // The inventory
  // ---------------------------------------------------------------------------

  /** How the inventory ends: the occurrences, or the message of the error
      that ends the whole analysis. */
  datatype Outcome = Collected(occurrences: seq<Occurrence>) | Aborted(message: string)

  /** The inventory's requests and outcome. */
  datatype Inventory = Inventory(offsets: seq<nat>, outcome: Outcome)

  /** The inventory loop and the empty check after it: a page that is not
      ok raises "L'API GBIF est indisponible.", a thrown error propagates
      with its message, whatever was gathered before is dropped; an empty
      harvest raises "Aucune occurrence de plante trouvée à proximité.". */
  function InventoryOf(search: Search): (inv: Inventory)
    ensures 1 <= |inv.offsets| <= InventoryMaxPages
    ensures forall i :: 0 <= i < |inv.offsets| ==> inv.offsets[i] == i * PageSize
  {
    var c := CrawlFrom(search, 0, InventoryMaxPages);
    Inventory(c.offsets, OutcomeOf(c))
  }

  /** The outcome of the inventory crawl `c`. */
  function OutcomeOf(c: Crawl): Outcome {
    match c.stop
    case Failed(NotOk) => Aborted(GbifUnavailable)
    case Failed(Threw(message)) => Aborted(message)
    case _ => if c.results == [] then Aborted(NoPlantsNearby) else Collected(c.results)
  }

  /** How the inventory ends, read off the page requested last: a page that
      is not ok or a thrown error aborts it, whatever came before. */
  lemma InventoryAborts(search: Search)
    ensures var inv := InventoryOf(search);
      var last := search(inv.offsets[|inv.offsets| - 1]);
      && (last == NotOk ==> inv.outcome == Aborted(GbifUnavailable))
      && (last.Threw? ==> inv.outcome == Aborted(last.message))
  {
    CrawlStops(search, 0, InventoryMaxPages);
  }

  /** After ok pages only, the inventory holds the results of every page
      requested, or aborts when there are none. */
  lemma InventoryCollects(search: Search)
    ensures var inv := InventoryOf(search);
      var last := search(inv.offsets[|inv.offsets| - 1]);
      && (last.Ok? ==> (inv.outcome.Collected? <==> ResultsBetween(search, 0, |inv.offsets|) != []))
      && (last.Ok? && !inv.outcome.Collected? ==> inv.outcome == Aborted(NoPlantsNearby))
    ensures var inv := InventoryOf(search);
      inv.outcome.Collected? ==>
        inv.outcome.occurrences == ResultsBetween(search, 0, |inv.offsets|) && inv.outcome.occurrences != []
  {
    var c := CrawlFrom(search, 0, InventoryMaxPages);
    CrawlStops(search, 0, InventoryMaxPages);
    CrawlResults(search, 0, InventoryMaxPages);
    CollectsFromCrawl(search, c);
  }

  /** The outcome of a crawl from page 0, from what its last page says and
      what it gathered. */
  lemma CollectsFromCrawl(search: Search, c: Crawl)
    requires c.offsets != []
    requires c.stop.Failed? <==> !LastPage(search, c).Ok?
    requires c.stop.Failed? ==> c.stop.response == LastPage(search, c)
    requires !c.stop.Failed? ==> c.results == ResultsBetween(search, 0, |c.offsets|)
    ensures LastPage(search, c).Ok? ==> (OutcomeOf(c).Collected? <==> ResultsBetween(search, 0, |c.offsets|) != [])
    ensures LastPage(search, c).Ok? && !OutcomeOf(c).Collected? ==> OutcomeOf(c) == Aborted(NoPlantsNearby)
    ensures OutcomeOf(c).Collected? ==>
      OutcomeOf(c).occurrences == ResultsBetween(search, 0, |c.offsets|) && OutcomeOf(c).occurrences != []
  {
  }

  /** When the first page already announces the end, no second request is
      made. */
  lemma FirstPageEndsInventory(search: Search)
    requires search(0).Ok? && search(0).endOfRecords
    ensures InventoryOf(search).offsets == [0]
  {
    var c := CrawlFrom(search, 0, InventoryMaxPages);
    assert c.offsets[0] == 0;
  }

  /** All-or-nothing: a failing page aborts the inventory even when the
      pages before it brought results. */
  lemma FailureDropsEarlierPages(search: Search)
    requires Continues(search(0)) && search(0).results != []
    requires search(PageSize) == NotOk
    ensures InventoryOf(search) == Inventory([0, PageSize], Aborted(GbifUnavailable))
  {
    var c := CrawlFrom(search, 0, InventoryMaxPages);
    var rest := CrawlFrom(search, 1, InventoryMaxPages);
    assert rest.offsets[0] == PageSize;
  }

  // ---------------------------------------------------------------------------
  // The per-species detailed crawl
  // ---------------------------------------------------------------------------

  /** The detailed loop for one species: at most ten pages; a failing page
      only ends this loop, the results of the pages before it are kept. */
  function SpeciesCrawl(search: Search): (c: Crawl)
    ensures 1 <= |c.offsets| <= DetailMaxPages
    ensures forall i :: 0 <= i < |c.offsets| ==> c.offsets[i] == i * PageSize
    ensures c.stop.Failed? ==> c.results == ResultsBetween(search, 0, |c.offsets| - 1)
    ensures !c.stop.Failed? ==> c.results == ResultsBetween(search, 0, |c.offsets|)
  {
    CrawlResults(search, 0, DetailMaxPages);
    CrawlFrom(search, 0, DetailMaxPages)
  }

  /** Ten pages that all continue make ten requests and no eleventh. */
  lemma DetailCapIsTen(search: Search)
    requires forall page :: 0 <= page < DetailMaxPages ==> Continues(search(page * PageSize))
    ensures |SpeciesCrawl(search).offsets| == DetailMaxPages
  {
    var c := SpeciesCrawl(search);
    var last := |c.offsets| - 1;
    assert Continues(search(last * PageSize));
  }
}
