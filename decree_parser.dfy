/** ReadPdf of the decree package: pages are cut into batches of ten, a pool
    of workers scans the batches, each worker reporting the first conclusive
    page (a match or an error) of the batch it is on and then stopping; the
    first report to arrive ends the scan.

    The workers are run one after the other here. Each batch yields at most
    one report, and which report arrives first is left open: ReadPdf picks
    any of them. */
module DecreeParser {
  import opened Wrappers
  import opened PageScan

  const MAX_WORKERS := 8
  const PAGE_BATCH_SIZE := 10

  /** The worker count: min(min(MAX_WORKERS, numCPU), numPages). */
  function WorkerCount(numCPU: int, numPages: int): (w: int)
    ensures numCPU >= 1 && numPages >= 1 ==> 1 <= w <= Min(MAX_WORKERS, numPages)
    ensures w <= numCPU && w <= MAX_WORKERS && w <= numPages
    ensures w == numCPU || w == MAX_WORKERS || w == numPages
  {
    Min(Min(MAX_WORKERS, numCPU), numPages)
  }

  /** The pages of batch k: 10k + 1 .. min(10k + 10, numPages). */
  function BatchPages(k: int, numPages: int): seq<int>
  {
    Range(k * PAGE_BATCH_SIZE + 1, Min(k * PAGE_BATCH_SIZE + PAGE_BATCH_SIZE, numPages) + 1)
  }

  /** The batch distribution loop: batches of consecutive pages, ten to a
      batch except the last, covering 1..numPages in order. */
  method MakeBatches(numPages: int) returns (batches: seq<seq<int>>)
    ensures |batches| == if numPages <= 0 then 0 else (numPages + PAGE_BATCH_SIZE - 1) / PAGE_BATCH_SIZE
    ensures forall k :: 0 <= k < |batches| ==> batches[k] == BatchPages(k, numPages)
    ensures forall k :: 0 <= k < |batches| ==> 1 <= |batches[k]| <= PAGE_BATCH_SIZE
    ensures Flatten(batches) == Range(1, numPages + 1)
  {
    batches := [];
    var i := 1;
    while i <= numPages
      invariant i == |batches| * PAGE_BATCH_SIZE + 1
      invariant numPages >= 1 ==> i <= numPages + PAGE_BATCH_SIZE
      invariant forall k :: 0 <= k < |batches| ==> batches[k] == BatchPages(k, numPages)
      invariant forall k :: 0 <= k < |batches| ==> 1 <= |batches[k]| <= PAGE_BATCH_SIZE
      invariant Flatten(batches) == Range(1, Min(i, numPages + 1))
    {
      var end := Min(i + PAGE_BATCH_SIZE - 1, numPages);
      var batch := PagesFromTo(i, end);
      FlattenSnoc(batches, batch);
      RangeAppend(1, i, end + 1);
      batches := batches + [batch];
      i := i + PAGE_BATCH_SIZE;
    }
    if numPages >= 1 {
      CoveringBatchCount(numPages, |batches|);
    }
  }

  /** The inner loop of the distribution: the page numbers first .. last. */
  method PagesFromTo(first: int, last: int) returns (batch: seq<int>)
    requires first <= last + 1
    ensures batch == Range(first, last + 1)
  {
    batch := [];
    var j := first;
    while j <= last
      invariant first <= j <= last + 1
      invariant batch == Range(first, j)
    {
      RangeSnoc(first, j);
      batch := batch + [j];
      j := j + 1;
    }
  }

  /** b batches of ten that just cover n pages are ceil(n / 10) batches. */
  lemma CoveringBatchCount(n: int, b: int)
    requires 1 <= n <= b * PAGE_BATCH_SIZE < n + PAGE_BATCH_SIZE
    ensures b == (n + PAGE_BATCH_SIZE - 1) / PAGE_BATCH_SIZE
  {
  }

  /** One worker on one batch: the first conclusive page of the batch, if
      there is one. */
  method ScanBatch(pages: seq<PageContent>, batch: seq<int>, search: string) returns (report: Option<PageResult>)
    requires forall k :: 0 <= k < |batch| ==> 1 <= batch[k] <= |pages|
    ensures report.None? <==> forall k :: 0 <= k < |batch| ==> !Conclusive(Outcome(pages, batch[k], search))
    ensures report.Some? ==> IsFirstConclusiveOf(pages, batch, search, report.value)
  {
    var k := 0;
    while k < |batch|
      invariant 0 <= k <= |batch|
      invariant forall k' :: 0 <= k' < k ==> !Conclusive(Outcome(pages, batch[k'], search))
    {
      var pageNum := batch[k];
      var result := ProcessPage(pages[pageNum - 1], pageNum, search);
      if result.state != NotFound || result.err.Some? {
        return Some(result);
      }
      k := k + 1;
    }
    return None;
  }

  /** `r` is the result of the first conclusive page of `batch`. */
  ghost predicate IsFirstConclusiveOf(pages: seq<PageContent>, batch: seq<int>, search: string, r: PageResult)
    requires forall k :: 0 <= k < |batch| ==> 1 <= batch[k] <= |pages|
  {
    exists k :: 0 <= k < |batch| && r == Outcome(pages, batch[k], search) && Conclusive(r) &&
      forall k' :: 0 <= k' < k ==> !Conclusive(Outcome(pages, batch[k'], search))
  }

  /** Page p is conclusive and no earlier page of its batch is. */
  ghost predicate FirstConclusiveInBatch(pages: seq<PageContent>, search: string, p: int)
  {
    1 <= p <= |pages| && Conclusive(Outcome(pages, p, search)) &&
    forall q :: ((p - 1) / PAGE_BATCH_SIZE) * PAGE_BATCH_SIZE + 1 <= q < p ==> !Conclusive(Outcome(pages, q, search))
  }

  /** `r` is the result of some page that is the first conclusive one of its
      batch. */
  ghost predicate Reported(pages: seq<PageContent>, search: string, r: PageResult)
  {
    exists p :: FirstConclusiveInBatch(pages, search, p) && Outcome(pages, p, search) == r
  }

  /** No page numbered up to m is conclusive. */
  ghost predicate NoneConclusiveUpTo(pages: seq<PageContent>, search: string, m: int)
  {
    forall p :: 1 <= p <= m && p <= |pages| ==> !Conclusive(Outcome(pages, p, search))
  }

  /** The results ReadPdf may return for a document: the reader's error;
      NotFound with no error when no page is conclusive (in particular for a
      document without pages); otherwise the result of some page that is the
      first conclusive one of its batch. */
  ghost predicate ReadPdfResult(doc: Document, search: string, state: FindState, err: Option<ScanError>)
  {
    match doc
    case Unreadable(cause) => state == NotFound && err == Some(ReaderFailed(cause))
    case Pages(pages) =>
      if NoConclusivePage(pages, search) then state == NotFound && err == None
      else Reported(pages, search, PageResult(state, err))
  }

  lemma BatchIndex(k: int, p: int, numPages: int)
    requires 0 <= k && p in BatchPages(k, numPages)
    ensures (p - 1) / PAGE_BATCH_SIZE == k
    ensures BatchPages(k, numPages)[p - (k * PAGE_BATCH_SIZE + 1)] == p
  {
  }

  /** A worker's report on batch b, read in page numbers. */
  lemma BatchReport(pages: seq<PageContent>, search: string, b: int, report: Option<PageResult>)
    requires 0 <= b && b * PAGE_BATCH_SIZE < |pages|
    requires report.None? <==> forall k :: 0 <= k < |BatchPages(b, |pages|)| ==>
      !Conclusive(Outcome(pages, BatchPages(b, |pages|)[k], search))
    requires report.Some? ==> IsFirstConclusiveOf(pages, BatchPages(b, |pages|), search, report.value)
    ensures report.Some? ==> Reported(pages, search, report.value)
    ensures report.Some? ==> !NoneConclusiveUpTo(pages, search, (b + 1) * PAGE_BATCH_SIZE)
    ensures report.None? ==> (NoneConclusiveUpTo(pages, search, b * PAGE_BATCH_SIZE) <==>
      NoneConclusiveUpTo(pages, search, (b + 1) * PAGE_BATCH_SIZE))
  {
    var batch := BatchPages(b, |pages|);
    var lo := b * PAGE_BATCH_SIZE + 1;
    if report.Some? {
      var k :| 0 <= k < |batch| && report.value == Outcome(pages, batch[k], search) && Conclusive(report.value) &&
        forall k' :: 0 <= k' < k ==> !Conclusive(Outcome(pages, batch[k'], search));
      var p := batch[k];
      BatchIndex(b, p, |pages|);
      forall q | ((p - 1) / PAGE_BATCH_SIZE) * PAGE_BATCH_SIZE + 1 <= q < p
        ensures !Conclusive(Outcome(pages, q, search))
      {
        assert batch[q - lo] == q;
      }
      assert FirstConclusiveInBatch(pages, search, p);
      assert batch[k] == lo + k;
    } else {
      forall p | b * PAGE_BATCH_SIZE < p <= (b + 1) * PAGE_BATCH_SIZE && p <= |pages|
        ensures !Conclusive(Outcome(pages, p, search))
      {
        assert batch[p - lo] == p;
      }
    }
  }

  lemma BatchCount(numPages: int, b: int)
    requires numPages >= 1 && 0 <= b <= (numPages + PAGE_BATCH_SIZE - 1) / PAGE_BATCH_SIZE
    ensures b < (numPages + PAGE_BATCH_SIZE - 1) / PAGE_BATCH_SIZE ==> b * PAGE_BATCH_SIZE < numPages
    ensures b == (numPages + PAGE_BATCH_SIZE - 1) / PAGE_BATCH_SIZE ==> b * PAGE_BATCH_SIZE >= numPages
  {
  }

  method ReadPdf(data: Bytes, search: string, open: Bytes -> Document) returns (state: FindState, err: Option<ScanError>)
    ensures ReadPdfResult(open(data), search, state, err)
  {
    var doc := open(data);
    if doc.Unreadable? {
      return NotFound, Some(ReaderFailed(doc.cause));
    }
    var pages := doc.pages;
    var numPages := |pages|;
    if numPages == 0 {
      return NotFound, None;
    }
    var batches := MakeBatches(numPages);
    var reports: seq<PageResult> := [];
    var b := 0;
    while b < |batches|
      invariant 0 <= b <= |batches|
      invariant forall r :: r in reports ==> Reported(pages, search, r)
      invariant reports == [] <==> NoneConclusiveUpTo(pages, search, b * PAGE_BATCH_SIZE)
    {
      BatchCount(numPages, b);
      var report := ScanBatch(pages, batches[b], search);
      BatchReport(pages, search, b, report);
      if report.Some? {
        reports := reports + [report.value];
      }
      b := b + 1;
    }
    BatchCount(numPages, b);
    assert NoneConclusiveUpTo(pages, search, b * PAGE_BATCH_SIZE) <==> NoConclusivePage(pages, search);
    if reports == [] {
      return NotFound, None;
    }
    assert reports[0] in reports;
    var r :| r in reports;
    state, err := r.state, r.err;
  }

  /** ReadPdf reports NotFound with no error exactly when no page is
      conclusive. */
  lemma NotFoundExactlyWhenNothingConclusive(pages: seq<PageContent>, search: string, state: FindState, err: Option<ScanError>)
    requires ReadPdfResult(Pages(pages), search, state, err)
    ensures (state == NotFound && err == None) <==> NoConclusivePage(pages, search)
  {
    if !NoConclusivePage(pages, search) {
      var p :| FirstConclusiveInBatch(pages, search, p) && Outcome(pages, p, search) == PageResult(state, err);
    }
  }

  /** A document without pages is NotFound, not an error. */
  lemma NoPagesNotFound(search: string, state: FindState, err: Option<ScanError>)
    requires ReadPdfResult(Pages([]), search, state, err)
    ensures state == NotFound && err == None
  {
  }

  /** An error is never returned together with a match. */
  lemma ErrorMeansNotFound(doc: Document, search: string, state: FindState, err: Option<ScanError>)
    requires ReadPdfResult(doc, search, state, err) && err.Some?
    ensures state == NotFound
  {
    if doc.Pages? && !NoConclusivePage(doc.pages, search) {
      var p :| FirstConclusiveInBatch(doc.pages, search, p) && Outcome(doc.pages, p, search) == PageResult(state, err);
    }
  }

  /** The early-exit guarantee holds within a batch: when page 1 is
      conclusive and the document has at most ten pages, page 1's result is
      the answer, whatever the later pages would give. */
  lemma FirstPageWinsItsBatch(pages: seq<PageContent>, search: string, state: FindState, err: Option<ScanError>)
    requires 1 <= |pages| <= PAGE_BATCH_SIZE && Conclusive(Outcome(pages, 1, search))
    requires ReadPdfResult(Pages(pages), search, state, err)
    ensures PageResult(state, err) == Outcome(pages, 1, search)
  {
    assert !NoConclusivePage(pages, search);
    var p :| FirstConclusiveInBatch(pages, search, p) && Outcome(pages, p, search) == PageResult(state, err);
    assert (p - 1) / PAGE_BATCH_SIZE == 0 by {
      assert 0 <= p - 1 < PAGE_BATCH_SIZE;
    }
  }

  /** A document none of whose pages holds the token scans to NotFound. */
  lemma TokenAbsentNotFound(pages: seq<PageContent>, search: string, state: FindState, err: Option<ScanError>)
    requires forall i :: 0 <= i < |pages| ==> pages[i].NullPage? || (pages[i].PageText? && !Strings.Contains(pages[i].text, search))
    requires ReadPdfResult(Pages(pages), search, state, err)
    ensures state == NotFound && err == None
  {
    forall p | 1 <= p <= |pages| ensures !Conclusive(Outcome(pages, p, search)) {
      TokenAbsentPage(pages[p - 1], p, search);
    }
  }
}
