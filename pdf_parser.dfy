/** ReadPdf of the earlier parser package: every page number is queued as a
    job of its own, a pool of min(NumCPU, numPages) workers sends one result
    per page, and the first error or match to arrive ends the scan.

    The workers are run one after the other here; which conclusive result
    arrives first is left open, so ReadPdf picks any of them. */
module PdfParser {
  import opened Wrappers
  import opened Strings
  import opened PageScan
  import DecreeParser

  /** The worker count: NumCPU, lowered to numPages when there are fewer
      pages; unlike the decree package there is no cap of 8. */
  function WorkerCount(numCPU: int, numPages: int): (w: int)
    ensures w <= numCPU && w <= numPages
    ensures w == numCPU || w == numPages
    ensures numCPU >= 1 && numPages >= 1 ==> w >= 1
  {
    if numCPU > numPages then numPages else numCPU
  }

  /** The per-page code inlined in the worker: Index alone decides whether
      the token is there. */
  function ClassifyInline(text: string, search: string): (r: FindState)
    ensures r == NotFound <==> forall i :: !OccursAt(text, search, i)
    ensures r == FoundAndResolved <==> exists i :: FirstOccurrence(text, search, i) && MarkerNear(text, i)
  {
    var index := Index(text, search);
    if index != -1 then
      var end := Min(index + OFFSET, |text|);
      WindowMarker(text, index);
      assert forall i :: FirstOccurrence(text, search, i) ==> i == index;
      if Contains(text[index..end], RESOLVED_MARKER) then FoundAndResolved else FoundButNotResolved
    else NotFound
  }

  /** One job of a worker: a null page is NotFound, an extraction failure is
      an error naming the page, text goes to the inline classification. */
  function PageJob(page: PageContent, pageNum: int, search: string): (r: PageResult)
    ensures r.err.Some? <==> page.Unextractable?
    ensures r.err.Some? ==> r == PageResult(NotFound, Some(PageReadFailed(pageNum, page.cause)))
    ensures page.NullPage? ==> r == PageResult(NotFound, None)
    ensures page.PageText? ==> (r.state == NotFound <==> !Contains(page.text, search))
  {
    match page
    case NullPage => PageResult(NotFound, None)
    case Unextractable(cause) => PageResult(NotFound, Some(PageReadFailed(pageNum, cause)))
    case PageText(text) => PageResult(ClassifyInline(text, search), None)
  }

  /** The inline worker code and the decree package's processPage give the
      same result on every page. */
  lemma PageJobIsProcessPage(page: PageContent, pageNum: int, search: string)
    ensures PageJob(page, pageNum, search) == ProcessPage(page, pageNum, search)
  {
    if page.PageText? {
      var text := page.text;
      if Index(text, search) != -1 {
        assert Contains(text, search);
      }
    }
  }

  /** The job-feeding loop: page numbers 1..numPages, each once, in order. */
  method EnqueuePages(numPages: nat) returns (jobs: seq<int>)
    ensures |jobs| == numPages
    ensures forall k :: 0 <= k < |jobs| ==> jobs[k] == k + 1
  {
    jobs := [];
    var i := 1;
    while i <= numPages
      invariant 1 <= i <= numPages + 1
      invariant |jobs| == i - 1
      invariant forall k :: 0 <= k < |jobs| ==> jobs[k] == k + 1
    {
      jobs := jobs + [i];
      i := i + 1;
    }
  }

  /** The results ReadPdf may return: the reader's error; NotFound with no
      error when no page is conclusive (so also for zero pages); otherwise the
      result of some conclusive page. */
  ghost predicate ReadPdfResult(doc: Document, search: string, state: FindState, err: Option<ScanError>)
  {
    match doc
    case Unreadable(cause) => state == NotFound && err == Some(ReaderFailed(cause))
    case Pages(pages) =>
      if NoConclusivePage(pages, search) then state == NotFound && err == None
      else exists p :: 1 <= p <= |pages| && Conclusive(Outcome(pages, p, search)) && Outcome(pages, p, search) == PageResult(state, err)
  }

  method ReadPdf(data: Bytes, search: string, open: Bytes -> Document) returns (state: FindState, err: Option<ScanError>)
    ensures ReadPdfResult(open(data), search, state, err)
  {
    var doc := open(data);
    if doc.Unreadable? {
      return NotFound, Some(ReaderFailed(doc.cause));
    }
    var pages := doc.pages;
    var numPages := |pages|;
    if numPages == 0 {
      return NotFound, None;
    }
    var jobs := EnqueuePages(numPages);
    var conclusive := RunJobs(pages, search, jobs);
    if conclusive == [] {
      return NotFound, None;
    }
    assert conclusive[0] in conclusive;
    var r :| r in conclusive;
    state, err := r.state, r.err;
  }

  /** The workers, run one after the other: every job's result, kept when
      it ends the scan. */
  method RunJobs(pages: seq<PageContent>, search: string, jobs: seq<int>) returns (conclusive: seq<PageResult>)
    requires |jobs| == |pages| && forall k :: 0 <= k < |jobs| ==> jobs[k] == k + 1
    ensures forall r :: r in conclusive ==> exists p :: 1 <= p <= |pages| && Conclusive(Outcome(pages, p, search)) && Outcome(pages, p, search) == r
    ensures conclusive == [] <==> NoConclusivePage(pages, search)
  {
    conclusive := [];
    var j := 0;
    while j < |jobs|
      invariant 0 <= j <= |jobs|
      invariant forall r :: r in conclusive ==> exists p :: 1 <= p <= |pages| && Conclusive(Outcome(pages, p, search)) && Outcome(pages, p, search) == r
      invariant conclusive == [] <==> forall p :: 1 <= p <= j ==> !Conclusive(Outcome(pages, p, search))
    {
      var pageNum := jobs[j];
      assert pageNum == j + 1;
      var result := PageJob(pages[pageNum - 1], pageNum, search);
      PageJobIsProcessPage(pages[pageNum - 1], pageNum, search);
      assert result == Outcome(pages, pageNum, search);
      if result.err.Some? || result.state != NotFound {
        conclusive := conclusive + [result];
      }
      j := j + 1;
    }
  }

  /** A page extraction error can be the answer, and then the state is
      NotFound; a match is returned without an error. */
  lemma ErrorOrMatch(pages: seq<PageContent>, search: string, state: FindState, err: Option<ScanError>)
    requires ReadPdfResult(Pages(pages), search, state, err)
    ensures err.Some? ==> state == NotFound && exists i :: 0 <= i < |pages| && pages[i].Unextractable? && err == Some(PageReadFailed(i + 1, pages[i].cause))
    ensures state != NotFound ==> err == None
    ensures (state == NotFound && err == None) <==> NoConclusivePage(pages, search)
  {
    if !NoConclusivePage(pages, search) {
      var p :| 1 <= p <= |pages| && Conclusive(Outcome(pages, p, search)) && Outcome(pages, p, search) == PageResult(state, err);
    }
  }

  /** Zero pages: NotFound with no error. */
  lemma NoPagesNotFound(search: string, state: FindState, err: Option<ScanError>)
    requires ReadPdfResult(Pages([]), search, state, err)
    ensures state == NotFound && err == None
  {
  }

  /** Whatever the decree package's ReadPdf may answer, this one may too: it
      is the decree scan without the first-in-batch restriction. */
  lemma DecreeResultAllowedHere(doc: Document, search: string, state: FindState, err: Option<ScanError>)
    requires DecreeParser.ReadPdfResult(doc, search, state, err)
    ensures ReadPdfResult(doc, search, state, err)
  {
    if doc.Pages? && !NoConclusivePage(doc.pages, search) {
      var p :| DecreeParser.FirstConclusiveInBatch(doc.pages, search, p) && Outcome(doc.pages, p, search) == PageResult(state, err);
    }
  }
}
