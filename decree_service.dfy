/** The decree package's processor service: the same three-stage lookup as
    DecreeProcessor.Handle, over the HTTP fetcher and the decree package's
    batched ReadPdf, with a timer around the fetch and one around the scan.
    Only a fully successful lookup reports the measured durations. */
module DecreeService {
  import opened Wrappers
  import opened CaseId
  import opened PageScan
  import opened TtlCache
  import opened Fetcher
  import opened DecreeProcessor
  import DecreeParser

  /** The two durations of a lookup; the empty report is all zero. */
  datatype TimeReport = TimeReport(fetchTime: int, parseTime: int)
  const EMPTY_REPORT := TimeReport(0, 0)

  /** A stopwatch: two clock readings. */
  class Timer {
    var start: int
    var end: int

    constructor()
      ensures start == 0 && end == 0
    {
      start, end := 0, 0;
    }

    method Start(now: int)
      modifies this
      ensures start == now && end == old(end)
    {
      start := now;
    }

    method Stop(now: int)
      modifies this
      ensures end == now && start == old(start)
    {
      end := now;
    }

    /** The time from the start reading to the end reading; never negative
        when the readings come from a monotonic clock. */
    function Duration(): (d: int)
      reads this
      ensures start + d == end
      ensures start <= end ==> d >= 0
    {
      end - start
    }
  }

  /** The clock readings of one lookup: the fetch timer's start, the
      fetcher's cache lookup, its store and sweep after a download, the
      fetch timer's stop, and the scan timer's start and stop. */
  datatype Clock = Clock(fetchStart: int, lookupAt: int, storedAt: int, fetchEnd: int, parseStart: int, parseEnd: int)

  /** Go's monotonic clock never runs backwards: the readings come in the
      order the lookup makes them. */
  predicate Monotonic(clock: Clock)
  {
    clock.fetchStart <= clock.lookupAt <= clock.storedAt <= clock.fetchEnd <= clock.parseStart <= clock.parseEnd
  }

  /** What the scan stage may answer for a fetched document: an analysis
      failure with NotFound and an empty report when ReadPdf reports an
      error, otherwise ReadPdf's state with both measured durations. */
  ghost predicate ScanStage(doc: Document, search: string, clock: Clock, state: FindState, report: TimeReport, err: Option<HandleError>)
  {
    match err
    case None =>
      DecreeParser.ReadPdfResult(doc, search, state, None) &&
      report == TimeReport(clock.fetchEnd - clock.fetchStart, clock.parseEnd - clock.parseStart)
    case Some(e) =>
      e.AnalysisFailed? && state == NotFound && report == EMPTY_REPORT &&
      DecreeParser.ReadPdfResult(doc, search, NotFound, Some(e.scanError))
  }

  class Service {
    const fetcher: HttpFetcher
    const open: Bytes -> Document

    /** NewProcessor: a fresh fetcher; `open` is the PDF library. */
    constructor(open: Bytes -> Document)
      ensures fresh(fetcher) && fresh(fetcher.cache) && fetcher.cache.items == map[]
      ensures fetcher.baseURL == BASE_URL && fetcher.cache.ttl == CACHE_TTL && this.open == open
    {
      fetcher := new HttpFetcher();
      this.open := open;
    }

    method Handle(search: string, clock: Clock, network: nat -> HttpOutcome) returns (state: FindState, report: TimeReport, err: Option<HandleError>)
      requires Monotonic(clock)
      modifies fetcher.cache
      ensures err.Some? ==> state == NotFound
      ensures report.fetchTime >= 0 && report.parseTime >= 0
      ensures GetYear(search).Err? ==>
        state == NotFound && report == EMPTY_REPORT && err == Some(InvalidCaseId(GetYear(search).error)) &&
        fetcher.cache.items == old(fetcher.cache.items)
      ensures GetYear(search).Ok? ==>
        var year := GetYear(search).value;
        var run := GetFileOutcome(old(fetcher.cache.items), fetcher.cache.ttl, fetcher.baseURL, year, clock.lookupAt, clock.storedAt, network);
        fetcher.cache.items == run.items &&
        (run.result.Err? ==> state == NotFound && report == EMPTY_REPORT && err == Some(FileUnavailable(year, run.result.error))) &&
        (run.result.Ok? ==> ScanStage(open(run.result.value), search, clock, state, report, err))
    {
      var yearResult := GetYear(search);
      if yearResult.Err? {
        return NotFound, EMPTY_REPORT, Some(InvalidCaseId(yearResult.error));
      }
      var year := yearResult.value;
      ghost var run := GetFileOutcome(fetcher.cache.items, fetcher.cache.ttl, fetcher.baseURL, year, clock.lookupAt, clock.storedAt, network);

      var fetchTimer := new Timer();
      fetchTimer.Start(clock.fetchStart);
      var file, _ := fetcher.GetFile(year, clock.lookupAt, clock.storedAt, network);
      assert file == run.result && fetcher.cache.items == run.items;
      if file.Err? {
        return NotFound, EMPTY_REPORT, Some(FileUnavailable(year, file.error));
      }
      fetchTimer.Stop(clock.fetchEnd);
      var fetchTime := fetchTimer.Duration();

      state, report, err := Scan(file.value, search, clock, fetchTime);
    }

    /** The scan stage, timed by its own timer; `fetchTime` is the fetch
        timer's measurement, passed on to the report. */
    method Scan(data: Bytes, search: string, clock: Clock, fetchTime: int) returns (state: FindState, report: TimeReport, err: Option<HandleError>)
      requires fetchTime == clock.fetchEnd - clock.fetchStart
      requires Monotonic(clock)
      ensures ScanStage(open(data), search, clock, state, report, err)
      ensures report.fetchTime >= 0 && report.parseTime >= 0
    {
      var parseTimer := new Timer();
      parseTimer.Start(clock.parseStart);
      var found, scanError := DecreeParser.ReadPdf(data, search, open);
      if scanError.Some? {
        DecreeParser.ErrorMeansNotFound(open(data), search, found, scanError);
        return NotFound, EMPTY_REPORT, Some(AnalysisFailed(scanError.value));
      }
      parseTimer.Stop(clock.parseEnd);
      var parseTime := parseTimer.Duration();
      return found, TimeReport(fetchTime, parseTime), None;
    }

    /** CleanUpCache: the fetcher's sweep, whose nil error is passed on. */
    method CleanUpCache(now: int) returns (err: Option<string>)
      modifies fetcher.cache
      ensures fetcher.cache.items == Sweep(old(fetcher.cache.items), now)
      ensures err == None
    {
      fetcher.CleanUpCache(now);
      return None;
    }
  }

  /** A successful lookup reports a state ReadPdf may return with no error,
      and a scan failure always comes with NotFound and an empty report. */
  lemma ScanStageShape(doc: Document, search: string, clock: Clock, state: FindState, report: TimeReport, err: Option<HandleError>)
    requires ScanStage(doc, search, clock, state, report, err) && Monotonic(clock)
    ensures report.fetchTime >= 0 && report.parseTime >= 0
    ensures err.None? ==> report.fetchTime == clock.fetchEnd - clock.fetchStart && report.parseTime == clock.parseEnd - clock.parseStart
    ensures err.Some? ==> state == NotFound && report == EMPTY_REPORT && err.value.AnalysisFailed?
    ensures doc.Unreadable? ==> err == Some(AnalysisFailed(ReaderFailed(doc.cause)))
  {
  }
}
