/** The lookup pipeline of the earlier decree_processor package: parse the
    year out of the case id, fetch that year's document, scan it. Each
    stage's error ends the pipeline with NotFound.

    The pipeline mutates nothing of its own, so it is a function of its
    collaborators: `getFile` stands for the fetcher and `readPdf` for the
    parser package's ReadPdf. The error kinds are shared with the decree
    package's service, which reports the same three failures. */
module DecreeProcessor {
  import opened Wrappers
  import opened CaseId
  import opened PageScan
  import opened Fetcher
  import PdfParser

  datatype HandleError =
    | InvalidCaseId(yearError: YearError)               // invalid case-id format
    | FileUnavailable(year: int, fetchError: FetchError) // the year's file could not be obtained
    | AnalysisFailed(scanError: ScanError)              // the document could not be analysed

  datatype Answer = Answer(state: FindState, err: Option<HandleError>)

  /** service.Handle */
  function Handle(search: string, getFile: int -> Result<Bytes, FetchError>, readPdf: (Bytes, string) -> PageResult): (a: Answer)
    ensures a.err.Some? ==> a.state == NotFound
    ensures a.err.None? <==>
      GetYear(search).Ok? && getFile(GetYear(search).value).Ok? &&
      readPdf(getFile(GetYear(search).value).value, search).err.None?
    ensures a.err.None? ==> a.state == readPdf(getFile(GetYear(search).value).value, search).state
  {
    match GetYear(search)
    case Err(e) => Answer(NotFound, Some(InvalidCaseId(e)))
    case Ok(year) =>
      match getFile(year)
      case Err(e) => Answer(NotFound, Some(FileUnavailable(year, e)))
      case Ok(data) =>
        var result := readPdf(data, search);
        if result.err.Some? then Answer(NotFound, Some(AnalysisFailed(result.err.value)))
        else Answer(result.state, None)
  }

  /** An invalid case id is reported before anything is fetched or parsed:
      the answer does not depend on either collaborator. */
  lemma InvalidIdSkipsFetch(search: string,
                            getFile: int -> Result<Bytes, FetchError>, readPdf: (Bytes, string) -> PageResult,
                            getFile': int -> Result<Bytes, FetchError>, readPdf': (Bytes, string) -> PageResult)
    requires GetYear(search).Err?
    ensures Handle(search, getFile, readPdf) == Answer(NotFound, Some(InvalidCaseId(GetYear(search).error)))
    ensures Handle(search, getFile, readPdf) == Handle(search, getFile', readPdf')
  {
  }

  /** A fetch failure is reported with the year and nothing is parsed: the
      answer does not depend on the parser. */
  lemma FetchFailureSkipsParse(search: string, getFile: int -> Result<Bytes, FetchError>,
                               readPdf: (Bytes, string) -> PageResult, readPdf': (Bytes, string) -> PageResult)
    requires GetYear(search).Ok? && getFile(GetYear(search).value).Err?
    ensures Handle(search, getFile, readPdf) ==
      Answer(NotFound, Some(FileUnavailable(GetYear(search).value, getFile(GetYear(search).value).error)))
    ensures Handle(search, getFile, readPdf) == Handle(search, getFile, readPdf')
  {
  }

  /** Only the parsed year is fetched, and the parser sees only the fetched
      bytes and the original search string: collaborators that agree there
      give the same answer. */
  lemma FetchesParsedYear(search: string,
                          getFile: int -> Result<Bytes, FetchError>, readPdf: (Bytes, string) -> PageResult,
                          getFile': int -> Result<Bytes, FetchError>, readPdf': (Bytes, string) -> PageResult)
    requires GetYear(search).Ok?
    requires getFile(GetYear(search).value) == getFile'(GetYear(search).value)
    requires getFile(GetYear(search).value).Ok? ==>
      var data := getFile(GetYear(search).value).value;
      readPdf(data, search) == readPdf'(data, search)
    ensures Handle(search, getFile, readPdf) == Handle(search, getFile', readPdf')
  {
  }

  /** A scan error becomes an analysis failure with NotFound. */
  lemma ScanErrorReported(search: string, getFile: int -> Result<Bytes, FetchError>, readPdf: (Bytes, string) -> PageResult)
    requires GetYear(search).Ok? && getFile(GetYear(search).value).Ok?
    requires readPdf(getFile(GetYear(search).value).value, search).err.Some?
    ensures Handle(search, getFile, readPdf) ==
      Answer(NotFound, Some(AnalysisFailed(readPdf(getFile(GetYear(search).value).value, search).err.value)))
  {
  }

  /** With the parser package's ReadPdf as the scanner, a successful answer
      other than NotFound is the state of some page of the fetched document,
      and NotFound means no page holds a match. */
  lemma AnswerFromPages(search: string, getFile: int -> Result<Bytes, FetchError>, readPdf: (Bytes, string) -> PageResult,
                        open: Bytes -> Document)
    requires GetYear(search).Ok? && getFile(GetYear(search).value).Ok?
    requires var data := getFile(GetYear(search).value).value;
      PdfParser.ReadPdfResult(open(data), search, readPdf(data, search).state, readPdf(data, search).err)
    requires open(getFile(GetYear(search).value).value).Pages?
    ensures var a := Handle(search, getFile, readPdf);
      var pages := open(getFile(GetYear(search).value).value).pages;
      a.err.None? ==>
        (a.state == NotFound <==> NoConclusivePage(pages, search)) &&
        (a.state != NotFound ==> exists p :: 1 <= p <= |pages| && Outcome(pages, p, search).state == a.state)
  {
    var data := getFile(GetYear(search).value).value;
    var pages := open(data).pages;
    var r := readPdf(data, search);
    PdfParser.ErrorOrMatch(pages, search, r.state, r.err);
    if r.err.None? && r.state != NotFound {
      var p :| 1 <= p <= |pages| && Conclusive(Outcome(pages, p, search)) && Outcome(pages, p, search) == PageResult(r.state, r.err);
    }
  }
}
