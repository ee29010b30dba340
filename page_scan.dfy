/** What both parser packages share about one page: the tri-state result,
    the view of the PDF library (a document is unreadable or a sequence of
    pages, each null, extractable text, or an extraction error) and the
    classification of a page's text against the searched case id. */
module PageScan {
  import opened Wrappers
  import opened Strings

  /** How far past the start of the match the resolution marker may stand. */
  const OFFSET := 43
  const RESOLVED_MARKER := "/P/"

  datatype FindState = NotFound | FoundButNotResolved | FoundAndResolved

  /** What the PDF library yields for one page. */
  datatype PageContent =
    | NullPage                    // page.V.IsNull()
    | PageText(text: string)      // GetPlainText succeeded
    | Unextractable(cause: string) // GetPlainText failed

  /** What the PDF library makes of the document bytes. */
  datatype Document = Unreadable(cause: string) | Pages(pages: seq<PageContent>)

  datatype ScanError =
    | ReaderFailed(cause: string)              // "error creating PDF reader"
    | PageReadFailed(pageNum: int, cause: string) // "error reading page %d"

  datatype PageResult = PageResult(state: FindState, err: Option<ScanError>)

  /** The marker starts within text[i .. min(i + OFFSET, |text|)] and ends
      inside it too. */
  ghost predicate MarkerNear(text: string, i: int)
  {
    exists j :: i <= j && j + |RESOLVED_MARKER| <= Min(i + OFFSET, |text|) && OccursAt(text, RESOLVED_MARKER, j)
  }

  /** The window text[index .. end] holds the marker exactly when the marker
      lies near `index`. */
  lemma WindowMarker(text: string, index: int)
    requires 0 <= index <= |text|
    ensures var end := Min(index + OFFSET, |text|);
      index <= end <= |text| &&
      (Contains(text[index..end], RESOLVED_MARKER) <==> MarkerNear(text, index))
  {
    var end := Min(index + OFFSET, |text|);
    if Contains(text[index..end], RESOLVED_MARKER) {
      var j :| OccursAt(text[index..end], RESOLVED_MARKER, j);
      OccursInSlice(text, index, end, RESOLVED_MARKER, j);
      assert index <= index + j;
    }
    if MarkerNear(text, index) {
      var j :| index <= j && j + |RESOLVED_MARKER| <= end && OccursAt(text, RESOLVED_MARKER, j);
      OccursInSlice(text, index, end, RESOLVED_MARKER, j - index);
    }
  }

  /** Classification of a page's text (processPage, after extraction): no
      match is NotFound; otherwise the first match decides, resolved exactly
      when the marker lies in the OFFSET-byte window that starts at it. */
  function Classify(text: string, search: string): (r: FindState)
    ensures r == NotFound <==> !Contains(text, search)
    ensures r == FoundAndResolved <==> exists i :: FirstOccurrence(text, search, i) && MarkerNear(text, i)
  {
    if !Contains(text, search) then NotFound
    else
      var index := Index(text, search);
      if index != -1 then
        var end := Min(index + OFFSET, |text|);
        WindowMarker(text, index);
        if Contains(text[index..end], RESOLVED_MARKER) then
          assert forall i :: FirstOccurrence(text, search, i) ==> i == index;
          FoundAndResolved
        else
          assert forall i :: FirstOccurrence(text, search, i) ==> i == index;
          FoundButNotResolved
      else NotFound
  }

  /** processPage: a null page is NotFound, an extraction failure is an error
      naming the page, extracted text is classified. */
  function ProcessPage(page: PageContent, pageNum: int, search: string): (r: PageResult)
    ensures r.err.Some? <==> page.Unextractable?
    ensures r.err.Some? ==> r.err.value == PageReadFailed(pageNum, page.cause) && r.state == NotFound
    ensures page.NullPage? ==> r == PageResult(NotFound, None)
    ensures page.PageText? ==> r == PageResult(Classify(page.text, search), None)
  {
    match page
    case NullPage => PageResult(NotFound, None)
    case Unextractable(cause) => PageResult(NotFound, Some(PageReadFailed(pageNum, cause)))
    case PageText(text) => PageResult(Classify(text, search), None)
  }

  /** A result that ends a scan: an error or a match. */
  predicate Conclusive(r: PageResult)
  {
    r.err.Some? || r.state != NotFound
  }

  /** The result of page `p` (pages are numbered from 1). */
  function Outcome(pages: seq<PageContent>, p: int, search: string): PageResult
    requires 1 <= p <= |pages|
  {
    ProcessPage(pages[p - 1], p, search)
  }

  ghost predicate NoConclusivePage(pages: seq<PageContent>, search: string)
  {
    forall p :: 1 <= p <= |pages| ==> !Conclusive(Outcome(pages, p, search))
  }

  /** A page that does not hold the search token never ends a scan. */
  lemma TokenAbsentPage(page: PageContent, pageNum: int, search: string)
    requires page.NullPage? || (page.PageText? && !Contains(page.text, search))
    ensures !Conclusive(ProcessPage(page, pageNum, search))
  {
  }

  /** Example: the token followed within the
      window by the marker is FoundAndResolved; with the marker only past the
      window, FoundButNotResolved. */
  lemma ExampleClassification()
    ensures Classify("x 123/RD/2023 /P/ 2024", "123/RD/2023") == FoundAndResolved
    ensures Classify("123/RD/2023" + seq(40, _ => ' ') + "/P/", "123/RD/2023") == FoundButNotResolved
  {
    var t1 := "x 123/RD/2023 /P/ 2024";
    assert OccursAt(t1, "123/RD/2023", 2);
    assert t1[0..11][0] == 'x';
    assert t1[1..12][0] == ' ';
    assert FirstOccurrence(t1, "123/RD/2023", 2);
    assert OccursAt(t1, RESOLVED_MARKER, 14);
    assert MarkerNear(t1, 2);

    var t2 := "123/RD/2023" + seq(40, _ => ' ') + "/P/";
    assert OccursAt(t2, "123/RD/2023", 0);
    assert FirstOccurrence(t2, "123/RD/2023", 0);
    forall j | 0 <= j && j + 3 <= Min(OFFSET, |t2|)
      ensures !OccursAt(t2, RESOLVED_MARKER, j)
    {
      if j >= 11 {
        assert t2[j + 1] == ' ';
      } else if j >= 4 {
        assert t2[j + 1] != '/' || t2[j + 2] != 'P';
      } else {
        assert t2[j + 1] != 'P';
      }
    }
    assert !MarkerNear(t2, 0);
  }
}
