# cetatenie-analyzer: the case-lookup pipeline in Dafny

The system answers one question for a citizenship case id of the form
`NUMBER/RD/YEAR`: is the case listed in that year's decree bulletin (a PDF
published once per year), and is it marked resolved? The lookup runs in
three stages, and the first stage to fail ends it with `NotFound` and an
error:

1. `GetYear` reads the year out of the id.
2. The fetcher downloads that year's PDF. It retries failed attempts with
   growing sleeps and keeps the file in a 24-hour cache.
3. `ReadPdf` scans the pages. A page that holds the id is resolved when
   the marker `/P/` appears within the 43 bytes starting at the match.

This project models that pipeline and proves properties of it:

- the id parser, including enough of Go's `strings` and `strconv.Atoi`;
- the per-page classification;
- both concurrent page scanners (the decree package's batched one and the
  earlier parser package's one-job-per-page one);
- the TTL cache;
- the fetcher's retry policy and acceptance checks;
- the two processors that chain the stages.

Modelling choices:

- **Strings are byte strings.** A Dafny `string` stands for a Go string
  with one `char` per byte. Document and body bytes are `seq<Byte>`.
- **The PDF library is a parameter.** `open: Bytes -> Document` gives
  either a reader error or the page list. Each page is null, extracted
  text, or an extraction error.
- **The network is an oracle.** `network(i)` is what attempt `i` receives:
  a transport failure, or a response with status, Content-Type,
  Content-Length and a body. A body is the chunks successive reads return
  plus how reading ends (EOF or an error).
- **Clocks are integer nanosecond readings passed in.** `time.Sleep` is
  reported as the list of delays. A lookup's readings are taken in order,
  as Go's monotonic clock guarantees (`DecreeService.Monotonic`).
- **Concurrency is modelled sequentially, with a free choice of winner.**
  The worker pools are replaced by a sequential computation of every
  result a worker could report. The scan then returns any one of them (a
  nondeterministic pick), which covers every order in which reports can
  arrive.
  - In the decree package a worker stops at the first conclusive page of
    its batch. So the possible answers are the results of pages that are
    the first conclusive page of their batch.
  - In the parser package every page is a job. So any conclusive page's
    result may win.
  - In both, `NotFound` with no error is returned exactly when no page is
    conclusive.

Two facts about the scanners' answers:

- Page 1's conclusive result is guaranteed to win over later failing
  pages only within its batch of ten (`DecreeParser.FirstPageWinsItsBatch`).
  A worker on another batch can report first.
- In the parser package any conclusive page may win.

## Model

| member | source | states |
|---|---|---|
| Wrappers.Min | internal/decree/parser.go:211-216 | the result is one of the two arguments and no larger than either |
| Strings.Index | internal/decree/parser.go:176 | -1 exactly when the token occurs nowhere; otherwise the first byte position where it occurs |
| Strings.Contains | internal/decree/parser.go:171 | true exactly when the token occurs at some position |
| Strings.Split | internal/decree/parser.go:189 | one more part than there are separators, no part holds the separator, and joining the parts gives back the input |
| Strings.SplitJoin | internal/decree/parser.go:189-190 | splitting a join of separator-free parts gives back the parts |
| Strings.OccursInSlice | internal/decree/parser.go:178-179 | an occurrence in a slice is an occurrence in the whole string that ends inside the slice |
| Strconv.Atoi | internal/decree/parser.go:199-202 | a non-empty string of ASCII digits, optionally after one '+' or '-', converts to its decimal value with that sign when the value fits in int64 and is None (Go's range error) otherwise; every other string, the empty one included, is None (Go's syntax error) |
| Strconv.FourByteAtoi | internal/decree/parser.go:194-208 | a four-byte field Atoi reads as 1000 or more in absolute value is four plain digits, and the value is their decimal value |
| Strconv.SignedFourByteAtoi | internal/decree/parser.go:199-208 | a signed four-byte field converts to a value of absolute value at most 999 |
| CaseId.GetYear | internal/decree/parser.go:188-209 | an accepted year lies in 2000..2100, and an out-of-range error carries a year outside it (internal/parser/parser.go:139-160 is the same code) |
| CaseId.GetYearSound | internal/decree/parser.go:188-209 | every accepted id is NUMBER/RD/FIELD with no '/' in NUMBER or FIELD, FIELD four ASCII digits in range, and the year is FIELD's value |
| CaseId.GetYearComplete | internal/decree/parser.go:188-209 | every NUMBER/RD/FIELD with '/'-free NUMBER and a valid four-digit FIELD is accepted with FIELD's value |
| CaseId.GetYearRejectsSlashCount | internal/decree/parser.go:189-192 | an id without exactly two '/' bytes is a format error |
| CaseId.GetYearRejectsFieldLength | internal/decree/parser.go:194-197 | a year field that is not four bytes long is rejected before conversion |
| CaseId.GetYearRejectsRange | internal/decree/parser.go:204-206 | a four-digit year outside 2000..2100 is rejected with its value |
| CaseId.PatternIdsParse | internal/bot/bot.go:21 | an id matching the bot's pattern `^\d{1,5}/RD/\d{4}$` fails GetYear only by range |
| CaseId.ExampleId | internal/decree/parser.go:188-209 | "123/RD/2023" parses to 2023 |
| CaseId.NonDigitStartNoMatch | internal/bot/bot.go:21 | an id whose first byte is not a digit never matches the bot's pattern |
| CaseId.NumberPartUnchecked | internal/decree/parser.go:189-192 | "abc/RD/2023" is accepted although the bot's pattern refuses it: the number part is never checked |
| PageScan.WindowMarker | internal/decree/parser.go:178-179 | the window text[index..min(index+43, len)] holds "/P/" exactly when the marker lies wholly within 43 bytes of the match |
| PageScan.Classify | internal/decree/parser.go:170-185 | NotFound exactly when the token is absent; FoundAndResolved exactly when the marker lies within the window of the first match |
| PageScan.ProcessPage | internal/decree/parser.go:151-186 | error exactly for a page whose text cannot be extracted (naming the page, state NotFound); a null page is NotFound; text is classified |
| PageScan.TokenAbsentPage | internal/decree/parser.go:171-173 | a page without the token never ends a scan |
| PageScan.ExampleClassification | internal/decree/parser.go:176-183 | the marker inside the window gives FoundAndResolved; the marker 51 bytes after the match gives FoundButNotResolved |
| DecreeParser.WorkerCount | internal/decree/parser.go:62 | the worker count is one of 8, NumCPU and the page count, is at most each, and is at least 1 when both are positive |
| DecreeParser.MakeBatches | internal/decree/parser.go:79-93 | ceil(n/10) batches of 1..10 consecutive pages, batch k starting at 10k+1, together exactly the pages 1..n in order |
| DecreeParser.PagesFromTo | internal/decree/parser.go:82-85 | one batch holds the consecutive page numbers from its first to its last page |
| DecreeParser.ScanBatch | internal/decree/parser.go:135-146 | no report exactly when no page of the batch is conclusive; otherwise the result of the first conclusive page of the batch |
| DecreeParser.BatchReport | internal/decree/parser.go:130-146 | a batch's report is the result of a page that is first conclusive in its batch, and no report means the batch holds no conclusive page |
| DecreeParser.ReadPdf | internal/decree/parser.go:50-114 | a reader error is returned as such; NotFound without error when no page is conclusive; otherwise the result of a page that is the first conclusive one of its batch |
| DecreeParser.NotFoundExactlyWhenNothingConclusive | internal/decree/parser.go:102-113 | NotFound with no error is returned exactly when no page is conclusive |
| DecreeParser.NoPagesNotFound | internal/decree/parser.go:56-59 | a document without pages gives NotFound and no error |
| DecreeParser.ErrorMeansNotFound | internal/decree/parser.go:103-106 | an error is never returned with a match |
| DecreeParser.FirstPageWinsItsBatch | internal/decree/parser.go:135-146 | with at most ten pages and page 1 conclusive, page 1's result is the answer whatever later pages give |
| DecreeParser.TokenAbsentNotFound | internal/decree/parser.go:171-173 | a document none of whose pages holds the token gives NotFound and no error |
| PdfParser.WorkerCount | internal/parser/parser.go:50-53 | the worker count is NumCPU lowered to the page count, with no cap of 8 |
| PdfParser.ClassifyInline | internal/parser/parser.go:93-103 | NotFound exactly when the token occurs nowhere; FoundAndResolved exactly when the marker lies within the window of the first match |
| PdfParser.PageJob | internal/parser/parser.go:81-103 | an error exactly for a page whose text cannot be extracted, naming the page, with NotFound; a null page is NotFound; a text page is NotFound exactly when it lacks the token |
| PdfParser.PageJobIsProcessPage | internal/parser/parser.go:81-103 | the worker's inline page code gives the same result as the decree package's processPage on every page |
| PdfParser.EnqueuePages | internal/parser/parser.go:110-115 | the job feed sends the page numbers 1..n, each once, in order |
| PdfParser.RunJobs | internal/parser/parser.go:74-134 | every kept result is some conclusive page's result, and nothing is kept exactly when no page is conclusive |
| PdfParser.ReadPdf | internal/parser/parser.go:36-137 | a reader error is returned as such; NotFound without error when no page is conclusive; otherwise the result of some conclusive page |
| PdfParser.ErrorOrMatch | internal/parser/parser.go:124-134 | an error names an unextractable page and comes with NotFound; a match comes without error; NotFound with no error exactly when nothing is conclusive |
| PdfParser.NoPagesNotFound | internal/parser/parser.go:44-47 | a document without pages gives NotFound and no error |
| PdfParser.DecreeResultAllowedHere | internal/parser/parser.go:124-134 | every answer the decree package's scan may give is one this scan may give too |
| TtlCache.Lookup | internal/cache/cache.go:31-55 | a lookup finds data exactly when the key is present and now is not after its expiration, and the data is the stored data |
| TtlCache.AfterGet | internal/cache/cache.go:42-50 | a lookup deletes the key only when its entry has expired, and leaves every other entry as it was |
| TtlCache.Sweep | internal/cache/cache.go:69-79 | a sweep keeps exactly the unexpired entries, unchanged |
| TtlCache.Cache.constructor | internal/cache/cache.go:23-28 | a new cache is empty with the given TTL |
| TtlCache.Cache.Get | internal/cache/cache.go:31-55 | found exactly when Lookup finds data, returning the stored data, else empty; the new map is AfterGet |
| TtlCache.Cache.Set | internal/cache/cache.go:58-66 | the key now maps to the data with expiration now + ttl; nothing else changes |
| TtlCache.Cache.Cleanup | internal/cache/cache.go:69-79 | the loop over all keys leaves exactly Sweep of the old map |
| TtlCache.SetThenGet | internal/cache/cache.go:58-66 | after Set at t, a lookup at any instant up to t + ttl returns the data and none later does |
| TtlCache.SetOthersUnchanged | internal/cache/cache.go:62-65 | Set does not change what any other key's lookup returns |
| TtlCache.GetMissingUnchanged | internal/cache/cache.go:34-39 | a missing key is a miss and the map is unchanged |
| TtlCache.GetExpiredRemovesOnlyKey | internal/cache/cache.go:42-50 | an expired entry is a miss and exactly its key is removed |
| TtlCache.HousekeepingInvisible | internal/cache/cache.go:42-78 | neither Get's deletion nor a sweep changes what a lookup at the same or a later instant returns |
| TtlCache.SweepIdempotent | internal/cache/cache.go:73-78 | two sweeps at one instant leave what one leaves |
| TtlCache.SweepShrinks | internal/cache/cache.go:74-78 | a sweep only removes keys and never grows the map |
| Fetcher.ReadFull | internal/fetcher/fetcher.go:137-141 | exactly n bytes, the first n delivered, when the body has n; otherwise EOF when nothing was delivered and reading ended in EOF, UnexpectedEOF after a partial read ended by EOF, and the reader's own error whenever reading ended in an error |
| Fetcher.Snippet | internal/fetcher/fetcher.go:124-129 | the quoted error body is the first min(1024, length) delivered bytes |
| Fetcher.ReadWithPool | internal/fetcher/fetcher.go:155-172 | the concatenation of all chunks when reading ends in EOF, the read error otherwise |
| Fetcher.PoolGet | internal/fetcher/fetcher.go:149-157 | Get yields either one pooled value, removed from the pool, or a fresh slice from New with the pool left as it was; the latter is the only outcome for an empty pool and may also happen for a non-empty one |
| Fetcher.ReadWithPoolAsWritten | internal/fetcher/fetcher.go:155-172 | as written, a read panics exactly when the pool hands it a pointer; a read that finishes yields the body read to its end and leaves a pointer in the pool |
| Fetcher.ReadWithPoolCorrected | internal/fetcher/fetcher.go:155-172 | with the slice handed back, a read that finishes yields the body read to its end, leaves a slice in the pool, and never adds a pointer |
| Fetcher.AttemptResult | internal/fetcher/fetcher.go:104-146 | an attempt succeeds only on a response with status 200 whose Content-Type contains application/pdf |
| Fetcher.AttemptOutcomes | internal/fetcher/fetcher.go:118-146 | a transport failure, a non-200 status (with the first 1024 body bytes) and a wrong Content-Type each give their own error; an accepted response with a positive Content-Length n yields the first n delivered bytes when there are n and the io.ReadFull failure otherwise; an accepted response without one yields every delivered byte when reading ends in EOF and the read error otherwise |
| Fetcher.PdfResponseAccepted | internal/fetcher/fetcher.go:123-141 | a 200 response whose Content-Type contains application/pdf and whose Content-Length equals the (non-zero) number of bytes the body delivers yields all those bytes, whatever the chunking and however reading ends |
| Fetcher.Backoffs | internal/fetcher/fetcher.go:87-90 | before attempt i > 0 the loop sleeps i*i seconds |
| Fetcher.RetryFrom | internal/fetcher/fetcher.go:84-101 | from attempt i below the limit, between i + 1 and maxRetries attempts are made in all; with no attempt left the error carries the count and the previous attempt's error; every failed run made all maxRetries attempts and reports that count |
| Fetcher.DownloadWithRetry | internal/fetcher/fetcher.go:84-101 | result and attempt count are RetryOutcome's, and the sleeps are Backoffs of the attempt count |
| Fetcher.RetryStopsAtFirstSuccess | internal/fetcher/fetcher.go:92-95 | success at attempt k after k failures returns that data after k + 1 attempts |
| Fetcher.RetrySuccessIsFirstSuccess | internal/fetcher/fetcher.go:87-95 | a successful download is the data of an attempt within the limit before which every attempt failed |
| Fetcher.RetryExhausted | internal/fetcher/fetcher.go:97-100 | when every attempt fails, all maxRetries attempts are made and the error carries the last attempt's error |
| Fetcher.FailFailSucceed | internal/fetcher/fetcher.go:84-101 | two failures then a success: three attempts, the data of the third, sleeps of 1 s and 4 s |
| Fetcher.FileUrl | internal/fetcher/fetcher.go:65 | the cache key is the base URL followed by the year's file name |
| Fetcher.FileUrlDistinct | internal/fetcher/fetcher.go:27-34 | two different supported years have different cache keys, so one year's file is never served for another |
| Fetcher.GetFileOutcome | internal/fetcher/fetcher.go:59-81 | an unsupported year is an error with no download and the cache untouched; a download is made exactly on a cache miss, with at most three attempts; a failure never adds or changes an entry |
| Fetcher.HttpFetcher.constructor | internal/fetcher/fetcher.go:48-55 | the base URL is the fixed storage URL and the cache is new, empty, with a 24-hour TTL |
| Fetcher.HttpFetcher.GetFile | internal/fetcher/fetcher.go:59-81 | the result, attempt count and new cache map are those of GetFileOutcome |
| Fetcher.HttpFetcher.CleanUpCache | internal/fetcher/fetcher.go:174-177 | the cache is swept |
| Fetcher.UnsupportedYearRejected | internal/fetcher/fetcher.go:60-63 | a year outside 2020..2025 is an error, with the cache untouched and no download |
| Fetcher.SupportedYearsExactly | internal/fetcher/fetcher.go:27-34 | exactly 2020..2025 have a file |
| Fetcher.CacheHitNoDownload | internal/fetcher/fetcher.go:68-70 | a live cached copy is returned as is, with no attempt and the cache unchanged |
| Fetcher.DownloadedDataCached | internal/fetcher/fetcher.go:77-80 | after a successful download the data is returned and stays cached through the sweep: a lookup up to ttl after storing finds it |
| Fetcher.DownloadFailureNotCached | internal/fetcher/fetcher.go:72-75 | a failed download is reported with its error, writes nothing, and leaves no live entry under the URL |
| Fetcher.PooledPointerPanics | internal/fetcher/fetcher.go:157-158 | as written, a first read leaves a slice pointer in the pool and a second read that gets it panics |
| Fetcher.CorrectedPoolNeverPanics | internal/fetcher/fetcher.go:157-158 | handing the slice itself back, a pool of slices stays one, and every read yields the body read to its end |
| DecreeProcessor.Handle | internal/decree_processor/processor.go:35-52 | an error always comes with NotFound; no error exactly when all three stages succeed, and then the state is ReadPdf's |
| DecreeProcessor.InvalidIdSkipsFetch | internal/decree_processor/processor.go:36-39 | an invalid id is a format error whatever the fetcher and parser would do |
| DecreeProcessor.FetchFailureSkipsParse | internal/decree_processor/processor.go:41-44 | a fetch failure is reported with the year whatever the parser would do |
| DecreeProcessor.FetchesParsedYear | internal/decree_processor/processor.go:41-46 | only the parsed year is fetched and the parser sees only the fetched bytes and the search string |
| DecreeProcessor.ScanErrorReported | internal/decree_processor/processor.go:46-49 | a scan error becomes an analysis failure with NotFound |
| DecreeProcessor.AnswerFromPages | internal/decree_processor/processor.go:46-51 | with the parser package's scan, a successful NotFound means no page is conclusive and any other state is some page's |
| DecreeService.Timer.constructor | internal/timer/time_report.go:37-39 | a new timer holds zero readings |
| DecreeService.Timer.Start | internal/timer/time_report.go:41-43 | Start records the start reading only |
| DecreeService.Timer.Stop | internal/timer/time_report.go:45-47 | Stop records the end reading only |
| DecreeService.Timer.Duration | internal/timer/time_report.go:49-51 | the duration is the end reading minus the start reading, never negative when the start comes first |
| DecreeService.Service.constructor | internal/decree/processor.go:21-31 | a new service owns a new fetcher with an empty 24-hour cache |
| DecreeService.Service.Handle | internal/decree/processor.go:33-60 | with clock readings in order, both reported durations are non-negative; an invalid id is a format error with an empty report and no cache access; otherwise the cache changes as GetFile does, a fetch failure is reported with the year and an empty report, and a fetched file leads to the scan stage |
| DecreeService.Service.Scan | internal/decree/processor.go:48-59 | a scan error becomes an analysis failure with NotFound and an empty report; a scan result comes with both measured durations, which are non-negative |
| DecreeService.Service.CleanUpCache | internal/decree/processor.go:62-64 | the fetcher's cache is swept and no error is returned |
| DecreeService.ScanStageShape | internal/decree/processor.go:50-59 | an unreadable document is an analysis failure carrying the reader error; a success reports the fetch and the scan durations, both non-negative for clock readings in order |

## Left out

- Goroutines, channels, the WaitGroup and context cancellation in both
  `ReadPdf` versions. Scheduling is replaced by a free choice among the
  results a worker could report. The worker count therefore does not
  narrow the answer. With one worker the decree scan would always return
  the lowest conclusive page.
- The PDF library (`pdf.NewReader`, `NumPage`, `Page`, `GetPlainText`).
  It is the `open` parameter.
- The text-buffer `sync.Pool` of the decree parser. It has no effect on
  results.
- The HTTP client, TLS settings and request headers, and request creation.
  The URL is always a fixed valid string. `time.Sleep` itself is left out;
  only the delay amounts are kept.
- Fetcher.HttpFetcher.GetFile: the cache store and the sweep after a
  download share one clock reading (`storedAt`).
- TtlCache.Cache.Get: the re-check under the write lock is left out. It
  matters only when another goroutine writes between the two reads: then
  Go returns the stale first `item`. Sequentially it always confirms the
  expiry.
- TtlCache: the mutex is left out, since calls are sequential here. So is
  wrap-around of `time.Time` arithmetic.
- Fetcher.PoolGet: items the runtime drops from the pool between calls
  are not a step of their own; each call takes any pool contents as
  input, which covers a pool that has lost items.
- Strconv.Atoi: Go's syntax and range errors are both None, since no
  caller in the core tells them apart.
- Fetcher.ReadWithPool: the loop ignores the pool. What the pool changes
  is covered under Findings.
- The parser package's `min` call is Go's built-in `min`; the decree
  package's own `min` is Wrappers.Min.
- `cleanupTempFile` in the decree_processor package has no effect (its
  only branch is empty) and no caller, so there is nothing to state about
  it.
- `internal/fetcher/cache_manager.go`, time formatting
  (`FormatDuration`), the chat bots, the subscription checker, the
  database layer and `cmd/main.go` are not part of this model.
- `NewProcessor`'s panic when the fetcher cannot be built is left out.
  `fetcher.New` never returns an error.

## Findings

| source | as written | input that shows it | evidently intended | confidence | as-written member | corrected member |
|---|---|---|---|---|---|---|
| internal/fetcher/fetcher.go:157-158 | `readWithPool` type-asserts the pooled value to `[]byte` but hands back `&temp`, a `*[]byte` | two downloads without Content-Length with the pooled value kept in between: the second `bufPool.Get().([]byte)` receives the pointer and panics | hand back the slice itself (`bufPool.Put(temp)`), so the pool only ever holds slices | high; not executed | Fetcher.PooledPointerPanics | Fetcher.CorrectedPoolNeverPanics |
