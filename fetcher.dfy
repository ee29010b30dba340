/** The HTTP fetcher: maps a supported year to the decree PDF's URL, serves
    it from the TTL cache when a live copy is there, and otherwise downloads
    it with up to three attempts and stores it.

    The network is an oracle: `network(i)` is what attempt i (from 0) of the
    current download receives, either a transport failure or a response
    with a status code, a Content-Type, a Content-Length (-1 when unknown)
    and a body. A body is the sequence of chunks successive reads return,
    followed by how reading ends: EOF or a read error. Clock readings are
    parameters; time.Sleep is reported as the list of delays. */
module Fetcher {
  import opened Wrappers
  import opened Strings
  import opened TtlCache

  const BASE_URL := "https://cetatenie.just.ro/storage/2023/11/"
  const MAX_RETRIES := 3
  const SECOND := 1_000_000_000
  const CACHE_TTL := 24 * 3600 * SECOND
  const STATUS_OK := 200
  const PDF_CONTENT_TYPE := "application/pdf"
  /** The error body of a non-200 response is quoted up to this many bytes. */
  const SNIPPET_SIZE := 1024

  /** supportedYears */
  const SupportedYears: map<int, string> := map[
    2020 := "art_11_anul_2020.pdf",
    2021 := "art_11_anul_2021.pdf",
    2022 := "art_11_anul_2022.pdf",
    2023 := "art_11_anul_2023.pdf",
    2024 := "art_11_anul_2024.pdf",
    2025 := "art_11_anul_2025.pdf"
  ]

  datatype ReadEnd = EOF | ReadError(cause: string)
  datatype Body = Body(chunks: seq<Bytes>, end: ReadEnd)
  datatype HttpResponse = HttpResponse(status: int, contentType: string, contentLength: int, body: Body)
  datatype HttpOutcome = TransportFailure(cause: string) | Responded(response: HttpResponse)

  /** The errors io.ReadFull reports. */
  datatype ReadFailure =
    | EndOfFile             // io.EOF: nothing was read
    | UnexpectedEndOfFile   // io.ErrUnexpectedEOF: EOF after a partial read
    | ReadFailed(cause: string)

  /** Why one attempt failed. */
  datatype AttemptError =
    | RequestFailed(cause: string)                   // "request failed"
    | UnexpectedStatus(status: int, snippet: Bytes)  // "unexpected status code"
    | UnexpectedContentType(contentType: string)     // "unexpected content type"
    | BodyUnreadable(failure: ReadFailure)

  /** "after N attempts": the last attempt's error, absent when no attempt
      was made. */
  datatype RetryError = AfterAttempts(attempts: int, last: Option<AttemptError>)

  datatype FetchError =
    | UnsupportedYear(year: int)             // "year %d is not supported"
    | DownloadFailed(cause: RetryError)      // "failed to download file"

  /** All bytes a body delivers before it ends. */
  function Delivered(body: Body): Bytes
  {
    Flatten(body.chunks)
  }

  /** io.ReadFull into an n-byte buffer: the first n bytes if the body has
      that many; otherwise EOF when nothing came, an unexpected EOF after a
      partial read, or the reader's own error. */
  function ReadFull(body: Body, n: nat): (r: Result<Bytes, ReadFailure>)
    ensures r.Ok? <==> |Delivered(body)| >= n
    ensures r.Ok? ==> |r.value| == n && r.value == Delivered(body)[..n]
    ensures r == Err(EndOfFile) <==> |Delivered(body)| == 0 < n && body.end == EOF
    ensures 0 < |Delivered(body)| < n && body.end == EOF ==> r == Err(UnexpectedEndOfFile)
    ensures |Delivered(body)| < n && body.end.ReadError? ==> r == Err(ReadFailed(body.end.cause))
  {
    var all := Delivered(body);
    if |all| >= n then Ok(all[..n])
    else match body.end
      case EOF => if |all| == 0 then Err(EndOfFile) else Err(UnexpectedEndOfFile)
      case ReadError(cause) => Err(ReadFailed(cause))
  }

  /** The bytes io.ReadFull leaves in a buffer of SNIPPET_SIZE, whatever
      error it reports (buf[:n]). */
  function Snippet(body: Body): (s: Bytes)
    ensures |s| <= SNIPPET_SIZE
    ensures s <= Delivered(body)
    ensures |Delivered(body)| >= SNIPPET_SIZE ==> |s| == SNIPPET_SIZE
    ensures |Delivered(body)| < SNIPPET_SIZE ==> s == Delivered(body)
  {
    var all := Delivered(body);
    all[..Min(SNIPPET_SIZE, |all|)]
  }

  /** What reading a body to its end yields: everything delivered when it
      ends in EOF, the read error otherwise. */
  function ReadToEnd(body: Body): (r: Result<Bytes, ReadFailure>)
  {
    match body.end
    case EOF => Ok(Delivered(body))
    case ReadError(cause) => Err(ReadFailed(cause))
  }

  /** readWithPool: append each chunk read until the reader reports an
      error; EOF yields the bytes so far, any other error yields that
      error. */
  method ReadWithPool(body: Body) returns (r: Result<Bytes, ReadFailure>)
    ensures r.Ok? <==> body.end == EOF
    ensures r.Ok? ==> r.value == Delivered(body)
    ensures r.Err? ==> r.error == ReadFailed(body.end.cause)
  {
    var buf: Bytes := [];
    var i := 0;
    while i < |body.chunks|
      invariant 0 <= i <= |body.chunks|
      invariant buf == Flatten(body.chunks[..i])
    {
      FlattenSnoc(body.chunks[..i], body.chunks[i]);
      assert body.chunks[..i + 1] == body.chunks[..i] + [body.chunks[i]];
      buf := buf + body.chunks[i];
      i := i + 1;
    }
    assert body.chunks[..i] == body.chunks;
    if body.end.EOF? {
      return Ok(buf);
    }
    return Err(ReadFailed(body.end.cause));
  }

  /** What bufPool holds: slices as its New function makes them, or
      pointers to slices as readWithPool hands them back. */
  datatype PoolValue = ByteSlice | SlicePointer

  /** A readWithPool call against the pool: a panic, or the read's result,
      together with what the pool holds afterwards. */
  datatype PooledRead = Panicked | Finished(result: Result<Bytes, ReadFailure>)
  datatype PoolRun = PoolRun(read: PooledRead, pool: seq<PoolValue>)

  /** bufPool.Get, with `pick` standing for the runtime's choice: pooled
      value number `pick`, removed from the pool, or, when `pick` is past the
      end, a fresh slice from New with the pool left alone. sync.Pool may
      ignore a non-empty pool that way, and an empty pool always is. */
  function PoolGet(pool: seq<PoolValue>, pick: nat): (r: (PoolValue, seq<PoolValue>))
    ensures pick >= |pool| ==> r == (ByteSlice, pool)
    ensures pick < |pool| ==> r.0 == pool[pick] && |r.1| == |pool| - 1 && multiset(r.1) + multiset{r.0} == multiset(pool)
  {
    if pick >= |pool| then (ByteSlice, pool)
    else
      assert pool == pool[..pick] + [pool[pick]] + pool[pick + 1..];
      (pool[pick], pool[..pick] + pool[pick + 1..])
  }

  /** readWithPool as written: the value taken from the pool is asserted to
      be a slice, and the deferred Put hands back a pointer to it. */
  function ReadWithPoolAsWritten(pool: seq<PoolValue>, pick: nat, body: Body): (run: PoolRun)
    ensures run.read == Panicked <==> PoolGet(pool, pick).0 == SlicePointer
    ensures run.read.Finished? ==> run.read.result == ReadToEnd(body) && SlicePointer in run.pool
    ensures run.read == Panicked ==> |run.pool| == |pool| - 1
    ensures run.read.Finished? ==> |pool| <= |run.pool| <= |pool| + 1
  {
    var (value, rest) := PoolGet(pool, pick);
    if value == SlicePointer then PoolRun(Panicked, rest)
    else PoolRun(Finished(ReadToEnd(body)), rest + [SlicePointer])
  }

  /** readWithPool with the slice itself handed back to the pool. */
  function ReadWithPoolCorrected(pool: seq<PoolValue>, pick: nat, body: Body): (run: PoolRun)
    ensures run.read == Panicked <==> PoolGet(pool, pick).0 == SlicePointer
    ensures run.read.Finished? ==> run.read.result == ReadToEnd(body) && ByteSlice in run.pool
    ensures multiset(run.pool)[SlicePointer] <= multiset(pool)[SlicePointer]
  {
    var (value, rest) := PoolGet(pool, pick);
    if value == SlicePointer then PoolRun(Panicked, rest)
    else PoolRun(Finished(ReadToEnd(body)), rest + [ByteSlice])
  }

  /** As written, the first read on an empty pool leaves a pointer in it,
      and a second read that gets that pointer back panics. */
  lemma PooledPointerPanics(first: Body, second: Body)
    ensures ReadWithPoolAsWritten([], 0, first) == PoolRun(Finished(ReadToEnd(first)), [SlicePointer])
    ensures ReadWithPoolAsWritten([SlicePointer], 0, second).read == Panicked
  {
  }

  /** With the slice handed back, a pool that holds only slices keeps
      holding only slices, so no read ever panics and each one yields the
      body read to its end. */
  lemma CorrectedPoolNeverPanics(pool: seq<PoolValue>, pick: nat, body: Body)
    requires forall k :: 0 <= k < |pool| ==> pool[k] == ByteSlice
    ensures var run := ReadWithPoolCorrected(pool, pick, body);
      run.read == Finished(ReadToEnd(body)) &&
      |run.pool| == (if pick >= |pool| then |pool| + 1 else |pool|) &&
      forall k :: 0 <= k < |run.pool| ==> run.pool[k] == ByteSlice
  {
    var (value, rest) := PoolGet(pool, pick);
    if pick < |pool| {
      assert value in multiset(pool);
      assert forall v :: v in multiset(rest) ==> v in multiset(pool);
      assert forall k :: 0 <= k < |rest| ==> rest[k] in multiset(rest);
    }
  }

  /** The response passes downloadFile's checks: status 200 and a
      Content-Type that contains "application/pdf". */
  predicate Accepted(outcome: HttpOutcome)
  {
    outcome.Responded? && outcome.response.status == STATUS_OK &&
    Contains(outcome.response.contentType, PDF_CONTENT_TYPE)
  }

  /** downloadFile: one attempt as a function of what the network returned.
      The checks come in their order; then a positive Content-Length reads
      exactly that many bytes with io.ReadFull, anything else reads the body
      to its end with readWithPool. */
  function AttemptResult(outcome: HttpOutcome): (r: Result<Bytes, AttemptError>)
    ensures r.Ok? ==> Accepted(outcome)
  {
    match outcome
    case TransportFailure(cause) => Err(RequestFailed(cause))
    case Responded(resp) =>
      if resp.status != STATUS_OK then Err(UnexpectedStatus(resp.status, Snippet(resp.body)))
      else if !Contains(resp.contentType, PDF_CONTENT_TYPE) then Err(UnexpectedContentType(resp.contentType))
      else
        var read := if resp.contentLength > 0 then ReadFull(resp.body, resp.contentLength) else ReadToEnd(resp.body);
        match read
        case Ok(data) => Ok(data)
        case Err(failure) => Err(BodyUnreadable(failure))
  }

  /** What one attempt yields: each failed check gives its own error; an
      accepted response yields the first Content-Length bytes when it
      announces a positive length and delivers that many, the whole body
      when it announces none and reading ends in EOF, and otherwise the read
      failure. */
  lemma AttemptOutcomes(outcome: HttpOutcome)
    ensures var r := AttemptResult(outcome);
      (outcome.TransportFailure? ==> r == Err(RequestFailed(outcome.cause))) &&
      (outcome.Responded? && outcome.response.status != STATUS_OK ==>
        r == Err(UnexpectedStatus(outcome.response.status, Snippet(outcome.response.body)))) &&
      (outcome.Responded? && outcome.response.status == STATUS_OK && !Contains(outcome.response.contentType, PDF_CONTENT_TYPE) ==>
        r == Err(UnexpectedContentType(outcome.response.contentType))) &&
      (r.Ok? || (r.Err? && r.error.BodyUnreadable?) ==> Accepted(outcome))
    ensures var r := AttemptResult(outcome);
      Accepted(outcome) && outcome.response.contentLength > 0 ==>
        var body, n := outcome.response.body, outcome.response.contentLength;
        if |Delivered(body)| >= n then r == Ok(Delivered(body)[..n])
        else r == Err(BodyUnreadable(ReadFull(body, n).error))
    ensures var r := AttemptResult(outcome);
      Accepted(outcome) && outcome.response.contentLength <= 0 ==>
        var body := outcome.response.body;
        if body.end == EOF then r == Ok(Delivered(body))
        else r == Err(BodyUnreadable(ReadFailed(body.end.cause)))
  {
  }

  /** How a run of the retry loop ends: its result and how many attempts it
      made. */
  datatype RetryRun = RetryRun(result: Result<Bytes, RetryError>, made: nat)

  /** The retry loop from attempt i on, over `results(j)`, what attempt j
      yields; lastErr is the error of attempt i - 1. */
  function RetryFrom(results: nat -> Result<Bytes, AttemptError>, maxRetries: int, i: nat, lastErr: Option<AttemptError>): (run: RetryRun)
    ensures i >= maxRetries ==> run == RetryRun(Err(AfterAttempts(maxRetries, lastErr)), i)
    ensures i < maxRetries ==> i < run.made <= maxRetries
    ensures run.result.Err? ==> run.result.error.attempts == maxRetries && run.made == if i < maxRetries then maxRetries else i
    decreases maxRetries - i
  {
    if i >= maxRetries then RetryRun(Err(AfterAttempts(maxRetries, lastErr)), i)
    else match results(i)
      case Ok(data) => RetryRun(Ok(data), i + 1)
      case Err(e) => RetryFrom(results, maxRetries, i + 1, Some(e))
  }

  /** What each attempt yields, given what the network returns to it. */
  function Attempts(network: nat -> HttpOutcome): nat -> Result<Bytes, AttemptError>
  {
    i => AttemptResult(network(i))
  }

  /** downloadFileWithRetry as a function of the network's answers. */
  function RetryOutcome(network: nat -> HttpOutcome, maxRetries: int): RetryRun
  {
    RetryFrom(Attempts(network), maxRetries, 0, None)
  }

  /** The sleeps before attempts 1 .. made - 1: i*i seconds before attempt i. */
  function Backoffs(made: nat): (delays: seq<int>)
    ensures |delays| == if made == 0 then 0 else made - 1
    ensures forall k :: 0 <= k < |delays| ==> delays[k] == (k + 1) * (k + 1) * SECOND
  {
    seq(if made == 0 then 0 else made - 1, k => (k + 1) * (k + 1) * SECOND)
  }

  /** Attempts 0 .. k - 1 all failed. */
  ghost predicate FailedUpTo(results: nat -> Result<Bytes, AttemptError>, k: nat)
  {
    forall j: nat :: j < k ==> results(j).Err?
  }

  /** downloadFileWithRetry: attempt after attempt, sleeping i*i seconds
      before attempt i > 0, until one succeeds or maxRetries were made. */
  method DownloadWithRetry(network: nat -> HttpOutcome, maxRetries: int) returns (result: Result<Bytes, RetryError>, made: nat, delays: seq<int>)
    ensures RetryRun(result, made) == RetryOutcome(network, maxRetries)
    ensures delays == Backoffs(made)
  {
    var lastErr: Option<AttemptError> := None;
    var i: nat := 0;
    delays := [];
    while i < maxRetries
      invariant RetryFrom(Attempts(network), maxRetries, i, lastErr) == RetryOutcome(network, maxRetries)
      invariant delays == Backoffs(i)
      decreases maxRetries - i
    {
      if i > 0 {
        delays := delays + [i * i * SECOND];
      }
      var r := AttemptResult(network(i));
      assert r == Attempts(network)(i);
      if r.Ok? {
        return Ok(r.value), i + 1, delays;
      }
      lastErr := Some(r.error);
      i := i + 1;
    }
    return Err(AfterAttempts(maxRetries, lastErr)), i, delays;
  }

  lemma {:induction false} RetryFromFirstSuccess(results: nat -> Result<Bytes, AttemptError>, maxRetries: int, i: nat, lastErr: Option<AttemptError>, k: nat)
    requires i <= k < maxRetries && FailedUpTo(results, k) && results(k).Ok?
    ensures RetryFrom(results, maxRetries, i, lastErr) == RetryRun(Ok(results(k).value), k + 1)
    decreases k - i
  {
    if i < k {
      assert results(i).Err?;
      RetryFromFirstSuccess(results, maxRetries, i + 1, Some(results(i).error), k);
    }
  }

  lemma {:induction false} RetryFromAllFail(results: nat -> Result<Bytes, AttemptError>, maxRetries: int, i: nat, lastErr: Option<AttemptError>)
    requires i < maxRetries && FailedUpTo(results, maxRetries)
    ensures RetryFrom(results, maxRetries, i, lastErr) ==
      RetryRun(Err(AfterAttempts(maxRetries, Some(results(maxRetries - 1).error))), maxRetries)
    decreases maxRetries - i
  {
    assert results(i).Err?;
    if i + 1 < maxRetries {
      RetryFromAllFail(results, maxRetries, i + 1, Some(results(i).error));
    }
  }

  lemma {:induction false} RetryFromShape(results: nat -> Result<Bytes, AttemptError>, maxRetries: int, i: nat, lastErr: Option<AttemptError>)
    requires i <= maxRetries && FailedUpTo(results, i)
    ensures var run := RetryFrom(results, maxRetries, i, lastErr);
      run.result.Ok? ==> 1 <= run.made <= maxRetries && FailedUpTo(results, run.made - 1) &&
                         results(run.made - 1) == Ok(run.result.value)
    decreases maxRetries - i
  {
    if i < maxRetries {
      match results(i)
      case Ok(_) =>
      case Err(e) =>
        RetryFromShape(results, maxRetries, i + 1, Some(e));
    }
  }

  /** The loop stops at the first successful attempt and returns its data:
      success at attempt k after k failures means k + 1 attempts. */
  lemma RetryStopsAtFirstSuccess(network: nat -> HttpOutcome, maxRetries: int, k: nat)
    requires k < maxRetries && FailedUpTo(Attempts(network), k) && AttemptResult(network(k)).Ok?
    ensures RetryOutcome(network, maxRetries) == RetryRun(Ok(AttemptResult(network(k)).value), k + 1)
  {
    RetryFromFirstSuccess(Attempts(network), maxRetries, 0, None, k);
  }

  /** Conversely a successful download is the data of an attempt that all
      earlier attempts failed before, within maxRetries attempts. */
  lemma RetrySuccessIsFirstSuccess(network: nat -> HttpOutcome, maxRetries: int)
    requires RetryOutcome(network, maxRetries).result.Ok?
    ensures var run := RetryOutcome(network, maxRetries);
      1 <= run.made <= maxRetries && FailedUpTo(Attempts(network), run.made - 1) &&
      AttemptResult(network(run.made - 1)) == Ok(run.result.value)
  {
    RetryFromShape(Attempts(network), maxRetries, 0, None);
  }

  /** When every attempt fails, all maxRetries are made and the error
      carries the last attempt's error. */
  lemma RetryExhausted(network: nat -> HttpOutcome, maxRetries: int)
    requires maxRetries >= 1 && FailedUpTo(Attempts(network), maxRetries)
    ensures RetryOutcome(network, maxRetries) ==
      RetryRun(Err(AfterAttempts(maxRetries, Some(Attempts(network)(maxRetries - 1).error))), maxRetries)
  {
    RetryFromAllFail(Attempts(network), maxRetries, 0, None);
  }

  /** Two failures and then a success: three attempts, sleeping 1 s and 4 s. */
  lemma FailFailSucceed(network: nat -> HttpOutcome, data: Bytes)
    requires network(0).TransportFailure? && network(1).TransportFailure?
    requires network(2) == Responded(HttpResponse(STATUS_OK, PDF_CONTENT_TYPE, |data|, Body([data], EOF)))
    requires |data| > 0
    ensures RetryOutcome(network, MAX_RETRIES) == RetryRun(Ok(data), 3)
    ensures Backoffs(3) == [SECOND, 4 * SECOND]
  {
    var body := Body([data], EOF);
    assert Delivered(body) == data by {
      assert [data][..0] == [];
      assert Flatten([data]) == Flatten([data][..0]) + data;
    }
    PdfContentType();
    PdfResponseAccepted(PDF_CONTENT_TYPE, body);
    assert FailedUpTo(Attempts(network), 2) by {
      assert AttemptResult(network(0)).Err?;
      assert AttemptResult(network(1)).Err?;
    }
    RetryStopsAtFirstSuccess(network, MAX_RETRIES, 2);
    var delays := Backoffs(3);
    assert delays[0] == SECOND;
    assert delays[1] == 4 * SECOND;
  }

  /** A 200 response whose Content-Type contains application/pdf and whose
      Content-Length announces exactly what the body delivers yields all of
      it, however the body is chunked and however reading ends. */
  lemma PdfResponseAccepted(contentType: string, body: Body)
    requires Contains(contentType, PDF_CONTENT_TYPE) && |Delivered(body)| > 0
    ensures AttemptResult(Responded(HttpResponse(STATUS_OK, contentType, |Delivered(body)|, body))) == Ok(Delivered(body))
  {
    assert Delivered(body)[..|Delivered(body)|] == Delivered(body);
  }

  lemma PdfContentType()
    ensures Contains(PDF_CONTENT_TYPE, PDF_CONTENT_TYPE)
  {
    assert OccursAt(PDF_CONTENT_TYPE, PDF_CONTENT_TYPE, 0);
  }

  /** What GetFile yields and leaves in the cache. */
  datatype FetchRun = FetchRun(result: Result<Bytes, FetchError>, items: map<string, CacheItem>, made: nat)

  /** The cache key of a supported year. */
  function FileUrl(baseURL: string, year: int): (url: string)
    requires year in SupportedYears
    ensures url == baseURL + SupportedYears[year]
  {
    baseURL + SupportedYears[year]
  }

  /** Distinct years have distinct cache keys: the file names end in the
      year, so their last year digit tells them apart. */
  lemma FileUrlDistinct(baseURL: string, year: int, other: int)
    requires year in SupportedYears && other in SupportedYears && year != other
    ensures FileUrl(baseURL, year) != FileUrl(baseURL, other)
  {
    forall y | y in SupportedYears
      ensures |SupportedYears[y]| == 20 && SupportedYears[y][15] as int == '0' as int + (y - 2020)
    {
    }
    var n := |baseURL| + 15;
    assert FileUrl(baseURL, year)[n] == SupportedYears[year][15];
    assert FileUrl(baseURL, other)[n] == SupportedYears[other][15];
  }

  /** GetFile on a cache in state `items` with TTL `ttl`: the lookup reads
      the clock as `now`, the store and the sweep after a download both as
      `storedAt`. */
  function GetFileOutcome(items: map<string, CacheItem>, ttl: int, baseURL: string, year: int, now: int, storedAt: int, network: nat -> HttpOutcome): (run: FetchRun)
    ensures year !in SupportedYears ==> run == FetchRun(Err(UnsupportedYear(year)), items, 0)
    // a download is made exactly on a miss, with at most MAX_RETRIES attempts
    ensures run.made <= MAX_RETRIES
    ensures run.made > 0 <==> year in SupportedYears && Lookup(items, FileUrl(baseURL, year), now).None?
    // a failure writes nothing
    ensures run.result.Err? ==> run.items.Keys <= items.Keys && forall k :: k in run.items ==> run.items[k] == items[k]
  {
    if year !in SupportedYears then FetchRun(Err(UnsupportedYear(year)), items, 0)
    else
      var url := FileUrl(baseURL, year);
      var afterGet := AfterGet(items, url, now);
      match Lookup(items, url, now)
      case Some(data) => FetchRun(Ok(data), afterGet, 0)
      case None =>
        var run := RetryOutcome(network, MAX_RETRIES);
        match run.result
        case Err(e) => FetchRun(Err(DownloadFailed(e)), afterGet, run.made)
        case Ok(data) => FetchRun(Ok(data), Sweep(afterGet[url := CacheItem(data, storedAt + ttl)], storedAt), run.made)
  }

  class HttpFetcher {
    const baseURL: string
    const cache: Cache

    /** New: the fixed base URL and a fresh 24-hour cache. */
    constructor()
      ensures baseURL == BASE_URL && fresh(cache) && cache.items == map[] && cache.ttl == CACHE_TTL
    {
      baseURL := BASE_URL;
      cache := new Cache(CACHE_TTL);
    }

    method GetFile(year: int, now: int, storedAt: int, network: nat -> HttpOutcome) returns (result: Result<Bytes, FetchError>, made: nat)
      modifies cache
      ensures FetchRun(result, cache.items, made) == GetFileOutcome(old(cache.items), cache.ttl, baseURL, year, now, storedAt, network)
    {
      if year !in SupportedYears {
        return Err(UnsupportedYear(year)), 0;
      }
      var filename := SupportedYears[year];
      var url := baseURL + filename;
      var data, found := cache.Get(url, now);
      if found {
        return Ok(data), 0;
      }
      var downloaded, attempts, _ := DownloadWithRetry(network, MAX_RETRIES);
      if downloaded.Err? {
        return Err(DownloadFailed(downloaded.error)), attempts;
      }
      cache.Set(url, downloaded.value, storedAt);
      cache.Cleanup(storedAt);
      return Ok(downloaded.value), attempts;
    }

    /** CleanUpCache: a sweep of the cache; it never reports an error. */
    method CleanUpCache(now: int)
      modifies cache
      ensures cache.items == Sweep(old(cache.items), now)
    {
      cache.Cleanup(now);
    }
  }

  /** A year outside 2020..2025 is an error; the cache is left alone and
      nothing is downloaded. */
  lemma UnsupportedYearRejected(items: map<string, CacheItem>, ttl: int, baseURL: string, year: int, now: int, storedAt: int, network: nat -> HttpOutcome)
    requires year < 2020 || year > 2025
    ensures GetFileOutcome(items, ttl, baseURL, year, now, storedAt, network) == FetchRun(Err(UnsupportedYear(year)), items, 0)
  {
  }

  /** Exactly the years 2020..2025 are supported. */
  lemma SupportedYearsExactly(year: int)
    ensures year in SupportedYears <==> 2020 <= year <= 2025
  {
  }

  /** A live cached copy is returned without any download attempt. */
  lemma CacheHitNoDownload(items: map<string, CacheItem>, ttl: int, baseURL: string, year: int, now: int, storedAt: int, network: nat -> HttpOutcome)
    requires year in SupportedYears
    requires Lookup(items, FileUrl(baseURL, year), now).Some?
    ensures var run := GetFileOutcome(items, ttl, baseURL, year, now, storedAt, network);
      run.made == 0 && run.items == items &&
      run.result == Ok(items[baseURL + SupportedYears[year]].data)
  {
  }

  /** After a successful download the data is cached under the URL with a
      fresh TTL, the sweep keeps it, and a lookup at any instant up to TTL
      later returns it. */
  lemma DownloadedDataCached(items: map<string, CacheItem>, ttl: int, baseURL: string, year: int, now: int, storedAt: int, network: nat -> HttpOutcome, later: int)
    requires year in SupportedYears && ttl >= 0
    requires Lookup(items, FileUrl(baseURL, year), now).None?
    requires RetryOutcome(network, MAX_RETRIES).result.Ok?
    requires storedAt <= later <= storedAt + ttl
    ensures var run := GetFileOutcome(items, ttl, baseURL, year, now, storedAt, network);
      run.result == Ok(RetryOutcome(network, MAX_RETRIES).result.value) &&
      Lookup(run.items, FileUrl(baseURL, year), later) == Some(run.result.value)
  {
  }

  /** A failed download is reported and writes nothing: apart from the
      deletion of an expired copy by the lookup, the cache is unchanged, and
      the URL holds no live entry. */
  lemma DownloadFailureNotCached(items: map<string, CacheItem>, ttl: int, baseURL: string, year: int, now: int, storedAt: int, network: nat -> HttpOutcome)
    requires year in SupportedYears
    requires Lookup(items, FileUrl(baseURL, year), now).None?
    requires RetryOutcome(network, MAX_RETRIES).result.Err?
    ensures var run := GetFileOutcome(items, ttl, baseURL, year, now, storedAt, network);
      run.result == Err(DownloadFailed(RetryOutcome(network, MAX_RETRIES).result.error)) &&
      run.items == AfterGet(items, FileUrl(baseURL, year), now) &&
      FileUrl(baseURL, year) !in run.items
  {
  }
}
