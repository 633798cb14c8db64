/**
 * `generate_answer` of qa_processor.py: answer from the cache when it holds a
 * non-empty answer, otherwise ask the answer service up to `retry_count`
 * times, sleeping `2^k` seconds after failed attempt `k`, and cache the
 * formatted answer of the first successful attempt.
 *
 * The HTTP service is an oracle: `service(k)` is the outcome of attempt `k`.
 */
module AnswerService {
  import opened Wrappers
  import opened AnswerFormat
  import opened QnaDatabase

  /** What one POST to the answer service yields: a JSON body with an
      `answer` text; a `requests.RequestException` (connection failure,
      timeout, non-2xx status, undecodable body); or a JSON body without an
      `answer` key, whose `KeyError` is not a `RequestException`. */
  datatype Reply = Reply(answer: string) | RequestFailed | MissingAnswer

  /** How the retry loop, and `generate_answer`, end: with an answer text;
      falling off the end of the loop, which returns `None` (only when
      `retry_count` is 0); raising `APIError`; or with the `KeyError`
      escaping. */
  datatype Generated = Answer(text: string) | NoAnswer | ApiError | Crash

  /** The default `retry_count`, the one the batch loop uses. */
  const DefaultRetryCount: nat := 3

  function Pow2(k: nat): (r: nat)
    ensures r >= 1
  {
    if k == 0 then 1 else 2 * Pow2(k - 1)
  }

  /** The sleeps of the retry loop when it made `attempts` requests: `2^k`
      seconds after each failed attempt `k` but the last. */
  function Backoff(attempts: nat): (waits: seq<nat>)
    ensures |waits| == if attempts == 0 then 0 else attempts - 1
    ensures forall k :: 0 <= k < |waits| ==> waits[k] == Pow2(k)
  {
    seq(if attempts == 0 then 0 else attempts - 1, k requires 0 <= k => Pow2(k))
  }

  /** The retry loop from attempt `k` on: its outcome, carrying the answer
      text as the service sent it, and the number of requests made in all. */
  function Retry(service: nat -> Reply, retryCount: nat, k: nat): (Generated, nat)
    requires k <= retryCount
    decreases retryCount - k
  {
    if k == retryCount then (NoAnswer, k)
    else match service(k)
      case Reply(text) => (Answer(text), k + 1)
      case MissingAnswer => (Crash, k + 1)
      case RequestFailed =>
        if k == retryCount - 1 then (ApiError, k + 1) else Retry(service, retryCount, k + 1)
  }

  lemma {:induction false} RetryFrom(service: nat -> Reply, retryCount: nat, k: nat)
    requires k < retryCount
    requires forall j :: 0 <= j < k ==> service(j).RequestFailed?
    ensures var (g, m) := Retry(service, retryCount, k);
      && k < m <= retryCount
      && (forall j :: 0 <= j < m - 1 ==> service(j).RequestFailed?)
      && (service(m - 1).RequestFailed? ==> m == retryCount && g == ApiError)
      && (service(m - 1).MissingAnswer? ==> g == Crash)
      && (service(m - 1).Reply? ==> g == Answer(service(m - 1).answer))
    decreases retryCount - k
  {
    if service(k).RequestFailed? && k < retryCount - 1 {
      RetryFrom(service, retryCount, k + 1);
    }
  }

  /** The retry loop makes at most `retry_count` requests, all of them but
      the last failed, and it stops at the first one that did not fail. It
      raises `APIError` exactly when `retry_count` requests were made and
      every one of them failed; it returns `None` exactly when
      `retry_count` is 0. */
  lemma RetryOutcome(service: nat -> Reply, retryCount: nat)
    ensures var (g, m) := Retry(service, retryCount, 0);
      && m <= retryCount
      && (retryCount > 0 <==> m > 0)
      && (forall j :: 0 <= j < m - 1 ==> service(j).RequestFailed?)
      && (m > 0 && service(m - 1).Reply? ==> g == Answer(service(m - 1).answer))
      && (m > 0 && service(m - 1).MissingAnswer? ==> g == Crash)
      && (g.ApiError? <==> retryCount > 0 && forall j :: 0 <= j < retryCount ==> service(j).RequestFailed?)
      && (g.NoAnswer? <==> retryCount == 0)
  {
    if retryCount > 0 {
      RetryFrom(service, retryCount, 0);
    }
  }

  /** The `for attempt in range(retry_count)` loop; `waits` lists the
      `time.sleep` durations in order. */
  method RequestWithRetry(service: nat -> Reply, retryCount: nat) returns (g: Generated, attempts: nat, waits: seq<nat>)
    ensures (g, attempts) == Retry(service, retryCount, 0)
    ensures waits == Backoff(attempts)
  {
    var attempt := 0;
    waits := [];
    while attempt < retryCount
      invariant attempt <= retryCount
      invariant attempt < retryCount || retryCount == 0
      invariant Retry(service, retryCount, 0) == Retry(service, retryCount, attempt)
      invariant waits == seq(attempt, k requires 0 <= k => Pow2(k))
    {
      match service(attempt)
      case Reply(text) =>
        return Answer(text), attempt + 1, waits;
      case MissingAnswer =>
        return Crash, attempt + 1, waits;
      case RequestFailed =>
        if attempt == retryCount - 1 {
          return ApiError, attempt + 1, waits;
        }
        waits := waits + [Pow2(attempt)];
        attempt := attempt + 1;
    }
    return NoAnswer, attempt, waits;
  }

  /** `format_answer` applied to the text of a successful attempt. */
  function Formatted(g: Generated): (f: Generated)
    ensures f.Answer? <==> g.Answer?
    ensures !g.Answer? ==> f == g
  {
    if g.Answer? then Answer(FormatAnswer(g.text)) else g
  }

  /** `generate_answer(question, retry_count)`: its outcome and the cache
      afterwards. */
  function GenerateSpec(es: Entries, question: string, retryCount: nat,
                        similar: (string, string) -> bool, service: nat -> Reply): (Generated, Entries)
  {
    var cached := CheckSpec(es, question, similar);
    if Truthy(cached) then
      (Answer(FormatAnswer(cached.value)), es)
    else
      var g := Formatted(Retry(service, retryCount, 0).0);
      if g.Answer? then (g, Stored(es, NormalizeKey(question), g.text)) else (g, es)
  }

  /** `generate_answer`, with the cache as `db`. `attempts` counts the
      requests sent to the service and `waits` lists the sleeps. */
  method GenerateAnswer(db: QnaStore, question: string, retryCount: nat,
                        similar: (string, string) -> bool, service: nat -> Reply)
    returns (g: Generated, attempts: nat, waits: seq<nat>)
    requires db.Valid()
    modifies db
    ensures db.Valid()
    ensures (g, db.entries) == GenerateSpec(old(db.entries), question, retryCount, similar, service)
    ensures Truthy(CheckSpec(old(db.entries), question, similar)) ==> attempts == 0 && waits == []
    ensures !Truthy(CheckSpec(old(db.entries), question, similar)) ==>
      attempts == Retry(service, retryCount, 0).1 && waits == Backoff(attempts)
  {
    var cached := db.Check(question, similar);
    if Truthy(cached) {
      return Answer(FormatAnswer(cached.value)), 0, [];
    }
    var raw;
    raw, attempts, waits := RequestWithRetry(service, retryCount);
    g := Formatted(raw);
    if g.Answer? {
      db.Save(question, g.text);
    }
  }

  /** Once an answer has been generated and cached for a question, asking
      again with any question of the same key is answered from the cache,
      with no request, provided the cached text is not empty; the answer
      then returned is the cached text formatted once more. */
  lemma CachedAfterGenerate(es: Entries, question: string, asked: string, retryCount: nat,
                            similar: (string, string) -> bool, service: nat -> Reply, later: nat -> Reply)
    requires NormalizeKey(asked) == NormalizeKey(question)
    requires !Truthy(CheckSpec(es, question, similar))
    requires var (g, _) := GenerateSpec(es, question, retryCount, similar, service);
      g.Answer? && g.text != ""
    ensures var (g, es') := GenerateSpec(es, question, retryCount, similar, service);
      && CheckSpec(es', asked, similar) == Some(g.text)
      && GenerateSpec(es', asked, retryCount, similar, later) == (Answer(FormatAnswer(g.text)), es')
  {
    var g := Formatted(Retry(service, retryCount, 0).0);
    SaveThenCheck(es, question, g.text, asked, similar);
  }

  /** A question whose cache entry is truthy is answered from the cache
      without touching it, and so is every question of the same key. */
  lemma CacheHit(es: Entries, question: string, asked: string, retryCount: nat,
                 similar: (string, string) -> bool, service: nat -> Reply)
    requires NormalizeKey(asked) == NormalizeKey(question)
    requires Lookup(es, NormalizeKey(question)).Some? && Lookup(es, NormalizeKey(question)).value != ""
    ensures GenerateSpec(es, asked, retryCount, similar, service)
      == (Answer(FormatAnswer(Lookup(es, NormalizeKey(question)).value)), es)
  {
  }
}
