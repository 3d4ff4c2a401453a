/**
 * The page fetcher `DoctorPetScraper._make_request` (scraper.py:141-203): up to
 * `retries` GET attempts, a linear back-off of `DELAY_BETWEEN_REQUESTS * (k + 1)`
 * seconds after every failed attempt `k` but the last, and an immediate give-up
 * on HTTP 401, 403 and 404.
 *
 * The network is the sequence of attempt outcomes it would answer with: attempt
 * `k` of a request gets `net(k)`.
 */
module Fetcher {
  import opened Wrappers
  import opened Markup

  /** Seconds of the back-off unit (DELAY_BETWEEN_REQUESTS). */
  const DelayBetweenRequests: int := 2

  /** The default number of attempts (MAX_RETRIES). */
  const MaxRetries: int := 3

  /** What one `session.get(...)` followed by `raise_for_status()` came to. */
  datatype Attempt =
    | Ok(page: Node)          // the response passed raise_for_status; `page` is its parsed body
    | Timeout                 // requests.exceptions.Timeout
    | ConnError               // requests.exceptions.ConnectionError
    | HttpError(status: int)  // raise_for_status raised for this status code
    | Other                   // any other exception

  /** The statuses after which retrying is pointless. */
  predicate Permanent(a: Attempt)
  {
    a.HttpError? && a.status in {401, 403, 404}
  }

  /** An attempt after which `_make_request` returns at once. */
  predicate Final(a: Attempt)
  {
    a.Ok? || Permanent(a)
  }

  /** The first attempt in `k .. retries - 1` that ends the request, if any. */
  function FirstFinal(net: nat -> Attempt, k: nat, retries: int): (r: Option<nat>)
    ensures r.Some? ==> k <= r.value < retries && Final(net(r.value))
    ensures r.Some? ==> forall j :: k <= j < r.value ==> !Final(net(j))
    ensures r.None? ==> forall j :: k <= j < retries ==> !Final(net(j))
    decreases retries - k
  {
    if k >= retries then None
    else if Final(net(k)) then Some(k)
    else FirstFinal(net, k + 1, retries)
  }

  /** The result of the request: the parsed page, or `None`. */
  function Request(net: nat -> Attempt, retries: int): Option<Node>
  {
    match FirstFinal(net, 0, retries)
    case Some(k) => if net(k).Ok? then Some(net(k).page) else None
    case None => None
  }

  /** How many attempts the request makes. */
  function AttemptCount(net: nat -> Attempt, retries: int): nat
  {
    match FirstFinal(net, 0, retries)
    case Some(k) => k + 1
    case None => if retries > 0 then retries else 0
  }

  /** How many back-off pauses the request takes. */
  function WaitCount(net: nat -> Attempt, retries: int): nat
  {
    match FirstFinal(net, 0, retries)
    case Some(k) => k
    case None => if retries > 0 then retries - 1 else 0
  }

  /** The first `n` back-off pauses: 2, 4, 6, ... seconds. */
  function Backoff(n: nat): (r: seq<int>)
    ensures |r| == n
    ensures forall i :: 0 <= i < n ==> r[i] == DelayBetweenRequests * (i + 1)
  {
    if n == 0 then [] else Backoff(n - 1) + [DelayBetweenRequests * n]
  }

  /**
   * `_make_request(url, retries)` against the network `net`. `tried` records the
   * outcomes seen and `sleeps` every `time.sleep` in order.
   */
  method MakeRequest(net: nat -> Attempt, retries: int)
    returns (r: Option<Node>, ghost tried: seq<Attempt>, ghost sleeps: seq<int>)
    ensures r == Request(net, retries)
    ensures |tried| == AttemptCount(net, retries)
    ensures forall i :: 0 <= i < |tried| ==> tried[i] == net(i)
    ensures sleeps == Backoff(WaitCount(net, retries))
  {
    tried, sleeps := [], [];
    var attempt := 0;
    while attempt < retries
      invariant 0 <= attempt && (if retries > 0 then attempt <= retries else attempt == 0)
      invariant forall j :: 0 <= j < attempt ==> !Final(net(j))
      invariant |tried| == attempt && forall j :: 0 <= j < attempt ==> tried[j] == net(j)
      invariant attempt < retries ==> sleeps == Backoff(attempt)
      invariant 0 < retries == attempt ==> sleeps == Backoff(retries - 1)
      invariant retries <= 0 ==> sleeps == []
    {
      var outcome := net(attempt);
      tried := tried + [outcome];
      match outcome {
        case Ok(page) =>
          return Some(page), tried, sleeps;
        case HttpError(status) =>
          if status in {404, 403, 401} {
            return None, tried, sleeps;
          }
        case _ =>
      }
      if attempt < retries - 1 {
        sleeps := sleeps + [DelayBetweenRequests * (attempt + 1)];
      }
      attempt := attempt + 1;
    }
    return None, tried, sleeps;
  }

  // ---------------------------------------------------------------------------
  // What the retry policy promises
  // ---------------------------------------------------------------------------

  /** The first attempt that ends the request is the one `FirstFinal` finds. */
  lemma FirstFinalAt(net: nat -> Attempt, k: nat, retries: int)
    requires k < retries && Final(net(k))
    requires forall j :: 0 <= j < k ==> !Final(net(j))
    ensures FirstFinal(net, 0, retries) == Some(k)
  {
  }

  /**
   * A request yields a page exactly when some attempt within the budget
   * succeeds and every attempt before it failed in a retryable way.
   */
  lemma RequestSucceedsIff(net: nat -> Attempt, retries: int, page: Node)
    ensures Request(net, retries) == Some(page) <==>
      exists k :: 0 <= k < retries && net(k) == Ok(page) && forall j :: 0 <= j < k ==> !Final(net(j))
  {
    if k :| 0 <= k < retries && net(k) == Ok(page) && forall j :: 0 <= j < k ==> !Final(net(j)) {
      FirstFinalAt(net, k, retries);
    }
  }

  /** A 401, 403 or 404 ends the request with `None` and no further attempt. */
  lemma PermanentErrorStops(net: nat -> Attempt, retries: int, k: nat)
    requires k < retries && Permanent(net(k))
    requires forall j :: 0 <= j < k ==> !Final(net(j))
    ensures Request(net, retries) == None
    ensures AttemptCount(net, retries) == k + 1
    ensures WaitCount(net, retries) == k
  {
    FirstFinalAt(net, k, retries);
  }

  /**
   * Timeouts, connection errors, other statuses and other exceptions are all
   * retried: when every attempt fails that way, all `retries` attempts are made,
   * with the back-off pauses 2, 4, ... between them, and the request fails.
   */
  lemma TransientFailuresExhaust(net: nat -> Attempt, retries: int)
    requires retries > 0
    requires forall j :: 0 <= j < retries ==>
      net(j).Timeout? || net(j).ConnError? || net(j).Other? ||
      (net(j).HttpError? && net(j).status !in {401, 403, 404})
    ensures Request(net, retries) == None
    ensures AttemptCount(net, retries) == retries
    ensures Backoff(WaitCount(net, retries)) == Backoff(retries - 1)
  {
  }

  /**
   * At most `retries` attempts, and exactly one pause fewer than attempts:
   * a pause follows every attempt but the last.
   */
  lemma AttemptBounds(net: nat -> Attempt, retries: int)
    ensures AttemptCount(net, retries) <= if retries > 0 then retries else 0
    ensures AttemptCount(net, retries) == 0 <==> retries <= 0
    ensures AttemptCount(net, retries) > 0 ==> WaitCount(net, retries) == AttemptCount(net, retries) - 1
    ensures retries <= 0 ==> Request(net, retries) == None
  {
  }
}
