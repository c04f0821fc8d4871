/**
 * The per-client sliding-window rate limiter that sits in front of the HTTP
 * handlers. Every request from a client is stamped with the current time and
 * recorded; records older than the time window are dropped; a request that
 * brings the client's count within the window above the limit is answered
 * with 429 instead of being passed on.
 *
 * Timestamps are POSIX seconds as `real` (the source's floats, without
 * rounding). The clock and the client address are parameters of `Dispatch`.
 */
module RateLimiting {
  import opened Wrappers
  import opened Errors

  /** Requests allowed per client within one window. */
  const RateLimit: nat := 100
  /** Length of the sliding window, in seconds. */
  const TimeWindow: real := 60.0

  /** The middleware's state: recorded request times, per client address. */
  type Records = map<string, seq<real>>

  /** What `dispatch` does with a request: answer 429 or pass it on. */
  datatype Decision = Rejected | Forwarded

  /** One incoming request: the client's address and the time it arrived. */
  datatype Request = Request(clientIp: string, time: real)

  /** A recorded time is still counted at `now` when it is at most a window old. */
  predicate InWindow(t: real, now: real)
  {
    now - t <= TimeWindow
  }

  /**
   * The recorded times still in the window at `now`, in their recorded order:
   * what the list comprehension of the dispatcher keeps.
   */
  function Recent(ts: seq<real>, now: real): (r: seq<real>)
    ensures |r| <= |ts|
  {
    if ts == [] then []
    else
      var last := ts[|ts| - 1];
      assert ts == ts[..|ts| - 1] + [last];
      Recent(ts[..|ts| - 1], now) + (if InWindow(last, now) then [last] else [])
  }

  /** Nothing is dropped when every recorded time is within the window. */
  lemma {:induction false} RecentKeepsAll(ts: seq<real>, now: real)
    requires forall t :: t in ts ==> InWindow(t, now)
    ensures Recent(ts, now) == ts
  {
    if ts != [] {
      var prefix := ts[..|ts| - 1];
      assert ts == prefix + [ts[|ts| - 1]];
      assert forall t :: t in prefix ==> t in ts;
      RecentKeepsAll(prefix, now);
    }
  }

  /** The kept times are exactly the recorded times within the window. */
  lemma {:induction false} RecentMembers(ts: seq<real>, now: real)
    ensures forall t :: t in Recent(ts, now) <==> t in ts && InWindow(t, now)
  {
    if ts != [] {
      var prefix := ts[..|ts| - 1];
      assert ts == prefix + [ts[|ts| - 1]];
      RecentMembers(prefix, now);
    }
  }

  /** A single time is kept exactly when it is within the window. */
  lemma RecentSingle(t: real, now: real)
    ensures Recent([t], now) == if InWindow(t, now) then [t] else []
  {
    assert [t][..0] == [];
  }

  /**
   * Filtering a concatenation filters each part: with `RecentSingle` this
   * pins `Recent` down as the filter that keeps order and repeated times.
   */
  lemma {:induction false} RecentConcat(a: seq<real>, b: seq<real>, now: real)
    ensures Recent(a + b, now) == Recent(a, now) + Recent(b, now)
    decreases |b|
  {
    if b != [] {
      var prefix := b[..|b| - 1];
      var last := b[|b| - 1];
      assert (a + b)[..|a + b| - 1] == a + prefix;
      assert (a + b)[|a + b| - 1] == last;
      RecentConcat(a, prefix, now);
    } else {
      assert a + b == a;
    }
  }

  /** Filtering twice at the same moment drops nothing more. */
  lemma {:induction false} RecentIdempotent(ts: seq<real>, now: real)
    ensures Recent(Recent(ts, now), now) == Recent(ts, now)
  {
    RecentMembers(ts, now);
    RecentKeepsAll(Recent(ts, now), now);
  }

  /** The request just appended is always within the window, so it survives the filter. */
  lemma RecentKeepsNow(ts: seq<real>, now: real)
    ensures Recent(ts + [now], now) == Recent(ts, now) + [now]
  {
    assert (ts + [now])[..|ts|] == ts;
  }

  /**
   * The list comprehension that keeps the times within the window, written as
   * the loop it performs.
   */
  method FilterWindow(ts: seq<real>, now: real) returns (kept: seq<real>)
    ensures kept == Recent(ts, now)
  {
    kept := [];
    var i := 0;
    while i < |ts|
      invariant 0 <= i <= |ts|
      invariant kept == Recent(ts[..i], now)
    {
      assert ts[..i + 1][..i] == ts[..i];
      if InWindow(ts[i], now) {
        kept := kept + [ts[i]];
      }
      i := i + 1;
    }
    assert ts[..i] == ts;
  }

  /** A client's recorded times, with an unknown client reading as no requests. */
  function Lookup(records: Records, client: string): (ts: seq<real>)
    ensures client in records ==> ts == records[client]
    ensures client !in records ==> ts == []
  {
    if client in records then records[client] else []
  }

  /**
   * One request from `client` at `now`: record it, drop the client's times
   * that fell out of the window, and reject when more than `RateLimit`
   * remain. Other clients' records are not touched, and a rejected request
   * stays recorded.
   */
  function Step(records: Records, client: string, now: real): (r: (Records, Decision))
    ensures client in r.0 && r.0 == records[client := r.0[client]]
    ensures r.0[client] == Recent(Lookup(records, client), now) + [now]
    ensures r.1 == Rejected <==> |Recent(Lookup(records, client), now)| >= RateLimit
  {
    var recorded := Lookup(records, client) + [now];
    RecentKeepsNow(Lookup(records, client), now);
    var kept := Recent(recorded, now);
    (records[client := kept], if |kept| > RateLimit then Rejected else Forwarded)
  }

  /** After a step every time the client has on record is within the window. */
  lemma StepWithinWindow(records: Records, client: string, now: real)
    ensures forall t :: t in Step(records, client, now).0[client] ==> InWindow(t, now)
  {
    RecentMembers(Lookup(records, client) + [now], now);
  }

  /** The middleware object: `rate_limit_records`, updated on every request. */
  class RateLimitMiddleware {
    var rateLimitRecords: Records

    /** A new middleware has recorded nothing. */
    constructor ()
      ensures rateLimitRecords == map[]
    {
      rateLimitRecords := map[];
    }

    /**
     * Handles one request from `clientIp` arriving at `currentTime`. The
     * response of the wrapped application is not modelled: `Forwarded` means
     * the request is handed to it.
     */
    method Dispatch(clientIp: string, currentTime: real) returns (decision: Decision)
      modifies this
      ensures (rateLimitRecords, decision) == Step(old(rateLimitRecords), clientIp, currentTime)
    {
      var history := Lookup(rateLimitRecords, clientIp);
      rateLimitRecords := rateLimitRecords[clientIp := history + [currentTime]];
      var kept := FilterWindow(rateLimitRecords[clientIp], currentTime);
      assert kept == Recent(history + [currentTime], currentTime);
      rateLimitRecords := rateLimitRecords[clientIp := kept];
      assert rateLimitRecords == old(rateLimitRecords)[clientIp := kept];
      if |rateLimitRecords[clientIp]| > RateLimit {
        decision := Rejected;
      } else {
        decision := Forwarded;
      }
    }
  }

  /** The decisions for a series of requests handled one after another. */
  function Run(records: Records, requests: seq<Request>): (decisions: seq<Decision>)
    ensures |decisions| == |requests|
    decreases |requests|
  {
    if requests == [] then []
    else
      var step := Step(records, requests[0].clientIp, requests[0].time);
      [step.1] + Run(step.0, requests[1..])
  }

  /** Every time in `ts` lies in the interval `[lo, lo + TimeWindow]`. */
  predicate AllBetween(ts: seq<real>, lo: real)
  {
    forall i :: 0 <= i < |ts| ==> lo <= ts[i] <= lo + TimeWindow
  }

  /** Every request comes from `client` at a time in `[lo, lo + TimeWindow]`. */
  predicate Burst(requests: seq<Request>, client: string, lo: real)
  {
    forall i :: 0 <= i < |requests| ==>
      requests[i].clientIp == client && lo <= requests[i].time <= lo + TimeWindow
  }

  /** The first decision of a run is the first step's; the rest continue from its records. */
  lemma RunFirst(records: Records, requests: seq<Request>)
    requires requests != []
    ensures var step := Step(records, requests[0].clientIp, requests[0].time);
      Run(records, requests) == [step.1] + Run(step.0, requests[1..])
  {
  }

  /** Dropping the first request of a burst leaves a burst. */
  lemma BurstTail(requests: seq<Request>, client: string, lo: real)
    requires Burst(requests, client, lo) && requests != []
    ensures Burst(requests[1..], client, lo)
  {
    var rest := requests[1..];
    assert forall i :: 0 <= i < |rest| ==> rest[i] == requests[i + 1];
  }

  /**
   * A burst from one client, with its earlier records and all its requests
   * inside one window's span: nothing expires, so request `k` (from 0) is
   * rejected exactly when it is beyond the `RateLimit`-th request the window
   * has seen.
   */
  lemma {:induction false} BurstDecisions(records: Records, client: string, requests: seq<Request>, lo: real, k: nat)
    requires Burst(requests, client, lo)
    requires AllBetween(Lookup(records, client), lo)
    requires k < |requests|
    ensures Run(records, requests)[k] == Rejected <==> |Lookup(records, client)| + k + 1 > RateLimit
    decreases |requests|
  {
    if k == 0 {
      BurstHead(records, client, requests, lo);
    } else {
      var now := requests[0].time;
      assert requests[0].clientIp == client && lo <= now <= lo + TimeWindow;
      BurstStep(records, client, now, lo);
      BurstTail(requests, client, lo);
      RunShift(records, client, requests, k);
      var after := Step(records, client, now).0;
      var n := |Lookup(records, client)|;
      assert |Lookup(after, client)| == n + 1;
      BurstDecisions(after, client, requests[1..], lo, k - 1);
      assert Run(after, requests[1..])[k - 1] == Rejected <==> n + 1 + (k - 1) + 1 > RateLimit;
    }
  }

  /** The first request of a burst is rejected exactly when it is beyond the limit. */
  lemma BurstHead(records: Records, client: string, requests: seq<Request>, lo: real)
    requires Burst(requests, client, lo)
    requires AllBetween(Lookup(records, client), lo)
    requires requests != []
    ensures Run(records, requests)[0] == Rejected <==> |Lookup(records, client)| + 1 > RateLimit
  {
    var now := requests[0].time;
    assert requests[0].clientIp == client && lo <= now <= lo + TimeWindow;
    BurstStep(records, client, now, lo);
    RunFirst(records, requests);
  }

  /** Past the first decision, a run continues from the first step's records. */
  lemma RunShift(records: Records, client: string, requests: seq<Request>, k: nat)
    requires 0 < k < |requests| && requests[0].clientIp == client
    ensures Run(records, requests)[k] == Run(Step(records, client, requests[0].time).0, requests[1..])[k - 1]
  {
    RunFirst(records, requests);
  }

  /** One request of such a burst: nothing expires and the request is added. */
  lemma BurstStep(records: Records, client: string, now: real, lo: real)
    requires AllBetween(Lookup(records, client), lo)
    requires lo <= now <= lo + TimeWindow
    ensures Lookup(Step(records, client, now).0, client) == Lookup(records, client) + [now]
    ensures AllBetween(Lookup(records, client) + [now], lo)
    ensures Step(records, client, now).1 == Rejected <==> |Lookup(records, client)| + 1 > RateLimit
  {
    var history := Lookup(records, client);
    forall t | t in history ensures InWindow(t, now) {
      var j :| 0 <= j < |history| && history[j] == t;
    }
    RecentKeepsAll(history, now);
  }

  /** With a fresh middleware, the 101st request of a burst is the first one refused. */
  lemma FirstRejectedInBurst(client: string, requests: seq<Request>, lo: real, k: nat)
    requires Burst(requests, client, lo)
    requires k < |requests|
    ensures Run(map[], requests)[k] == Rejected <==> k >= RateLimit
  {
    BurstDecisions(map[], client, requests, lo, k);
  }

  /** Other clients' requests never change whether `client` is limited: its record is untouched. */
  lemma {:induction false} OtherClientsIndependent(records: Records, client: string, requests: seq<Request>)
    requires forall i :: 0 <= i < |requests| ==> requests[i].clientIp != client
    ensures Lookup(RunRecords(records, requests), client) == Lookup(records, client)
    decreases |requests|
  {
    if requests != [] {
      var step := Step(records, requests[0].clientIp, requests[0].time);
      OtherClientsIndependent(step.0, client, requests[1..]);
    }
  }

  /** The records after a series of requests. */
  function RunRecords(records: Records, requests: seq<Request>): (after: Records)
    ensures records.Keys <= after.Keys
    decreases |requests|
  {
    if requests == [] then records
    else RunRecords(Step(records, requests[0].clientIp, requests[0].time).0, requests[1..])
  }

  // ---------------------------------------------------------------------
  // The dispatcher as written: `defaultdict(List[float])` uses the typing
  // alias `List[float]` as its default factory, and calling that alias
  // raises TypeError. So the first access for an unknown client raises
  // before anything is recorded.
  // ---------------------------------------------------------------------

  /**
   * One request with the records as written: an unknown client makes the
   * default factory raise, leaving the records unchanged; a known client is
   * handled as by `Step`.
   */
  function StepAsWritten(records: Records, client: string, now: real): (r: Result<(Records, Decision), Exception>)
    ensures r.Failure? <==> client !in records
    ensures r.Failure? ==> r.error == TypeError
    ensures r.Success? ==> client in r.value.0 && r.value.0[client] == Recent(records[client], now) + [now]
  {
    if client in records then Success(Step(records, client, now)) else Failure(TypeError)
  }

  /** The outcomes of a series of requests as written; a raising request changes nothing. */
  function RunAsWritten(records: Records, requests: seq<Request>): (outcomes: seq<Result<Decision, Exception>>)
    ensures |outcomes| == |requests|
    decreases |requests|
  {
    if requests == [] then []
    else
      match StepAsWritten(records, requests[0].clientIp, requests[0].time)
      case Success(step) => [Success(step.1)] + RunAsWritten(step.0, requests[1..])
      case Failure(e) => [Failure(e)] + RunAsWritten(records, requests[1..])
  }

  /**
   * As written, a middleware that starts with no records never records
   * anything: every request it ever sees raises TypeError.
   */
  lemma {:induction false} AsWrittenAlwaysRaises(requests: seq<Request>, k: nat)
    requires k < |requests|
    ensures RunAsWritten(map[], requests)[k] == Failure(TypeError)
  {
    if k > 0 {
      AsWrittenAlwaysRaises(requests[1..], k - 1);
    }
  }

  /** Corrected, a fresh middleware forwards the first request of every client. */
  lemma FirstRequestForwarded(client: string, now: real)
    ensures Step(map[], client, now).1 == Forwarded
    ensures Step(map[], client, now).0 == map[client := [now]]
  {
  }
}
