/** The resilient fetcher: `fetchAndHash` in src/services/websiteMonitor.js.
    The network is an oracle that answers every attempt, the SHA-256 digest is a
    function value supplied by the caller, and the waits between attempts are
    recorded rather than slept. */
module Fetcher {
  import opened Wrappers

  /** Retries after the first attempt, so at most MAX_RETRIES + 1 requests. */
  const MAX_RETRIES: nat := 3
  /** Retry number k (counting from 1) waits RETRY_DELAY_MS * k milliseconds. */
  const RETRY_DELAY_MS: nat := 1000

  /** The text of a response body. */
  type Body = string
  /** A hexadecimal SHA-256 digest of a body. */
  type Digest = string

  /** What one request produced: a response with its HTTP status and body, or a
      thrown error (connection failure, or the 30-second abort of
      `fetchWithTimeout`). */
  datatype Attempt = Response(status: int, body: Body) | Thrown(cause: string)

  /** `response.ok`: the status is in the 2xx range. */
  predicate IsOk(a: Attempt)
  {
    a.Response? && 200 <= a.status <= 299
  }

  /** The answer the network gives to attempt number k (counting from 0). */
  type Network = nat -> Attempt

  /** The error a failed attempt throws: the `HTTP error! status` error for a
      non-ok response, or the error thrown by the request itself. */
  datatype FetchError = HttpError(status: int) | NetworkError(cause: string)

  function ErrorOf(a: Attempt): FetchError
    requires !IsOk(a)
  {
    match a
    case Response(status, _) => HttpError(status)
    case Thrown(cause) => NetworkError(cause)
  }

  /** What one call of `fetchAndHash` did: the digest it returned or the error
      it threw, how many requests it made, and the waits it made between them. */
  datatype Fetch = Fetch(result: Result<Digest, FetchError>, attempts: nat, delays: seq<nat>)

  /** The number of requests a call started with `retries` makes when every one fails. */
  function AttemptBudget(retries: nat): (n: nat)
  {
    if retries < MAX_RETRIES then MAX_RETRIES + 1 - retries else 1
  }

  /** `fetchAndHash(url, retries)`: request, hash the first ok body, and on a
      failure wait and recurse with `retries + 1` while `retries < MAX_RETRIES`,
      else rethrow. The contract says everything about the result: requests are
      made from attempt `retries` on, every request before the last failed, the
      call stops at its first ok response, and it fails only after its whole
      budget with the error of its last request. */
  function FetchAndHash(hash: Body -> Digest, net: Network, retries: nat): (f: Fetch)
    ensures 1 <= f.attempts <= AttemptBudget(retries)
    ensures |f.delays| == f.attempts - 1
    ensures forall i :: 0 <= i < |f.delays| ==> f.delays[i] == RETRY_DELAY_MS * (retries + i + 1)
    ensures forall k :: retries <= k < retries + f.attempts - 1 ==> !IsOk(net(k))
    ensures f.result.Success? <==> IsOk(net(retries + f.attempts - 1))
    ensures f.result.Success? ==> f.result.value == hash(net(retries + f.attempts - 1).body)
    ensures f.result.Failure? ==>
              f.attempts == AttemptBudget(retries) &&
              f.result.error == ErrorOf(net(retries + f.attempts - 1))
    decreases MAX_RETRIES - retries
  {
    var a := net(retries);
    if IsOk(a) then
      Fetch(Success(hash(a.body)), 1, [])
    else if retries < MAX_RETRIES then
      var rest := FetchAndHash(hash, net, retries + 1);
      Fetch(rest.result, rest.attempts + 1, [RETRY_DELAY_MS * (retries + 1)] + rest.delays)
    else
      Fetch(Failure(ErrorOf(a)), 1, [])
  }

  /** When every one of the MAX_RETRIES + 1 requests fails, whether by a thrown
      error or by a non-ok status, the call makes all of them, waits 1, 2 and
      3 seconds in between, and throws the error of the last one. */
  lemma RetriesExhausted(hash: Body -> Digest, net: Network)
    requires forall k: nat :: k <= MAX_RETRIES ==> !IsOk(net(k))
    ensures FetchAndHash(hash, net, 0).attempts == MAX_RETRIES + 1
    ensures FetchAndHash(hash, net, 0).delays == [1000, 2000, 3000]
    ensures FetchAndHash(hash, net, 0).result == Failure(ErrorOf(net(MAX_RETRIES)))
  {
    var f := FetchAndHash(hash, net, 0);
    assert f.result.Failure?;
    assert f.delays == [f.delays[0], f.delays[1], f.delays[2]];
  }

  /** The first ok response, at attempt k, ends the call: it returns the digest
      of that body and makes no further request. */
  lemma FirstSuccessReturnsDigest(hash: Body -> Digest, net: Network, k: nat)
    requires k <= MAX_RETRIES && IsOk(net(k))
    requires forall j: nat :: j < k ==> !IsOk(net(j))
    ensures FetchAndHash(hash, net, 0).attempts == k + 1
    ensures FetchAndHash(hash, net, 0).result == Success(hash(net(k).body))
  {
    var f := FetchAndHash(hash, net, 0);
    assert f.attempts - 1 >= k;
  }

  /** The sum of a sequence of waits. */
  function TotalDelay(s: seq<nat>): nat
  {
    if s == [] then 0 else s[0] + TotalDelay(s[1..])
  }

  /** The waits of a call whose every retry happens, started at `retries`. */
  function MaxTotalDelay(retries: nat): nat
    decreases MAX_RETRIES - retries
  {
    if retries < MAX_RETRIES then RETRY_DELAY_MS * (retries + 1) + MaxTotalDelay(retries + 1) else 0
  }

  /** A call started with `retries` waits no longer in all than one whose every
      retry happens. */
  lemma {:induction false} TotalDelayAtMostBudget(hash: Body -> Digest, net: Network, retries: nat)
    ensures TotalDelay(FetchAndHash(hash, net, retries).delays) <= MaxTotalDelay(retries)
    decreases MAX_RETRIES - retries
  {
    var a := net(retries);
    if !IsOk(a) && retries < MAX_RETRIES {
      TotalDelayAtMostBudget(hash, net, retries + 1);
      var rest := FetchAndHash(hash, net, retries + 1);
      var d := [RETRY_DELAY_MS * (retries + 1)] + rest.delays;
      assert d[1..] == rest.delays;
    }
  }

  /** A call of `fetchAndHash(url)` waits at most 6 seconds in all. */
  lemma TotalDelayAtMostSixSeconds(hash: Body -> Digest, net: Network)
    ensures TotalDelay(FetchAndHash(hash, net, 0).delays) <= 6000
  {
    TotalDelayAtMostBudget(hash, net, 0);
  }

  /** The fetch is deterministic: two networks that give the same answers to
      the attempts a call can make yield the same digest or error, the same
      number of requests and the same waits. */
  lemma {:induction false} FetchDeterministic(hash: Body -> Digest, net1: Network, net2: Network, retries: nat)
    requires forall k: nat :: retries <= k <= MAX_RETRIES ==> net1(k) == net2(k)
    requires net1(retries) == net2(retries)
    ensures FetchAndHash(hash, net1, retries) == FetchAndHash(hash, net2, retries)
    decreases MAX_RETRIES - retries
  {
    if !IsOk(net1(retries)) && retries < MAX_RETRIES {
      FetchDeterministic(hash, net1, net2, retries + 1);
    }
  }
}
