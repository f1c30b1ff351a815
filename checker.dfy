/** The liveness check of one URL (`validate_url`).

    A HEAD request is sent to the URL; while the answer is in the redirect
    range and fewer than six follow-ups have been made, the `Location` of the
    answer is requested in turn. The status of the last answer is returned. A
    request that fails raises, and the raise ends the check.

    The network is an oracle: a function from a request to its reply. */
module UrlChecker {
  import opened Values

  /** One HEAD request: the URL and the timeout passed along with it. The
      first request carries the configured timeout, follow-ups carry none. */
  datatype Request = Request(url: string, timeout: Option<Value>)

  datatype Response = Response(status: int, location: Option<string>)

  /** What the network does with a request: it answers, or the request raises. */
  datatype Reply = Answered(response: Response) | Failed(error: string)

  type Network = Request -> Reply

  /** The outcome of `validate_url`: a returned status, with whether the
      "too many redirects" warning was logged, or the exception it raised. */
  datatype UrlResult = Returned(status: int, warned: bool) | Raised(error: string)

  /** The check as a whole: every request sent, in order, and the outcome. */
  datatype Probe = Probe(requests: seq<Request>, result: UrlResult)

  /** The redirect chain after the first answer: the follow-up requests, the
      reply to the last request made, and the counter when the loop ended. */
  datatype Chain = Chain(requests: seq<Request>, last: Reply, checks: nat)

  const MAX_3XX_CHECKS: nat := 5

  /** The loop's redirect test, `status in range(300, 399)`: 300 to 398. */
  predicate IsRedirect(status: int) {
    300 <= status < 399
  }

  /** The loop's guard, on the answer held and the counter. */
  predicate Continues(response: Response, checks: nat) {
    IsRedirect(response.status) && checks <= MAX_3XX_CHECKS
  }

  /** The redirect loop, run from the answer `response` with counter `checks`. */
  function Follow(net: Network, response: Response, checks: nat): (c: Chain)
    requires checks <= MAX_3XX_CHECKS + 1
    ensures checks <= c.checks <= MAX_3XX_CHECKS + 1
    ensures c.last.Answered? ==> |c.requests| == c.checks - checks
    ensures c.last.Answered? ==> !(Continues(c.last.response, c.checks) && c.last.response.location.Some?)
    ensures c.last.Failed? ==> |c.requests| == c.checks - checks + 1
    decreases MAX_3XX_CHECKS + 1 - checks
  {
    if Continues(response, checks) && response.location.Some? then
      var next := Request(response.location.value, None);
      match net(next)
      case Failed(e) => Chain([next], Failed(e), checks)
      case Answered(r) =>
        var rest := Follow(net, r, checks + 1);
        Chain([next] + rest.requests, rest.last, rest.checks)
    else
      Chain([], Answered(response), checks)
  }

  /** The first request of a check. */
  function FirstRequest(url: string, timeout: Value): Request {
    Request(url, Some(timeout))
  }

  /** The outcome of a check whose first requests were `sent`, when the loop
      went on as `chain`. */
  function Conclude(sent: seq<Request>, chain: Chain): Probe {
    match chain.last
    case Failed(e) => Probe(sent + chain.requests, Raised(e))
    case Answered(r) => Probe(sent + chain.requests, Returned(r.status, chain.checks >= MAX_3XX_CHECKS))
  }

  /** `validate_url(url, timeout)` against the network `net`. */
  function Check(net: Network, url: string, timeout: Value): (p: Probe)
    ensures 1 <= |p.requests| <= MAX_3XX_CHECKS + 2
    ensures p.requests[0] == FirstRequest(url, timeout)
    ensures p.result.Returned? ==> (p.result.warned <==> |p.requests| - 1 >= MAX_3XX_CHECKS)
  {
    var first := FirstRequest(url, timeout);
    match net(first)
    case Failed(e) => Probe([first], Raised(e))
    case Answered(r) => Conclude([first], Follow(net, r, 0))
  }

  /** One turn of the loop: following `response` to an answer `r` leaves the
      outcome unchanged once the request is counted as sent. */
  lemma FollowStep(net: Network, sent: seq<Request>, response: Response, checks: nat)
    requires checks <= MAX_3XX_CHECKS
    requires Continues(response, checks) && response.location.Some?
    ensures var next := Request(response.location.value, None);
      Conclude(sent, Follow(net, response, checks)) ==
        match net(next)
        case Failed(e) => Probe(sent + [next], Raised(e))
        case Answered(r) => Conclude(sent + [next], Follow(net, r, checks + 1))
  {
    var next := Request(response.location.value, None);
    match net(next)
    case Failed(e) =>
    case Answered(r) =>
      var rest := Follow(net, r, checks + 1);
      assert sent + ([next] + rest.requests) == (sent + [next]) + rest.requests;
  }

  /** The loop of `validate_url`, step by step. */
  method ValidateUrl(net: Network, url: string, timeout: Value) returns (result: UrlResult, requests: seq<Request>)
    ensures Probe(requests, result) == Check(net, url, timeout)
  {
    var first := FirstRequest(url, timeout);
    requests := [first];
    var reply := net(first);
    if reply.Failed? {
      return Raised(reply.error), requests;
    }
    var response := reply.response;
    var checks: nat := 0;
    while Continues(response, checks)
      invariant checks <= MAX_3XX_CHECKS + 1
      invariant Conclude(requests, Follow(net, response, checks)) == Check(net, url, timeout)
      decreases MAX_3XX_CHECKS + 1 - checks
    {
      if response.location.Some? {
        FollowStep(net, requests, response, checks);
        var next := Request(response.location.value, None);
        reply := net(next);
        requests := requests + [next];
        if reply.Failed? {
          return Raised(reply.error), requests;
        }
        response := reply.response;
        checks := checks + 1;
      } else {
        break;
      }
    }
    assert Follow(net, response, checks) == Chain([], Answered(response), checks);
    assert requests + [] == requests;
    result := Returned(response.status, checks >= MAX_3XX_CHECKS);
  }

  // ---------------------------------------------------------------------
  // Properties of the check
  // ---------------------------------------------------------------------

  /** Every request after the first goes, without a timeout, to the
      `Location` of the answer to the request before it, and that answer was
      in the redirect range. */
  ghost predicate FollowsLocations(net: Network, requests: seq<Request>) {
    forall i :: 0 < i < |requests| ==> FollowsLocation(net, requests[i - 1], requests[i])
  }

  /** `next` is the follow-up that the loop sends after the answer to `prev`. */
  ghost predicate FollowsLocation(net: Network, prev: Request, next: Request) {
    && net(prev).Answered?
    && IsRedirect(net(prev).response.status)
    && net(prev).response.location == Some(next.url)
    && next.timeout == None
  }

  /** The shape of every check: it starts with the URL and its timeout, each
      later request follows the previous `Location`, at most six follow-ups are
      made, and the outcome is that of the last request: its exception, or its
      status with the warning logged exactly when five or more follow-ups were
      made. A returned status still redirecting with a `Location` means the
      cap was reached. */
  lemma CheckShape(net: Network, url: string, timeout: Value)
    ensures var p := Check(net, url, timeout);
      && 1 <= |p.requests| <= MAX_3XX_CHECKS + 2
      && p.requests[0] == FirstRequest(url, timeout)
      && FollowsLocations(net, p.requests)
      && (p.result.Raised? <==> net(p.requests[|p.requests| - 1]).Failed?)
      && (p.result.Raised? ==> p.result.error == net(p.requests[|p.requests| - 1]).error)
      && (p.result.Returned? ==>
            && p.result.status == net(p.requests[|p.requests| - 1]).response.status
            && (p.result.warned <==> |p.requests| - 1 >= MAX_3XX_CHECKS))
      && (p.result.Returned? && IsRedirect(p.result.status)
          && net(p.requests[|p.requests| - 1]).response.location.Some?
          ==> |p.requests| == MAX_3XX_CHECKS + 2)
  {
    var first := FirstRequest(url, timeout);
    match net(first)
    case Failed(e) =>
    case Answered(r) =>
      FollowShape(net, first, r, 0);
  }

  /** `CheckShape` for the loop started from any answer in the chain. */
  lemma {:induction false} FollowShape(net: Network, prev: Request, response: Response, checks: nat)
    requires checks <= MAX_3XX_CHECKS + 1
    requires net(prev) == Answered(response)
    ensures var c := Follow(net, response, checks);
      var all := [prev] + c.requests;
      && FollowsLocations(net, all)
      && (c.last == net(all[|all| - 1]))
    decreases MAX_3XX_CHECKS + 1 - checks
  {
    var c := Follow(net, response, checks);
    if Continues(response, checks) && response.location.Some? {
      var next := Request(response.location.value, None);
      match net(next)
      case Failed(e) =>
        assert [prev] + c.requests == [prev, next];
      case Answered(r) =>
        FollowShape(net, next, r, checks + 1);
        var rest := Follow(net, r, checks + 1);
        assert [prev] + c.requests == [prev] + ([next] + rest.requests);
    } else {
      assert c.requests == [];
    }
  }

  /** A first answer outside 300..398 (a 200, a 404, a 399 alike) is returned
      as it is, without a warning and without a second request. */
  lemma NotRedirectedFirst(net: Network, url: string, timeout: Value, r: Response)
    requires net(FirstRequest(url, timeout)) == Answered(r)
    requires !IsRedirect(r.status)
    ensures Check(net, url, timeout) == Probe([FirstRequest(url, timeout)], Returned(r.status, false))
  {
  }

  /** The boundary of the redirect test: a 398 with a `Location` is followed,
      a 399 with a `Location` is returned at once. */
  lemma RedirectBoundary(net: Network, url: string, timeout: Value, location: string)
    ensures net(FirstRequest(url, timeout)) == Answered(Response(398, Some(location))) ==>
      var p := Check(net, url, timeout);
      |p.requests| >= 2 && p.requests[1] == Request(location, None)
    ensures net(FirstRequest(url, timeout)) == Answered(Response(399, Some(location))) ==>
      Check(net, url, timeout) == Probe([FirstRequest(url, timeout)], Returned(399, false))
  {
  }

  /** An answer in the redirect range without a `Location` stops the loop and
      its own status is returned. */
  lemma {:induction false} MissingLocationStops(net: Network, response: Response, checks: nat)
    requires checks <= MAX_3XX_CHECKS + 1
    requires IsRedirect(response.status) && response.location.None?
    ensures Follow(net, response, checks) == Chain([], Answered(response), checks)
  {
  }

  /** A test network: a URL of fewer than `hops` characters answers 301 and
      redirects to itself with one more character; longer ones answer `final`. */
  function Ladder(hops: nat, final: int): Network {
    (req: Request) =>
      if |req.url| < hops then Answered(Response(301, Some(req.url + "r")))
      else Answered(Response(final, None))
  }

  /** Five redirects and then a 200: the 200 is returned, and the warning is
      logged although the chain ended well. Four redirects log nothing. */
  lemma FiveRedirectsThenOk(timeout: Value)
    ensures Check(Ladder(5, 200), "", timeout).result == Returned(200, true)
    ensures Check(Ladder(4, 200), "", timeout).result == Returned(200, false)
  {
    LadderCheck(5, 200, timeout);
    LadderCheck(4, 200, timeout);
  }

  /** Six redirects are still followed; from seven on, the loop stops at the
      cap and returns the redirect status of the seventh answer. */
  lemma CapAtSixFollowUps(timeout: Value)
    ensures Check(Ladder(6, 200), "", timeout).result == Returned(200, true)
    ensures Check(Ladder(7, 200), "", timeout).result == Returned(301, true)
    ensures |Check(Ladder(7, 200), "", timeout).requests| == 7
  {
    LadderCheck(6, 200, timeout);
    LadderCheck(7, 200, timeout);
  }

  /** The outcome of a `Ladder` network, for every chain length. */
  lemma LadderCheck(hops: nat, final: int, timeout: Value)
    requires !IsRedirect(final)
    ensures var n := LadderHops(hops);
      Check(Ladder(hops, final), "", timeout) ==
        Probe(LadderRequests(n, timeout),
              Returned(if hops <= MAX_3XX_CHECKS + 1 then final else 301, n >= MAX_3XX_CHECKS))
  {
    var net := Ladder(hops, final);
    var first := FirstRequest("", timeout);
    var response := if 0 < hops then Response(301, Some(Rungs(1))) else Response(final, None);
    assert Rungs(0) == "";
    LadderAnswer(hops, final, 0, Some(timeout));
    assert net(first) == Answered(response);
    LadderFollow(hops, final, 0);
    assert Check(net, "", timeout) == Conclude([first], Follow(net, response, 0));
  }

  /** The number of follow-ups a `Ladder` check makes: the chain length, capped at six. */
  function LadderHops(hops: nat): nat {
    if hops <= MAX_3XX_CHECKS + 1 then hops else MAX_3XX_CHECKS + 1
  }

  /** The requests a `Ladder` check sends when it follows `n` redirects. */
  function LadderRequests(n: nat, timeout: Value): (rs: seq<Request>)
    ensures |rs| == n + 1
  {
    [FirstRequest("", timeout)] + LadderFollowUps(0, n)
  }

  /** The follow-ups from rung `k` up to rung `n`. */
  function LadderFollowUps(k: nat, n: nat): (rs: seq<Request>)
    ensures |rs| == if k <= n then n - k else 0
    decreases n - k
  {
    if k < n then [Request(Rungs(k + 1), None)] + LadderFollowUps(k + 1, n) else []
  }

  function Rungs(k: nat): (u: string)
    ensures |u| == k
  {
    seq(k, _ => 'r')
  }

  /** What a `Ladder` network answers on rung `k`, whatever the timeout. */
  lemma LadderAnswer(hops: nat, final: int, k: nat, timeout: Option<Value>)
    ensures Ladder(hops, final)(Request(Rungs(k), timeout)) ==
      Answered(if k < hops then Response(301, Some(Rungs(k + 1))) else Response(final, None))
  {
    assert Rungs(k) + "r" == Rungs(k + 1);
  }

  lemma {:induction false} LadderFollow(hops: nat, final: int, k: nat)
    requires !IsRedirect(final)
    requires k <= hops && k <= MAX_3XX_CHECKS + 1
    ensures var n := LadderHops(hops);
      var c := Follow(Ladder(hops, final), if k < hops then Response(301, Some(Rungs(k + 1))) else Response(final, None), k);
      && c.last == Answered(if hops <= MAX_3XX_CHECKS + 1 then Response(final, None) else Response(301, Some(Rungs(n + 1))))
      && c.checks == n
      && c.requests == LadderFollowUps(k, n)
    decreases MAX_3XX_CHECKS + 1 - k
  {
    if k < hops && k <= MAX_3XX_CHECKS {
      LadderAnswer(hops, final, k + 1, None);
      LadderFollow(hops, final, k + 1);
    }
  }
}
