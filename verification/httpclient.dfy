/**
  `HTTPClient.request`: one request through axios, re-issued unchanged for
  as long as axios rejects it with status 429.

  The network is not modelled.  What axios does on each attempt is given
  as a script, one entry per attempt in order: the response it resolved
  with, or the error it rejected with (with or without a response).  The
  source retries a rate-limited request forever; the model stops when the
  script runs out and reports that it would still be retrying.  The
  10-second sleep between attempts is left out.
*/
module HttpClient {
  import opened Wrappers
  import opened JsString

  /** The arguments of `request(method, url, data, headers)`; absent ones are `undefined`. */
  datatype HttpRequest = HttpRequest(verb: Str, url: Str, data: Option<Str>, headers: Option<seq<(Str, Str)>>)

  /** An axios response: status code, status text and the body. */
  datatype Reply = Reply(status: int, statusText: Str, data: Str)

  /** What the awaited `this.axios.request(..)` did on one attempt. */
  datatype Attempt =
    | Resolved(reply: Reply)
    | Rejected(response: Option<Reply>)  // `error.response`, absent for transport failures

  /** What `request` hands back to its caller. */
  datatype Fetch =
    | Delivered(reply: Reply)  // the response object
    | Nothing                  // `undefined`: an error status, already logged
    | Crashed                  // an exception escapes: `error.response` was absent
    | Exhausted                // the script ran out while still rate limited

  /** The outcome of a call together with every request it put on the wire, in order. */
  datatype Exchange = Exchange(fetch: Fetch, sent: seq<HttpRequest>)

  /** An attempt that makes `request` sleep and try again. */
  predicate RateLimited(a: Attempt)
  {
    a.Rejected? && a.response.Some? && a.response.value.status == 429
  }

  /**
    `request(method, url, data, headers)`: returns a response whose status
    is below 400, retries the identical request after a 429 rejection, and
    otherwise returns nothing; a rejection without a response crashes.
  */
  function Request(req: HttpRequest, script: seq<Attempt>): (x: Exchange)
    ensures forall k | 0 <= k < |x.sent| :: x.sent[k] == req
    ensures |x.sent| <= |script|
    ensures x.fetch.Exhausted? <==> forall k | 0 <= k < |script| :: RateLimited(script[k])
    ensures x.fetch.Delivered? ==> x.fetch.reply.status < 400
  {
    if |script| == 0 then Exchange(Exhausted, [])
    else match script[0]
      case Resolved(reply) =>
        Exchange(if reply.status < 400 then Delivered(reply) else Nothing, [req])
      case Rejected(Some(reply)) =>
        if reply.status == 429 then
          var rest := Request(req, script[1..]);
          assert forall k | 1 <= k < |script| :: script[k] == script[1..][k - 1];
          Exchange(rest.fetch, [req] + rest.sent)
        else Exchange(Nothing, [req])
      case Rejected(None) => Exchange(Crashed, [req])
  }

  /** How an attempt that is not rate limited ends the call. */
  function Decide(a: Attempt): Fetch
  {
    match a
    case Resolved(reply) => if reply.status < 400 then Delivered(reply) else Nothing
    case Rejected(Some(_)) => Nothing
    case Rejected(None) => Crashed
  }

  /** The index of the first attempt that is not rate limited, or the script's length. */
  function FirstDecisive(script: seq<Attempt>): (k: nat)
    ensures k <= |script|
    ensures forall j | 0 <= j < k :: RateLimited(script[j])
    ensures k < |script| ==> !RateLimited(script[k])
  {
    if |script| == 0 || !RateLimited(script[0]) then 0
    else
      var k := FirstDecisive(script[1..]);
      assert forall j | 1 <= j < k + 1 :: script[j] == script[1..][j - 1];
      1 + k
  }

  /**
    The outcome of a request is decided by its first attempt that is not
    rate limited, after as many identical requests as attempts up to and
    including that one.
  */
  lemma {:induction false} RequestDecidedByFirstDecisive(req: HttpRequest, script: seq<Attempt>)
    ensures var k := FirstDecisive(script);
      && Request(req, script).fetch == (if k < |script| then Decide(script[k]) else Exhausted)
      && Request(req, script).sent == seq(if k < |script| then k + 1 else k, _ => req)
  {
    if |script| > 0 && RateLimited(script[0]) {
      RequestDecidedByFirstDecisive(req, script[1..]);
    }
  }

  /** A response below 400 after `n` rate limits is returned, after `n + 1` identical requests. */
  lemma RetriedUntilDelivered(req: HttpRequest, n: nat, limited: seq<Attempt>, reply: Reply)
    requires |limited| == n && forall k | 0 <= k < n :: RateLimited(limited[k])
    requires reply.status < 400
    ensures Request(req, limited + [Resolved(reply)]) == Exchange(Delivered(reply), seq(n + 1, _ => req))
  {
    var script := limited + [Resolved(reply)];
    RequestDecidedByFirstDecisive(req, script);
    var k := FirstDecisive(script);
    assert k == n by {
      assert script[n] == Resolved(reply);
      assert forall j | 0 <= j < n :: script[j] == limited[j];
    }
  }

  /** A first attempt that fails with anything but 429 ends the call after one request, with nothing. */
  lemma FirstErrorGivesNothing(req: HttpRequest, script: seq<Attempt>)
    requires |script| >= 1 && script[0].Rejected? && script[0].response.Some?
    requires script[0].response.value.status != 429
    ensures Request(req, script) == Exchange(Nothing, [req])
  {
  }
}
