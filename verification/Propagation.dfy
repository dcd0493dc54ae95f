/**
  Following redirects by hand (section 15.4 of RFC 9110) so that trace context and credentials are
  decided anew on every hop. Header names are in lower case and URLs are resolved.
 */
module Propagation {
  import opened Wrappers

  const MAX_REDIRECTS := 20

  type Headers = map<string, string>

  datatype Url = Url(origin: string, rest: string)

  /** A body that can be sent again; its type is set as a header on a new request that has none. */
  datatype Body = Body(content: string, contentType: Option<string>)

  datatype Mode = Follow | Error | Manual

  datatype Request = Request(verb: string, url: Url, headers: Headers, body: Option<Body>, mode: Mode)

  /** Where a location header leads, resolved against the request; it may be no URL at all. */
  datatype Target = Unparsable | To(url: Url)

  datatype Response = Response(status: nat, location: Option<Target>)

  /** How one fetch ends. */
  datatype Reply = Answered(response: Response) | NetworkError

  datatype Outcome = Returned(response: Response) | Refused | Failed

  predicate IsRedirect(status: nat) {
    status in {301, 302, 303, 307, 308}
  }

  predicate BecomesGet(status: nat, verb: string) {
    (status == 303 && verb != "HEAD") || ((status == 301 || status == 302) && verb == "POST")
  }

  const CREDENTIALS := {"authorization", "cookie", "proxy-authorization"}

  /** The request as it is sent: trace headers are dropped, and the context set again if the origin is owned. */
  function Prepared(request: Request, owned: set<string>, traceparent: Option<string>): Request {
    var bare := request.headers - {"baggage", "traceparent", "tracestate"};
    request.(headers := if traceparent.Some? && request.url.origin in owned
                        then bare["traceparent" := traceparent.value] else bare)
  }

  /** The headers the next hop starts from. */
  function Forwarded(headers: Headers, crossOrigin: bool, becomesGet: bool): Headers {
    var safe := if crossOrigin then headers - CREDENTIALS else headers;
    if becomesGet then safe - {"content-type", "content-length"} else safe
  }

  /** Constructing a request; one without a body-carrying method cannot have a body. */
  function Construct(verb: string, url: Url, headers: Headers, body: Option<Body>, mode: Mode): Option<Request> {
    if body.Some? && (verb == "GET" || verb == "HEAD") then None
    else
      var typed := if body.Some? && body.value.contentType.Some? && "content-type" !in headers
                   then headers["content-type" := body.value.contentType.value] else headers;
      Some(Request(verb, url, typed, body, mode))
  }

  /** What follows a response to `sent`: the outcome of the chain, or the next request and what can replay its body. */
  datatype Turn = Stop(outcome: Outcome) | Hop(request: Request, replay: Option<Body>)

  function Take(sent: Request, reply: Reply, remaining: nat, replay: Option<Body>): Turn {
    if reply.NetworkError? then Stop(Failed)
    else
      var response := reply.response;
      if !IsRedirect(response.status) || response.location.None? || sent.mode.Manual? then Stop(Returned(response))
      else if sent.mode.Error? || remaining == 0 || response.location.value.Unparsable? then Stop(Refused)
      else
        var target := response.location.value.url;
        var becomesGet := BecomesGet(response.status, sent.verb);
        if !becomesGet && sent.body.Some? && replay.None? then Stop(Refused)
        else
          var headers := Forwarded(sent.headers, target.origin != sent.url.origin, becomesGet);
          match Construct(if becomesGet then "GET" else sent.verb, target, headers,
                          if becomesGet then None else replay, sent.mode)
          case None => Stop(Refused)
          case Some(request) => Hop(request, if becomesGet then None else replay)
  }

  /** The requests sent, in order, and how the chain ends; `replies` answers the n-th fetch. */
  function Chain(request: Request, owned: set<string>, traceparent: Option<string>, remaining: nat,
                 replay: Option<Body>, replies: nat -> Reply, n: nat): (r: (seq<Request>, Outcome))
    ensures r.0 != [] && r.0[0] == Prepared(request, owned, traceparent)
    ensures |r.0| <= remaining + 1
    decreases remaining
  {
    var sent := Prepared(request, owned, traceparent);
    match Take(sent, replies(n), remaining, replay)
    case Stop(outcome) => ([sent], outcome)
    case Hop(next, nextReplay) =>
      assert remaining > 0;
      var rest := Chain(next, owned, traceparent, remaining - 1, nextReplay, replies, n + 1);
      ([sent] + rest.0, rest.1)
  }

  /** A chain is its first hop and the chain that a redirect starts. */
  lemma ChainUnfolds(request: Request, owned: set<string>, traceparent: Option<string>, remaining: nat,
                     replay: Option<Body>, replies: nat -> Reply, n: nat)
    ensures var hops := Chain(request, owned, traceparent, remaining, replay, replies, n).0;
            var turn := Take(Prepared(request, owned, traceparent), replies(n), remaining, replay);
            && hops[0] == Prepared(request, owned, traceparent)
            && (turn.Stop? ==> hops == [Prepared(request, owned, traceparent)])
            && (turn.Hop? ==>
                  && remaining > 0
                  && hops == [Prepared(request, owned, traceparent)]
                             + Chain(turn.request, owned, traceparent, remaining - 1, turn.replay, replies, n + 1).0)
  {
    hide Prepared;
  }

  /**
    With the default number of redirects there are at most 21 fetches, and a server that redirects
    for ever gets them all.
   */
  lemma AtMostTwentyOne(request: Request, owned: set<string>, traceparent: Option<string>, replay: Option<Body>,
                        replies: nat -> Reply)
    ensures var (hops, outcome) := Chain(request, owned, traceparent, MAX_REDIRECTS, replay, replies, 0);
            && |hops| <= 21
            && (Endless(replies) && request.body.None? && replay.None? && request.mode.Follow? ==>
                  |hops| == 21 && outcome == Refused)
  {
    if Endless(replies) && request.body.None? && replay.None? && request.mode.Follow? {
      EndlessRedirects(request, owned, traceparent, MAX_REDIRECTS, replay, replies, 0);
    }
  }

  /** Every fetch is answered with a redirect. */
  ghost predicate Endless(replies: nat -> Reply) {
    forall n :: replies(n).Answered? && replies(n).response.status in {301, 302, 303, 307, 308}
                && replies(n).response.location.Some? && replies(n).response.location.value.To?
  }

  lemma {:induction false} EndlessRedirects(request: Request, owned: set<string>, traceparent: Option<string>,
                                            remaining: nat, replay: Option<Body>, replies: nat -> Reply, n: nat)
    requires Endless(replies) && request.body.None? && replay.None? && request.mode.Follow?
    ensures |Chain(request, owned, traceparent, remaining, replay, replies, n).0| == remaining + 1
    ensures Chain(request, owned, traceparent, remaining, replay, replies, n).1 == Refused
    decreases remaining
  {
    var sent := Prepared(request, owned, traceparent);
    PreparedUrl(request, owned, traceparent);
    hide Prepared;
    if remaining > 0 {
      var Hop(next, nextReplay) := Take(sent, replies(n), remaining, replay);
      EndlessRedirects(next, owned, traceparent, remaining - 1, nextReplay, replies, n + 1);
    }
  }

  /** The reply to hop `k` is a redirect that is followed, and hop `k + 1` goes where it leads. */
  ghost predicate Followed(hops: seq<Request>, replies: nat -> Reply, n: nat, k: nat)
    requires k + 1 < |hops|
  {
    && replies(n + k).Answered? && replies(n + k).response.status in {301, 302, 303, 307, 308}
    && replies(n + k).response.location == Some(To(hops[k + 1].url)) && hops[k].mode.Follow?
  }

  lemma PreparedUrl(request: Request, owned: set<string>, traceparent: Option<string>)
    ensures var sent := Prepared(request, owned, traceparent);
            sent.url == request.url && sent.body == request.body && sent.verb == request.verb
              && sent.mode == request.mode
  {
  }

  /** When a chain goes on, where to, and what it ends with when it does not. */
  lemma TurnFacts(sent: Request, reply: Reply, remaining: nat, replay: Option<Body>)
    ensures var turn := Take(sent, reply, remaining, replay);
            && (turn.Hop? ==>
                  && remaining > 0 && reply.Answered? && IsRedirect(reply.response.status) && sent.mode.Follow?
                     && turn.request.mode == sent.mode
                  && reply.response.location == Some(To(turn.request.url)))
            && (turn.Stop? && turn.outcome.Returned? ==>
                  && reply == Answered(turn.outcome.response)
                  && (!IsRedirect(reply.response.status) || reply.response.location.None? || sent.mode.Manual?))
  {
  }

  /** Every hop but the last is followed by a redirect, and the last one's reply decides the outcome. */
  lemma {:induction false} HopsFollowReplies(request: Request, owned: set<string>, traceparent: Option<string>,
                                             remaining: nat, replay: Option<Body>, replies: nat -> Reply, n: nat)
    ensures var (hops, outcome) := Chain(request, owned, traceparent, remaining, replay, replies, n);
            && (forall k :: 0 <= k < |hops| - 1 ==> Followed(hops, replies, n, k))
            && (outcome.Returned? ==>
                  replies(n + |hops| - 1) == Answered(outcome.response)
                  && (!IsRedirect(outcome.response.status) || outcome.response.location.None? || request.mode.Manual?))
            && |hops| <= remaining + 1
    decreases remaining
  {
    var sent := Prepared(request, owned, traceparent);
    TurnFacts(sent, replies(n), remaining, replay);
    PreparedUrl(request, owned, traceparent);
    hide Take, Prepared;
    match Take(sent, replies(n), remaining, replay)
    case Stop(outcome) =>
    case Hop(next, nextReplay) =>
      PreparedUrl(next, owned, traceparent);
      HopsFollowReplies(next, owned, traceparent, remaining - 1, nextReplay, replies, n + 1);
      var hops := Chain(request, owned, traceparent, remaining, replay, replies, n).0;
      var rest := Chain(next, owned, traceparent, remaining - 1, nextReplay, replies, n + 1).0;
      forall k | 0 <= k < |hops| - 1 ensures Followed(hops, replies, n, k) {
        if k > 0 {
          assert Followed(rest, replies, n + 1, k - 1);
        }
      }
  }

  /**
    On every hop of every chain: no baggage and no trace state, and the trace context exactly when
    one was supplied and the hop's origin is owned.
   */
  lemma {:induction false} TraceContextPerHop(request: Request, owned: set<string>, traceparent: Option<string>,
                                              remaining: nat, replay: Option<Body>, replies: nat -> Reply, n: nat,
                                              k: nat)
    requires k < |Chain(request, owned, traceparent, remaining, replay, replies, n).0|
    ensures var hop := Chain(request, owned, traceparent, remaining, replay, replies, n).0[k];
            && "baggage" !in hop.headers && "tracestate" !in hop.headers
            && ("traceparent" in hop.headers <==> traceparent.Some? && hop.url.origin in owned)
            && ("traceparent" in hop.headers ==> hop.headers["traceparent"] == traceparent.value)
    decreases remaining
  {
    hide Take;
    if k > 0 {
      var Hop(next, nextReplay) := Take(Prepared(request, owned, traceparent), replies(n), remaining, replay);
      TraceContextPerHop(next, owned, traceparent, remaining - 1, nextReplay, replies, n + 1, k - 1);
    }
  }

  /** All hops so far have the first one's origin. */
  ghost predicate OneOrigin(hops: seq<Request>, k: nat)
    requires k < |hops|
  {
    forall i :: 0 <= i <= k ==> hops[i].url.origin == hops[0].url.origin
  }

  lemma PreparedKeeps(request: Request, owned: set<string>, traceparent: Option<string>, name: string)
    requires name in CREDENTIALS
    ensures var sent := Prepared(request, owned, traceparent);
            && sent.url == request.url && sent.body == request.body && sent.verb == request.verb
               && sent.mode == request.mode
            && (name in sent.headers <==> name in request.headers)
            && (name in sent.headers ==> sent.headers[name] == request.headers[name])
  {
  }

  lemma TakeForwards(sent: Request, reply: Reply, remaining: nat, replay: Option<Body>, name: string)
    requires name in CREDENTIALS && Take(sent, reply, remaining, replay).Hop?
    ensures var next := Take(sent, reply, remaining, replay).request;
            && (name in next.headers <==> name in sent.headers && next.url.origin == sent.url.origin)
            && (name in next.headers ==> next.headers[name] == sent.headers[name])
  {
  }

  /**
    A hop carries a credential header exactly when the first request did and every hop so far
    shares one origin, and then unchanged.
   */
  lemma {:induction false} CredentialsStayHome(request: Request, owned: set<string>, traceparent: Option<string>,
                                               remaining: nat, replay: Option<Body>, replies: nat -> Reply, n: nat,
                                               k: nat, name: string)
    requires name in {"authorization", "cookie", "proxy-authorization"}
    requires k < |Chain(request, owned, traceparent, remaining, replay, replies, n).0|
    ensures var hops := Chain(request, owned, traceparent, remaining, replay, replies, n).0;
            && (name in hops[k].headers <==> name in request.headers && OneOrigin(hops, k))
            && (name in hops[k].headers ==> hops[k].headers[name] == request.headers[name])
    decreases remaining
  {
    hide Take, Prepared, Chain, OneOrigin;
    var sent := Prepared(request, owned, traceparent);
    PreparedKeeps(request, owned, traceparent, name);
    ChainUnfolds(request, owned, traceparent, remaining, replay, replies, n);
    if k > 0 {
      var Hop(next, nextReplay) := Take(sent, replies(n), remaining, replay);
      var rest := Chain(next, owned, traceparent, remaining - 1, nextReplay, replies, n + 1).0;
      TakeForwards(sent, replies(n), remaining, replay, name);
      CredentialsStayHome(next, owned, traceparent, remaining - 1, nextReplay, replies, n + 1, k - 1, name);
      PreparedKeeps(next, owned, traceparent, name);
      ChainUnfolds(next, owned, traceparent, remaining - 1, nextReplay, replies, n + 1);
      assert rest[0].url == next.url;
      CredentialHop(sent, next, rest, k, name);
    } else {
      OneOriginAlone(Chain(request, owned, traceparent, remaining, replay, replies, n).0);
    }
  }

  /** From one hop to those after it. */
  lemma CredentialHop(sent: Request, next: Request, rest: seq<Request>, k: nat, name: string)
    requires 0 < k <= |rest| && rest[0].url == next.url
    requires name in next.headers <==> name in sent.headers && next.url.origin == sent.url.origin
    requires name in next.headers ==> next.headers[name] == sent.headers[name]
    requires name in rest[k - 1].headers <==> name in next.headers && OneOrigin(rest, k - 1)
    requires name in rest[k - 1].headers ==> rest[k - 1].headers[name] == next.headers[name]
    ensures var hop := ([sent] + rest)[k];
            && (name in hop.headers <==> name in sent.headers && OneOrigin([sent] + rest, k))
            && (name in hop.headers ==> hop.headers[name] == sent.headers[name])
  {
    hide OneOrigin;
    OneOriginFrom(sent, rest, k);
  }

  lemma OneOriginAlone(hops: seq<Request>)
    requires hops != []
    ensures OneOrigin(hops, 0)
  {
  }

  lemma OneOriginFrom(first: Request, rest: seq<Request>, k: nat)
    requires 0 < k <= |rest|
    ensures OneOrigin([first] + rest, k) <==> rest[0].url.origin == first.url.origin && OneOrigin(rest, k - 1)
  {
    var hops := [first] + rest;
    assert forall i :: 0 <= i < |rest| ==> rest[i] == hops[i + 1];
    if rest[0].url.origin == first.url.origin && OneOrigin(rest, k - 1) {
      forall i | 0 <= i <= k ensures hops[i].url.origin == hops[0].url.origin {
        assert i > 0 ==> hops[i] == rest[i - 1];
      }
    }
    if OneOrigin(hops, k) {
      assert hops[1].url.origin == hops[0].url.origin;
      forall i | 0 <= i <= k - 1 ensures rest[i].url.origin == rest[0].url.origin {
        assert rest[i] == hops[i + 1];
      }
    }
  }

  /** The redirect taken after hop `j` turns the request into a GET. */
  ghost predicate SwitchesAt(hops: seq<Request>, replies: nat -> Reply, n: nat, j: nat)
    requires j < |hops|
  {
    && replies(n + j).Answered?
    && var status := replies(n + j).response.status;
       (status == 303 && hops[j].verb != "HEAD") || (status in {301, 302} && hops[j].verb == "POST")
  }

  ghost predicate SwitchedBefore(hops: seq<Request>, replies: nat -> Reply, n: nat, k: nat)
    requires k < |hops|
  {
    exists j :: 0 <= j < k && SwitchesAt(hops, replies, n, j)
  }

  lemma SwitchedFrom(first: Request, rest: seq<Request>, replies: nat -> Reply, n: nat, m: nat, k: nat)
    requires 0 < k <= |rest| && m == n + 1
    ensures var hops := [first] + rest;
            SwitchedBefore(hops, replies, n, k) <==>
            SwitchesAt(hops, replies, n, 0) || SwitchedBefore(rest, replies, m, k - 1)
  {
    var hops := [first] + rest;
    forall j | 0 < j < k ensures SwitchesAt(hops, replies, n, j) <==> SwitchesAt(rest, replies, m, j - 1) {
      assert hops[j] == rest[j - 1];
    }
    if SwitchedBefore(rest, replies, m, k - 1) {
      var j :| 0 <= j < k - 1 && SwitchesAt(rest, replies, m, j);
      assert SwitchesAt(hops, replies, n, j + 1);
    }
  }

  /** A GET that has nothing to replay stays one. */
  lemma {:induction false} BodilessGetStays(request: Request, owned: set<string>, traceparent: Option<string>,
                                            remaining: nat, replies: nat -> Reply, n: nat, k: nat)
    requires request.verb == "GET" && request.body.None?
    requires k < |Chain(request, owned, traceparent, remaining, None, replies, n).0|
    ensures Chain(request, owned, traceparent, remaining, None, replies, n).0[k].verb == "GET"
    ensures Chain(request, owned, traceparent, remaining, None, replies, n).0[k].body.None?
    decreases remaining
  {
    if k > 0 {
      var Hop(next, nextReplay) := Take(Prepared(request, owned, traceparent), replies(n), remaining, None);
      BodilessGetStays(next, owned, traceparent, remaining - 1, replies, n + 1, k - 1);
    }
  }

  /**
    After a switch to GET no later hop has a body; before any switch every later hop keeps the
    method and carries the body to replay.
   */
  lemma {:induction false} BodiesEndWithTheSwitch(request: Request, owned: set<string>, traceparent: Option<string>,
                                                  remaining: nat, replay: Option<Body>, replies: nat -> Reply, n: nat,
                                                  k: nat)
    requires 0 < k < |Chain(request, owned, traceparent, remaining, replay, replies, n).0|
    ensures var hops := Chain(request, owned, traceparent, remaining, replay, replies, n).0;
            if SwitchedBefore(hops, replies, n, k) then hops[k].verb == "GET" && hops[k].body.None?
            else hops[k].verb == request.verb && hops[k].body == replay
    decreases remaining
  {
    var sent := Prepared(request, owned, traceparent);
    hide Take, Prepared, SwitchedBefore, Chain;
    ChainUnfolds(request, owned, traceparent, remaining, replay, replies, n);
    var Hop(next, nextReplay) := Take(sent, replies(n), remaining, replay);
    ChainUnfolds(next, owned, traceparent, remaining - 1, nextReplay, replies, n + 1);
    FirstTurn(sent, replies(n), remaining, replay);
    PreparedUrl(request, owned, traceparent);
    PreparedUrl(next, owned, traceparent);
    var rest := Chain(next, owned, traceparent, remaining - 1, nextReplay, replies, n + 1).0;
    SwitchedFrom(sent, rest, replies, n, n + 1, k);
    if SwitchesAt([sent] + rest, replies, n, 0) {
      BodilessGetStays(next, owned, traceparent, remaining - 1, replies, n + 1, k - 1);
    } else if k > 1 {
      BodiesEndWithTheSwitch(next, owned, traceparent, remaining - 1, nextReplay, replies, n + 1, k - 1);
    } else {
      NotYetSwitched(rest, replies, n + 1);
    }
  }

  lemma NotYetSwitched(hops: seq<Request>, replies: nat -> Reply, n: nat)
    requires hops != []
    ensures !SwitchedBefore(hops, replies, n, 0)
  {
  }

  lemma FirstTurn(sent: Request, reply: Reply, remaining: nat, replay: Option<Body>)
    requires Take(sent, reply, remaining, replay).Hop?
    ensures var turn := Take(sent, reply, remaining, replay);
            && reply.Answered?
            && if BecomesGet(reply.response.status, sent.verb)
               then turn.request.verb == "GET" && turn.request.body.None? && turn.replay.None?
               else turn.request.verb == sent.verb && turn.request.body == replay && turn.replay == replay
  {
  }

  // When a chain goes on, and what else travels along it

  /**
    A hop follows exactly a redirect to a URL, if redirects are to be followed and some are left, and
    the body can be sent again or need not be: the method does not change and there is none, or there
    is one to replay for a method that has bodies.
   */
  lemma GoesOnExactly(sent: Request, reply: Reply, remaining: nat, replay: Option<Body>)
    ensures Take(sent, reply, remaining, replay).Hop? <==>
      && reply.Answered? && reply.response.status in {301, 302, 303, 307, 308}
      && reply.response.location.Some? && reply.response.location.value.To?
      && sent.mode.Follow? && remaining > 0
      && (|| (reply.response.status == 303 && sent.verb != "HEAD")
          || (reply.response.status in {301, 302} && sent.verb == "POST")
          || (sent.body.None? && replay.None?)
          || (replay.Some? && sent.verb != "GET" && sent.verb != "HEAD"))
  {
  }

  /** Headers about the body, which a switch to GET removes. */
  ghost predicate AboutBody(name: string) {
    name in {"content-type", "content-length"}
  }

  /** Any header that is neither a credential, nor trace context, nor about the body is on every hop as on the first. */
  lemma {:induction false} OthersTravel(request: Request, owned: set<string>, traceparent: Option<string>,
                                        remaining: nat, replay: Option<Body>, replies: nat -> Reply, n: nat, k: nat,
                                        name: string)
    requires name !in {"authorization", "cookie", "proxy-authorization", "traceparent", "tracestate", "baggage"}
             && !AboutBody(name)
    requires k < |Chain(request, owned, traceparent, remaining, replay, replies, n).0|
    ensures var hop := Chain(request, owned, traceparent, remaining, replay, replies, n).0[k];
            && (name in hop.headers <==> name in request.headers)
            && (name in hop.headers ==> hop.headers[name] == request.headers[name])
    decreases remaining
  {
    hide Take, Prepared, Chain;
    PreparedKeepsOther(request, owned, traceparent, name);
    ChainUnfolds(request, owned, traceparent, remaining, replay, replies, n);
    if k > 0 {
      var sent := Prepared(request, owned, traceparent);
      var Hop(next, nextReplay) := Take(sent, replies(n), remaining, replay);
      TakeForwardsOther(sent, replies(n), remaining, replay, name);
      OthersTravel(next, owned, traceparent, remaining - 1, nextReplay, replies, n + 1, k - 1, name);
    }
  }

  lemma PreparedKeepsOther(request: Request, owned: set<string>, traceparent: Option<string>, name: string)
    requires name !in {"traceparent", "tracestate", "baggage"}
    ensures var sent := Prepared(request, owned, traceparent);
            && (name in sent.headers <==> name in request.headers)
            && (name in sent.headers ==> sent.headers[name] == request.headers[name])
  {
  }

  lemma TakeForwardsOther(sent: Request, reply: Reply, remaining: nat, replay: Option<Body>, name: string)
    requires name !in {"authorization", "cookie", "proxy-authorization"} && !AboutBody(name)
    requires Take(sent, reply, remaining, replay).Hop?
    ensures var next := Take(sent, reply, remaining, replay).request;
            && (name in next.headers <==> name in sent.headers)
            && (name in next.headers ==> next.headers[name] == sent.headers[name])
  {
  }

  /** The length of a body is announced as long as the body travels: it goes with the switch to GET and not before. */
  lemma {:induction false} LengthTravels(request: Request, owned: set<string>, traceparent: Option<string>,
                                         remaining: nat, replay: Option<Body>, replies: nat -> Reply, n: nat, k: nat)
    requires k < |Chain(request, owned, traceparent, remaining, replay, replies, n).0|
    ensures var hops := Chain(request, owned, traceparent, remaining, replay, replies, n).0;
            "content-length" in hops[k].headers <==>
            "content-length" in request.headers && !SwitchedBefore(hops, replies, n, k)
    decreases remaining
  {
    hide Take, Prepared, Chain, SwitchedBefore, SwitchesAt;
    var hops := Chain(request, owned, traceparent, remaining, replay, replies, n).0;
    PreparedKeepsOther(request, owned, traceparent, "content-length");
    PreparedUrl(request, owned, traceparent);
    ChainUnfolds(request, owned, traceparent, remaining, replay, replies, n);
    if k > 0 {
      var sent := Prepared(request, owned, traceparent);
      var Hop(next, nextReplay) := Take(sent, replies(n), remaining, replay);
      var rest := Chain(next, owned, traceparent, remaining - 1, nextReplay, replies, n + 1).0;
      LengthForwards(sent, replies(n), remaining, replay);
      SwitchIs(sent, rest, replies, n);
      SwitchedFrom(sent, rest, replies, n, n + 1, k);
      LengthTravels(next, owned, traceparent, remaining - 1, nextReplay, replies, n + 1, k - 1);
    } else {
      NotYetSwitched(hops, replies, n);
    }
  }

  lemma LengthForwards(sent: Request, reply: Reply, remaining: nat, replay: Option<Body>)
    requires Take(sent, reply, remaining, replay).Hop?
    ensures reply.Answered?
    ensures "content-length" in Take(sent, reply, remaining, replay).request.headers
       <==> "content-length" in sent.headers && !BecomesGet(reply.response.status, sent.verb)
  {
  }

  lemma SwitchIs(sent: Request, rest: seq<Request>, replies: nat -> Reply, n: nat)
    ensures SwitchesAt([sent] + rest, replies, n, 0)
       <==> replies(n).Answered? && BecomesGet(replies(n).response.status, sent.verb)
  {
  }

  /** The request object the source edits: everything but its headers is fixed once it is made. */
  class RequestObject {
    const verb: string
    const url: Url
    const body: Option<Body>
    const mode: Mode
    var headers: Headers

    ghost function Value(): Request
      reads this
    {
      Request(verb, url, headers, body, mode)
    }

    constructor (request: Request)
      ensures Value() == request
    {
      verb, url, body, mode, headers := request.verb, request.url, request.body, request.mode, request.headers;
    }
  }

  /** Deletes and sets the trace headers of a request in place. */
  method EditHeaders(request: RequestObject, owned: set<string>, traceparent: Option<string>)
    modifies request
    ensures request.Value() == Prepared(old(request.Value()), owned, traceparent)
  {
    request.headers := request.headers - {"baggage"};
    request.headers := request.headers - {"traceparent"};
    request.headers := request.headers - {"tracestate"};
    assert request.headers == old(request.headers) - {"baggage", "traceparent", "tracestate"};
    if traceparent.Some? && request.url.origin in owned {
      request.headers := request.headers["traceparent" := traceparent.value];
    }
  }

  /** The headers copied to the next request, less what must not follow it there. */
  method CopyHeaders(sent: Headers, crossOrigin: bool, becomesGet: bool) returns (headers: Headers)
    ensures headers == Forwarded(sent, crossOrigin, becomesGet)
  {
    headers := sent;
    if crossOrigin {
      headers := headers - {"authorization"};
      headers := headers - {"cookie"};
      headers := headers - {"proxy-authorization"};
      assert headers == sent - CREDENTIALS;
    }
    ghost var safe := headers;
    if becomesGet {
      headers := headers - {"content-type"};
      headers := headers - {"content-length"};
      assert headers == safe - {"content-type", "content-length"};
    }
  }

  /** One hop: edit the request's headers, send it, and go on with a new request if it is redirected. */
  method FetchWithContext(request: RequestObject, owned: set<string>, traceparent: Option<string>, remaining: nat,
                          replay: Option<Body>, replies: nat -> Reply, n: nat)
    returns (outcome: Outcome, ghost sent: seq<Request>)
    modifies request
    ensures (sent, outcome) == Chain(old(request.Value()), owned, traceparent, remaining, replay, replies, n)
    decreases remaining
  {
    hide Prepared, Forwarded, Construct, IsRedirect;
    EditHeaders(request, owned, traceparent);
    sent := [request.Value()];
    var reply := replies(n);
    if reply.NetworkError? {
      return Failed, sent;
    }
    var response := reply.response;
    if !IsRedirect(response.status) || response.location.None? || request.mode.Manual? {
      return Returned(response), sent;
    }
    if request.mode.Error? || remaining == 0 || response.location.value.Unparsable? {
      return Refused, sent;
    }
    var target := response.location.value.url;
    var becomesGet := BecomesGet(response.status, request.verb);
    var headers := CopyHeaders(request.headers, target.origin != request.url.origin, becomesGet);
    if !becomesGet && request.body.Some? && replay.None? {
      return Refused, sent;
    }
    var made := Construct(if becomesGet then "GET" else request.verb, target, headers,
                          if becomesGet then None else replay, request.mode);
    if made.None? {
      return Refused, sent;
    }
    var next := new RequestObject(made.value);
    ghost var rest;
    outcome, rest := FetchWithContext(next, owned, traceparent, remaining - 1, if becomesGet then None else replay,
                                      replies, n + 1);
    sent := sent + rest;
  }
}
