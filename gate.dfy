/**
 * The upgrade gate that each of the three WebSocket components runs on
 * every request (`Invoke`): a request that is not a WebSocket request is
 * passed on, one without a query string or whose bearer token does not
 * validate is answered with 401, and only a validated one is accepted and
 * gets the write and read loops.
 *
 * The request is an `HttpContext` object whose response fields the gate
 * writes; the discovery fetch and the JWT check are parameters, as in
 * `WebsocketHelpers`, and the loops run over the environments of `Pump`.
 */
module Gate {
  import opened Wrappers
  import opened WebsocketHelpers
  import opened Pump
  import Strings

  /** `System.Threading.CancellationToken`, reduced to the flag the loops
      read; `Cancel` is what aborting the request does to it. */
  class CancellationToken {
    var isCancellationRequested: bool

    constructor ()
      ensures !isCancellationRequested
    {
      isCancellationRequested := false;
    }

    method Cancel()
      modifies this
      ensures isCancellationRequested
    {
      isCancellationRequested := true;
    }
  }

  /** The parts of a request the gate reads, and the parts of the response
      it writes. `queryString` is `QueryString.Value`; the empty string is a
      query string without a value. */
  class HttpContext {
    const isWebSocketRequest: bool
    const queryString: string
    const requestAborted: CancellationToken
    var statusCode: int
    var nextInvocations: nat   // how often `_next.Invoke(context)` ran
    var webSocketAccepted: bool

    /** A request as it arrives: status 200, not passed on, not accepted. */
    constructor (isWebSocket: bool, query: string, aborted: CancellationToken)
      ensures isWebSocketRequest == isWebSocket && queryString == query && requestAborted == aborted
      ensures statusCode == 200 && nextInvocations == 0 && !webSocketAccepted
    {
      isWebSocketRequest := isWebSocket;
      queryString := query;
      requestAborted := aborted;
      statusCode := 200;
      nextInvocations := 0;
      webSocketAccepted := false;
    }
  }

  /** `QueryString.HasValue`. */
  predicate HasValue(query: string) {
    query != ""
  }

  /** How a request leaves the gate. `Faulted` is an exception thrown by the
      validation, which the gate does not catch. */
  datatype GateOutcome = PassedThrough | Unauthorized | Upgraded | Faulted(fault: Fault)

  /** The gate's decision for a request, given the shared validation
      parameters `p` at the time it arrives. */
  function GateDecision(isWebSocket: bool, query: string, p: ValidationParameters,
                        d: Discovery, jwt: JwtValidator): (o: GateOutcome)
    ensures o == PassedThrough <==> !isWebSocket
    ensures isWebSocket && !HasBearerPrefix(Some(query)) ==> o == Unauthorized
    ensures o == Upgraded <==>
              isWebSocket && HasBearerPrefix(Some(query)) && d.Discovered?
              && jwt(ExtractToken(query), p.(issuerSigningKeys := Some(d.signingKeys))).Validated?
              && jwt(ExtractToken(query), p.(issuerSigningKeys := Some(d.signingKeys))).token.Some?
    ensures o == Unauthorized <==> isWebSocket && ValidationResult(Some(query), p, d, jwt) == Success(None)
    ensures o.Faulted? <==> isWebSocket && ValidationResult(Some(query), p, d, jwt).Failure?
    ensures o.Faulted? ==> HasBearerPrefix(Some(query)) && ValidationResult(Some(query), p, d, jwt) == Failure(o.fault)
  {
    if !isWebSocket then PassedThrough
    else if !HasValue(query) then Unauthorized
    else match ValidationResult(Some(query), p, d, jwt)
      case Failure(f) => Faulted(f)
      case Success(None) => Unauthorized
      case Success(Some(_)) => Upgraded
  }

  /** A request whose prefix is written in any case is decided like the
      same request with the prefix in lower case. */
  lemma DecisionIgnoresPrefixCase(isWebSocket: bool, a: string, b: string, p: ValidationParameters,
                                  d: Discovery, jwt: JwtValidator)
    requires |a| == |b| >= |BearerPrefix|
    requires forall i :: 0 <= i < |BearerPrefix| ==> Strings.EqualIgnoringCase(a[i], b[i])
    requires a[|BearerPrefix|..] == b[|BearerPrefix|..]
    ensures GateDecision(isWebSocket, a, p, d, jwt) == GateDecision(isWebSocket, b, p, d, jwt)
  {
    PrefixCaseIgnored(a, b, p, d, jwt);
  }

  /** One of the three components: the clock handler, the ping handler or
      the middleware. One instance serves every request of its route. */
  class Handler {
    const variant: Variant
    var cancellationToken: CancellationToken?  // `_cancellationToken`; the middleware has none

    constructor (v: Variant)
      ensures variant == v && cancellationToken == null
    {
      variant := v;
      cancellationToken := null;
    }

    /** What the loop heads of a connection read: `_cancellationToken.IsCancellationRequested`. */
    predicate LoopHeadSeesCancellation()
      reads this, cancellationToken
      requires cancellationToken != null
    {
      cancellationToken.isCancellationRequested
    }

    /** `Invoke`. The write and read loops are run over `writeEnv` and
        `readEnv` when the socket is accepted; besides the outcome it returns
        whether `ValidateBearerTokenAsync` was called, the string handed to
        the JWT validator, the token the loops poll and the loops' traces. */
    method Invoke(ctx: HttpContext, tkp: TokenValidationParameters, discovery: Discovery, jwt: JwtValidator,
                  writeEnv: seq<WriteRound>, readEnv: seq<ReadRound>)
      returns (outcome: GateOutcome, called: bool, presented: Option<string>,
               loopToken: CancellationToken?, writeTrace: seq<Event>, readTrace: seq<Event>)
      modifies ctx, tkp
      ensures outcome == GateDecision(ctx.isWebSocketRequest, ctx.queryString, old(tkp.View()), discovery, jwt)
      ensures called <==> ctx.isWebSocketRequest && HasValue(ctx.queryString)
      ensures presented.Some? <==> called && HasBearerPrefix(Some(ctx.queryString)) && discovery.Discovered?
      ensures presented.Some? ==> presented.value == ExtractToken(ctx.queryString)
      ensures ctx.nextInvocations == old(ctx.nextInvocations) + (if outcome == PassedThrough then 1 else 0)
      ensures ctx.statusCode == (if outcome == Unauthorized then 401 else old(ctx.statusCode))
      ensures ctx.webSocketAccepted == (old(ctx.webSocketAccepted) || outcome == Upgraded)
      ensures tkp.View() == (if called then ParametersAfter(Some(ctx.queryString), old(tkp.View()), discovery)
                             else old(tkp.View()))
      ensures loopToken == (if outcome == Upgraded && variant.HonoursCancellation() then ctx.requestAborted else null)
      ensures writeTrace == (if outcome == Upgraded then WriteSpec(variant, writeEnv) else [])
      ensures readTrace == (if outcome == Upgraded then ReadSpec(variant, readEnv) else [])
    {
      if !ctx.isWebSocketRequest {
        ctx.nextInvocations := ctx.nextInvocations + 1;
        return PassedThrough, false, None, null, [], [];
      }
      if !HasValue(ctx.queryString) {
        ctx.statusCode := 401;
        return Unauthorized, false, None, null, [], [];
      }
      ghost var before := tkp.View();
      var result, fetched;
      called := true;
      result, fetched, presented := ValidateBearerToken(Some(ctx.queryString), tkp, discovery, jwt);
      assert result == ValidationResult(Some(ctx.queryString), before, discovery, jwt);
      loopToken, writeTrace, readTrace := null, [], [];
      match result
      case Failure(f) =>
        outcome := Faulted(f);
      case Success(None) =>
        ctx.statusCode := 401;
        outcome := Unauthorized;
      case Success(Some(_)) =>
        loopToken := ProcessRequestPerConnection(ctx);
        writeTrace := WriteTask(variant, writeEnv);
        readTrace := ReadTask(variant, readEnv);
        outcome := Upgraded;
    }

    /** `ProcessRequest` as written: the request's token is stored in the
        handler's field (the middleware only reads it into an unused local),
        and the socket is accepted. */
    method ProcessRequest(ctx: HttpContext)
      modifies this, ctx
      ensures cancellationToken == (if variant.HonoursCancellation() then ctx.requestAborted else old(cancellationToken))
      ensures ctx.webSocketAccepted
      ensures ctx.statusCode == old(ctx.statusCode) && ctx.nextInvocations == old(ctx.nextInvocations)
    {
      if variant.HonoursCancellation() {
        cancellationToken := ctx.requestAborted;
      }
      ctx.webSocketAccepted := true;
    }

    /** `ProcessRequest` with the request's token kept for its own
        connection: the loops started for `ctx` poll `ctx.RequestAborted`,
        whatever other requests the same handler serves later. */
    method ProcessRequestPerConnection(ctx: HttpContext) returns (loopToken: CancellationToken?)
      modifies ctx
      ensures loopToken == (if variant.HonoursCancellation() then ctx.requestAborted else null)
      ensures ctx.webSocketAccepted
      ensures ctx.statusCode == old(ctx.statusCode) && ctx.nextInvocations == old(ctx.nextInvocations)
    {
      loopToken := if variant.HonoursCancellation() then ctx.requestAborted else null;
      ctx.webSocketAccepted := true;
    }
  }

  /** Two requests upgraded one after the other by the same clock handler:
      after the first request is aborted, its loops, which read the shared
      field, still see no cancellation, because the second request has
      replaced the token in it. */
  method SharedTokenCounterexample() returns (aborted: bool, observed: bool)
    ensures aborted && !observed
  {
    var handler := new Handler(Clock);
    var abortA := new CancellationToken();
    var a := new HttpContext(true, "?bearer_token=a", abortA);
    var abortB := new CancellationToken();
    var b := new HttpContext(true, "?bearer_token=b", abortB);
    handler.ProcessRequest(a);
    handler.ProcessRequest(b);
    abortA.Cancel();
    aborted := a.requestAborted.isCancellationRequested;
    observed := handler.LoopHeadSeesCancellation();
  }

  /** The same two requests with the token kept per connection: the first
      connection's loops see its abort, and the second's do not. */
  method PerConnectionTokenSeesAbort() returns (aborted: bool, observed: bool, otherObserved: bool)
    ensures aborted && observed && !otherObserved
  {
    var handler := new Handler(Clock);
    var abortA := new CancellationToken();
    var a := new HttpContext(true, "?bearer_token=a", abortA);
    var abortB := new CancellationToken();
    var b := new HttpContext(true, "?bearer_token=b", abortB);
    var tokenA := handler.ProcessRequestPerConnection(a);
    var tokenB := handler.ProcessRequestPerConnection(b);
    abortA.Cancel();
    aborted := a.requestAborted.isCancellationRequested;
    observed := tokenA.isCancellationRequested;
    otherObserved := tokenB.isCancellationRequested;
  }

  /** Requests the clock handler turns away: a plain HTTP request is passed
      on, and a WebSocket request without a query string or without the
      prefix gets 401, with no fetch and no change to the shared keys. */
  method ClockGateRejects(writeEnv: seq<WriteRound>, readEnv: seq<ReadRound>, jwt: JwtValidator)
    returns (plain: GateOutcome, bare: GateOutcome, unprefixed: GateOutcome, keys: Option<KeySet>)
    ensures plain == PassedThrough && bare == Unauthorized && unprefixed == Unauthorized
    ensures keys == None
  {
    var handler := new Handler(Clock);
    var tkp := new TokenValidationParameters.FromStartup();
    var abort1 := new CancellationToken();
    var abort2 := new CancellationToken();
    var abort3 := new CancellationToken();
    var c1 := new HttpContext(false, "?bearer_token=abc", abort1);
    var c2 := new HttpContext(true, "", abort2);
    var c3 := new HttpContext(true, "?token=abc", abort3);
    var called: bool, presented: Option<string>, lt: CancellationToken?, wt: seq<Event>, rt: seq<Event>;
    plain, called, presented, lt, wt, rt := handler.Invoke(c1, tkp, Discovered([SigningKey("k1")]), jwt, writeEnv, readEnv);
    bare, called, presented, lt, wt, rt := handler.Invoke(c2, tkp, Discovered([SigningKey("k1")]), jwt, writeEnv, readEnv);
    unprefixed, called, presented, lt, wt, rt := handler.Invoke(c3, tkp, Discovered([SigningKey("k1")]), jwt, writeEnv, readEnv);
    keys := tkp.issuerSigningKeys;
  }

  /** A WebSocket request with the prefix in upper case and a token the
      validator accepts is upgraded by the clock handler: the socket is
      accepted, the fetched keys are installed, the validator is handed
      exactly `abc`, and the loops poll the request's own token. */
  method ClockGateAcceptsUpperCasePrefix(writeEnv: seq<WriteRound>, readEnv: seq<ReadRound>)
    returns (outcome: GateOutcome, accepted: bool, presented: Option<string>,
             keys: Option<KeySet>, pollsOwnToken: bool)
    ensures outcome == Upgraded && accepted && pollsOwnToken
    ensures presented == Some("abc") && keys == Some([SigningKey("k1")])
  {
    var handler := new Handler(Clock);
    var tkp := new TokenValidationParameters.FromStartup();
    var accept: JwtValidator := (token, p) => Validated(Some(SecurityToken(token)));
    var abort := new CancellationToken();
    var ctx := new HttpContext(true, "?BEARER_TOKEN=abc", abort);
    UpperCasePrefixAccepted();
    var called: bool, lt: CancellationToken?, wt: seq<Event>, rt: seq<Event>;
    outcome, called, presented, lt, wt, rt := handler.Invoke(ctx, tkp, Discovered([SigningKey("k1")]), accept, writeEnv, readEnv);
    accepted := ctx.webSocketAccepted;
    keys := tkp.issuerSigningKeys;
    pollsOwnToken := lt == abort;
  }
}
