# WebSocket bearer-token gate and pumps, modelled in Dafny

This is a model of the server side of a small ASP.NET Core service. The service streams text frames over WebSockets to clients that present a Twitch-issued JWT bearer token in the query string.

The service has three components, and the model covers each of them:

- the clock handler (`/clock`);
- the ping handler (`/ping`);
- an unmapped middleware copy of the same logic.

The model has four parts:

- **Token extraction and pre-validation**, `ValidateBearerTokenAsync` (module `WebsocketHelpers`):
  - the ordinal case-insensitive test for the `?bearer_token=` prefix;
  - the substring-and-`Trim()` extraction;
  - the in-place write of the fetched signing keys into the process-wide `Startup.TKP` object, modelled as the class `TokenValidationParameters`;
  - the call to the JWT validator.
- **String primitives** (module `Strings`): .NET's `char.IsWhiteSpace` and `String.Trim()`, the prefix comparison, and `Encoding.UTF8.GetBytes`.
- **The upgrade gate**, `Invoke` (module `Gate`), over an `HttpContext` object:
  - a request that is not a WebSocket request is passed to `next`;
  - a WebSocket request without a query string gets 401;
  - a request whose validation yields null gets 401;
  - a validation that throws leaves the gate as a fault;
  - otherwise the socket is accepted and both loops run.
- **The write and read loops**, `WriteTask` and `ReadTask` (module `Pump`). Each loop is a method with a `while` loop over an environment, one record per iteration. A record holds what the loop reads from the cancellation token, the clock and `ws.State`. The loop produces a trace of observations, sends and delays.
  - `WriteSpec` and `ReadSpec` are the reference definitions.
  - The lemmas prove the following: no send without an Open observation just before it; stopping at the first cancellation or non-Open observation; sends and delays alternating at the variant's cadence; and the frames being Text, end-of-message, UTF-8 of that iteration's payload.

One datatype, `Variant` (`Clock | Ping | Middleware`), parameterises the three copies of the loops:

| variant | cadence | payload | loop heads test cancellation |
|---|---|---|---|
| `Clock` | 1000 ms | the formatted time | yes |
| `Ping` | 5000 ms | `"Pong!"` | yes |
| `Middleware` | 1000 ms | the formatted time | no (`while (true)`) |

The middleware's own copy of `ValidateBearerTokenAsync` (src/Server/MiddleWare/WebSocketMiddleware.cs:24-41) is the same text as the helper. `WebsocketHelpers.ValidateBearerToken` models both.

Oracles and inputs:

- The JWT library is the oracle `JwtValidator`. It maps the token string and a snapshot of the parameters at the call to a (possibly null) validated token, or to an exception. The library reads the live shared object instead. The two agree when no other validation overlaps the call (see "## Left out").
- The discovery fetch is the value `Discovery`: either the fetched keys or `Unreachable`.
- The clock, already formatted, is the `now` string of each write round.

Three behaviours of the code are worth stating:

- **Exceptions are faults, not 401.** A token the library rejects makes `ValidateToken` throw (src/Server/Helpers/WebsocketHelpers.cs:26). An unreachable discovery endpoint makes `GetConfigurationAsync` throw (line 20). Neither exception is caught, so the model reports `Faulted(...)` rather than 401 (`Gate.GateOutcome`, `Gate.GateDecision`).
- **Keys are written in place.** The signing keys are not replaced in a private copy. They are assigned into the one shared parameters object and stay there for every later reader of it (`KeysOutliveTheirCall`). Each later validation whose fetch succeeds overwrites them before its own check, so, for validations that do not overlap, keys left by an earlier call never decide a later validation (`EarlierKeysNeverValidate`).
- **Connections share state.** The handlers keep the request's cancellation token in an instance field. One handler instance serves every request of its route. See "## Findings".

## Model

Paths are relative to the repository root. The ping and middleware copies have the same structure as the clock handler. The rows cite the clock handler's lines. The matching spans in the three files are:

- `Invoke`: WebSocketClockHandler.cs:26-50, WebSocketPingHandler.cs:25-49, WebSocketMiddleware.cs:49-71.
- `ProcessRequest`: WebSocketClockHandler.cs:54-59, WebSocketPingHandler.cs:53-58, WebSocketMiddleware.cs:75-80.
- `ReadTask`: WebSocketClockHandler.cs:61-69, WebSocketPingHandler.cs:61-69, WebSocketMiddleware.cs:83-91.
- `WriteTask`: WebSocketClockHandler.cs:71-83, WebSocketPingHandler.cs:71-82, WebSocketMiddleware.cs:93-105.

The handlers are in src/Server/SocketHandlers/ and the middleware is in src/Server/MiddleWare/.

Some definitions model source lines directly and carry no contract of their own. The members in the table below state their properties:

- `WebsocketHelpers.HasBearerPrefix`: the prefix test at src/Server/Helpers/WebsocketHelpers.cs:15.
- `WebsocketHelpers.ParametersAfter`: the key write at lines 22-23.
- `WebsocketHelpers.ValidationResult`: what lines 13-30 return or throw.
- `Pump.WriteSpec`: the write loop at src/Server/SocketHandlers/WebSocketClockHandler.cs:73-82.
- `Pump.ReadSpec`: the read loop at lines 64-68.
- `Pump.Variant.Cadence`: the `Task.Delay` argument, 1000 ms at WebSocketClockHandler.cs:81 and WebSocketMiddleware.cs:103, 5000 ms at WebSocketPingHandler.cs:80.
- `Pump.Variant.PayloadText`: the time string at WebSocketClockHandler.cs:75, or `"Pong!"` at WebSocketPingHandler.cs:75.
- `Pump.Variant.HonoursCancellation`: `while (!_cancellationToken.IsCancellationRequested)` at WebSocketClockHandler.cs:64 and 73, against `while (true)` at WebSocketMiddleware.cs:86 and 95.
- `Strings.IsWhiteSpace`: the characters `Trim()` cuts at WebsocketHelpers.cs:25.
- `Strings.StartsWithIgnoreCase`: `StartsWith(..., OrdinalIgnoreCase)` at WebsocketHelpers.cs:15.
- `Strings.Utf8`: `Encoding.UTF8.GetBytes` at WebSocketClockHandler.cs:76.
- `Gate.HasValue`: `context.Request.QueryString.HasValue` at WebSocketClockHandler.cs:34, WebSocketPingHandler.cs:33 and WebSocketMiddleware.cs:57.
- `Gate.Handler.LoopHeadSeesCancellation`: the loop heads' read of `_cancellationToken.IsCancellationRequested` at WebSocketClockHandler.cs:64 and 73 (WebSocketPingHandler.cs:64 and 73). `Gate.SharedTokenCounterexample` states its result through it.

| member | source | states |
|---|---|---|
| Strings.TrimStart | src/Server/Helpers/WebsocketHelpers.cs:25 | the result is a suffix of the input; everything cut off is whitespace; it does not start with whitespace |
| Strings.TrimEnd | src/Server/Helpers/WebsocketHelpers.cs:25 | the result is a prefix of the input; everything cut off is whitespace; it does not end with whitespace |
| Strings.Trim | src/Server/Helpers/WebsocketHelpers.cs:25 | the result has no whitespace at either end and is no longer than the input |
| Strings.TrimIsSlice | src/Server/Helpers/WebsocketHelpers.cs:25 | `Trim(s)` is a slice `s[i..j]`, with only whitespace before `i` and after `j` |
| Strings.TrimOfSuffixIsSlice | src/Server/Helpers/WebsocketHelpers.cs:25 | trimming what follows position `n` leaves a slice `s[i..j]` with `n <= i`, and only whitespace is dropped |
| Strings.TrimOfTrimmed | src/Server/Helpers/WebsocketHelpers.cs:25 | trimming a string with non-blank ends returns it unchanged |
| Strings.TrimIdempotent | src/Server/Helpers/WebsocketHelpers.cs:25 | trimming twice is trimming once |
| Strings.TrimRemovesPadding | src/Server/Helpers/WebsocketHelpers.cs:25 | whitespace around a trimmed token is exactly what `Trim` removes, so trimming recovers the token |
| Strings.EqualIgnoringCaseMatches | src/Server/Helpers/WebsocketHelpers.cs:15 | a letter of the pattern matches itself and the same letter in the other case; any other character matches only itself |
| Strings.StartsWithIgnoresCase | src/Server/Helpers/WebsocketHelpers.cs:15 | two strings equal up to case, position by position, both pass or both fail the case-insensitive prefix test |
| Strings.Utf8Char | src/Server/SocketHandlers/WebSocketClockHandler.cs:76 | one character encodes to 1-4 bytes; 1 byte exactly for ASCII, equal to its code point; otherwise a lead byte followed by continuation bytes |
| Strings.Utf8Length | src/Server/SocketHandlers/WebSocketClockHandler.cs:76 | the encoding of `s` is between `\|s\|` and `4·\|s\|` bytes long |
| Strings.Utf8OfAscii | src/Server/SocketHandlers/WebSocketClockHandler.cs:76 | an ASCII string encodes to its own code points, byte for byte |
| WebsocketHelpers.TokenValidationParameters.FromStartup | src/Server/Startup.cs:24-32 | the shared parameters start with empty audience, issuer `https://api.twitch.tv/api`, all three validate flags set, zero clock skew, and no keys |
| WebsocketHelpers.ExtractToken | src/Server/Helpers/WebsocketHelpers.cs:25 | the token handed to the validator is trimmed and at most `\|auth\| - 14` characters long |
| WebsocketHelpers.ExtractTokenIsSlice | src/Server/Helpers/WebsocketHelpers.cs:25 | the token is a slice of `auth` after its first 14 characters, with only whitespace on either side |
| WebsocketHelpers.ExtractsPresentedToken | src/Server/Helpers/WebsocketHelpers.cs:15-25 | for a prefix in any case followed by a whitespace-padded token: the prefix test passes, and extraction returns exactly that token (extraction inverts presentation) |
| WebsocketHelpers.OnlyKeysChange | src/Server/Helpers/WebsocketHelpers.cs:22-23 | a validation changes no field except `IssuerSigningKeys`; that field changes only on a prefix match with fetched keys, and then to those keys |
| WebsocketHelpers.TokenComesFromValidator | src/Server/Helpers/WebsocketHelpers.cs:26-27 | a non-null result needs a prefix match and fetched keys, and is the very token the validator produced from the extracted string and the updated parameters |
| WebsocketHelpers.NoPrefixYieldsNull | src/Server/Helpers/WebsocketHelpers.cs:15-29 | a null query string, or one without the prefix, yields null and no exception, whatever the discovery and the validator would do |
| WebsocketHelpers.PrefixCaseIgnored | src/Server/Helpers/WebsocketHelpers.cs:15 | two query strings that differ only in the case of the prefix validate alike |
| WebsocketHelpers.BearerPrefixMatches | src/Server/Helpers/WebsocketHelpers.cs:15 | a query string passes the prefix test iff it has at least 14 characters and each of them is the prefix's character or, where that is a letter, its upper-case form |
| WebsocketHelpers.UpperCasePrefixAccepted | src/Server/Helpers/WebsocketHelpers.cs:15-25 | `?BEARER_TOKEN=abc` passes the prefix test and yields `abc` |
| WebsocketHelpers.ValidateBearerToken | src/Server/Helpers/WebsocketHelpers.cs:13-30 | the discovery document is fetched iff the prefix matches; the validator sees the extracted token iff the fetch also succeeded; the shared object's new state is the old one with the fetched keys; the result is `ValidationResult` of the old state |
| WebsocketHelpers.EarlierKeysNeverValidate | src/Server/Helpers/WebsocketHelpers.cs:20-26 | a validation's result does not depend on the keys the shared object held on entry; when the validator is reached, the parameters it gets carry this call's fetched keys |
| WebsocketHelpers.KeysOutliveTheirCall | src/Server/Helpers/WebsocketHelpers.cs:22-23 | keys written by one validation are still in the shared object after a later call without the prefix, and nothing else in it changed |
| Pump.AttemptGuarded | src/Server/SocketHandlers/WebSocketClockHandler.cs:77-81 | the body after the loop head sends only as its second event, right after an Open observation and right before the next state observation, and ends at its first terminal observation |
| Pump.AttemptActions | src/Server/SocketHandlers/WebSocketClockHandler.cs:77-81 | the body sends its frame iff the state was Open before the send, and waits the cadence iff the state was also Open after it |
| Pump.WriteIterationGuarded | src/Server/SocketHandlers/WebSocketClockHandler.cs:73-81 | one write iteration sends only after Open and, where cancellation is honoured, after a head that saw none; a state observation follows every send; nothing in it follows a terminal observation |
| Pump.WriteIterationEnds | src/Server/SocketHandlers/WebSocketClockHandler.cs:73-81 | the loop goes round again after an iteration iff the iteration observed nothing terminal; otherwise its last event is the terminal one |
| Pump.WriteIterationActions | src/Server/SocketHandlers/WebSocketClockHandler.cs:73-81 | what one iteration sends and waits for, in terms of the token and the two states it read |
| Pump.WriteIsGuarded | src/Server/SocketHandlers/WebSocketClockHandler.cs:73-80 | every send in the write trace comes right after an Open observation and, in the handlers, after a loop head that saw no cancellation; a state observation comes right after every send; nothing follows the first terminal observation |
| Pump.WriteAlternates | src/Server/SocketHandlers/WebSocketClockHandler.cs:79-81 | sends and delays alternate, starting with a send; every delay is the cadence |
| Pump.WriteStopsAfterClosedSend | src/Server/SocketHandlers/WebSocketClockHandler.cs:78-81 | every send is followed by a state observation; if that observation is not Open it is the last event, so no delay and no further send follow |
| Pump.WriteFrames | src/Server/SocketHandlers/WebSocketClockHandler.cs:75-78 | the n-th frame sent is built in the n-th iteration: Text, end of message, and the UTF-8 of that iteration's payload |
| Pump.WriteStopsIff | src/Server/SocketHandlers/WebSocketClockHandler.cs:73-80 | the trace ends in a terminal observation iff some iteration saw cancellation or a non-Open state |
| Pump.WriteSendsEveryRound | src/Server/SocketHandlers/WebSocketClockHandler.cs:73-81 | while no iteration stops the loop, every iteration sends exactly one frame |
| Pump.WriteSpecEmpty | src/Server/SocketHandlers/WebSocketClockHandler.cs:73 | the write trace is empty iff there are no iterations to look at |
| Pump.MiddlewareWriteNeverChecksToken | src/Server/MiddleWare/WebSocketMiddleware.cs:95-104 | the middleware's write trace holds no cancellation check |
| Pump.MiddlewareWriteIgnoresCancellation | src/Server/MiddleWare/WebSocketMiddleware.cs:95-104 | two middleware runs that differ only in the token produce the same write trace |
| Pump.WriteSpecFrom | src/Server/SocketHandlers/WebSocketClockHandler.cs:73-82 | adding iteration `i`'s events to a trace of iterations `0..i` gives the trace of `0..i+1`, or the whole trace if the loop stops at `i` |
| Pump.WriteStep | src/Server/SocketHandlers/WebSocketClockHandler.cs:73-81 | one pass of the loop body, head included, produces `WriteIteration`, and goes round again iff `WriteContinues` |
| Pump.WriteTask | src/Server/SocketHandlers/WebSocketClockHandler.cs:71-83 | the loop's trace is `WriteSpec`; every send comes after Open and before a state observation; its sends and delays alternate at the cadence |
| Pump.ReadIterationShape | src/Server/SocketHandlers/WebSocketClockHandler.cs:64-67 | one read iteration is a guarded receive followed by a state observation, or a cancelled head; it never sends or waits; the loop continues after it iff it observed nothing terminal |
| Pump.ReadIsGuarded | src/Server/SocketHandlers/WebSocketClockHandler.cs:64-67 | every receive is followed by a state observation and, in the handlers, preceded by a head that saw no cancellation; the loop stops at the first terminal observation and never sends or waits |
| Pump.ReadStopsIff | src/Server/SocketHandlers/WebSocketClockHandler.cs:64-67 | the read trace ends in a terminal observation iff some iteration saw cancellation or a non-Open state after receiving |
| Pump.ReadSpecEmpty | src/Server/SocketHandlers/WebSocketClockHandler.cs:64 | the read trace is empty iff there are no iterations to look at |
| Pump.MiddlewareReadNeverChecksToken | src/Server/MiddleWare/WebSocketMiddleware.cs:86-90 | the middleware's read trace holds no cancellation check |
| Pump.MiddlewareReadIgnoresCancellation | src/Server/MiddleWare/WebSocketMiddleware.cs:86-90 | two middleware runs that differ only in the token produce the same read trace |
| Pump.ReadSpecFrom | src/Server/SocketHandlers/WebSocketClockHandler.cs:64-68 | adding iteration `i`'s events to a trace of iterations `0..i` gives the trace of `0..i+1`, or the whole trace if the loop stops at `i` |
| Pump.ReadStep | src/Server/SocketHandlers/WebSocketClockHandler.cs:64-67 | one pass of the read loop body produces `ReadIteration`, and goes round again iff `ReadContinues` |
| Pump.ReadTask | src/Server/SocketHandlers/WebSocketClockHandler.cs:61-69 | the loop's trace is `ReadSpec`; its receives are guarded; it holds no send and no delay |
| Pump.PingFrames | src/Server/SocketHandlers/WebSocketPingHandler.cs:71-82 | every frame the ping handler sends is the complete text frame of bytes 50 6F 6E 67 21 (`"Pong!"`); sends alternate with 5000 ms delays |
| Pump.ClockFrames | src/Server/SocketHandlers/WebSocketClockHandler.cs:75-81 | the clock handler and the middleware send, as complete text frames, the UTF-8 of the time read in the same iteration; sends alternate with 1000 ms delays |
| Gate.GateDecision | src/Server/SocketHandlers/WebSocketClockHandler.cs:26-50 | pass-through iff the request is not a WebSocket request; 401 iff a WebSocket request's validation yields null, which covers a missing query string and a missing prefix; upgrade iff the prefix matched, keys were fetched and the validator returned a non-null token; a fault iff the validation of a WebSocket request threw, and then it is that exception |
| Gate.DecisionIgnoresPrefixCase | src/Server/SocketHandlers/WebSocketClockHandler.cs:42 | two requests that differ only in the case of the prefix are decided alike |
| Gate.Handler.Invoke | src/Server/SocketHandlers/WebSocketClockHandler.cs:26-50 | the outcome is `GateDecision` of the request and of the shared parameters at arrival. `next` runs once, and only on pass-through. Status 401 is set only on `Unauthorized`. The socket is accepted only on `Upgraded`. The validation runs iff the request is a WebSocket request with a query string. The shared keys change as `ParametersAfter`. The loops run, with their `WriteSpec`/`ReadSpec` traces and handed the request's own token (`loopToken == ctx.requestAborted`), only on `Upgraded` |
| Gate.Handler.ProcessRequest | src/Server/SocketHandlers/WebSocketClockHandler.cs:54-59 | as written: the handlers store the request's token in the handler's field (the middleware does not); the socket is accepted; status and `next` are untouched |
| Gate.Handler.ProcessRequestPerConnection | src/Server/SocketHandlers/WebSocketClockHandler.cs:54-59 | corrected: the loops of this connection poll this request's token; the socket is accepted; the handler's state is untouched |
| Gate.SharedTokenCounterexample | src/Server/SocketHandlers/WebSocketClockHandler.cs:56 | two requests on one clock handler, the first aborted afterwards: the first connection's loops see no cancellation |
| Gate.PerConnectionTokenSeesAbort | src/Server/SocketHandlers/WebSocketClockHandler.cs:56 | the same two requests with per-connection tokens: the first connection's loops see its abort, and the second's do not |
| Gate.ClockGateRejects | src/Server/SocketHandlers/WebSocketClockHandler.cs:28-47 | a plain HTTP request is passed on; a WebSocket request with no query string, or without the prefix, gets 401; the shared keys stay unset |
| Gate.ClockGateAcceptsUpperCasePrefix | src/Server/SocketHandlers/WebSocketClockHandler.cs:42-49 | `?BEARER_TOKEN=abc` with an accepting validator is upgraded; the socket is accepted; the validator is handed `abc`; the fetched keys are installed; the loops poll the request's own token |

## Left out

- JWT validation (signature, issuer, audience, lifetime) is foreign library code. It is the `JwtValidator` parameter. The model only passes on what the library returns or throws.
- The OpenID Connect discovery fetch is network I/O. It is the `Discovery` parameter. Its failure is `Unreachable`, and that failure escapes as a fault.
- WebsocketHelpers.ValidateBearerToken: treats one call as atomic over the shared parameters object and hands the validator a snapshot (`View()`) of it. Concurrent validations of different requests are not modelled. ASP.NET Core serves requests in parallel and nothing locks `Startup.TKP`. Another request may run its key write (src/Server/Helpers/WebsocketHelpers.cs:23) between this call's write and its `ValidateToken` (line 26), or while line 26 reads the live object. The validator then checks this call's token against the other request's keys. `EarlierKeysNeverValidate` holds only for calls that do not overlap.
- `Task.WhenAll` runs the two loops concurrently, and this is not modelled. `Gate.Handler.Invoke` runs the write loop and then the read loop over separate environments. Each loop is proved on its own.
- `DateTime.UtcNow` and its culture-specific formatting are not modelled. Each write round carries the formatted text as an opaque string. `Task.Delay` appears only as a `Delay(ms)` event.
- The internals of `SendAsync` and `ReceiveAsync`, and the contents of the 1024-byte receive buffer, are not modelled. The code never reads the buffer. The states the loops read come from the environment.
- Pump.ReadTask and Pump.WriteTask: exceptions thrown by `ReceiveAsync` or `SendAsync` are not modelled. Those calls are at WebSocketClockHandler.cs:66 and 78, and WebSocketPingHandler.cs:66 and 77.
  - In the handlers, both calls get `_cancellationToken`. A cancelled token makes a pending call throw `OperationCanceledException`, so an idle read loop usually learns of cancellation that way, not at its loop head.
  - A transport error also ends either loop with an exception. That exception escapes `Task.WhenAll` (line 58) and `Invoke`.
  - In the model, every `Receive` and `Send` is followed by a state observation. `Pump.ReadIsGuarded`, `Pump.WriteIsGuarded` and `Pump.WriteStopsAfterClosedSend` hold only for runs in which neither call throws.
  - The token handed to `ReceiveAsync` is the field's value when the call starts. A receive begun before a second request overwrote the field still holds the first request's token. This limits the finding below: such a pending receive can still be cancelled by the first request's abort.
- `WebSocketState.None` is left out of `Pump.WebSocketState`, because an accepted socket never reports it.
- The loops are looked at over a finite environment. A loop that has used every record is cut off there. No liveness (eventual termination after a cancellation) is claimed.
- `Pump.WriteTask` stops at the first terminal observation, but its own contract does not say so. `Pump.ReadTask` is the same. The property is proved about the traces `WriteSpec` and `ReadSpec` that those contracts equal (`Pump.WriteIsGuarded`, `Pump.ReadIsGuarded`).
- Startup and MVC wiring (src/Server/Startup.cs outside lines 24-32, src/Server/Controllers/ApiController.cs) are not modelled. This includes the routes and the JWT bearer authentication of the REST endpoint.
- The cookie lookup in the handlers (WebSocketClockHandler.cs:40, WebSocketPingHandler.cs:39) is not modelled, because its result is never used. The same goes for the unused `ct` local in the middleware (WebSocketMiddleware.cs:77).
- Strings.EqualIgnoringCase: folds ASCII letters only. `OrdinalIgnoreCase` compares the invariant upper-case forms of all characters. The only non-ASCII characters whose upper-case form is ASCII are `ı` (to `I`) and `ſ` (to `S`). Neither letter occurs in `?bearer_token=`, so for this prefix the ASCII fold gives the same answer as `OrdinalIgnoreCase`.
- Strings.IsWhiteSpace: lists exactly the characters .NET's `char.IsWhiteSpace` accepts. `Trim()` on a `string` works on UTF-16 code units. Dafny's `char` is a Unicode scalar value, but every whitespace character is in the Basic Multilingual Plane, so this does not matter here.
- Strings.Utf8: encodes Unicode scalar values. Unpaired surrogates, which `GetBytes` replaces with U+FFFD, cannot occur in a `char` sequence here.
- Gate.Handler.Invoke: hands the loops the request's own token instead of storing it in the shared field. This is the corrected behaviour described under "## Findings". The code as written is `Gate.Handler.ProcessRequest`.
- Gate.Handler.Invoke: the `cancelled` flags of `writeEnv` and `readEnv` stand for the loop heads' reads of `loopToken`. The contract does not tie them to that token object, so it does not promise that the loops observe the request's abort.
- A thrown exception leaves the gate as `Faulted`. The status code is unchanged, and what the host then sends (typically 500) is not modelled.

## Findings

| source | as written | input that shows it | evidently intended | confidence | as-written member | corrected member |
|---|---|---|---|---|---|---|
| src/Server/SocketHandlers/WebSocketClockHandler.cs:56 | `ProcessRequest` stores the request's abort token in the instance field `_cancellationToken`. Both loops poll that field. ASP.NET Core builds one instance of a middleware class for its route, so the next upgraded request overwrites the field. WebSocketPingHandler.cs:55 is the same. | two WebSocket requests on `/clock`, both accepted, then the first is aborted: the first connection's loop heads read the second request's token and see no cancellation. Only a call already pending with the first token, or a state change caused by the torn-down transport, ends those loops | each connection's loops poll the abort token of the request that opened that connection | not executed | Gate.SharedTokenCounterexample | Gate.PerConnectionTokenSeesAbort |
