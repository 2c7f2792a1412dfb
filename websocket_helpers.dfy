/**
 * Bearer-token extraction and pre-validation: the query string must start
 * with `?bearer_token=` (ignoring case); the signing keys of the identity
 * provider are then fetched, written into the process-wide validation
 * parameters, and the trimmed token is handed to the JWT validator.
 *
 * The discovery fetch and the JWT check are not modelled: the first is a
 * `Discovery` value given to the operation, the second a `JwtValidator`
 * function of the token and of the parameters it is checked against.
 */
module WebsocketHelpers {
  import opened Wrappers
  import opened Strings

  /** The query-string prefix that introduces a bearer token. */
  const BearerPrefix: string := "?bearer_token="

  /** The issuer the process is configured to accept. */
  const TwitchIssuer: string := "https://api.twitch.tv/api"

  datatype SigningKey = SigningKey(keyId: string)
  type KeySet = seq<SigningKey>

  /** A snapshot of the fields of `TokenValidationParameters` this system sets. */
  datatype ValidationParameters = ValidationParameters(
    validAudience: string,
    validIssuer: string,
    validateAudience: bool,
    validateIssuer: bool,
    validateLifetime: bool,
    clockSkewSeconds: int,
    issuerSigningKeys: Option<KeySet>)

  /** The values the process starts with; no signing keys until the first fetch. */
  const StartupParameters: ValidationParameters :=
    ValidationParameters("", TwitchIssuer, true, true, true, 0, None)

  /** The process-wide, mutable validation parameters (`Startup.TKP`). Every
      validation writes its freshly fetched keys into this one object. */
  class TokenValidationParameters {
    var validAudience: string
    var validIssuer: string
    var validateAudience: bool
    var validateIssuer: bool
    var validateLifetime: bool
    var clockSkewSeconds: int
    var issuerSigningKeys: Option<KeySet>

    /** The object the process configures at start-up. */
    constructor FromStartup()
      ensures View() == StartupParameters
    {
      validAudience := "";
      validIssuer := TwitchIssuer;
      validateAudience := true;
      validateIssuer := true;
      validateLifetime := true;
      clockSkewSeconds := 0;
      issuerSigningKeys := None;
    }

    function View(): (v: ValidationParameters)
      reads this
    {
      ValidationParameters(validAudience, validIssuer, validateAudience, validateIssuer,
                           validateLifetime, clockSkewSeconds, issuerSigningKeys)
    }
  }

  /** The outcome of fetching the discovery document at
      https://api.twitch.tv/api/.well-known/openid-configuration, which every
      prefixed validation fetches afresh. */
  datatype Discovery = Discovered(signingKeys: KeySet) | Unreachable

  datatype SecurityToken = SecurityToken(rawData: string)

  /** What the JWT library does with a token: produce a (possibly null)
      validated token, or throw. */
  datatype JwtResult = Validated(token: Option<SecurityToken>) | Threw(reason: string)

  type JwtValidator = (string, ValidationParameters) -> JwtResult

  /** The exceptions that leave the validation: a failed fetch, or a token
      the library refused. Neither is caught by the code. */
  datatype Fault = DiscoveryUnavailable | TokenRejected(reason: string)

  /** Either the (possibly null) token, or the exception that escaped. */
  type Validation = Result<Option<SecurityToken>, Fault>

  /** `auth?.StartsWith("?bearer_token=", OrdinalIgnoreCase) == true`. */
  predicate HasBearerPrefix(auth: Option<string>) {
    auth.Some? && StartsWithIgnoreCase(auth.value, BearerPrefix)
  }

  /** Exactly what passes the prefix test: at least 14 characters, each
      equal to the prefix's character or, where that is a letter, to its
      upper-case form. */
  lemma BearerPrefixMatches(auth: string)
    ensures HasBearerPrefix(Some(auth)) <==>
              |auth| >= |BearerPrefix| &&
              forall i :: 0 <= i < |BearerPrefix| ==>
                auth[i] == BearerPrefix[i]
                || ('a' <= BearerPrefix[i] <= 'z' && auth[i] as int == BearerPrefix[i] as int - 32)
  {
    forall i | 0 <= i < |BearerPrefix| && i < |auth|
      ensures EqualIgnoringCase(auth[i], BearerPrefix[i]) <==>
                auth[i] == BearerPrefix[i]
                || ('a' <= BearerPrefix[i] <= 'z' && auth[i] as int == BearerPrefix[i] as int - 32)
    {
      EqualIgnoringCaseMatches(auth[i], BearerPrefix[i]);
      assert !('A' <= BearerPrefix[i] <= 'Z');
    }
  }

  /** `auth.Substring("?bearer_token=".Length).Trim()`. */
  function ExtractToken(auth: string): (token: string)
    requires HasBearerPrefix(Some(auth))
    ensures Trimmed(token)
    ensures |token| <= |auth| - |BearerPrefix|
  {
    Trim(auth[|BearerPrefix|..])
  }

  /** The extracted token is a slice of what follows the prefix, and only
      whitespace is left out on either side of it. */
  lemma ExtractTokenIsSlice(auth: string)
    requires HasBearerPrefix(Some(auth))
    ensures exists i, j :: |BearerPrefix| <= i <= j <= |auth| && ExtractToken(auth) == auth[i..j]
                           && AllWhiteSpace(auth[|BearerPrefix|..i]) && AllWhiteSpace(auth[j..])
  {
    var i, j := TrimOfSuffixIsSlice(auth, |BearerPrefix|);
  }

  /** Extraction inverts presentation: a token written after any casing of
      the prefix, with whitespace around it, is handed on exactly. */
  lemma ExtractsPresentedToken(prefix: string, front: string, token: string, back: string)
    requires |prefix| == |BearerPrefix| && StartsWithIgnoreCase(prefix, BearerPrefix)
    requires AllWhiteSpace(front) && AllWhiteSpace(back) && Trimmed(token)
    ensures HasBearerPrefix(Some(prefix + front + token + back))
    ensures ExtractToken(prefix + front + token + back) == token
  {
    var auth := prefix + front + token + back;
    assert auth[..|prefix|] == prefix;
    assert auth[|BearerPrefix|..] == front + token + back;
    TrimRemovesPadding(front, token, back);
  }

  /** The shared parameters after a validation: the fetched keys replace the
      old ones when the prefix matched and the fetch succeeded. */
  function ParametersAfter(auth: Option<string>, p: ValidationParameters, d: Discovery): (r: ValidationParameters) {
    if HasBearerPrefix(auth) && d.Discovered? then p.(issuerSigningKeys := Some(d.signingKeys)) else p
  }

  /** Only the signing keys ever change: issuer, audience, the three
      validate flags and the clock skew stay as they were. */
  lemma OnlyKeysChange(auth: Option<string>, p: ValidationParameters, d: Discovery)
    ensures ParametersAfter(auth, p, d).(issuerSigningKeys := p.issuerSigningKeys) == p
    ensures ParametersAfter(auth, p, d).issuerSigningKeys != p.issuerSigningKeys
            ==> HasBearerPrefix(auth) && d == Discovered(ParametersAfter(auth, p, d).issuerSigningKeys.value)
  {
  }

  /** What `ValidateBearerTokenAsync` returns or throws, given the shared
      parameters `p` it starts from. */
  function ValidationResult(auth: Option<string>, p: ValidationParameters, d: Discovery, jwt: JwtValidator): (r: Validation) {
    if !HasBearerPrefix(auth) then Success(None)
    else match d
      case Unreachable => Failure(DiscoveryUnavailable)
      case Discovered(_) =>
        match jwt(ExtractToken(auth.value), ParametersAfter(auth, p, d))
        case Validated(t) => Success(t)
        case Threw(e) => Failure(TokenRejected(e))
  }

  /** Fail closed: a token is only ever returned for a prefixed query whose
      keys were fetched, and it is the very token the validator produced
      from the extracted string and the updated parameters. */
  lemma TokenComesFromValidator(auth: Option<string>, p: ValidationParameters, d: Discovery,
                                jwt: JwtValidator, t: SecurityToken)
    requires ValidationResult(auth, p, d, jwt) == Success(Some(t))
    ensures HasBearerPrefix(auth) && d.Discovered?
    ensures jwt(ExtractToken(auth.value), p.(issuerSigningKeys := Some(d.signingKeys))) == Validated(Some(t))
  {
  }

  /** A query string that is null or lacks the prefix yields null, and no
      exception can come out of it. */
  lemma NoPrefixYieldsNull(auth: Option<string>, p: ValidationParameters, d: Discovery, jwt: JwtValidator)
    requires !HasBearerPrefix(auth)
    ensures ValidationResult(auth, p, d, jwt) == Success(None)
  {
  }

  /** The prefix is matched without regard to case: two query strings that
      differ only in the case of the prefix validate alike. */
  lemma PrefixCaseIgnored(a: string, b: string, p: ValidationParameters, d: Discovery, jwt: JwtValidator)
    requires |a| == |b| >= |BearerPrefix|
    requires forall i :: 0 <= i < |BearerPrefix| ==> EqualIgnoringCase(a[i], b[i])
    requires a[|BearerPrefix|..] == b[|BearerPrefix|..]
    ensures HasBearerPrefix(Some(a)) <==> HasBearerPrefix(Some(b))
    ensures ValidationResult(Some(a), p, d, jwt) == ValidationResult(Some(b), p, d, jwt)
  {
    var n := |BearerPrefix|;
    forall i | 0 <= i < |a| ensures EqualIgnoringCase(a[i], b[i]) {
      if i >= n { assert a[i] == a[n..][i - n] == b[n..][i - n] == b[i]; }
    }
    StartsWithIgnoresCase(a, b, BearerPrefix);
  }

  /** `?BEARER_TOKEN=abc` is accepted as a bearer query and yields `abc`. */
  lemma UpperCasePrefixAccepted()
    ensures HasBearerPrefix(Some("?BEARER_TOKEN=abc"))
    ensures ExtractToken("?BEARER_TOKEN=abc") == "abc"
  {
    var auth := "?BEARER_TOKEN=abc";
    assert StartsWithIgnoreCase(auth, BearerPrefix);
    assert auth[|BearerPrefix|..] == "abc";
    TrimOfTrimmed("abc");
  }

  /** `ValidateBearerTokenAsync`. `tkp` is the shared `Startup.TKP` object:
      the keys are written into it in place, so every later reader of the
      object sees them. Also returns whether the discovery document was
      fetched and the token string handed to the validator, if any. */
  method ValidateBearerToken(auth: Option<string>, tkp: TokenValidationParameters,
                             discovery: Discovery, jwt: JwtValidator)
    returns (result: Validation, fetched: bool, presented: Option<string>)
    modifies tkp
    ensures fetched <==> HasBearerPrefix(auth)
    ensures presented.Some? <==> fetched && discovery.Discovered?
    ensures presented.Some? ==> presented.value == ExtractToken(auth.value)
    ensures tkp.View() == ParametersAfter(auth, old(tkp.View()), discovery)
    ensures result == ValidationResult(auth, old(tkp.View()), discovery, jwt)
  {
    ghost var before := tkp.View();
    if auth.Some? && StartsWithIgnoreCase(auth.value, BearerPrefix) {
      fetched := true;
      match discovery
      case Unreachable =>
        result, presented := Failure(DiscoveryUnavailable), None;
      case Discovered(keys) =>
        var validationParameters := tkp;  // the shared object, not a copy
        validationParameters.issuerSigningKeys := Some(keys);
        assert tkp.View() == before.(issuerSigningKeys := Some(keys)) == ParametersAfter(auth, before, discovery);
        var token := Trim(auth.value[|BearerPrefix|..]);
        presented := Some(token);
        match jwt(token, validationParameters.View())
        case Threw(e) =>
          result := Failure(TokenRejected(e));
        case Validated(validatedToken) =>
          result := Success(validatedToken);  // `validatedToken ?? null`
    } else {
      result, fetched, presented := Success(None), false, None;
    }
  }

  /** Keys written by one validation stay in the shared object for every
      later user of it: a following call without the prefix neither fetches
      nor touches them, so they remain the first call's keys. */
  method KeysOutliveTheirCall(tkp: TokenValidationParameters, first: string, keys: KeySet,
                              second: Option<string>, d: Discovery, jwt: JwtValidator)
    requires HasBearerPrefix(Some(first)) && !HasBearerPrefix(second)
    modifies tkp
    ensures tkp.issuerSigningKeys == Some(keys)
    ensures tkp.View().(issuerSigningKeys := old(tkp.issuerSigningKeys)) == old(tkp.View())
  {
    var r1, f1, p1 := ValidateBearerToken(Some(first), tkp, Discovered(keys), jwt);
    var r2, f2, p2 := ValidateBearerToken(second, tkp, d, jwt);
    assert !f2;
  }

  /** The keys an earlier call left behind never decide a later validation:
      the validator is reached only after this call's own fetch succeeded and
      wrote this call's keys over them, so the result is the same whatever
      keys the shared object held on entry. This holds for calls that do not
      overlap; concurrent calls are not modelled. */
  lemma EarlierKeysNeverValidate(auth: Option<string>, p: ValidationParameters, earlier: Option<KeySet>,
                                 d: Discovery, jwt: JwtValidator)
    ensures ValidationResult(auth, p.(issuerSigningKeys := earlier), d, jwt) == ValidationResult(auth, p, d, jwt)
    ensures HasBearerPrefix(auth) && d.Discovered? ==> ParametersAfter(auth, p, d).issuerSigningKeys == Some(d.signingKeys)
  {
  }
}
