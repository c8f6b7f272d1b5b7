/** Endpoint profiles and the authorization decision. */
module Endpoints {
  import opened Wrappers
  import opened Jwt
  import opened KeyCache

  datatype Profile = Profile(
    httpMethod: string,
    allowPublic: bool,
    allowUnverified: bool,
    denyVerified: bool,
    allowExpiredJwt: bool,
    requiresAdmin: bool,
    allowedAccountTypes: seq<string>,
    allowService: bool,
    allowedScopes: seq<string>,
    allowUser: bool,
    skipRateLimit: bool)

  const DEFAULT_PROFILE := Profile("", false, false, false, false, false, [], false, [], false, false)

  datatype AuthError =
    | NoAuthToken | InvalidJwt | NoKeys
    | UserNotAdmin | UserMissingRequiredAccount | UserNotVerified | UserAlreadyVerified
    | ServiceClientNotAllowed

  /** The claims and the error an evaluation returns; a public endpoint may have neither. */
  datatype Decision = Decision(claims: Option<Claims>, error: Option<AuthError>)

  type KeysResult = Result<seq<string>, string>

  function Options(p: Profile): VerifyOpts {
    if p.allowExpiredJwt then VerifyOmitClaimsValidation else VerifyDefault
  }

  // --------------------------------------------------------- the decision, declared at once

  predicate AccountAllowed(p: Profile, claims: Claims)
    requires claims.swayRider.UserClaims?
  {
    p.allowedAccountTypes == [] || claims.swayRider.accountLevel in p.allowedAccountTypes
  }

  /** An admin where one is required; and, unless the endpoint is public, an allowed account
      whose e-mail is verified, or not, as the profile wants it. */
  predicate UserAuthorized(p: Profile, claims: Claims)
    requires claims.swayRider.UserClaims?
  {
    (p.requiresAdmin ==> claims.swayRider.isAdmin) &&
    (p.allowPublic ||
     (AccountAllowed(p, claims) &&
      (if claims.emailVerified == Some(true) then !p.denyVerified else p.allowUnverified)))
  }

  /** Why a user is refused: the missing admin right comes first, then the account; the state of
      the e-mail is told only to an account that is allowed. */
  predicate RightRefusal(p: Profile, claims: Claims, error: Option<AuthError>)
    requires claims.swayRider.UserClaims?
  {
    var admin := p.requiresAdmin ==> claims.swayRider.isAdmin;
    var account := p.allowPublic || AccountAllowed(p, claims);
    var verified := claims.emailVerified == Some(true);
    && (error == None <==> UserAuthorized(p, claims))
    && (error == Some(UserNotAdmin) <==> !admin)
    && (error == Some(UserMissingRequiredAccount) <==> admin && !account)
    && (error == Some(UserNotVerified) <==> admin && account && !p.allowPublic && !verified && !p.allowUnverified)
    && (error == Some(UserAlreadyVerified) <==> admin && account && !p.allowPublic && verified && p.denyVerified)
  }

  /** Services are allowed, and the endpoint is open to all scopes or its scopes are a non-empty
      subset of the caller's. */
  predicate ServiceAuthorized(p: Profile, claims: Claims)
    requires claims.swayRider.ServiceClaims?
  {
    p.allowService && p.allowedScopes != [] &&
    ("*" in p.allowedScopes || forall scope | scope in p.allowedScopes :: scope in claims.swayRider.scopes)
  }

  predicate ClaimsAuthorized(p: Profile, claims: Claims) {
    match claims.swayRider
    case UserClaims(_, _) => UserAuthorized(p, claims)
    case ServiceClaims(_) => ServiceAuthorized(p, claims)
    case OtherClaims => false
  }

  /** The claims of the token under the first key that accepts it. */
  function Presented(p: Profile, verify: Verifier, token: Option<string>, publicKeys: KeysResult): Option<Claims> {
    if token.None? || publicKeys.Err? then None
    else FirstAccepted(verify, token.value, publicKeys.value, Options(p))
  }

  /** The claims of a token, or which of the two errors its verification ends in. */
  function Verified(p: Profile, verify: Verifier, token: string, publicKeys: KeysResult): Result<Claims, AuthError> {
    if publicKeys.Err? then Err(NoKeys)
    else
      var first := FirstAccepted(verify, token, publicKeys.value, Options(p));
      if first.None? then Err(InvalidJwt) else Ok(first.value)
  }

  /** Without verified claims only a public endpoint can be used; with them, they decide. */
  predicate Authorized(p: Profile, verify: Verifier, token: Option<string>, publicKeys: KeysResult) {
    var claims := Presented(p, verify, token, publicKeys);
    if claims.None? then p.allowPublic else ClaimsAuthorized(p, claims.value)
  }

  // -------------------------------------------------------------------------- the evaluation

  method VerifyJwt(p: Profile, verify: Verifier, token: string, publicKeys: KeysResult)
    returns (r: Result<Claims, AuthError>)
    ensures r == Verified(p, verify, token, publicKeys)
  {
    if publicKeys.Err? {
      return Err(NoKeys);
    }
    var keys := publicKeys.value;
    for i := 0 to |keys|
      invariant FirstAccepted(verify, token, keys, Options(p)) == FirstAccepted(verify, token, keys[i..], Options(p))
    {
      var v := verify(token, keys[i], Options(p));
      if v.Ok? {
        return Ok(v.value);
      }
    }
    return Err(InvalidJwt);
  }

  method EvaluateUserClaims(p: Profile, claims: Claims) returns (error: Option<AuthError>)
    requires claims.swayRider.UserClaims?
    ensures RightRefusal(p, claims, error)
  {
    if p.requiresAdmin && !claims.swayRider.isAdmin {
      return Some(UserNotAdmin);
    }
    if |p.allowedAccountTypes| > 0 && !p.allowPublic {
      if claims.swayRider.accountLevel !in p.allowedAccountTypes {
        return Some(UserMissingRequiredAccount);
      }
    }
    if !p.allowUnverified && !p.allowPublic {
      if claims.emailVerified.None? || !claims.emailVerified.value {
        return Some(UserNotVerified);
      }
    }
    if p.denyVerified && !p.allowPublic {
      if claims.emailVerified.Some? && claims.emailVerified.value {
        return Some(UserAlreadyVerified);
      }
    }
    return None;
  }

  method EvaluateServiceClaims(p: Profile, claims: Claims) returns (error: Option<AuthError>)
    requires claims.swayRider.ServiceClaims?
    ensures error == if ServiceAuthorized(p, claims) then None else Some(ServiceClientNotAllowed)
  {
    if !p.allowService || |p.allowedScopes| == 0 {
      return Some(ServiceClientNotAllowed);
    }
    if "*" in p.allowedScopes {
      return None;
    }
    for i := 0 to |p.allowedScopes|
      invariant forall j | 0 <= j < i :: p.allowedScopes[j] in claims.swayRider.scopes
    {
      if p.allowedScopes[i] !in claims.swayRider.scopes {
        return Some(ServiceClientNotAllowed);
      }
    }
    return None;
  }

  method Evaluate(p: Profile, verify: Verifier, token: Option<string>, publicKeys: KeysResult) returns (d: Decision)
    ensures d.error.None? <==> Authorized(p, verify, token, publicKeys)
    ensures d.claims == Presented(p, verify, token, publicKeys)
    ensures token.None? ==> d.error == if p.allowPublic then None else Some(NoAuthToken)
    ensures token.Some? && d.claims.None? && d.error.Some? ==>
      d.error.value == if publicKeys.Err? then NoKeys else InvalidJwt
    ensures d.claims.Some? && d.claims.value.swayRider.UserClaims? ==>
      RightRefusal(p, d.claims.value, d.error)
    ensures d.claims.Some? && d.claims.value.swayRider.ServiceClaims? && d.error.Some? ==>
      d.error.value == ServiceClientNotAllowed
    ensures d.claims.Some? && d.claims.value.swayRider.OtherClaims? ==> d.error == Some(InvalidJwt)
  {
    if token.None? {
      return Decision(None, if p.allowPublic then None else Some(NoAuthToken));
    }
    var v := VerifyJwt(p, verify, token.value, publicKeys);
    if v.Err? {
      return Decision(None, if p.allowPublic then None else Some(v.error));
    }
    var claims := v.value;
    var error := Some(InvalidJwt);
    match claims.swayRider {
      case UserClaims(_, _) =>
        error := EvaluateUserClaims(p, claims);
      case ServiceClaims(_) =>
        error := EvaluateServiceClaims(p, claims);
      case OtherClaims =>
    }
    return Decision(Some(claims), error);
  }

  /** Every answer to a user, by the fields of the profile and the claims. */
  lemma RefusalTable(p: Profile, claims: Claims, error: Option<AuthError>)
    requires claims.swayRider.UserClaims? && RightRefusal(p, claims, error)
    ensures var level, types := claims.swayRider.accountLevel, p.allowedAccountTypes;
            var refused := types != [] && forall i :: 0 <= i < |types| ==> types[i] != level;
            error ==
            if p.requiresAdmin && !claims.swayRider.isAdmin then Some(UserNotAdmin)
            else if p.allowPublic then None
            else if refused then Some(UserMissingRequiredAccount)
            else
              match claims.emailVerified
              case Some(true) => if p.denyVerified then Some(UserAlreadyVerified) else None
              case _ => if p.allowUnverified then None else Some(UserNotVerified)
  {
    assert forall i | 0 <= i < |p.allowedAccountTypes| :: p.allowedAccountTypes[i] in p.allowedAccountTypes;
  }

  /** Every answer to a service. */
  lemma ServiceTable(p: Profile, claims: Claims)
    requires claims.swayRider.ServiceClaims?
    ensures var scopes := p.allowedScopes;
            ServiceAuthorized(p, claims) <==>
            && p.allowService && scopes != []
            && ((exists i :: 0 <= i < |scopes| && scopes[i] == "*") ||
                (forall i :: 0 <= i < |scopes| ==> scopes[i] in claims.swayRider.scopes))
  {
    assert forall i | 0 <= i < |p.allowedScopes| :: p.allowedScopes[i] in p.allowedScopes;
  }

  // ------------------------------------------------------------------------ keys and rotation

  ghost predicate Accepts(verify: Verifier, token: string, key: string, opts: VerifyOpts) {
    verify(token, key, opts).Ok?
  }

  /** Every key that accepts the token finds the same claims in it. */
  ghost predicate KeyIndependent(verify: Verifier, token: string, opts: VerifyOpts) {
    forall k1, k2 | Accepts(verify, token, k1, opts) && Accepts(verify, token, k2, opts) ::
      verify(token, k1, opts) == verify(token, k2, opts)
  }

  /** The first accepting key decides, and there is a result exactly when some key accepts. */
  lemma {:induction false} FirstAcceptedExactly(verify: Verifier, token: string, keys: seq<string>, opts: VerifyOpts)
    ensures FirstAccepted(verify, token, keys, opts).Some? <==> exists k :: k in keys && Accepts(verify, token, k, opts)
    ensures var first := FirstAccepted(verify, token, keys, opts);
            first.Some? ==> exists i :: 0 <= i < |keys| && verify(token, keys[i], opts) == Ok(first.value)
                                        && forall j | 0 <= j < i :: !Accepts(verify, token, keys[j], opts)
    decreases |keys|
  {
    if keys != [] {
      var rest := keys[1..];
      FirstAcceptedExactly(verify, token, rest, opts);
      if verify(token, keys[0], opts).Ok? {
        assert keys[0] in keys && Accepts(verify, token, keys[0], opts);
      } else {
        var first := FirstAccepted(verify, token, rest, opts);
        if first.Some? {
          var i :| 0 <= i < |rest| && verify(token, rest[i], opts) == Ok(first.value)
                   && forall j | 0 <= j < i :: !Accepts(verify, token, rest[j], opts);
          assert keys[i + 1] == rest[i];
          assert forall j | 0 < j < i + 1 :: keys[j] == rest[j - 1];
        }
      }
    }
  }

  /** When the claims do not depend on the accepting key, only the set of keys matters. */
  lemma KeySetDecides(verify: Verifier, token: string, keys: seq<string>, keys': seq<string>, opts: VerifyOpts)
    requires KeyIndependent(verify, token, opts)
    requires forall k | k in keys :: k in keys'
    ensures FirstAccepted(verify, token, keys, opts).Some? ==>
      FirstAccepted(verify, token, keys', opts) == FirstAccepted(verify, token, keys, opts)
  {
    FirstAcceptedExactly(verify, token, keys, opts);
    FirstAcceptedExactly(verify, token, keys', opts);
    var a, b := FirstAccepted(verify, token, keys, opts), FirstAccepted(verify, token, keys', opts);
    if a.Some? {
      var k :| k in keys && Accepts(verify, token, k, opts);
      assert k in keys';
      var i :| 0 <= i < |keys| && verify(token, keys[i], opts) == Ok(a.value);
      var j :| 0 <= j < |keys'| && verify(token, keys'[j], opts) == Ok(b.value);
      assert Accepts(verify, token, keys[i], opts) && Accepts(verify, token, keys'[j], opts);
    }
  }

  /** The decision, its claims included, is the same for every order of the keys. */
  lemma OrderOfKeysIrrelevant(p: Profile, verify: Verifier, token: string, keys: seq<string>, keys': seq<string>)
    requires KeyIndependent(verify, token, Options(p)) && multiset(keys) == multiset(keys')
    ensures Presented(p, verify, Some(token), Ok(keys)) == Presented(p, verify, Some(token), Ok(keys'))
    ensures Authorized(p, verify, Some(token), Ok(keys)) == Authorized(p, verify, Some(token), Ok(keys'))
  {
    assert forall k :: k in keys ==> k in multiset(keys');
    assert forall k :: k in keys' ==> k in multiset(keys);
    KeySetDecides(verify, token, keys, keys', Options(p));
    KeySetDecides(verify, token, keys', keys, Options(p));
  }

  /** More keys never take an authorization away. */
  ghost predicate MonotoneInKeys(p: Profile) {
    forall verify: Verifier, token: string, keys: seq<string>, keys': seq<string>
      | KeyIndependent(verify, token, Options(p)) && (forall k | k in keys :: k in keys')
        && Authorized(p, verify, Some(token), Ok(keys)) ::
      Authorized(p, verify, Some(token), Ok(keys'))
  }

  /** Acceptance is monotone in the set of keys for exactly the profiles that are not public: a
      public endpoint lets an unverifiable token pass, but not one whose claims it rejects. */
  lemma MonotoneExactly(p: Profile)
    ensures MonotoneInKeys(p) <==> !p.allowPublic
  {
    if p.allowPublic {
      var verify: Verifier := (t: string, k: string, o: VerifyOpts) => Ok(Claims(None, OtherClaims));
      assert KeyIndependent(verify, "", Options(p));
      assert FirstAccepted(verify, "", [], Options(p)) == None;
      assert FirstAccepted(verify, "", ["k"], Options(p)) == Some(Claims(None, OtherClaims));
      assert Authorized(p, verify, Some(""), Ok([])) && !Authorized(p, verify, Some(""), Ok(["k"]));
    } else {
      forall verify: Verifier, token: string, keys: seq<string>, keys': seq<string>
        | KeyIndependent(verify, token, Options(p)) && (forall k | k in keys :: k in keys')
          && Authorized(p, verify, Some(token), Ok(keys))
        ensures Authorized(p, verify, Some(token), Ok(keys'))
      {
        KeySetDecides(verify, token, keys, keys', Options(p));
      }
    }
  }

  /** For one token and one set of cached keys: the endpoint, given the keys the cache offers, and
      the cache itself accept the same and find the same claims. */
  ghost predicate AgreesWithCache(p: Profile, verify: Verifier, token: string, keys: seq<string>) {
    var cached := FirstAccepted(verify, token, keys, VerifyDefault);
    match Verified(p, verify, token, Offered(keys))
    case Ok(claims) => cached == Some(claims)
    case Err(e) => cached == None && e == if keys == [] then NoKeys else InvalidJwt
  }

  /** The cache decides like an endpoint for exactly the profiles that do not allow expired
      tokens. */
  lemma AgreesWithCacheExactly(p: Profile)
    ensures (forall verify, token, keys :: AgreesWithCache(p, verify, token, keys)) <==> !p.allowExpiredJwt
  {
    if p.allowExpiredJwt {
      var lax: Verifier := (t: string, k: string, o: VerifyOpts) =>
        if o.VerifyDefault? then Err("expired") else Ok(Claims(None, OtherClaims));
      assert FirstAccepted(lax, "", ["k"], VerifyOmitClaimsValidation) == Some(Claims(None, OtherClaims));
      assert ["k"][1..] == [];
      assert FirstAccepted(lax, "", ["k"], VerifyDefault) == None;
      assert !AgreesWithCache(p, lax, "", ["k"]);
    }
  }
}
