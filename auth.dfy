/** The API Gateway Lambda authorizer: it decides `{"isAuthorized": bool}` from the
    authorizer event, looking for the route's ARN and a `Bearer <token>` credential
    (section 2.1 of RFC 6750). */
module Auth {
  import opened Wrappers
  import opened Text

  /** One request header as API Gateway passes it, in the dict's insertion order. */
  datatype Header = Header(name: string, value: string)

  /** The fields of the authorizer event that the decision reads. `None` is a key the
      event dict does not have (or holds `None`); an `identitySource` that is not a
      list reads the same as a missing one. */
  datatype Event = Event(
    methodArn: Option<string>,
    routeArn: Option<string>,
    identitySource: Option<seq<string>>,
    headers: Option<seq<Header>>,
    authorizationToken: Option<string>)

  /** The simple response of an HTTP API authorizer. */
  datatype AuthResponse = AuthResponse(isAuthorized: bool)

  /** Python truthiness of an optional string: present and not empty. */
  predicate Truthy(v: Option<string>) {
    v.Some? && v.value != ""
  }

  /** The ARN the decision is for: `methodArn` (REST API), else `routeArn` (HTTP API). */
  function Arn(e: Event): (r: Option<string>)
    ensures r.Some? <==> Truthy(e.methodArn) || Truthy(e.routeArn)
    ensures r.Some? ==> r.value != "" && (r == e.methodArn || r == e.routeArn)
  {
    if Truthy(e.methodArn) then e.methodArn
    else if Truthy(e.routeArn) then e.routeArn
    else None
  }

  predicate IsAuthorizationName(name: string) {
    Lower(name) == "authorization"
  }

  /** The position of the first header whose name lower-cases to "authorization". */
  function FindAuthorizationKey(headers: seq<Header>): (k: Option<nat>)
    ensures k.Some? ==> k.value < |headers| && IsAuthorizationName(headers[k.value].name)
    ensures k.Some? ==> forall j :: 0 <= j < k.value ==> !IsAuthorizationName(headers[j].name)
    ensures k.None? ==> forall j :: 0 <= j < |headers| ==> !IsAuthorizationName(headers[j].name)
  {
    if headers == [] then None
    else if IsAuthorizationName(headers[0].name) then Some(0)
    else match FindAuthorizationKey(headers[1..])
      case None => None
      case Some(k) => Some(k + 1)
  }

  /** The raw credential: element 0 of a non-empty `identitySource` list, else the value
      of the authorization header of a non-empty `headers` dict, else a non-empty
      `authorizationToken`. */
  function RawCredential(e: Event): (r: Option<string>)
    ensures e.identitySource.Some? && |e.identitySource.value| > 0 ==> r.Some?
    ensures r.Some? ==>
      || (e.identitySource.Some? && |e.identitySource.value| > 0 && r.value == e.identitySource.value[0])
      || (e.headers.Some? &&
          exists j :: 0 <= j < |e.headers.value| && IsAuthorizationName(e.headers.value[j].name) &&
                      r.value == e.headers.value[j].value)
      || (Truthy(e.authorizationToken) && r == e.authorizationToken)
  {
    if e.identitySource.Some? && |e.identitySource.value| > 0 then
      Some(e.identitySource.value[0])
    else if e.headers.Some? && |e.headers.value| > 0 then
      match FindAuthorizationKey(e.headers.value)
      case Some(k) =>
        assert IsAuthorizationName(e.headers.value[k].name);
        Some(e.headers.value[k].value)
      case None => None
    else if Truthy(e.authorizationToken) then
      e.authorizationToken
    else
      None
  }

  /** The token of a `Bearer <token>` credential: the credential splits on whitespace
      into exactly two parts and the first lower-cases to "bearer". */
  function BearerToken(raw: Option<string>): (r: Option<string>)
    ensures r.Some? ==> raw.Some? && |Split(raw.value)| == 2 && IsBearerInAnyCase(Split(raw.value)[0])
    ensures r.Some? ==> r.value == Split(raw.value)[1] && IsWord(r.value)
  {
    if !Truthy(raw) then None
    else
      var parts := Split(raw.value);
      LowerIsBearer(if |parts| > 0 then parts[0] else "");
      if |parts| == 2 && Lower(parts[0]) == "bearer" then Some(parts[1]) else None
  }

  /** Token validation. The authorizer has only a placeholder here that accepts every
      token. */
  function ValidateToken(token: string): bool {
    true
  }

  /** `lambda_handler`: the authorizer's decision for one event. */
  function LambdaHandler(e: Event): (r: AuthResponse)
    ensures r.isAuthorized ==> Arn(e).Some? && BearerToken(RawCredential(e)).Some?
  {
    if Arn(e).None? then
      AuthResponse(false)
    else
      match BearerToken(RawCredential(e))
      case None => AuthResponse(false)
      case Some(token) =>
        if token == "" then AuthResponse(false)
        else if ValidateToken(token) then AuthResponse(true)
        else AuthResponse(false)
  }

  // ----- ARN presence -----

  /** Without a non-empty `methodArn` or `routeArn` the request is not authorized,
      whatever credential it carries. */
  lemma MissingArnDenies(e: Event)
    requires !Truthy(e.methodArn) && !Truthy(e.routeArn)
    ensures !LambdaHandler(e).isAuthorized
  {
  }

  /** Which of the two ARN fields holds the ARN, and its content, do not affect the
      decision. */
  lemma ArnFieldIrrelevant(e: Event, a1: string, a2: string)
    requires a1 != "" && a2 != ""
    ensures LambdaHandler(e.(methodArn := Some(a1))) == LambdaHandler(e.(methodArn := None, routeArn := Some(a2)))
  {
  }

  // ----- credential-source precedence -----

  /** A non-empty `identitySource` list wins: its element 0 is the credential, whatever
      the headers and `authorizationToken` say. */
  lemma IdentitySourceWins(e: Event)
    requires e.identitySource.Some? && |e.identitySource.value| > 0
    ensures RawCredential(e) == Some(e.identitySource.value[0])
  {
  }

  /** Without an identity source, a non-empty `headers` dict is searched: the credential is
      the value of the first header named "authorization" in any case, and there is none
      when no header has that name; `authorizationToken` is not consulted. */
  lemma HeadersSearchedNext(e: Event)
    requires e.identitySource.None? || e.identitySource.value == []
    requires e.headers.Some? && |e.headers.value| > 0
    ensures RawCredential(e).Some? <==>
      exists j :: 0 <= j < |e.headers.value| && IsAuthorizationName(e.headers.value[j].name)
    ensures forall j | 0 <= j < |e.headers.value| ::
              IsAuthorizationName(e.headers.value[j].name) &&
              (forall i | 0 <= i < j :: !IsAuthorizationName(e.headers.value[i].name)) ==>
              RawCredential(e) == Some(e.headers.value[j].value)
  {
    var hs := e.headers.value;
    var k := FindAuthorizationKey(hs);
    if k.Some? {
      assert IsAuthorizationName(hs[k.value].name);
    }
  }

  /** `authorizationToken` is consulted only when there is neither an identity source
      nor a non-empty `headers` dict; an empty one counts as missing. */
  lemma AuthorizationTokenLast(e: Event)
    requires e.identitySource.None? || e.identitySource.value == []
    requires e.headers.None? || e.headers.value == []
    ensures RawCredential(e) == (if Truthy(e.authorizationToken) then e.authorizationToken else None)
  {
  }

  /** A non-empty `headers` dict without an authorization header hides
      `authorizationToken`: the request is denied even with a valid token there. */
  lemma HeadersWithoutAuthorizationDeny(e: Event)
    requires e.identitySource.None? || e.identitySource.value == []
    requires e.headers.Some? && |e.headers.value| > 0
    requires forall j :: 0 <= j < |e.headers.value| ==> !IsAuthorizationName(e.headers.value[j].name)
    ensures RawCredential(e) == None
    ensures !LambdaHandler(e).isAuthorized
  {
  }

  // ----- Bearer parsing -----

  /** A token is extracted exactly when the credential splits on whitespace into two
      parts, the first "bearer" in any case; the token is then the second part, a
      non-empty word without whitespace. */
  lemma BearerTokenCharacterized(raw: string)
    ensures BearerToken(Some(raw)).Some? <==>
      |Split(raw)| == 2 && IsBearerInAnyCase(Split(raw)[0])
    ensures BearerToken(Some(raw)).Some? ==>
      BearerToken(Some(raw)).value == Split(raw)[1] && IsWord(BearerToken(Some(raw)).value)
  {
    var parts := Split(raw);
    if |parts| == 2 {
      LowerIsBearer(parts[0]);
    }
  }

  /** A credential `<scheme> <token>` with a scheme "bearer" in any case and a token
      without whitespace yields exactly that token, whatever whitespace runs surround and
      separate the two (`1*SP` in section 2.1 of RFC 6750, any `str.isspace()` run here). */
  lemma BearerTokenOfWellFormed(ws0: string, scheme: string, ws1: string, token: string, ws2: string)
    requires AllSpace(ws0) && IsSeparator(ws1) && AllSpace(ws2)
    requires IsWord(scheme) && IsBearerInAnyCase(scheme) && IsWord(token)
    ensures BearerToken(Some(ws0 + scheme + ws1 + token + ws2)) == Some(token)
  {
    var parts, seps := [scheme, token], [ws1];
    assert Join(parts, seps) == scheme + ws1 + token by {
      assert Join(parts[1..], seps[1..]) == token;
    }
    assert ws0 + scheme + ws1 + token + ws2 == ws0 + Join(parts, seps) + ws2;
    SplitJoin(ws0, parts, seps, ws2);
    LowerIsBearer(scheme);
  }

  // ----- the decision -----

  /** The request is authorized exactly when there is an ARN and a Bearer token was
      extracted: token validation is the always-true placeholder. */
  lemma AuthorizedIff(e: Event)
    ensures LambdaHandler(e).isAuthorized <==> Arn(e).Some? && BearerToken(RawCredential(e)).Some?
  {
    var t := BearerToken(RawCredential(e));
    if t.Some? {
      BearerTokenCharacterized(RawCredential(e).value);
    }
  }

  /** Without an extracted token the request is not authorized. */
  lemma NoTokenDenies(e: Event)
    requires BearerToken(RawCredential(e)).None?
    ensures LambdaHandler(e) == AuthResponse(false)
  {
  }

  /** An ARN and a well-formed `Bearer <token>` credential are always authorized, whatever
      the token says and whatever whitespace surrounds it. */
  lemma WellFormedBearerAuthorizes(e: Event, ws0: string, scheme: string, ws1: string, token: string,
                                   ws2: string)
    requires Arn(e).Some?
    requires AllSpace(ws0) && IsSeparator(ws1) && AllSpace(ws2)
    requires IsWord(scheme) && IsBearerInAnyCase(scheme) && IsWord(token)
    requires RawCredential(e) == Some(ws0 + scheme + ws1 + token + ws2)
    ensures LambdaHandler(e) == AuthResponse(true)
  {
    BearerTokenOfWellFormed(ws0, scheme, ws1, token, ws2);
  }
}
