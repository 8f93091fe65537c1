/** services/ebayService.js: the marketplace REST client. Its network calls are
    not executed here; each one is modelled as the request it builds and a
    caller-supplied outcome of sending that request. */
module EbayService {
  import opened Common
  import opened Text
  import opened PercentEncoding
  import opened FormUrlEncoded
  import BasicAuth

  /** The process environment variables the service and its callers read. */
  datatype Env = Env(
    ebaySandbox: JsString,
    ebayRedirectUri: JsString,
    ebayAppId: JsString,
    ebayCertId: JsString,
    ebayDevId: JsString)

  /** The singleton service object; its fields are fixed when it is built. */
  datatype Service = Service(baseURL: string, sandboxURL: string, isSandbox: bool)

  const ProductionURL: string := "https://api.ebay.com"
  const SandboxURL: string := "https://api.sandbox.ebay.com"
  const DefaultRedirectUri: string := "http://localhost:3000/api/ebay/callback"
  const AuthorizeEndpoint: string := "https://signin.ebay.com/oauth2/authorize"
  const Scope: string := "https://api.ebay.com/oauth/api_scope"
  const TokenPath: string := "/identity/v1/oauth2/token"
  const UserPath: string := "/sell/account/v1/user"
  const InventoryPath: string := "/sell/inventory/v1/inventory_item"
  const BulkPricePath: string := "/sell/inventory/v1/bulk_update_price_quantity"
  const DefaultInventoryLimit: nat := 100

  /** The constructor: sandbox mode is on only when EBAY_SANDBOX is exactly "true". */
  function NewService(env: Env): (s: Service)
    ensures s.baseURL == ProductionURL && s.sandboxURL == SandboxURL
    ensures s.isSandbox <==> env.ebaySandbox == Some("true")
  {
    Service(ProductionURL, SandboxURL, env.ebaySandbox == Some("true"))
  }

  function GetBaseURL(s: Service): string {
    if s.isSandbox then s.sandboxURL else s.baseURL
  }

  /** The service talks to the sandbox host exactly when EBAY_SANDBOX is "true",
      and to the production host otherwise. */
  lemma BaseUrlChoice(env: Env)
    ensures GetBaseURL(NewService(env)) == SandboxURL <==> env.ebaySandbox == Some("true")
    ensures GetBaseURL(NewService(env)) == ProductionURL <==> env.ebaySandbox != Some("true")
  {
    assert SandboxURL != ProductionURL by {
      assert SandboxURL[12] != ProductionURL[12];
    }
  }

  /** EBAY_REDIRECT_URI when it is set and non-empty, else the local callback. */
  function RedirectUri(env: Env): (r: string)
    ensures Truthy(env.ebayRedirectUri) ==> r == env.ebayRedirectUri.value
    ensures !Truthy(env.ebayRedirectUri) ==> r == DefaultRedirectUri
  {
    JsText(Or(env.ebayRedirectUri, Some(DefaultRedirectUri)))
  }

  /** `generateAuthURL(clientId = process.env.EBAY_APP_ID)`: the default applies
      only when no argument (undefined) is passed. The client id and the scope
      are inserted as they are; only the redirect URI is encoded. */
  function GenerateAuthURL(env: Env, clientId: JsString): string {
    AuthorizeEndpoint + "?" + AuthQuery(AuthClientId(env, clientId), RedirectUri(env))
  }

  function AuthQuery(clientId: string, redirectUri: string): string {
    Join([
      Param("client_id", clientId),
      Param("redirect_uri", EncodeUriComponent(redirectUri)),
      Param("response_type", "code"),
      Param("scope", Scope)])
  }

  function Param(name: string, value: string): string {
    name + "=" + value
  }

  /** Reading the query of the authorization URL gives the four parameters of
      section 4.1.1 of RFC 6749, in order, with the redirect URI decoded back
      to the configured one. The client id is not encoded, so this holds for
      ids without '&', '%' and '+'. */
  lemma AuthQueryParameters(clientId: string, redirectUri: string)
    requires '&' !in clientId && '%' !in clientId && '+' !in clientId
    ensures Parse(AuthQuery(clientId, redirectUri)) == Some([
      ("client_id", clientId),
      ("redirect_uri", redirectUri),
      ("response_type", "code"),
      ("scope", Scope)])
  {
    ScopeIsPlain();
    ReadQuery("client_id", "redirect_uri", "response_type", "scope", clientId, redirectUri, "code", Scope);
  }

  /** A name made of lower-case letters and '_' only. */
  predicate IsPlainName(name: string) {
    forall i :: 0 <= i < |name| ==> 'a' <= name[i] <= 'z' || name[i] == '_'
  }

  /** The authorization query, for any parameter names and fixed values. */
  lemma ReadQuery(n1: string, n2: string, n3: string, n4: string,
                  clientId: string, redirectUri: string, responseType: string, scope: string)
    requires IsPlainName(n1) && IsPlainName(n2) && IsPlainName(n3) && IsPlainName(n4)
    requires '&' !in clientId && '%' !in clientId && '+' !in clientId
    requires '&' !in responseType && '%' !in responseType && '+' !in responseType
    requires '&' !in scope && '%' !in scope && '+' !in scope
    ensures Parse(Join([Param(n1, clientId), Param(n2, EncodeUriComponent(redirectUri)),
                        Param(n3, responseType), Param(n4, scope)]))
         == Some([(n1, clientId), (n2, redirectUri), (n3, responseType), (n4, scope)])
  {
    ReadPlainField(n1, clientId);
    ReadEncodedField(n2, redirectUri);
    ReadPlainField(n3, responseType);
    ReadPlainField(n4, scope);
    ParseJoin4(Param(n1, clientId), Param(n2, EncodeUriComponent(redirectUri)), Param(n3, responseType), Param(n4, scope),
               (n1, clientId), (n2, redirectUri), (n3, responseType), (n4, scope));
  }

  lemma ParseJoin4(s1: string, s2: string, s3: string, s4: string, f1: Field, f2: Field, f3: Field, f4: Field)
    requires s1 != [] && '&' !in s1 && ParseField(s1) == Some(f1)
    requires s2 != [] && '&' !in s2 && ParseField(s2) == Some(f2)
    requires s3 != [] && '&' !in s3 && ParseField(s3) == Some(f3)
    requires s4 != [] && '&' !in s4 && ParseField(s4) == Some(f4)
    ensures Parse(Join([s1, s2, s3, s4])) == Some([f1, f2, f3, f4])
  {
    ParseJoin([s1, s2, s3, s4], [f1, f2, f3, f4]);
  }

  /** A value without '&', '%' and '+' is read back as it is. */
  lemma ReadPlainField(name: string, value: string)
    requires IsPlainName(name)
    requires '&' !in value && '%' !in value && '+' !in value
    ensures Param(name, value) != [] && '&' !in Param(name, value)
    ensures ParseField(Param(name, value)) == Some((name, value))
  {
    FormDecodePlain(value);
    ReadField(name, value, value);
  }

  /** An encoded value is read back as the value before encoding. */
  lemma ReadEncodedField(name: string, value: string)
    requires IsPlainName(name)
    ensures Param(name, EncodeUriComponent(value)) != [] && '&' !in Param(name, EncodeUriComponent(value))
    ensures ParseField(Param(name, EncodeUriComponent(value))) == Some((name, value))
  {
    NoBreaks(value);
    FormDecodeUriComponent(value);
    ReadField(name, EncodeUriComponent(value), value);
  }

  /** The fixed scope needs no decoding and holds no separator. */
  lemma ScopeIsPlain()
    ensures '&' !in Scope && '%' !in Scope && '+' !in Scope
    ensures AllUrlPlain(Scope)
  {
    var host, path := "https://api.ebay.com", "/oauth/api_scope";
    assert Scope == host + path;
    NoneOf(host);
    NoneOf(path);
    PlainText(host);
    PlainText(path);
  }

  /** A text of letters, digits and ':', '/', '.', '_' holds none of '&', '%', '+'. */
  lemma NoneOf(s: string)
    requires forall i :: 0 <= i < |s| ==> IsAlphaNum(s[i]) || s[i] in ":/._"
    ensures '&' !in s && '%' !in s && '+' !in s
  {
  }

  /** `encodeURIComponent` output holds no '&', '=' or '+'. */
  lemma NoBreaks(s: string)
    ensures '&' !in EncodeUriComponent(s) && '=' !in EncodeUriComponent(s) && '+' !in EncodeUriComponent(s)
  {
    var e := EncodeUriComponent(s);
    forall i | 0 <= i < |e| ensures e[i] != '&' && e[i] != '=' && e[i] != '+' {
      assert IsUriUnreserved(e[i]) || e[i] == '%';
    }
  }

  /** "name=value" with a plain name reads as the name and the decoded value. */
  lemma ReadField(name: string, value: string, decoded: string)
    requires IsPlainName(name)
    requires '&' !in value && FormDecode(value) == Some(decoded)
    ensures Param(name, value) != [] && '&' !in Param(name, value)
    ensures ParseField(Param(name, value)) == Some((name, decoded))
  {
    assert Param(name, value) == name + ['='] + value;
    Text.SplitFirstAt(name, '=', value);
    FormDecodePlain(name);
  }

  // ---------------------------------------------------------------------
  // Requests

  datatype Verb = Get | Post

  /** One price change, as `updatePrices` receives it. A price is a JavaScript
      number that is only copied, stood for here by a real. */
  datatype PriceUpdate = PriceUpdate(itemId: JsString, newPrice: real, currency: JsString)

  /** One entry of the bulk price payload. */
  datatype PriceRequest = PriceRequest(itemId: JsString, currency: string, value: real)

  datatype Body = NoBody | Form(fields: seq<Field>) | PricePayload(requests: seq<PriceRequest>)

  /** An HTTP request as the service hands it to axios. */
  datatype HttpRequest = HttpRequest(verb: Verb, url: string, headers: seq<(string, string)>, body: Body)

  const FormContentType: (string, string) := ("Content-Type", "application/x-www-form-urlencoded")
  const JsonContentType: (string, string) := ("Content-Type", "application/json")

  function TokenURL(s: Service): string {
    GetBaseURL(s) + TokenPath
  }

  /** The authorization-code grant of section 4.1.3 of RFC 6749, authenticated
      with the client id and secret. `devId` is accepted and not used. */
  function ExchangeCodeRequest(s: Service, env: Env, code: string, clientId: JsString,
                               clientSecret: JsString, devId: JsString): (r: HttpRequest)
    ensures r.verb == Post && r.url == TokenURL(s)
    ensures r.headers == [FormContentType,
                          ("Authorization", BasicAuth.Header(JsText(clientId), JsText(clientSecret)))]
    ensures r.body == Form([("grant_type", "authorization_code"), ("code", code), ("redirect_uri", RedirectUri(env))])
  {
    HttpRequest(Post, TokenURL(s),
      [FormContentType, ("Authorization", BasicAuth.Header(JsText(clientId), JsText(clientSecret)))],
      Form([("grant_type", "authorization_code"), ("code", code), ("redirect_uri", RedirectUri(env))]))
  }

  /** The refresh-token grant of section 6 of RFC 6749, to the same token
      endpoint and with the same client authentication. */
  function RefreshTokenRequest(s: Service, refreshToken: string, clientId: string, clientSecret: string): (r: HttpRequest)
    ensures r.verb == Post && r.url == TokenURL(s)
    ensures r.headers == [FormContentType, ("Authorization", BasicAuth.Header(clientId, clientSecret))]
    ensures r.body == Form([("grant_type", "refresh_token"), ("refresh_token", refreshToken)])
  {
    HttpRequest(Post, TokenURL(s),
      [FormContentType, ("Authorization", BasicAuth.Header(clientId, clientSecret))],
      Form([("grant_type", "refresh_token"), ("refresh_token", refreshToken)]))
  }

  const BearerScheme: string := "Bearer "

  /** The bearer-token header of section 2.1 of RFC 6750, with the token as a
      template literal renders it. */
  function Bearer(accessToken: JsString): (string, string) {
    ("Authorization", BearerScheme + JsText(accessToken))
  }

  /** What a resource server reads from an Authorization header value: the
      token after the "Bearer " scheme, or None for any other value. */
  function ReadBearer(value: string): Option<string> {
    if |value| < |BearerScheme| || value[..|BearerScheme|] != BearerScheme then None
    else Some(value[|BearerScheme|..])
  }

  /** `getUserInfo(accessToken)`: a GET of the user resource on the selected
      host, authorized by the access token, with no body. */
  function UserInfoRequest(s: Service, accessToken: JsString): (r: HttpRequest)
    ensures r.verb == Get && r.url == GetBaseURL(s) + UserPath && r.body == NoBody
    ensures r.headers == [("Authorization", "Bearer " + JsText(accessToken)), JsonContentType]
  {
    HttpRequest(Get, GetBaseURL(s) + UserPath, [Bearer(accessToken), JsonContentType], NoBody)
  }

  /** `getInventoryItems(accessToken, limit = 100)`. */
  function InventoryRequest(s: Service, accessToken: JsString, limit: Option<nat>): HttpRequest {
    HttpRequest(Get, GetBaseURL(s) + InventoryPath + "?limit=" + NatToString(limit.GetOr(DefaultInventoryLimit)),
      [Bearer(accessToken), JsonContentType], NoBody)
  }

  /** One payload entry: the item id and price copied, the currency defaulting to USD. */
  function PriceRequestOf(item: PriceUpdate): (r: PriceRequest)
    ensures r.itemId == item.itemId && r.value == item.newPrice
    ensures Truthy(item.currency) ==> r.currency == item.currency.value
    ensures !Truthy(item.currency) ==> r.currency == "USD"
  {
    PriceRequest(item.itemId, JsText(Or(item.currency, Some("USD"))), item.newPrice)
  }

  /** The `items.map(...)` payload of `updatePrices`. */
  function PricePayloadOf(items: seq<PriceUpdate>): (r: seq<PriceRequest>)
    ensures |r| == |items|
    ensures forall i :: 0 <= i < |items| ==> r[i] == PriceRequestOf(items[i])
  {
    if items == [] then [] else [PriceRequestOf(items[0])] + PricePayloadOf(items[1..])
  }

  /** The payload of a concatenation is the concatenation of the payloads:
      the mapping keeps order and treats each item on its own. */
  lemma {:induction false} PricePayloadAppend(a: seq<PriceUpdate>, b: seq<PriceUpdate>)
    ensures PricePayloadOf(a + b) == PricePayloadOf(a) + PricePayloadOf(b)
  {
    if a != [] {
      assert (a + b)[1..] == a[1..] + b;
      PricePayloadAppend(a[1..], b);
    } else {
      assert a + b == b;
    }
  }

  /** `updatePrices(accessToken, items)`: a POST of the bulk price payload,
      one entry per item in order, authorized by the access token. */
  function UpdatePricesRequest(s: Service, accessToken: JsString, items: seq<PriceUpdate>): (r: HttpRequest)
    ensures r.verb == Post && r.url == GetBaseURL(s) + BulkPricePath
    ensures r.headers == [("Authorization", "Bearer " + JsText(accessToken)), JsonContentType]
    ensures r.body.PricePayload? && |r.body.requests| == |items|
    ensures forall i :: 0 <= i < |items| ==> r.body.requests[i] == PriceRequestOf(items[i])
  {
    HttpRequest(Post, GetBaseURL(s) + BulkPricePath, [Bearer(accessToken), JsonContentType],
      PricePayload(PricePayloadOf(items)))
  }

  /** A resource server reads back exactly the token that `Bearer` sent. */
  lemma ReadBearerOf(accessToken: JsString)
    ensures ReadBearer(Bearer(accessToken).1) == Some(JsText(accessToken))
  {
    var b := Bearer(accessToken).1;
    assert b[..|BearerScheme|] == BearerScheme && b[|BearerScheme|..] == JsText(accessToken);
  }

  /** The three calls made with an access token send it the same way: a
      resource server reads exactly that token from each one's Authorization
      header, and each goes to the host the environment selects. */
  lemma BearerShared(s: Service, accessToken: JsString, limit: Option<nat>, items: seq<PriceUpdate>)
    ensures ReadBearer(UserInfoRequest(s, accessToken).headers[0].1) == Some(JsText(accessToken))
    ensures ReadBearer(InventoryRequest(s, accessToken, limit).headers[0].1) == Some(JsText(accessToken))
    ensures ReadBearer(UpdatePricesRequest(s, accessToken, items).headers[0].1) == Some(JsText(accessToken))
    ensures UserInfoRequest(s, accessToken).url[..|GetBaseURL(s)|] == GetBaseURL(s)
    ensures InventoryRequest(s, accessToken, limit).url[..|GetBaseURL(s)|] == GetBaseURL(s)
    ensures UpdatePricesRequest(s, accessToken, items).url[..|GetBaseURL(s)|] == GetBaseURL(s)
  {
    ReadBearerOf(accessToken);
    var base := GetBaseURL(s);
    var u2 := InventoryRequest(s, accessToken, limit).url;
    assert u2 == base + (InventoryPath + "?limit=" + NatToString(limit.GetOr(DefaultInventoryLimit)));
  }

  // ---------------------------------------------------------------------
  // Outcomes of sending a request

  /** What axios rejects with: an HTTP error response (whose body may be
      missing) or a failure with no response at all. */
  datatype UpstreamError =
    | ResponseError(status: nat, data: Option<ErrorData>, statusText: string)
    | NoResponse(message: string)

  datatype ErrorData = ErrorData(errorDescription: JsString)

  datatype Upstream<T> = Success(data: T) | Failure(error: UpstreamError)

  /** The token endpoint's JSON answer; any field may be missing. */
  datatype TokenResponse = TokenResponse(accessToken: JsString, refreshToken: JsString, expiresIn: Option<int>)

  /** The account endpoint's JSON answer. */
  datatype UserInfo = UserInfo(userId: JsString)

  /** The inventory endpoint's JSON answer; items are passed through as they are. */
  datatype InventoryPage = InventoryPage(inventoryItems: Option<seq<string>>)

  const ExchangeFailure: string := "Failed to exchange code for token: "
  const RefreshFailure: string := "Failed to refresh token: "
  const UserInfoFailure: string := "Failed to get user info: "
  const InventoryFailure: string := "Failed to fetch inventory items: "
  const UpdatePricesFailure: string := "Failed to update prices: "
  const ApiErrorPrefix: string := "eBay API Error: "

  /** Reading `error_description` of a missing body throws this TypeError instead. */
  const MissingBodyMessage: string := "Cannot read properties of undefined " + "(reading 'error_description')"

  /** The message of the Error each service method throws on failure. */
  function ErrorMessage(operationPrefix: string, e: UpstreamError): string {
    match e
    case ResponseError(status, Some(d), statusText) =>
      ApiErrorPrefix + NatToString(status) + " - " + JsText(Or(d.errorDescription, Some(statusText)))
    case ResponseError(_, None, _) => MissingBodyMessage
    case NoResponse(message) => operationPrefix + message
  }

  /** A call through a service method: the response data, or the message of
      the error it throws. */
  function Call<T>(operationPrefix: string, outcome: Upstream<T>): (r: Result<T, string>)
    ensures outcome.Success? <==> r.Ok?
    ensures outcome.Success? ==> r.value == outcome.data
    ensures outcome.Failure? ==> r.error == ErrorMessage(operationPrefix, outcome.error)
  {
    match outcome
    case Success(d) => Ok(d)
    case Failure(e) => Err(ErrorMessage(operationPrefix, e))
  }

  /** Both grants go to the same token endpoint, on the host the environment
      selects. */
  lemma TokenEndpointShared(env: Env, code: string, clientId: JsString, clientSecret: JsString,
                            devId: JsString, refreshToken: string, appId: string, certId: string)
    ensures var s := NewService(env);
      ExchangeCodeRequest(s, env, code, clientId, clientSecret, devId).url
        == RefreshTokenRequest(s, refreshToken, appId, certId).url
        == (if env.ebaySandbox == Some("true") then SandboxURL else ProductionURL) + TokenPath
  {
  }

  /** `devId` has no effect on the code exchange. */
  lemma DevIdUnused(s: Service, env: Env, code: string, clientId: JsString, clientSecret: JsString,
                    devId1: JsString, devId2: JsString)
    ensures ExchangeCodeRequest(s, env, code, clientId, clientSecret, devId1)
         == ExchangeCodeRequest(s, env, code, clientId, clientSecret, devId2)
  {
  }

  /** The token endpoint reads back the client id and secret the code exchange
      authenticates with (they render as "undefined" when missing). */
  lemma ExchangeClientAuthentication(s: Service, env: Env, code: string, clientId: JsString,
                                     clientSecret: JsString, devId: JsString)
    requires ':' !in JsText(clientId)
    ensures var r := ExchangeCodeRequest(s, env, code, clientId, clientSecret, devId);
      r.headers[1].0 == "Authorization" &&
      BasicAuth.Parse(r.headers[1].1) == Some((JsText(clientId), JsText(clientSecret)))
  {
    BasicAuth.ParseHeader(JsText(clientId), JsText(clientSecret));
  }

  /** The same for the refresh grant. */
  lemma RefreshClientAuthentication(s: Service, refreshToken: string, clientId: string, clientSecret: string)
    requires ':' !in clientId
    ensures var r := RefreshTokenRequest(s, refreshToken, clientId, clientSecret);
      r.headers[1].0 == "Authorization" &&
      BasicAuth.Parse(r.headers[1].1) == Some((clientId, clientSecret))
  {
    BasicAuth.ParseHeader(clientId, clientSecret);
  }

  /** The token endpoint reads exactly the three parameters of the code grant
      from the body as it goes over the wire. */
  lemma ExchangeWireBody(s: Service, env: Env, code: string, clientId: JsString,
                         clientSecret: JsString, devId: JsString)
    ensures var r := ExchangeCodeRequest(s, env, code, clientId, clientSecret, devId);
      Parse(Serialize(r.body.fields))
        == Some([("grant_type", "authorization_code"), ("code", code), ("redirect_uri", RedirectUri(env))])
  {
    ParseSerialize(ExchangeCodeRequest(s, env, code, clientId, clientSecret, devId).body.fields);
  }

  /** The token endpoint reads exactly the two parameters of the refresh grant. */
  lemma RefreshWireBody(s: Service, refreshToken: string, clientId: string, clientSecret: string)
    ensures var r := RefreshTokenRequest(s, refreshToken, clientId, clientSecret);
      Parse(Serialize(r.body.fields)) == Some([("grant_type", "refresh_token"), ("refresh_token", refreshToken)])
  {
    ParseSerialize(RefreshTokenRequest(s, refreshToken, clientId, clientSecret).body.fields);
  }

  /** The client id `generateAuthURL` puts in the URL: its argument, or
      EBAY_APP_ID when called without one. */
  function AuthClientId(env: Env, clientId: JsString): (r: string)
    ensures clientId.Some? ==> r == clientId.value
    ensures clientId.None? ==> r == JsText(env.ebayAppId)
  {
    JsText(if clientId.None? then env.ebayAppId else clientId)
  }

  /** Tab, LF and CR, which a URL parser removes wherever they occur. */
  predicate IsUrlNoise(c: char) {
    c == '\t' || c == '\n' || c == '\r'
  }

  /** A URL with the tabs and newlines removed, as a URL parser reads it. */
  function StripNoise(url: string): (r: string)
    ensures forall i :: 0 <= i < |r| ==> !IsUrlNoise(r[i])
    ensures (forall i :: 0 <= i < |url| ==> !IsUrlNoise(url[i])) ==> r == url
  {
    if url == [] then []
    else
      assert forall i :: 0 <= i < |url| - 1 ==> url[1..][i] == url[i + 1];
      (if IsUrlNoise(url[0]) then [] else [url[0]]) + StripNoise(url[1..])
  }

  /** What the authorization server receives of a URL a browser follows:
      tabs and newlines are dropped, nothing from the first '#' on (the
      fragment) is sent, the endpoint is what precedes the first '?' and the
      parameters are read from the query after it. */
  function ReadAuthURL(url: string): Option<(string, seq<Field>)> {
    match SplitFirst(SplitFirst(StripNoise(url), '#').0, '?')
    case (_, None) => None
    case (endpoint, Some(query)) =>
      match Parse(query)
      case None => None
      case Some(fields) => Some((endpoint, fields))
  }

  /** A character a URL parser keeps and does not treat as the fragment's start. */
  predicate IsUrlPlain(c: char) {
    c != '#' && !IsUrlNoise(c)
  }

  /** A text of such characters. */
  predicate AllUrlPlain(s: string) {
    forall i :: 0 <= i < |s| ==> IsUrlPlain(s[i])
  }

  /** A URL made of such characters reaches the server as written. */
  lemma ReadPlainURL(url: string)
    requires AllUrlPlain(url)
    ensures SplitFirst(StripNoise(url), '#').0 == url
  {
  }

  /** A client id the authorization URL carries verbatim: no character of it
      is read as a separator, an escape or a space by the form reader, or
      dropped or taken as the fragment's start by the URL parser. */
  predicate IsVerbatimId(id: string) {
    '&' !in id && '%' !in id && '+' !in id && AllUrlPlain(id)
  }

  /** A text of letters, digits and ':', '/', '.', '_', '=' holds nothing a URL parser drops or cuts at. */
  lemma PlainText(s: string)
    requires forall i :: 0 <= i < |s| ==> IsAlphaNum(s[i]) || s[i] in ":/._="
    ensures AllUrlPlain(s)
  {
  }

  /** `encodeURIComponent` output holds nothing a URL parser drops or cuts at. */
  lemma EncodedIsPlain(s: string)
    ensures AllUrlPlain(EncodeUriComponent(s))
  {
    var e := EncodeUriComponent(s);
    forall i | 0 <= i < |e| ensures IsUrlPlain(e[i]) {
      assert IsUriUnreserved(e[i]) || e[i] == '%';
    }
  }

  /** Two texts of plain characters joined by one plain character. */
  lemma PlainAppend(a: string, c: char, b: string)
    requires AllUrlPlain(a) && AllUrlPlain(b) && IsUrlPlain(c)
    ensures AllUrlPlain(a + [c] + b)
  {
    var t := a + [c] + b;
    forall i | 0 <= i < |t| ensures IsUrlPlain(t[i]) {
      if i < |a| { assert t[i] == a[i]; }
      else if i > |a| { assert t[i] == b[i - |a| - 1]; }
    }
  }

  /** "name=value" with a plain name and value. */
  lemma PlainParam(name: string, value: string)
    requires IsPlainName(name)
    requires AllUrlPlain(value)
    ensures AllUrlPlain(Param(name, value))
  {
    PlainText(name);
    PlainAppend(name, '=', value);
    assert Param(name, value) == name + ['='] + value;
  }

  /** Four plain parameters joined by '&'. */
  lemma PlainJoin4(p1: string, p2: string, p3: string, p4: string)
    requires AllUrlPlain(p1) && AllUrlPlain(p2) && AllUrlPlain(p3) && AllUrlPlain(p4)
    ensures AllUrlPlain(Join([p1, p2, p3, p4]))
  {
    PlainAppend(p3, '&', p4);
    PlainAppend(p2, '&', p3 + ['&'] + p4);
    PlainAppend(p1, '&', p2 + ['&'] + (p3 + ['&'] + p4));
    assert [p1, p2, p3, p4][1..] == [p2, p3, p4];
    assert [p2, p3, p4][1..] == [p3, p4];
    assert [p3, p4][1..] == [p4];
    assert Join([p3, p4]) == p3 + ['&'] + p4;
    assert Join([p2, p3, p4]) == p2 + ['&'] + (p3 + ['&'] + p4);
    assert Join([p1, p2, p3, p4]) == p1 + ['&'] + (p2 + ['&'] + (p3 + ['&'] + p4));
  }

  /** The authorization query, for a client id carried verbatim, is plain. */
  lemma AuthQueryPlain(id: string, uri: string)
    requires AllUrlPlain(id)
    ensures AllUrlPlain(AuthQuery(id, uri))
  {
    PlainParam("client_id", id);
    EncodedIsPlain(uri);
    PlainParam("redirect_uri", EncodeUriComponent(uri));
    PlainParam("response_type", "code");
    ScopeIsPlain();
    PlainParam("scope", Scope);
    PlainJoin4(Param("client_id", id), Param("redirect_uri", EncodeUriComponent(uri)),
               Param("response_type", "code"), Param("scope", Scope));
  }

  /** The authorization URL, for a client id carried verbatim, holds nothing a
      URL parser drops or cuts at. */
  lemma AuthURLPlain(env: Env, clientId: JsString)
    requires IsVerbatimId(AuthClientId(env, clientId))
    ensures AllUrlPlain(GenerateAuthURL(env, clientId))
  {
    AuthQueryPlain(AuthClientId(env, clientId), RedirectUri(env));
    PlainURLOf(AuthQuery(AuthClientId(env, clientId), RedirectUri(env)));
  }

  /** The authorize endpoint followed by a plain query. */
  lemma PlainURLOf(query: string)
    requires AllUrlPlain(query)
    ensures AllUrlPlain(AuthorizeEndpoint + "?" + query)
  {
    EndpointIsPlain();
    PlainAppend(AuthorizeEndpoint, '?', query);
  }

  lemma EndpointIsPlain()
    ensures AllUrlPlain(AuthorizeEndpoint)
  {
    var host, path := "https://signin.ebay.com", "/oauth2/authorize";
    assert AuthorizeEndpoint == host + path;
    PlainText(host);
    PlainText(path);
  }

  /** What a browser sends of the authorization URL names the authorize
      endpoint and carries the four parameters of section 4.1.1 of RFC 6749,
      in order, for a client id the URL carries verbatim. */
  lemma GenerateAuthURLParameters(env: Env, clientId: JsString)
    requires IsVerbatimId(AuthClientId(env, clientId))
    ensures ReadAuthURL(GenerateAuthURL(env, clientId)) == Some((AuthorizeEndpoint, [
      ("client_id", AuthClientId(env, clientId)),
      ("redirect_uri", RedirectUri(env)),
      ("response_type", "code"),
      ("scope", Scope)]))
  {
    var query := AuthQuery(AuthClientId(env, clientId), RedirectUri(env));
    assert GenerateAuthURL(env, clientId) == AuthorizeEndpoint + ['?'] + query;
    AuthURLPlain(env, clientId);
    ReadPlainURL(GenerateAuthURL(env, clientId));
    EndpointHasNoQuery();
    SplitFirstAt(AuthorizeEndpoint, '?', query);
    AuthQueryParameters(AuthClientId(env, clientId), RedirectUri(env));
  }

  lemma EndpointHasNoQuery()
    ensures '?' !in AuthorizeEndpoint
  {
  }

  /** Section 4.1.3 of RFC 6749: the redirect URI of the token request is the
      one the authorization request carried. */
  lemma RedirectUriAgrees(env: Env, clientId: JsString, code: string, clientSecret: JsString, devId: JsString)
    requires IsVerbatimId(AuthClientId(env, clientId))
    ensures ReadAuthURL(GenerateAuthURL(env, clientId)).Some?
    ensures var auth := ReadAuthURL(GenerateAuthURL(env, clientId)).value.1;
      var token := ExchangeCodeRequest(NewService(env), env, code, clientId, clientSecret, devId).body.fields;
      |auth| == 4 && auth[1] == token[2]
  {
    GenerateAuthURLParameters(env, clientId);
  }

  /** Without a limit argument the inventory is asked for 100 items. */
  lemma InventoryDefaultLimit(s: Service, accessToken: JsString)
    ensures InventoryRequest(s, accessToken, None).url == GetBaseURL(s) + InventoryPath + "?limit=100"
  {
    assert NatToString(10) == NatToString(1) + [DigitChar(0)];
    assert NatToString(100) == NatToString(10) + [DigitChar(0)] == "100";
  }

  // ---------------------------------------------------------------------
  // Reading an error message back

  /** The run of decimal digits at the start of `s`. */
  function LeadingDigits(s: string): (r: string)
    ensures r <= s
    ensures forall i :: 0 <= i < |r| ==> IsDigit(r[i])
  {
    if s == [] || !IsDigit(s[0]) then [] else [s[0]] + LeadingDigits(s[1..])
  }

  lemma {:induction false} LeadingDigitsOf(digits: string, rest: string)
    requires forall i :: 0 <= i < |digits| ==> IsDigit(digits[i])
    requires rest != [] && !IsDigit(rest[0])
    ensures LeadingDigits(digits + rest) == digits
  {
    if digits != [] {
      assert (digits + rest)[1..] == digits[1..] + rest;
      LeadingDigitsOf(digits[1..], rest);
    } else {
      assert digits + rest == rest;
    }
  }

  /** What a client reads from an "eBay API Error: <status> - <detail>"
      message: the status and the detail; None for any other message. */
  function ReadApiError(m: string): Option<(nat, string)> {
    if |m| < |ApiErrorPrefix| || m[..|ApiErrorPrefix|] != ApiErrorPrefix then None
    else
      var tail := m[|ApiErrorPrefix|..];
      var digits := LeadingDigits(tail);
      var after := tail[|digits|..];
      if digits == [] || |after| < 3 || after[..3] != " - " then None
      else Some((DigitsValue(digits), after[3..]))
  }

  /** The API-error form reads back as the status and detail written into it. */
  lemma ReadApiErrorOf(status: nat, detail: string)
    ensures ReadApiError(ApiErrorPrefix + NatToString(status) + " - " + detail) == Some((status, detail))
  {
    var digits := NatToString(status);
    var m := ApiErrorPrefix + NatToString(status) + " - " + detail;
    assert m == ApiErrorPrefix + (digits + (" - " + detail));
    assert m[..|ApiErrorPrefix|] == ApiErrorPrefix;
    assert m[|ApiErrorPrefix|..] == digits + (" - " + detail);
    LeadingDigitsOf(digits, " - " + detail);
    assert (digits + (" - " + detail))[|digits|..] == " - " + detail;
    DigitsValueNatToString(status);
  }

  /** A message whose first character differs from the API-error form's does not read as one. */
  lemma ReadApiErrorOther(m: string)
    requires m != [] && m[0] != ApiErrorPrefix[0]
    ensures ReadApiError(m) == None
  {
    if |m| >= |ApiErrorPrefix| {
      assert m[..|ApiErrorPrefix|][0] == m[0];
    }
  }

  /** An error message carries the upstream status and detail exactly when the
      upstream answered with a body; a failure without a response gives the
      operation's own message instead. */
  lemma ErrorMessageForms(operationPrefix: string, e: UpstreamError)
    requires operationPrefix != [] && operationPrefix[0] != ApiErrorPrefix[0]
    ensures ReadApiError(ErrorMessage(operationPrefix, e)).Some? <==> e.ResponseError? && e.data.Some?
    ensures e.ResponseError? && e.data.Some? ==>
      ReadApiError(ErrorMessage(operationPrefix, e))
        == Some((e.status, JsText(Or(e.data.value.errorDescription, Some(e.statusText)))))
    ensures e.NoResponse? ==> ErrorMessage(operationPrefix, e)[..|operationPrefix|] == operationPrefix
  {
    match e
    case ResponseError(status, Some(d), statusText) =>
      ReadApiErrorOf(status, JsText(Or(d.errorDescription, Some(statusText))));
    case ResponseError(_, None, _) =>
      assert MissingBodyMessage[0] == 'C';
      ReadApiErrorOther(MissingBodyMessage);
    case NoResponse(message) =>
      var m := operationPrefix + message;
      assert m[0] == operationPrefix[0];
      ReadApiErrorOther(m);
  }

  /** Each operation's own prefix is told apart from the API error form. */
  lemma OperationPrefixes()
    ensures forall p :: p in [ExchangeFailure, RefreshFailure, UserInfoFailure, InventoryFailure, UpdatePricesFailure] ==>
              p != [] && p[0] != ApiErrorPrefix[0]
  {
  }
}
