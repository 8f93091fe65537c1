/** controllers/ebayController.js: the handlers that link marketplace accounts.
    The session store and the account collection are the state of a
    `Controller`. Each upstream call is a caller-supplied outcome of the request
    the handler builds, and each handler reports the requests it sent. */
module EbayController {
  import opened Common
  import opened EbayService
  import opened Accounts

  /** The id of an express session (one per browser cookie). */
  type SessionId = string

  /** `req.session.userEbayCredentials`: the triple a user started the flow with. */
  datatype Pending = Pending(appId: string, certId: string, devId: string, timestamp: int)

  /** `{ appId, certId, devId }` as a request body or the callback carries them. */
  datatype Credentials = Credentials(appId: JsString, certId: JsString, devId: JsString)

  /** `appId && certId && devId`. */
  predicate AllPresent(c: Credentials) {
    Truthy(c.appId) && Truthy(c.certId) && Truthy(c.devId)
  }

  function Min(a: int, b: int): int {
    if a <= b then a else b
  }

  /** `s.substring(0, 5) + '***'`: at most the first five characters, then three stars. */
  function Mask(s: string): (r: string)
    ensures |r| == Min(5, |s|) + 3
    ensures r[..|r| - 3] == s[..Min(5, |s|)] && r[|r| - 3..] == "***"
  {
    s[..Min(5, |s|)] + "***"
  }

  /** Two secrets mask alike exactly when their first five characters agree:
      nothing after the fifth character shows. */
  lemma MaskAgrees(s: string, t: string)
    ensures Mask(s) == Mask(t) <==> s[..Min(5, |s|)] == t[..Min(5, |t|)]
  {
    if Mask(s) == Mask(t) {
      assert Mask(s)[..|Mask(s)| - 3] == Mask(t)[..|Mask(t)| - 3];
    }
  }

  // ---------------------------------------------------------------------
  // Account ids

  predicate IsHexChar(c: char) {
    '0' <= c <= '9' || 'a' <= c <= 'f' || 'A' <= c <= 'F'
  }

  /** `/^[0-9a-fA-F]{24}$/`. */
  predicate IsObjectIdText(s: string) {
    |s| == 24 && forall i :: 0 <= i < |s| ==> IsHexChar(s[i])
  }

  /** The form ObjectIds are stored in: 24 lower-case hex digits. */
  predicate IsCanonicalId(s: string) {
    |s| == 24 && forall i :: 0 <= i < |s| ==> '0' <= s[i] <= '9' || 'a' <= s[i] <= 'f'
  }

  function LowerChar(c: char): char {
    if 'A' <= c <= 'F' then (c as int + 32) as char else c
  }

  /** The ObjectId a hex string casts to: hex digits read case-insensitively. */
  function Canonical(s: string): (r: string)
    ensures |r| == |s| && forall i :: 0 <= i < |s| ==> r[i] == LowerChar(s[i])
  {
    seq(|s|, i requires 0 <= i < |s| => LowerChar(s[i]))
  }

  /** Every text the id check accepts names a stored-form id, reading it twice
      changes nothing, and every stored-form id passes the check as itself. */
  lemma CanonicalIds(s: string, k: string)
    ensures IsObjectIdText(s) ==> IsCanonicalId(Canonical(s)) && Canonical(Canonical(s)) == Canonical(s)
    ensures IsCanonicalId(k) ==> IsObjectIdText(k) && Canonical(k) == k
  {
    if IsCanonicalId(k) {
      assert forall i :: 0 <= i < |k| ==> Canonical(k)[i] == k[i];
    }
  }

  // ---------------------------------------------------------------------
  // Responses

  /** What a 500 response carries as `error`: an upstream error's message, or
      the paths a failed validation names. */
  datatype Fault = UpstreamFault(message: string) | ValidationFault(paths: seq<Path>)

  /** The JSON bodies the handlers send. */
  datatype Reply =
    | Message(message: string)
    | Failed(message: string, error: Fault)
    | MaskedCredentials(message: string, appId: string, certId: string, devId: string)
    | CredentialsValid(message: string, isValid: bool)
    | FlowStarted(authURL: string, message: string)
    | Connected(message: string, ebayAccountId: string, ebayUserId: string)
    | AccountList(accounts: map<string, EbayAccount>)
    | Synced(message: string, items: seq<string>)

  datatype Response = Response(status: nat, reply: Reply)

  const InvalidIdMessage: string := "Invalid account ID format"
  const NotFoundMessage: string := "Account not found"
  const FlowRefusedMessage: string := "eBay credentials required to initiate OAuth flow"
  const FlowStartedMessage: string := "OAuth flow initiated successfully"

  /** storeUserCredentials: all three credentials are needed; they are echoed
      masked and nothing is stored. */
  function StoreUserCredentials(body: Credentials): (r: Response)
    ensures r.status == 400 <==> !AllPresent(body)
    ensures !AllPresent(body) ==> r.reply == Message("All eBay credentials are required")
    ensures AllPresent(body) ==> r == Response(200, MaskedCredentials("Credentials validated successfully",
      Mask(body.appId.value), Mask(body.certId.value), Mask(body.devId.value)))
  {
    if !AllPresent(body) then Response(400, Message("All eBay credentials are required"))
    else Response(200, MaskedCredentials("Credentials validated successfully",
      Mask(body.appId.value), Mask(body.certId.value), Mask(body.devId.value)))
  }

  /** validateCredentials: accepts exactly when all three are present. */
  function ValidateCredentials(body: Credentials): (r: Response)
    ensures r.status == 200 <==> AllPresent(body)
    ensures !AllPresent(body) ==> r == Response(400, Message("All credentials are required"))
    ensures AllPresent(body) ==> r == Response(200, CredentialsValid("Credentials validated successfully", true))
  {
    if !AllPresent(body) then Response(400, Message("All credentials are required"))
    else Response(200, CredentialsValid("Credentials validated successfully", true))
  }

  // ---------------------------------------------------------------------
  // Specification of the callback

  function Lookup(sessions: map<SessionId, Pending>, sid: SessionId): Option<Pending> {
    if sid in sessions then Some(sessions[sid]) else None
  }

  /** `userCredentials.x || process.env.EBAY_X`, field by field: the pending
      value when there is a non-empty one, else the environment's. */
  function ChosenCredentials(pending: Option<Pending>, env: Env): (c: Credentials)
    ensures pending.Some? && pending.value.appId != "" ==> c.appId == Some(pending.value.appId)
    ensures pending.Some? && pending.value.certId != "" ==> c.certId == Some(pending.value.certId)
    ensures pending.Some? && pending.value.devId != "" ==> c.devId == Some(pending.value.devId)
    ensures pending.None? || pending.value.appId == "" ==> c.appId == env.ebayAppId
    ensures pending.None? || pending.value.certId == "" ==> c.certId == env.ebayCertId
    ensures pending.None? || pending.value.devId == "" ==> c.devId == env.ebayDevId
  {
    match pending
    case Some(p) => Credentials(Or(Some(p.appId), env.ebayAppId), Or(Some(p.certId), env.ebayCertId),
                                Or(Some(p.devId), env.ebayDevId))
    case None => Credentials(Or(None, env.ebayAppId), Or(None, env.ebayCertId), Or(None, env.ebayDevId))
  }

  /** The handlers that take a credential triple apply one check:
      validateCredentials accepts exactly the bodies storeUserCredentials
      accepts and masks, which are the bodies `InitiateOAuthFlow` starts the
      flow for, and the triple it accepts is the one the callback of that flow
      authenticates with. */
  lemma CredentialChecksAgree(body: Credentials, env: Env, now: int)
    ensures ValidateCredentials(body).status == StoreUserCredentials(body).status
    ensures ValidateCredentials(body).status == 200 <==> StoreUserCredentials(body).reply.MaskedCredentials?
    ensures ValidateCredentials(body).status == 200 ==>
      ChosenCredentials(Some(Pending(body.appId.value, body.certId.value, body.devId.value, now)), env) == body
  {
  }

  /** The code exchange the callback sends for the chosen credentials. */
  function TokenRequestOf(s: Service, env: Env, code: string, creds: Credentials): HttpRequest {
    ExchangeCodeRequest(s, env, code, creds.appId, creds.certId, creds.devId)
  }

  /** The paths of `new EbayAccount({...})` in the callback. */
  function NewAccountFields(userId: UserId, token: TokenResponse, info: UserInfo, creds: Credentials,
                            now: int): Fields {
    Fields(Some(userId), info.userId, token.accessToken, token.refreshToken, Expiry(now, token.expiresIn),
           creds.appId, creds.certId, creds.devId, true, now, now)
  }

  /** What the callback produces once the code is present: the record saved,
      or the fault that ends the request. A record is made only when both
      upstream calls succeed and every required path is present, and it holds
      the owner, the remote user id, both tokens, the expiry `expires_in`
      seconds after now, the chosen credentials, `isActive` and now as both dates. */
  function Connect(s: Service, env: Env, creds: Credentials, userId: UserId, code: string, now: int,
                   exchange: HttpRequest -> Upstream<TokenResponse>,
                   userInfo: HttpRequest -> Upstream<UserInfo>): (r: Result<EbayAccount, Fault>)
    ensures var token := exchange(TokenRequestOf(s, env, code, creds));
      token.Failure? ==> r == Err(UpstreamFault(ErrorMessage(ExchangeFailure, token.error)))
    ensures var token := exchange(TokenRequestOf(s, env, code, creds));
      token.Success? && userInfo(UserInfoRequest(s, token.data.accessToken)).Failure? ==>
        r == Err(UpstreamFault(ErrorMessage(UserInfoFailure, userInfo(UserInfoRequest(s, token.data.accessToken)).error)))
    ensures var token := exchange(TokenRequestOf(s, env, code, creds));
      token.Success? && userInfo(UserInfoRequest(s, token.data.accessToken)).Success? ==>
        var fields := NewAccountFields(userId, token.data, userInfo(UserInfoRequest(s, token.data.accessToken)).data, creds, now);
        && (MissingPaths(fields) != [] ==> r == Err(ValidationFault(MissingPaths(fields))))
        && (MissingPaths(fields) == [] ==> r.Ok? && FieldsOf(r.value) == fields)
    ensures r.Ok? ==> Accounts.Valid(r.value) && r.value.userId == userId && r.value.isActive
                      && r.value.createdAt == now && r.value.updatedAt == now
  {
    match Call(ExchangeFailure, exchange(TokenRequestOf(s, env, code, creds)))
    case Err(m) => Err(UpstreamFault(m))
    case Ok(token) =>
      match Call(UserInfoFailure, userInfo(UserInfoRequest(s, token.accessToken)))
      case Err(m) => Err(UpstreamFault(m))
      case Ok(info) =>
        match Validate(NewAccountFields(userId, token, info, creds, now))
        case Err(paths) => Err(ValidationFault(paths))
        case Ok(a) => Ok(a)
  }

  /** After initiateOAuthFlow stored a triple, the callback authenticates with
      exactly that id and secret, and the id is the client_id the
      authorization URL carried. */
  lemma CallbackUsesFlowCredentials(s: Service, env: Env, code: string, p: Pending)
    requires p.appId != "" && p.certId != "" && p.devId != ""
    requires ':' !in p.appId && IsVerbatimId(p.appId)
    ensures var r := TokenRequestOf(s, env, code, ChosenCredentials(Some(p), env));
      BasicAuth.Parse(r.headers[1].1) == Some((p.appId, p.certId))
    ensures ReadAuthURL(GenerateAuthURL(env, Some(p.appId))) == Some((AuthorizeEndpoint, [
      ("client_id", p.appId), ("redirect_uri", RedirectUri(env)), ("response_type", "code"), ("scope", Scope)]))
  {
    var c := ChosenCredentials(Some(p), env);
    ExchangeClientAuthentication(s, env, code, c.appId, c.certId, c.devId);
    GenerateAuthURLParameters(env, Some(p.appId));
  }

  /** What the refresh produces from the stored record and the token
      endpoint's outcome: the record with the new access token and expiry
      and `updatedAt` stamped, the refresh token and everything else kept;
      or the fault that ends the request. */
  function Refreshed(a: EbayAccount, outcome: Upstream<TokenResponse>, now: int): (r: Result<EbayAccount, Fault>)
    requires Accounts.Valid(a)
    ensures outcome.Failure? ==> r == Err(UpstreamFault(ErrorMessage(RefreshFailure, outcome.error)))
    ensures outcome.Success? ==>
      var expiry := Expiry(now, outcome.data.expiresIn);
      && (r.Ok? <==> Truthy(outcome.data.accessToken) && expiry.Some?)
      && (r.Ok? ==> r.value == a.(accessToken := outcome.data.accessToken.value, tokenExpiry := expiry.value,
                                  updatedAt := now))
      && (r.Err? ==> r.error == ValidationFault(
            MissingPaths(FieldsOf(a).(accessToken := outcome.data.accessToken, tokenExpiry := expiry))))
    ensures r.Ok? ==> Accounts.Valid(r.value)
  {
    match Call(RefreshFailure, outcome)
    case Err(m) => Err(UpstreamFault(m))
    case Ok(t) =>
      var f := FieldsOf(a).(accessToken := t.accessToken, tokenExpiry := Expiry(now, t.expiresIn));
      ReassignTokens(a, t.accessToken, Expiry(now, t.expiresIn), now);
      MissingPathsIgnoreUpdatedAt(f, now);
      match Validate(f.(updatedAt := now))
      case Err(paths) => Err(ValidationFault(paths))
      case Ok(b) => Ok(b)
  }

  /** `new EbayAccount({...})` followed by `save()` in the callback: the
      record validation yields for the new document, or its failing paths. */
  method SaveNewAccount(userId: UserId, token: TokenResponse, info: UserInfo, creds: Credentials, now: int)
    returns (r: Result<EbayAccount, seq<Path>>)
    ensures r == Validate(NewAccountFields(userId, token, info, creds, now))
  {
    var doc := new Document(userId, info.userId, token.accessToken, token.refreshToken,
                            Expiry(now, token.expiresIn), creds.appId, creds.certId, creds.devId, now);
    r := doc.Save(now);
    if r.Ok? {
      var v := Validate(NewAccountFields(userId, token, info, creds, now));
      FieldsOfInjective(r.value, v.value);
    }
  }

  /** `findById`, the two assignments and `save()` in the refresh: the
      record validation yields for the updated document, or its failing paths. */
  method SaveTokens(a: EbayAccount, accessToken: JsString, tokenExpiry: Option<int>, now: int)
    returns (r: Result<EbayAccount, seq<Path>>)
    ensures r == Validate(FieldsOf(a).(accessToken := accessToken, tokenExpiry := tokenExpiry, updatedAt := now))
  {
    var doc := new Document.Load(a);
    doc.accessToken := accessToken;
    doc.tokenExpiry := tokenExpiry;
    ghost var f := doc.Paths();
    r := doc.Save(now);
    MissingPathsIgnoreUpdatedAt(f, now);
    if r.Ok? {
      FieldsOfInjective(r.value, Validate(f.(updatedAt := now)).value);
    }
  }

  // ---------------------------------------------------------------------
  // Specification of the account list and of disconnecting

  /** `EbayAccount.find({ userId, isActive: true })`, keyed by id. */
  function ActiveAccountsOf(accounts: map<string, EbayAccount>, userId: UserId): (r: map<string, EbayAccount>)
    ensures forall k :: k in r <==> k in accounts && accounts[k].userId == userId && accounts[k].isActive
    ensures forall k :: k in r ==> r[k] == accounts[k]
  {
    map k | k in accounts && accounts[k].userId == userId && accounts[k].isActive :: accounts[k]
  }

  /** `findByIdAndUpdate(id, { isActive: false })`: the one flag cleared, and
      no hook runs, so `updatedAt` is kept. */
  function Deactivate(accounts: map<string, EbayAccount>, key: string): (r: map<string, EbayAccount>)
    requires key in accounts
    ensures r.Keys == accounts.Keys
    ensures r[key] == accounts[key].(isActive := false)
    ensures forall k :: k in accounts && k != key ==> r[k] == accounts[k]
  {
    accounts[key := accounts[key].(isActive := false)]
  }

  /** Disconnecting twice is disconnecting once. */
  lemma DeactivateIdempotent(accounts: map<string, EbayAccount>, key: string)
    requires key in accounts
    ensures Deactivate(Deactivate(accounts, key), key) == Deactivate(accounts, key)
  {
  }

  /** A disconnected account leaves every user's list, and nothing else does. */
  lemma DeactivateHides(accounts: map<string, EbayAccount>, key: string, userId: UserId)
    requires key in accounts
    ensures ActiveAccountsOf(Deactivate(accounts, key), userId) == ActiveAccountsOf(accounts, userId) - {key}
  {
    var lhs := ActiveAccountsOf(Deactivate(accounts, key), userId);
    var rhs := ActiveAccountsOf(accounts, userId) - {key};
    assert lhs.Keys == rhs.Keys;
    forall k | k in lhs ensures lhs[k] == rhs[k] {
    }
  }

  // ---------------------------------------------------------------------
  // The handlers

  /** Every stored id is in stored form and every stored record is valid. */
  predicate ValidStore(accounts: map<string, EbayAccount>) {
    forall k :: k in accounts ==> IsCanonicalId(k) && Accounts.Valid(accounts[k])
  }

  class Controller {
    /** `process.env` and the service built from it. */
    const env: Env
    const service: Service
    /** The session store: the pending credentials of each session. */
    var sessions: map<SessionId, Pending>
    /** The account collection, by stored-form id. */
    var accounts: map<string, EbayAccount>

    /** The collection's invariant holds. */
    predicate Valid()
      reads this
    {
      ValidStore(accounts)
    }

    constructor (env: Env)
      ensures this.env == env && service == NewService(env)
      ensures sessions == map[] && accounts == map[]
      ensures Valid()
    {
      this.env := env;
      this.service := NewService(env);
      sessions := map[];
      accounts := map[];
    }

    /** initiateOAuthFlow: a complete triple replaces the session's pending
        entry and yields the authorization URL for its app id; an incomplete
        one is refused and nothing changes. */
    method InitiateOAuthFlow(sid: SessionId, body: Credentials, now: int) returns (resp: Response)
      requires Valid()
      modifies this
      ensures Valid()
      ensures accounts == old(accounts)
      ensures !AllPresent(body) ==>
        resp == Response(400, Message(FlowRefusedMessage)) && sessions == old(sessions)
      ensures AllPresent(body) ==>
        && sessions == old(sessions)[sid := Pending(body.appId.value, body.certId.value, body.devId.value, now)]
        && resp == Response(200, FlowStarted(GenerateAuthURL(env, body.appId), FlowStartedMessage))
    {
      if !AllPresent(body) {
        return Response(400, Message(FlowRefusedMessage));
      }
      var authURL := GenerateAuthURL(env, body.appId);
      sessions := sessions[sid := Pending(body.appId.value, body.certId.value, body.devId.value, now)];
      resp := Response(200, FlowStarted(authURL, FlowStartedMessage));
    }

    /** handleCallback: without a code nothing is read, cleared or sent.
        Otherwise the session's pending entry is removed whatever follows, the
        code is exchanged with the chosen credentials, the user info is
        fetched with the new access token, and the account is added under the
        new id exactly when `Connect` yields a record. */
    method HandleCallback(sid: SessionId, userId: UserId, code: JsString, now: int, newId: string,
                          exchange: HttpRequest -> Upstream<TokenResponse>,
                          userInfo: HttpRequest -> Upstream<UserInfo>)
      returns (resp: Response, sent: seq<HttpRequest>)
      requires Valid()
      requires IsCanonicalId(newId) && newId !in accounts
      modifies this
      ensures Valid()
      ensures !Truthy(code) ==>
        && resp == Response(400, Message("Authorization code missing")) && sent == []
        && sessions == old(sessions) && accounts == old(accounts)
      ensures Truthy(code) ==> sessions == old(sessions) - {sid}
      ensures Truthy(code) ==>
        var creds := ChosenCredentials(Lookup(old(sessions), sid), env);
        var token := exchange(TokenRequestOf(service, env, code.value, creds));
        && (token.Failure? ==> sent == [TokenRequestOf(service, env, code.value, creds)])
        && (token.Success? ==> sent == [TokenRequestOf(service, env, code.value, creds),
                                        UserInfoRequest(service, token.data.accessToken)])
        && match Connect(service, env, creds, userId, code.value, now, exchange, userInfo)
           case Ok(a) =>
             && accounts == old(accounts)[newId := a]
             && resp == Response(200, Connected("Successfully connected eBay account", newId, a.ebayAccountId))
           case Err(f) =>
             accounts == old(accounts) && resp == Response(500, Failed("Error connecting eBay account", f))
    {
      if !Truthy(code) {
        return Response(400, Message("Authorization code missing")), [];
      }
      var creds := ChosenCredentials(Lookup(sessions, sid), env);
      sessions := sessions - {sid};
      var tokenRequest := TokenRequestOf(service, env, code.value, creds);
      sent := [tokenRequest];
      var tokenOutcome := Call(ExchangeFailure, exchange(tokenRequest));
      if tokenOutcome.Err? {
        return Response(500, Failed("Error connecting eBay account", UpstreamFault(tokenOutcome.error))), sent;
      }
      var token := tokenOutcome.value;
      var infoRequest := UserInfoRequest(service, token.accessToken);
      sent := sent + [infoRequest];
      var infoOutcome := Call(UserInfoFailure, userInfo(infoRequest));
      if infoOutcome.Err? {
        return Response(500, Failed("Error connecting eBay account", UpstreamFault(infoOutcome.error))), sent;
      }
      var info := infoOutcome.value;
      var saved := SaveNewAccount(userId, token, info, creds, now);
      if saved.Err? {
        return Response(500, Failed("Error connecting eBay account", ValidationFault(saved.error))), sent;
      }
      var account := saved.value;
      accounts := accounts[newId := account];
      resp := Response(200, Connected("Successfully connected eBay account", newId, account.ebayAccountId));
    }

    /** getAccounts: the caller's active accounts. */
    method GetAccounts(userId: UserId) returns (resp: Response)
      ensures resp == Response(200, AccountList(ActiveAccountsOf(accounts, userId)))
    {
      resp := Response(200, AccountList(ActiveAccountsOf(accounts, userId)));
    }

    /** disconnectAccount: a malformed id is refused and an unknown one not
        found, with nothing changed; otherwise the account, whoever owns it,
        is marked inactive and nothing else changes. */
    method DisconnectAccount(accountId: string) returns (resp: Response)
      requires Valid()
      modifies this
      ensures Valid() && sessions == old(sessions)
      ensures !IsObjectIdText(accountId) ==>
        resp == Response(400, Message(InvalidIdMessage)) && accounts == old(accounts)
      ensures IsObjectIdText(accountId) && Canonical(accountId) !in old(accounts) ==>
        resp == Response(404, Message(NotFoundMessage)) && accounts == old(accounts)
      ensures IsObjectIdText(accountId) && Canonical(accountId) in old(accounts) ==>
        && accounts == Deactivate(old(accounts), Canonical(accountId))
        && resp == Response(200, Message("Account disconnected successfully"))
    {
      if !IsObjectIdText(accountId) {
        return Response(400, Message(InvalidIdMessage));
      }
      var key := Canonical(accountId);
      if key !in accounts {
        return Response(404, Message(NotFoundMessage));
      }
      accounts := accounts[key := accounts[key].(isActive := false)];
      resp := Response(200, Message("Account disconnected successfully"));
    }

    /** refreshToken: after the id checks, the refresh grant is sent with the
        account's own refresh token, app id and cert id, active or not. On
        success only the access token and the expiry are replaced, and the
        hook stamps `updatedAt`; the refresh token is kept. On any failure
        nothing is saved. */
    method RefreshToken(accountId: string, now: int, refresh: HttpRequest -> Upstream<TokenResponse>)
      returns (resp: Response, sent: seq<HttpRequest>)
      requires Valid()
      modifies this
      ensures Valid() && sessions == old(sessions)
      ensures !IsObjectIdText(accountId) ==>
        resp == Response(400, Message(InvalidIdMessage)) && sent == [] && accounts == old(accounts)
      ensures IsObjectIdText(accountId) && Canonical(accountId) !in old(accounts) ==>
        resp == Response(404, Message(NotFoundMessage)) && sent == [] && accounts == old(accounts)
      ensures IsObjectIdText(accountId) && Canonical(accountId) in old(accounts) ==>
        var key := Canonical(accountId);
        var a := old(accounts)[key];
        var request := RefreshTokenRequest(service, a.refreshToken, a.appId, a.certId);
        && sent == [request]
        && match Refreshed(a, refresh(request), now)
           case Ok(b) => accounts == old(accounts)[key := b] && resp == Response(200, Message("Token refreshed successfully"))
           case Err(f) => accounts == old(accounts) && resp == Response(500, Failed("Error refreshing token", f))
    {
      if !IsObjectIdText(accountId) {
        return Response(400, Message(InvalidIdMessage)), [];
      }
      var key := Canonical(accountId);
      if key !in accounts {
        return Response(404, Message(NotFoundMessage)), [];
      }
      var a := accounts[key];
      var request := RefreshTokenRequest(service, a.refreshToken, a.appId, a.certId);
      sent := [request];
      var outcome := Call(RefreshFailure, refresh(request));
      if outcome.Err? {
        return Response(500, Failed("Error refreshing token", UpstreamFault(outcome.error))), sent;
      }
      var t := outcome.value;
      var saved := SaveTokens(a, t.accessToken, Expiry(now, t.expiresIn), now);
      MissingPathsIgnoreUpdatedAt(FieldsOf(a).(accessToken := t.accessToken, tokenExpiry := Expiry(now, t.expiresIn)), now);
      if saved.Err? {
        return Response(500, Failed("Error refreshing token", ValidationFault(saved.error))), sent;
      }
      accounts := accounts[key := saved.value];
      resp := Response(200, Message("Token refreshed successfully"));
    }

    /** syncInventory: after the id checks, the first page of the inventory is
        fetched with the account's access token and its items are returned, an
        absent list read as empty. Nothing is stored. */
    method SyncInventory(accountId: string, inventory: HttpRequest -> Upstream<InventoryPage>)
      returns (resp: Response, sent: seq<HttpRequest>)
      ensures !IsObjectIdText(accountId) ==> resp == Response(400, Message(InvalidIdMessage)) && sent == []
      ensures IsObjectIdText(accountId) && Canonical(accountId) !in accounts ==>
        resp == Response(404, Message(NotFoundMessage)) && sent == []
      ensures IsObjectIdText(accountId) && Canonical(accountId) in accounts ==>
        var request := InventoryRequest(service, Some(accounts[Canonical(accountId)].accessToken), None);
        && sent == [request]
        && match inventory(request)
           case Failure(e) =>
             resp == Response(500, Failed("Error syncing inventory", UpstreamFault(ErrorMessage(InventoryFailure, e))))
           case Success(page) =>
             && resp.status == 200
             && (page.inventoryItems.Some? ==> resp.reply == Synced("Inventory synced successfully", page.inventoryItems.value))
             && (page.inventoryItems.None? ==> resp.reply == Synced("Inventory synced successfully", []))
    {
      if !IsObjectIdText(accountId) {
        return Response(400, Message(InvalidIdMessage)), [];
      }
      var key := Canonical(accountId);
      if key !in accounts {
        return Response(404, Message(NotFoundMessage)), [];
      }
      var request := InventoryRequest(service, Some(accounts[key].accessToken), None);
      sent := [request];
      var outcome := Call(InventoryFailure, inventory(request));
      if outcome.Err? {
        return Response(500, Failed("Error syncing inventory", UpstreamFault(outcome.error))), sent;
      }
      resp := Response(200, Synced("Inventory synced successfully", outcome.value.inventoryItems.GetOr([])));
    }
  }
}
