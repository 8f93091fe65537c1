# Marketplace account linking: a Dafny model

This project models the part of a small Express/Mongoose backend that links a
user to marketplace seller accounts over OAuth 2.0 and keeps their tokens:

- the request handlers of `controllers/ebayController.js`:
  - starting the flow;
  - the OAuth callback;
  - listing, disconnecting and refreshing accounts;
  - syncing inventory;
  - checking and masking credentials.
- the request construction of `services/ebayService.js`:
  - host choice;
  - the authorization URL;
  - the code and refresh-token grants with HTTP Basic client authentication;
  - error messages;
  - the bulk price payload.
- the account record of `models/EbayAccount.js`:
  - required paths and defaults;
  - the `pre('save')` hook.

The controller is a class, `EbayController.Controller`, whose state is
`sessions` (the express session store, by session id) and `accounts` (the
collection, by ObjectId). Each handler that reads or changes the two stores is
a method of the class and returns the response. The handlers that call
upstream also return the requests they sent. Upstream outcomes are
caller-supplied functions from request to outcome. storeUserCredentials and
validateCredentials touch no state and are functions.

The service is pure. Its methods become functions that build the
`HttpRequest` axios would send, plus `Call`, which turns an outcome into the
data or the message of the error thrown.

A document of the model is the class `Accounts.Document`. The handlers assign
its paths in place and then call `Save`, which validates, runs the hook and
yields the record the handler writes to `accounts`.

The encodings the service relies on are modelled concretely, each with its
round trip proved:
- UTF-8 (RFC 3629) and base64 (section 4 of RFC 4648), under the Basic header
  (section 2 of RFC 7617);
- `encodeURIComponent` (ECMA-262 `uriUnreserved`), in the authorization URL;
- `application/x-www-form-urlencoded` serialization (WHATWG URL standard),
  in the token bodies;
- decimal rendering of the HTTP status.

The model follows the code, including where its behaviour is surprising:
- The refresh handler does not check `isActive`, so a disconnected account is
  still refreshed (controllers/ebayController.js:178-181).
- Refresh never replaces the stored refresh token, even when the response
  carries a new one (controllers/ebayController.js:191-192).
- With no pending session entry, the callback does not fail. It falls back to
  the process-wide credentials, field by field
  (controllers/ebayController.js:80-85).

## Model

| member | source | states |
|---|---|---|
| Utf8.EncodeChar | services/ebayService.js:38 | a character takes 1 to 4 bytes; ASCII is one byte of the same value; the later bytes are continuation bytes |
| Utf8.DecodeEncode | services/ebayService.js:38 | decoding the UTF-8 bytes of any string gives the string back |
| Utf8.EncodeAppend | services/ebayService.js:38 | the encoding of a concatenation is the concatenation of the encodings |
| Base64.Encode | services/ebayService.js:38 | base64 output has 4 characters per started group of 3 bytes |
| Base64.DecodeEncode | services/ebayService.js:38 | decoding the base64 of any byte string gives the bytes back |
| PercentEncoding.EncodeUriComponent | services/ebayService.js:18 | `encodeURIComponent` output consists only of unreserved characters and '%' escapes |
| PercentEncoding.UriComponentRoundTrip | services/ebayService.js:18 | `decodeURIComponent(encodeURIComponent(s)) == s` for every string |
| PercentEncoding.FormEncode | services/ebayService.js:30-34 | form encoding emits only alphanumerics, `*-._`, '%' escapes and '+' |
| PercentEncoding.FormRoundTrip | services/ebayService.js:30-34 | form-decoding a form-encoded string gives it back |
| PercentEncoding.FormDecodeUriComponent | services/ebayService.js:18 | a form reader decodes an `encodeURIComponent` value back to the original |
| FormUrlEncoded.ParseSerialize | services/ebayService.js:30-34 | reading a serialized `URLSearchParams` body gives back its fields, in order |
| FormUrlEncoded.ParseJoin | services/ebayService.js:18 | a query joined from readable segments reads as their fields, in order |
| Text.NatToString | services/ebayService.js:46 | the decimal text of a number is non-empty digits without a leading zero |
| Text.DigitsValueNatToString | services/ebayService.js:46 | reading the decimal text of a number gives the number |
| Text.SplitFirst | services/ebayService.js:38 | the part before the first separator holds none, and the parts rebuild the string |
| BasicAuth.ParseHeader | services/ebayService.js:38 | a server recovers exactly the client id and secret from the Basic header, for ids without ':' |
| BasicAuth.HeaderBytes | services/ebayService.js:38 | for any id and secret, the header is "Basic " and base64 that decodes to UTF-8(id), the byte 0x3A and UTF-8(secret) |
| EbayService.NewService | services/ebayService.js:4-8 | the two hosts are fixed, and sandbox mode is on iff EBAY_SANDBOX is exactly "true" |
| EbayService.BaseUrlChoice | services/ebayService.js:7-12 | the sandbox host is used iff EBAY_SANDBOX is "true", the production host otherwise |
| EbayService.RedirectUri | services/ebayService.js:16 | EBAY_REDIRECT_URI when set and non-empty, else the localhost callback |
| EbayService.AuthClientId | services/ebayService.js:15 | the client id is the argument, or EBAY_APP_ID when called without one |
| EbayService.AuthQueryParameters | services/ebayService.js:18 | the query reads as client_id, the decoded redirect URI, response_type=code and the fixed scope, in order |
| EbayService.GenerateAuthURLParameters | services/ebayService.js:15-21 | what a browser sends of the URL names the authorize endpoint and carries the four parameters of section 4.1.1 of RFC 6749, in order, for a client id the URL carries verbatim |
| EbayService.RedirectUriAgrees | services/ebayService.js:25-34 | the token request's redirect_uri equals the one the server received with the authorization request (section 4.1.3 of RFC 6749) |
| EbayService.ExchangeCodeRequest | services/ebayService.js:24-41 | a POST to the token URL with the form content type, the Basic header and exactly the three code-grant fields |
| EbayService.DevIdUnused | services/ebayService.js:24 | the code exchange does not depend on `devId` |
| EbayService.ExchangeClientAuthentication | services/ebayService.js:38 | the exchange's Authorization header decodes to the client id and secret it was given, for ids without ':' |
| EbayService.ExchangeWireBody | services/ebayService.js:30-34 | the exchange body read off the wire is exactly grant_type=authorization_code, code, redirect_uri |
| EbayService.RefreshTokenRequest | services/ebayService.js:53-67 | a POST to the same token URL with the Basic header and exactly the two refresh-grant fields |
| EbayService.RefreshClientAuthentication | services/ebayService.js:64 | the refresh's Authorization header decodes to the client id and secret it was given, for ids without ':' |
| EbayService.RefreshWireBody | services/ebayService.js:57-60 | the refresh body read off the wire is exactly grant_type=refresh_token and refresh_token |
| EbayService.TokenEndpointShared | services/ebayService.js:28-29 | both grants post to the same `/identity/v1/oauth2/token` URL on the host the environment selects |
| EbayService.UserInfoRequest | services/ebayService.js:79-89 | a GET of `/sell/account/v1/user` on the selected host with the `Bearer <token>` and JSON content-type headers and no body |
| EbayService.UpdatePricesRequest | services/ebayService.js:123-144 | a POST to `/sell/inventory/v1/bulk_update_price_quantity` with the bearer and JSON headers, whose payload has one mapped entry per item, in order |
| EbayService.ReadBearerOf | services/ebayService.js:85 | the token read back from the `Bearer` header value is exactly the token's template-literal text |
| EbayService.BearerShared | services/ebayService.js:79-144 | user info, inventory and price updates each carry a header from which exactly the given access token reads back, and each goes to the selected host |
| EbayService.InventoryDefaultLimit | services/ebayService.js:101-104 | without a limit the inventory URL asks for `limit=100` |
| EbayService.PriceRequestOf | services/ebayService.js:126-131 | item id and price are copied; the currency is the item's when non-empty, else "USD" |
| EbayService.PricePayloadOf | services/ebayService.js:125-133 | one payload entry per item, in the same order, each the mapping of its item |
| EbayService.PricePayloadAppend | services/ebayService.js:126 | the payload mapping distributes over concatenation |
| EbayService.Call | services/ebayService.js:43-49 | a success yields the response data; a failure yields the message of the error thrown |
| EbayService.ReadApiErrorOf | services/ebayService.js:46 | an "eBay API Error: <status> - <detail>" message reads back as exactly that status and detail |
| EbayService.ErrorMessageForms | services/ebayService.js:44-49 | the message reads back as the status and detail iff the upstream answered with a body; without a response it starts with the operation's prefix |
| EbayService.OperationPrefixes | services/ebayService.js:48 | no operation prefix can be mistaken for the API-error form |
| Accounts.FailingAmong | models/EbayAccount.js:3-37 | the paths reported are exactly the listed ones that fail, and none are reported iff none fail |
| Accounts.MissingPaths | models/EbayAccount.js:3-37 | a path is reported iff it is unset or an empty string, or the expiry is an invalid date |
| Accounts.Validate | models/EbayAccount.js:3-37 | validation succeeds iff no path fails; the record it yields is valid and has exactly the document's paths |
| Accounts.ValidateFieldsOf | models/EbayAccount.js:3-37 | a stored valid record validates as itself |
| Accounts.SchemaOrderComplete | models/EbayAccount.js:3-37 | the schema order lists every required path |
| Accounts.MissingPathsIgnoreUpdatedAt | models/EbayAccount.js:46-55 | the hook's change of `updatedAt` cannot change validation's verdict |
| Accounts.Expiry | controllers/ebayController.js:107 | the expiry is a valid date iff `expires_in` is present and the time lies within the ±8.64e15 ms a JavaScript Date holds; it then lies `expires_in` seconds after now |
| Accounts.ReassignTokens | controllers/ebayController.js:190-194 | saving a new token and expiry succeeds iff both are present; then only they and `updatedAt` change, else exactly the absent ones are reported |
| Accounts.Document.constructor | models/EbayAccount.js:38-49 | a new document has the given paths, `isActive` true, and both dates the current time |
| Accounts.Document.Load | controllers/ebayController.js:178 | a loaded document has exactly the stored record's paths |
| Accounts.Document.PreSave | models/EbayAccount.js:52-55 | the hook sets `updatedAt` to now and changes no other path |
| Accounts.Document.Save | models/EbayAccount.js:52-55 | validation runs first: on failure nothing changes and the failing paths are reported; otherwise the hook runs and the record written equals the document |
| EbayController.Mask | controllers/ebayController.js:22-24 | at most the first five characters, followed by "***" |
| EbayController.MaskAgrees | controllers/ebayController.js:22-24 | two secrets mask alike iff their first five characters agree |
| EbayController.Canonical | controllers/ebayController.js:152 | each hex digit is read case-insensitively, as an ObjectId cast does |
| EbayController.CanonicalIds | controllers/ebayController.js:148 | every id the format check accepts names a stored-form id, and every stored-form id passes the check as itself |
| EbayController.StoreUserCredentials | controllers/ebayController.js:6-33 | 400 iff a credential is missing or empty; otherwise the three masked credentials |
| EbayController.ValidateCredentials | controllers/ebayController.js:255-272 | 200 with isValid iff all three credentials are present, else 400 |
| EbayController.CredentialChecksAgree | controllers/ebayController.js:258-262 | validateCredentials refuses exactly the bodies storeUserCredentials and initiateOAuthFlow refuse (the same test at lines 12, 41 and 260), and a triple it accepts is the one the callback of a flow started with it authenticates with |
| EbayController.ChosenCredentials | controllers/ebayController.js:80-85 | each credential is the pending session's non-empty value, else the environment's, field by field |
| EbayController.Connect | controllers/ebayController.js:91-113 | a record only when the exchange and user-info calls succeed and all paths are present; it holds the owner, remote id, both tokens, the expiry, the chosen triple, isActive and now; otherwise the first failure |
| EbayController.SaveNewAccount | controllers/ebayController.js:102-113 | building the document and saving it yields exactly what validation yields for the new paths |
| EbayController.Refreshed | controllers/ebayController.js:184-194 | an upstream failure is a fault; otherwise a record iff the new token and expiry are present, equal to the old one but for them and `updatedAt`; else exactly the failing paths |
| EbayController.SaveTokens | controllers/ebayController.js:178-194 | loading, assigning the token and expiry, and saving yields exactly what validation yields for the updated paths |
| EbayController.CallbackUsesFlowCredentials | controllers/ebayController.js:83-96 | after the flow stored a triple, the callback authenticates with exactly its id and secret, and that id is the client_id of the authorization URL |
| EbayController.ActiveAccountsOf | controllers/ebayController.js:135 | exactly the accounts owned by the user that are active |
| EbayController.Deactivate | controllers/ebayController.js:152-156 | only the one account's `isActive` becomes false; `updatedAt` and all other accounts are kept |
| EbayController.DeactivateIdempotent | controllers/ebayController.js:152-156 | disconnecting twice is disconnecting once |
| EbayController.DeactivateHides | controllers/ebayController.js:133-166 | after a disconnect every user's list is the old list without that account |
| EbayController.Controller.constructor | services/ebayService.js:156 | the service is built once from the environment; no sessions and no accounts |
| EbayController.Controller.InitiateOAuthFlow | controllers/ebayController.js:36-68 | an incomplete triple gives 400 and no change; otherwise the session's entry is overwritten with the triple and now, and the authorization URL is returned |
| EbayController.Controller.HandleCallback | controllers/ebayController.js:71-130 | no code: 400, nothing read, cleared or sent; otherwise the session entry is gone, the exchange and then user info are sent, and the account is added under the new id exactly when `Connect` yields it, else 500 with the fault |
| EbayController.Controller.GetAccounts | controllers/ebayController.js:133-140 | the caller's active accounts |
| EbayController.Controller.DisconnectAccount | controllers/ebayController.js:143-166 | a malformed id gives 400 and an unknown one 404, nothing changed; otherwise the account, whoever owns it, is deactivated |
| EbayController.Controller.RefreshToken | controllers/ebayController.js:169-200 | 400/404 with nothing sent; else the refresh grant with the account's own refresh token, app id and cert id, active or not; the account is replaced by `Refreshed`'s record when there is one, else nothing is saved and 500 carries the fault |
| EbayController.Controller.SyncInventory | controllers/ebayController.js:203-227 | 400/404 with nothing sent; else one inventory request with the account's token and the default limit, and its items or `[]` |

## Left out

- Network: axios calls are not performed. Each outcome is a parameter; the response bodies hold only the fields the code reads.
- Clock: every `Date.now()` of one request is the single parameter `now`. The source reads it several times: the session timestamp, the expiry, the schema defaults and the hook.
- ObjectId generation: the new account's id is a parameter. `HandleCallback` requires it to be fresh and in stored form, as generated ids are.
- `searchCompetitors` is not modelled: it calls a service method that does not exist in services/ebayService.js.
- Routing, the server set-up, user authentication and the other models are not part of this model.
- Concurrency: each handler runs alone. Racing refreshes and the session read-then-delete are not modelled.
- The 500 catch-all branches are modelled only where a modelled input reaches them: upstream failures and failed validation. They also fire on inputs the model does not represent: non-string request values, database failures, and a JSON `null` response body from upstream. `tokenResponse.access_token` (controllers/ebayController.js:99) and `inventory.inventoryItems` (controllers/ebayController.js:222) throw a TypeError on such a body. The model's upstream responses are always objects.
- Request body values are strings or undefined. Numbers, objects and `null` are not modelled.
- The callback's `code` is a string or undefined. Express gives an array for a repeated parameter (`?code=a&code=b`); it is truthy and is sent as "a,b". That case is not modelled.
- Strings are sequences of Unicode scalar values. A JSON string holding a lone UTF-16 surrogate cannot be represented; `Buffer.from` would encode it as U+FFFD (services/ebayService.js:38).
- Logging: the `console.error` of the callback's catch branch (controllers/ebayController.js:124) is output only and is not modelled.
- Mask: `substring` counts UTF-16 code units; the model counts characters. They differ only for characters outside the Basic Multilingual Plane.
- Validation error text: Mongoose's message is represented by the list of failing paths. Cast errors for values other than a missing `expires_in` are not modelled.
- Expiry: `expires_in` is an integer and the arithmetic is exact. Fractional and string values, and the rounding of double-precision arithmetic, are not modelled. The Date range is modelled.
- ErrorMessage: a response whose `data` is `null` throws a different TypeError message; that case is not modelled.
- GetAccounts returns the accounts as a map by id. The order `find` returns them in and their JSON rendering are not modelled.
- Prices are copied as reals; floating-point behaviour is not modelled.
- Session persistence and expiry in the express session store are not modelled.
- EbayService.AuthQueryParameters: the client id is inserted unencoded. The read-back is therefore stated only for ids without '&', '%' and '+'.
- EbayService.GenerateAuthURLParameters: stated only for ids the URL carries verbatim (`IsVerbatimId`). That excludes '&', '%' and '+', as above, and also '#', tab, LF and CR: a URL parser drops tabs and newlines and does not send anything from '#' on. For an id with '#', a browser sends neither the rest of the id nor the other three parameters.
- EbayService.RedirectUriAgrees: stated under the same `IsVerbatimId` condition, for the same reasons.
- EbayController.CallbackUsesFlowCredentials: stated for app ids without ':', which the Basic header cannot carry unambiguously, and under the same `IsVerbatimId` condition.
- ReadAuthURL: the percent-encoding a URL parser applies to characters such as space or '"' in the query is not modelled. A form reader decodes those escapes back, so the parameters read are the same.
- The form reader used in the lemmas rejects malformed '%' escapes, where the WHATWG parser would keep them. It reads only what the serializer writes.
