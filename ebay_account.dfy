/** models/EbayAccount.js: the stored record of a linked marketplace account,
    the schema's required paths and defaults, and the document whose
    pre('save') hook stamps `updatedAt`. Dates are milliseconds since the epoch. */
module Accounts {
  import opened Common

  /** A user's id (its ObjectId as text). */
  type UserId = string

  /** A record as the collection holds it: every required path is set. */
  datatype EbayAccount = EbayAccount(
    userId: UserId,
    ebayAccountId: string,
    accessToken: string,
    refreshToken: string,
    tokenExpiry: int,
    appId: string,
    certId: string,
    devId: string,
    isActive: bool,
    createdAt: int,
    updatedAt: int)

  /** The required string paths hold non-empty strings, as Mongoose's required
      check for strings demands. */
  predicate Valid(a: EbayAccount) {
    a.ebayAccountId != "" && a.accessToken != "" && a.refreshToken != "" &&
    a.appId != "" && a.certId != "" && a.devId != ""
  }

  /** The eight required paths of the schema. */
  datatype Path =
    | UserIdPath | EbayAccountIdPath | AccessTokenPath | RefreshTokenPath
    | TokenExpiryPath | AppIdPath | CertIdPath | DevIdPath

  const SchemaOrder: seq<Path> := [UserIdPath, EbayAccountIdPath, AccessTokenPath, RefreshTokenPath,
                                   TokenExpiryPath, AppIdPath, CertIdPath, DevIdPath]

  /** The paths of a document in memory, any of which may be unset. A missing
      `tokenExpiry` stands for an Invalid Date, which fails to cast. */
  datatype Fields = Fields(
    userId: Option<UserId>,
    ebayAccountId: JsString,
    accessToken: JsString,
    refreshToken: JsString,
    tokenExpiry: Option<int>,
    appId: JsString,
    certId: JsString,
    devId: JsString,
    isActive: bool,
    createdAt: int,
    updatedAt: int)

  /** Whether validation rejects path `p` of `f`. */
  predicate Fails(f: Fields, p: Path) {
    match p
    case UserIdPath => f.userId.None?
    case EbayAccountIdPath => !Truthy(f.ebayAccountId)
    case AccessTokenPath => !Truthy(f.accessToken)
    case RefreshTokenPath => !Truthy(f.refreshToken)
    case TokenExpiryPath => f.tokenExpiry.None?
    case AppIdPath => !Truthy(f.appId)
    case CertIdPath => !Truthy(f.certId)
    case DevIdPath => !Truthy(f.devId)
  }

  function FailingAmong(f: Fields, ps: seq<Path>): (r: seq<Path>)
    ensures forall p :: p in r <==> p in ps && Fails(f, p)
    ensures r == [] <==> forall p :: p in ps ==> !Fails(f, p)
  {
    if ps == [] then []
    else (if Fails(f, ps[0]) then [ps[0]] else []) + FailingAmong(f, ps[1..])
  }

  /** The schema lists every path. */
  lemma SchemaOrderComplete(p: Path)
    ensures p in SchemaOrder
  {
    match p
    case UserIdPath => assert SchemaOrder[0] == p;
    case EbayAccountIdPath => assert SchemaOrder[1] == p;
    case AccessTokenPath => assert SchemaOrder[2] == p;
    case RefreshTokenPath => assert SchemaOrder[3] == p;
    case TokenExpiryPath => assert SchemaOrder[4] == p;
    case AppIdPath => assert SchemaOrder[5] == p;
    case CertIdPath => assert SchemaOrder[6] == p;
    case DevIdPath => assert SchemaOrder[7] == p;
  }

  /** The paths that fail validation, in schema order. */
  function MissingPaths(f: Fields): (r: seq<Path>)
    ensures forall p :: p in r <==> Fails(f, p)
    ensures r == [] <==> forall p :: !Fails(f, p)
  {
    forall p ensures p in SchemaOrder {
      SchemaOrderComplete(p);
    }
    FailingAmong(f, SchemaOrder)
  }

  /** The paths of a stored record. */
  function FieldsOf(a: EbayAccount): Fields {
    Fields(Some(a.userId), Some(a.ebayAccountId), Some(a.accessToken), Some(a.refreshToken),
           Some(a.tokenExpiry), Some(a.appId), Some(a.certId), Some(a.devId),
           a.isActive, a.createdAt, a.updatedAt)
  }

  /** Validation: the record the document stands for, or the failing paths.
      A record it accepts has exactly the document's paths. */
  function Validate(f: Fields): (r: Result<EbayAccount, seq<Path>>)
    ensures r.Ok? <==> MissingPaths(f) == []
    ensures r.Err? ==> r.error == MissingPaths(f)
    ensures r.Ok? ==> Valid(r.value) && FieldsOf(r.value) == f
  {
    if MissingPaths(f) != [] then Err(MissingPaths(f))
    else
      assert !Fails(f, UserIdPath) && !Fails(f, EbayAccountIdPath) && !Fails(f, AccessTokenPath);
      assert !Fails(f, RefreshTokenPath) && !Fails(f, TokenExpiryPath) && !Fails(f, AppIdPath);
      assert !Fails(f, CertIdPath) && !Fails(f, DevIdPath);
      Ok(EbayAccount(f.userId.value, f.ebayAccountId.value, f.accessToken.value, f.refreshToken.value,
                     f.tokenExpiry.value, f.appId.value, f.certId.value, f.devId.value,
                     f.isActive, f.createdAt, f.updatedAt))
  }

  /** A stored valid record validates again as itself. */
  lemma ValidateFieldsOf(a: EbayAccount)
    requires Valid(a)
    ensures Validate(FieldsOf(a)) == Ok(a)
  {
    var f := FieldsOf(a);
    forall p ensures !Fails(f, p) {
    }
  }

  /** Distinct records have distinct paths. */
  lemma FieldsOfInjective(a: EbayAccount, b: EbayAccount)
    requires FieldsOf(a) == FieldsOf(b)
    ensures a == b
  {
  }

  /** Validation does not look at `updatedAt`, so the hook cannot change its verdict. */
  lemma MissingPathsIgnoreUpdatedAt(f: Fields, t: int)
    ensures MissingPaths(f.(updatedAt := t)) == MissingPaths(f)
  {
    IgnoreUpdatedAtAmong(f, t, SchemaOrder);
  }

  lemma FailsIgnoreUpdatedAt(f: Fields, t: int, p: Path)
    ensures Fails(f.(updatedAt := t), p) == Fails(f, p)
  {
  }

  lemma {:induction false} IgnoreUpdatedAtAmong(f: Fields, t: int, ps: seq<Path>)
    ensures FailingAmong(f.(updatedAt := t), ps) == FailingAmong(f, ps)
  {
    if ps != [] {
      var g := f.(updatedAt := t);
      IgnoreUpdatedAtAmong(f, t, ps[1..]);
      FailsIgnoreUpdatedAt(f, t, ps[0]);
      assert FailingAmong(g, ps) == (if Fails(g, ps[0]) then [ps[0]] else []) + FailingAmong(g, ps[1..]);
      assert FailingAmong(f, ps) == (if Fails(f, ps[0]) then [ps[0]] else []) + FailingAmong(f, ps[1..]);
    }
  }

  /** The largest distance from the epoch, in milliseconds, that a JavaScript
      Date can hold (ECMA-262's TimeClip turns anything beyond it into NaN). */
  const MaxTimeValue: int := 8_640_000_000_000_000

  /** The JavaScript `new Date(Date.now() + expires_in * 1000)`: a missing
      `expires_in` gives NaN, and a time further than `MaxTimeValue` from the
      epoch is clipped to NaN; either is an Invalid Date. */
  function Expiry(now: int, expiresIn: Option<int>): (r: Option<int>)
    ensures r.Some? <==> expiresIn.Some? && -MaxTimeValue <= now + 1000 * expiresIn.value <= MaxTimeValue
    ensures r.Some? ==> r.value - now == 1000 * expiresIn.value
  {
    match expiresIn
    case None => None
    case Some(seconds) =>
      var t := now + seconds * 1000;
      if -MaxTimeValue <= t <= MaxTimeValue then Some(t) else None
  }

  /** Putting a new access token and expiry on a valid record and saving it:
      the save succeeds exactly when both are present, and then only the
      access token, the expiry and `updatedAt` differ from the old record;
      otherwise exactly the absent ones are reported. */
  lemma ReassignTokens(a: EbayAccount, accessToken: JsString, tokenExpiry: Option<int>, now: int)
    requires Valid(a)
    ensures var f := FieldsOf(a).(accessToken := accessToken, tokenExpiry := tokenExpiry);
      var r := Validate(f.(updatedAt := now));
      && (r.Ok? <==> Truthy(accessToken) && tokenExpiry.Some?)
      && (r.Ok? ==> r.value == a.(accessToken := accessToken.value, tokenExpiry := tokenExpiry.value, updatedAt := now))
      && (r.Err? ==> forall p :: p in r.error <==>
            (p == AccessTokenPath && !Truthy(accessToken)) || (p == TokenExpiryPath && tokenExpiry.None?))
  {
    var f := FieldsOf(a).(accessToken := accessToken, tokenExpiry := tokenExpiry).(updatedAt := now);
    var m := MissingPaths(f);
    forall p ensures p in m <==> (p == AccessTokenPath && !Truthy(accessToken)) || (p == TokenExpiryPath && tokenExpiry.None?) {
      assert p in m <==> Fails(f, p);
    }
    if Validate(f).Ok? {
      assert FieldsOf(Validate(f).value) == f;
    }
  }

  /** A Mongoose document of the model: an object whose paths are assigned
      in place before it is saved. */
  class Document {
    var userId: Option<UserId>
    var ebayAccountId: JsString
    var accessToken: JsString
    var refreshToken: JsString
    var tokenExpiry: Option<int>
    var appId: JsString
    var certId: JsString
    var devId: JsString
    var isActive: bool
    var createdAt: int
    var updatedAt: int

    /** The document's paths as a value. */
    function Paths(): Fields
      reads this
    {
      Fields(userId, ebayAccountId, accessToken, refreshToken, tokenExpiry, appId, certId, devId,
             isActive, createdAt, updatedAt)
    }

    /** `new EbayAccount({...})`: the given paths, `isActive` defaulting to true
        and both dates to the current time. */
    constructor (userId: UserId, ebayAccountId: JsString, accessToken: JsString, refreshToken: JsString,
                 tokenExpiry: Option<int>, appId: JsString, certId: JsString, devId: JsString, now: int)
      ensures Paths() == Fields(Some(userId), ebayAccountId, accessToken, refreshToken, tokenExpiry,
                                appId, certId, devId, true, now, now)
    {
      this.userId := Some(userId);
      this.ebayAccountId := ebayAccountId;
      this.accessToken := accessToken;
      this.refreshToken := refreshToken;
      this.tokenExpiry := tokenExpiry;
      this.appId := appId;
      this.certId := certId;
      this.devId := devId;
      this.isActive := true;
      this.createdAt := now;
      this.updatedAt := now;
    }

    /** A document read from the collection. */
    constructor Load(a: EbayAccount)
      ensures Paths() == FieldsOf(a)
    {
      userId := Some(a.userId);
      ebayAccountId := Some(a.ebayAccountId);
      accessToken := Some(a.accessToken);
      refreshToken := Some(a.refreshToken);
      tokenExpiry := Some(a.tokenExpiry);
      appId := Some(a.appId);
      certId := Some(a.certId);
      devId := Some(a.devId);
      isActive := a.isActive;
      createdAt := a.createdAt;
      updatedAt := a.updatedAt;
    }

    /** The pre('save') hook: `updatedAt` becomes the current time and no other path changes. */
    method PreSave(now: int)
      modifies this
      ensures Paths() == old(Paths()).(updatedAt := now)
    {
      updatedAt := now;
    }

    /** `save()`: validation runs first; when it fails the hook does not run
        and the error lists the failing paths, otherwise the hook runs and the
        record written is the document's paths. */
    method Save(now: int) returns (r: Result<EbayAccount, seq<Path>>)
      modifies this
      ensures old(MissingPaths(Paths())) != [] ==> r == Err(old(MissingPaths(Paths()))) && Paths() == old(Paths())
      ensures old(MissingPaths(Paths())) == [] ==>
        Paths() == old(Paths()).(updatedAt := now) && r.Ok? && FieldsOf(r.value) == Paths() && Valid(r.value)
    {
      var missing := MissingPaths(Paths());
      if missing != [] {
        return Err(missing);
      }
      PreSave(now);
      MissingPathsIgnoreUpdatedAt(old(Paths()), now);
      r := Validate(Paths());
    }
  }
}
