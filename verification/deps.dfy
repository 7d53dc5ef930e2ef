/**
 * The authorisation gate every protected route depends on: bearer token,
 * JWT decode, `admin_id` claim, master-database handle, admin lookup. The
 * JWT library and the database handle are reduced to the outcomes the gate
 * can observe; every failure carries the `WWW-Authenticate: Bearer` header.
 */
module Deps {
  import opened Wrappers
  import opened ObjectIds
  import opened Tables
  import opened Directory
  import Text

  /** The JSON value of the `admin_id` claim. */
  datatype ClaimValue = StringClaim(text: string) | NullClaim | OtherClaim

  /**
   * What `decode_access_token` gives: the payload's `admin_id` entry
   * (`None` when absent), or one of the two `ValueError`s it raises.
   */
  datatype Decoded =
    | Claims(adminId: Option<ClaimValue>)
    | Expired
    | Malformed(reason: string)

  /**
   * What `get_master_db()` and the `find_one` on it give: a connected store,
   * the `RuntimeError` of a missing connection, or a query that raises.
   */
  datatype MasterDb =
    | Ready(store: Store)
    | NotConnected(reason: string)
    | QueryFails

  /** The admin record as the gate returns it, with `admin_id` added. */
  datatype CurrentAdmin = CurrentAdmin(adminId: string, id: Id, record: Admin)

  const NotAuthenticated: string := "Not authenticated"
  const CouldNotValidate: string := "Could not validate credentials"

  function Challenge(status: int, detail: string): Raised {
    HttpException(status, detail, true)
  }

  /** The reason text of the `ValueError` a failed decode raises. */
  function DecodeError(d: Decoded): string
    requires !d.Claims?
  {
    if d.Expired? then "Token has expired" else "Invalid token: " + d.reason
  }

  /** The claim names an admin by a well-formed ObjectId string. */
  predicate UsableClaim(c: Option<ClaimValue>) {
    c.Some? && c.value.StringClaim? && Parse(c.value.text).Some?
  }

  /**
   * `get_current_admin`. The checks run in this order: credentials,
   * decode, `admin_id` present and not null, database handle, ObjectId
   * parse, lookup. The two inner 401s and every unexpected error collapse
   * into "Could not validate credentials"; only a missing database is 503.
   */
  function GetCurrentAdmin(credentials: Option<string>, decode: string -> Decoded, db: MasterDb): (r: Result<CurrentAdmin, Raised>)
    ensures r.Failure? ==> r.error.HttpException? && r.error.bearerChallenge
    ensures r.Failure? ==> r.error.status == Unauthorized || r.error.status == Unavailable
    ensures credentials.None? ==> r == Failure(Challenge(Unauthorized, NotAuthenticated))
    ensures credentials.Some? && !decode(credentials.value).Claims? ==>
      r == Failure(Challenge(Unauthorized, DecodeError(decode(credentials.value))))
    ensures r.Failure? && r.error.status == Unauthorized && credentials.Some? && decode(credentials.value).Claims? ==>
      r.error.detail == CouldNotValidate
    ensures r.Failure? && r.error.status == Unavailable ==>
      db.NotConnected? && r.error.detail == "Database not available: " + db.reason
    ensures credentials.Some? && decode(credentials.value).Claims? && !UsableClaim(decode(credentials.value).adminId)
            && !db.NotConnected? ==>
      r == Failure(Challenge(Unauthorized, CouldNotValidate))
    ensures credentials.Some? && decode(credentials.value).Claims? && UsableClaim(decode(credentials.value).adminId)
            && db.Ready? && Find(db.store.admins, HasId(Parse(decode(credentials.value).adminId.value.text).value)).None? ==>
      r == Failure(Challenge(Unauthorized, CouldNotValidate))
    ensures r.Failure? && r.error.status == Unavailable <==>
      && credentials.Some? && decode(credentials.value).Claims?
      && var c := decode(credentials.value).adminId;
         c.Some? && c.value != NullClaim && db.NotConnected?
    ensures r.Success? <==>
      && credentials.Some? && decode(credentials.value).Claims?
      && UsableClaim(decode(credentials.value).adminId)
      && db.Ready?
      && Find(db.store.admins, HasId(Parse(decode(credentials.value).adminId.value.text).value)).Some?
    ensures r.Success? ==>
      var id := Parse(decode(credentials.value).adminId.value.text).value;
      && r.value.id == id
      && Parse(r.value.adminId) == Some(id)
      && r.value.adminId == Text.Lower(decode(credentials.value).adminId.value.text)
      && exists k :: 0 <= k < |db.store.admins| && db.store.admins[k].id == id && r.value.record == db.store.admins[k].rec
  {
    if credentials.None? then
      Failure(Challenge(Unauthorized, NotAuthenticated))
    else
      var decoded := decode(credentials.value);
      if !decoded.Claims? then
        Failure(Challenge(Unauthorized, DecodeError(decoded)))
      else if decoded.adminId.None? || decoded.adminId.value == NullClaim then
        Failure(Challenge(Unauthorized, CouldNotValidate))
      else if db.NotConnected? then
        Failure(Challenge(Unavailable, "Database not available: " + db.reason))
      else if !UsableClaim(decoded.adminId) || db.QueryFails? then
        Failure(Challenge(Unauthorized, CouldNotValidate))
      else
        var id := Parse(decoded.adminId.value.text).value;
        match Find(db.store.admins, HasId(id))
        case None => Failure(Challenge(Unauthorized, CouldNotValidate))
        case Some(k) =>
          FormatParse(decoded.adminId.value.text);
          ParseFormat(id);
          Success(CurrentAdmin(Format(id), id, db.store.admins[k].rec))
  }
}
