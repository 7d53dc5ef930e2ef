/**
 * The tenant directory: the master database's `admins` and `organizations`
 * collections, plus every tenant collection, as one immutable store value.
 * The workflows of the organisation service are transitions over it.
 */
module Directory {
  import opened Wrappers
  import opened ObjectIds
  import opened Tables
  import Text
  import Database

  /** A `datetime.utcnow()` value; only ever copied, never inspected. */
  type Timestamp = nat

  /** A document of the `admins` collection. */
  datatype Admin = Admin(
    email: string,
    hashedPassword: string,
    organizationName: string,
    orgCollection: string,
    createdAt: Timestamp)

  /** A document of the `organizations` collection. */
  datatype Organization = Organization(
    organizationName: string,
    collectionName: string,
    adminId: Id,
    adminEmail: string,
    createdAt: Timestamp)

  /**
   * A tenant document: its `_id`, whether it carries `"_dummy": True`, and
   * the rest of its fields, which the service never inspects.
   */
  datatype Document = Document(id: Id, dummy: bool, payload: string)

  /**
   * The whole database. `nextId` is the next fresh ObjectId; a collection
   * name absent from `collections` is a collection that does not exist.
   */
  datatype Store = Store(
    admins: seq<Row<Admin>>,
    organizations: seq<Row<Organization>>,
    collections: map<string, seq<Document>>,
    nextId: Id)

  /** The organisation view the service returns: never a password or a hash. */
  datatype OrgView = OrgView(
    organizationName: string,
    collectionName: string,
    adminEmail: string,
    createdAt: Timestamp)

  /**
   * An exception a request ends with: an `HTTPException`, the 422 of request
   * validation naming the fields that failed, or any other exception.
   */
  datatype Raised =
    | HttpException(status: int, detail: string, bearerChallenge: bool)
    | RequestInvalid(fields: seq<string>)
    | OtherException(message: string)

  /** The store after a workflow, together with its return value or exception. */
  datatype Step<T> = Step(store: Store, outcome: Result<T, Raised>)

  const BadRequest: int := 400
  const Unauthorized: int := 401
  const Forbidden: int := 403
  const NotFound: int := 404
  const Unprocessable: int := 422
  const ServerError: int := 500
  const Unavailable: int := 503

  function Conflict(detail: string): Raised {
    HttpException(BadRequest, detail, false)
  }

  function ViewOf(org: Organization): OrgView {
    OrgView(org.organizationName, org.collectionName, org.adminEmail, org.createdAt)
  }

  /** The filter `{"organization_name": name}`. */
  function OrgNamed(name: string): Row<Organization> -> bool {
    (r: Row<Organization>) => r.rec.organizationName == name
  }

  /** The filter `{"email": email}`. */
  function AdminWithEmail(email: string): Row<Admin> -> bool {
    (r: Row<Admin>) => r.rec.email == email
  }

  /** The filter `{"email": email, "_id": {"$ne": id}}`. */
  function OtherAdminWithEmail(email: string, id: Id): Row<Admin> -> bool {
    (r: Row<Admin>) => r.rec.email == email && r.id != id
  }

  /** The filter `{"organization_name": name, "admin_id": id}`. */
  function OrgNamedOwnedBy(name: string, id: Id): Row<Organization> -> bool {
    (r: Row<Organization>) => r.rec.organizationName == name && r.rec.adminId == id
  }

  predicate OrgNameTaken(s: Store, name: string) {
    Find(s.organizations, OrgNamed(name)).Some?
  }

  predicate EmailTaken(s: Store, email: string) {
    Find(s.admins, AdminWithEmail(email)).Some?
  }

  /** The documents of a collection; a missing collection reads as empty. */
  function Docs(s: Store, name: string): seq<Document> {
    if name in s.collections then s.collections[name] else []
  }

  /** `db.drop_collection(name)`: a no-op when the collection does not exist. */
  function DropCollection(s: Store, name: string): (r: Store)
    ensures name !in r.collections && Docs(r, name) == []
    ensures forall c :: c != name ==> (c in r.collections <==> c in s.collections) && Docs(r, c) == Docs(s, c)
    ensures r.admins == s.admins && r.organizations == s.organizations && r.nextId == s.nextId
  {
    s.(collections := s.collections - {name})
  }

  /** Two documents equal in everything but their `_id`. */
  predicate SameContent(a: Document, b: Document) {
    a.dummy == b.dummy && a.payload == b.payload
  }

  /** An organisation record as the workflows write it: trimmed name, derived collection. */
  predicate Normalized(org: Organization) {
    Text.Strip(org.organizationName) == org.organizationName
    && org.collectionName == Database.OrgCollectionName(org.organizationName)
  }

  /** The admin record carries the same denormalised fields as its organisation. */
  predicate Mirrors(admin: Admin, org: Organization) {
    admin.email == org.adminEmail
    && admin.organizationName == org.organizationName
    && admin.orgCollection == org.collectionName
  }

  /**
   * The directory invariants the sequential workflows maintain: fresh and
   * distinct ids, unique admin emails, unique organisation names, one admin
   * per organisation, and every organisation's admin present and in step.
   */
  ghost predicate WellFormed(s: Store) {
    FreshIds(s) && UniqueKeys(s) && Owned(s)
  }

  /** Every id was handed out before `nextId`, and no two records of a table share one. */
  ghost predicate FreshIds(s: Store) {
    && IdsBelow(s.admins, s.nextId)
    && IdsBelow(s.organizations, s.nextId)
    && DistinctIds(s.admins)
    && DistinctIds(s.organizations)
  }

  /** Admin emails, organisation names and organisation owners are each unique. */
  ghost predicate UniqueKeys(s: Store) {
    && (forall i, j :: 0 <= i < j < |s.admins| ==> s.admins[i].rec.email != s.admins[j].rec.email)
    && (forall i, j :: 0 <= i < j < |s.organizations| ==>
          s.organizations[i].rec.organizationName != s.organizations[j].rec.organizationName)
    && (forall i, j :: 0 <= i < j < |s.organizations| ==>
          s.organizations[i].rec.adminId != s.organizations[j].rec.adminId)
  }

  /** Every organisation is normalised and has its admin, in step with it. */
  ghost predicate Owned(s: Store) {
    && (forall i :: 0 <= i < |s.organizations| ==> Normalized(s.organizations[i].rec))
    && (forall i :: 0 <= i < |s.organizations| ==> HasOwner(s, s.organizations[i].rec))
  }

  /** The organisation's admin exists and mirrors it. */
  ghost predicate HasOwner(s: Store, org: Organization) {
    exists j :: 0 <= j < |s.admins| && s.admins[j].id == org.adminId && Mirrors(s.admins[j].rec, org)
  }

  /** The empty database satisfies the invariants. */
  lemma EmptyWellFormed()
    ensures WellFormed(Store([], [], map[], 0))
  {
  }
}
