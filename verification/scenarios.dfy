/**
 * What one request lets the next one see: a created organisation can be
 * fetched and its admin can log in, a login's id passes the gate, a rename
 * moves the name and the data, a delete makes the name and the admin
 * unknown, and the route-level quirks of the update path.
 */
module Scenarios {
  import opened Wrappers
  import opened ObjectIds
  import opened Tables
  import opened Directory
  import OrgService
  import AuthService
  import Deps
  import Text
  import Database
  import OrgModel
  import OrgRoutes

  /** A successful create adds the trimmed name, and looking it up returns the view create returned. */
  lemma CreateThenGet(
    s: Store, organizationName: string, email: string, password: string,
    hash: string -> string, adminCreatedAt: Timestamp, orgCreatedAt: Timestamp)
    requires OrgService.Create(s, organizationName, email, password, hash, adminCreatedAt, orgCreatedAt).outcome.Success?
    ensures var out := OrgService.Create(s, organizationName, email, password, hash, adminCreatedAt, orgCreatedAt);
      OrgService.Get(out.store, organizationName) == Some(out.outcome.value)
  {
    var out := OrgService.Create(s, organizationName, email, password, hash, adminCreatedAt, orgCreatedAt);
    var name := Text.Strip(organizationName);
    var org := out.store.organizations[|s.organizations|];
    assert out.store.organizations == s.organizations + [org];
    FindAppended(s.organizations, org, OrgNamed(name));
  }

  /**
   * The routes agree: a `POST /` answered 201 makes `GET /{name}` on the same
   * raw name answer 200 with the body the create returned.
   */
  lemma CreateOrgThenGetOrg(
    s: Store, name: string, email: string, password: string,
    hash: string -> string, adminCreatedAt: Timestamp, orgCreatedAt: Timestamp)
    requires OrgRoutes.CreateOrg(s, name, email, password, hash, adminCreatedAt, orgCreatedAt).outcome.Success?
    ensures var out := OrgRoutes.CreateOrg(s, name, email, password, hash, adminCreatedAt, orgCreatedAt);
      OrgRoutes.GetOrg(out.store, name) == Success(OrgRoutes.Response(OrgRoutes.Ok, out.outcome.value.body))
  {
    var trimmed := Text.Strip(name);
    var service := OrgService.Create(s, trimmed, email, password, hash, adminCreatedAt, orgCreatedAt);
    CreateThenGet(s, trimmed, email, password, hash, adminCreatedAt, orgCreatedAt);
    Text.StripIdempotent(name);
    assert OrgService.Get(service.store, name) == OrgService.Get(service.store, trimmed);
  }

  /**
   * The admin a create registers can log in with the same password (given
   * a `verify` that accepts what `hash` produced), and the login describes
   * that admin; a password `verify` rejects is refused with the common 401.
   */
  lemma CreateThenLogin(
    s: Store, organizationName: string, email: string, password: string, attempt: string,
    hash: string -> string, verify: (string, string) -> bool, adminCreatedAt: Timestamp, orgCreatedAt: Timestamp)
    requires OrgService.Create(s, organizationName, email, password, hash, adminCreatedAt, orgCreatedAt).outcome.Success?
    ensures var out := OrgService.Create(s, organizationName, email, password, hash, adminCreatedAt, orgCreatedAt);
      var login := AuthService.Login(out.store, email, attempt, verify);
      var name := Text.Strip(organizationName);
      && (login.Success? <==> verify(attempt, hash(password)))
      && (login.Success? ==>
            login.value == AuthService.AdminView(Format(out.store.admins[|s.admins|].id), email, name,
                                                 Database.OrgCollectionName(name), adminCreatedAt))
      && (login.Failure? ==> login.error == HttpException(Unauthorized, AuthService.InvalidCredentials, false))
  {
    var out := OrgService.Create(s, organizationName, email, password, hash, adminCreatedAt, orgCreatedAt);
    CreatedAdmin(s, organizationName, email, password, hash, adminCreatedAt, orgCreatedAt);
    LoginAppended(s.admins, out.store, out.store.admins[|s.admins|], email, attempt, verify);
  }

  /** A successful create appends the one admin holding its email. */
  lemma CreatedAdmin(
    s: Store, organizationName: string, email: string, password: string,
    hash: string -> string, adminCreatedAt: Timestamp, orgCreatedAt: Timestamp)
    requires OrgService.Create(s, organizationName, email, password, hash, adminCreatedAt, orgCreatedAt).outcome.Success?
    ensures var t := OrgService.Create(s, organizationName, email, password, hash, adminCreatedAt, orgCreatedAt).store;
      var name := Text.Strip(organizationName);
      && |t.admins| == |s.admins| + 1
      && t.admins == s.admins + [t.admins[|s.admins|]]
      && t.admins[|s.admins|].rec == Admin(email, hash(password), name, Database.OrgCollectionName(name), adminCreatedAt)
      && forall k :: 0 <= k < |s.admins| ==> s.admins[k].rec.email != email
  {
    var out := OrgService.Create(s, organizationName, email, password, hash, adminCreatedAt, orgCreatedAt);
    assert out.store.admins == s.admins + [out.store.admins[|s.admins|]];
    assert forall k :: 0 <= k < |s.admins| ==> !AdminWithEmail(email)(s.admins[k]);
  }

  /** Login against a table whose only admin holding `email` was appended last. */
  lemma LoginAppended(
    admins: seq<Row<Admin>>, t: Store, a: Row<Admin>, email: string, attempt: string, verify: (string, string) -> bool)
    requires t.admins == admins + [a] && a.rec.email == email
    requires forall k :: 0 <= k < |admins| ==> admins[k].rec.email != email
    ensures var login := AuthService.Login(t, email, attempt, verify);
      && (login.Success? <==> verify(attempt, a.rec.hashedPassword))
      && (login.Success? ==> login.value == AuthService.AdminViewOf(a))
  {
    assert t.admins[|admins|] == a;
    assert forall k :: 0 <= k < |admins| ==> t.admins[k] == admins[k];
    assert AuthService.FirstWithEmail(t, email, |admins|);
  }

  /**
   * A token whose `admin_id` claim is the id string a login returned passes
   * the gate, which resolves it to the same admin record.
   */
  lemma LoginThenGate(
    s: Store, email: string, password: string, verify: (string, string) -> bool,
    token: string, decode: string -> Deps.Decoded)
    requires WellFormed(s) && s.nextId <= IdSpace
    requires AuthService.Login(s, email, password, verify).Success?
    requires decode(token) == Deps.Claims(Some(Deps.StringClaim(AuthService.Login(s, email, password, verify).value.adminId)))
    ensures var view := AuthService.Login(s, email, password, verify).value;
      var gate := Deps.GetCurrentAdmin(Some(token), decode, Deps.Ready(s));
      && gate.Success?
      && gate.value.adminId == view.adminId
      && gate.value.record.email == email
      && gate.value.record.organizationName == view.organizationName
  {
    var view := AuthService.Login(s, email, password, verify).value;
    var i :| AuthService.FirstWithEmail(s, email, i) && verify(password, s.admins[i].rec.hashedPassword);
    var id := s.admins[i].id;
    assert view.adminId == Format(id);
    ParseFormat(id);
    FindById(s.admins, i);
    GateAcceptsKnown(token, decode, s, id, i);
  }

  /** The gate accepts a well-formed id that names an admin, and returns that admin. */
  lemma GateAcceptsKnown(token: string, decode: string -> Deps.Decoded, s: Store, id: Id, k: nat)
    requires Parse(Format(id)) == Some(id)
    requires decode(token) == Deps.Claims(Some(Deps.StringClaim(Format(id))))
    requires Find(s.admins, HasId(id)) == Some(k)
    ensures Deps.GetCurrentAdmin(Some(token), decode, Deps.Ready(s)) == Success(Deps.CurrentAdmin(Format(id), id, s.admins[k].rec))
  {
  }

  /** The update gets past both lookups and the email check: it will write the records. */
  predicate UpdatePasses(s: Store, oldName: string, newName: Option<string>, email: Option<string>) {
    var found := Find(s.organizations, OrgNamed(Text.Strip(oldName)));
    var rename := OrgService.RenameTo(oldName, newName);
    && found.Some?
    && !(rename.Some? && OrgNameTaken(s, rename.value))
    && !OrgService.EmailClash(s, email, s.organizations[found.value].rec.adminId)
  }

  /**
   * Row `i` renamed from `oldN` to a name no row had: looking up the old
   * name finds nothing and looking up the new one finds row `i`.
   */
  lemma NameMoved(s: seq<Row<Organization>>, t: seq<Row<Organization>>, i: nat, oldN: string, newN: string)
    requires i < |s| && |t| == |s|
    requires forall k :: 0 <= k < |s| && k != i ==> t[k] == s[k]
    requires s[i].rec.organizationName == oldN && t[i].rec.organizationName == newN && newN != oldN
    requires forall k, l :: 0 <= k < l < |s| ==> s[k].rec.organizationName != s[l].rec.organizationName
    requires forall k :: 0 <= k < |s| ==> s[k].rec.organizationName != newN
    ensures Find(t, OrgNamed(oldN)).None?
    ensures Find(t, OrgNamed(newN)) == Some(i)
  {
    forall k | 0 <= k < |t|
      ensures !OrgNamed(oldN)(t[k])
    {
      if k != i {
        assert s[k].rec.organizationName != s[i].rec.organizationName;
      }
    }
    assert OrgNamed(newN)(t[i]);
    assert forall k :: 0 <= k < i ==> !OrgNamed(newN)(t[k]);
  }

  /**
   * After a rename the old name is unknown and the new one answers with the
   * view the update returned, which names the collection derived from the
   * new name.
   */
  lemma RenameThenGet(
    s: Store, oldName: string, newName: Option<string>, email: Option<string>, password: Option<string>,
    hash: string -> string)
    requires WellFormed(s)
    requires UpdatePasses(s, oldName, newName, email)
    requires OrgService.RenameTo(oldName, newName).Some?
    ensures var out := OrgService.Update(s, oldName, newName, email, password, hash);
      && OrgService.Get(out.store, oldName).None?
      && out.outcome.Success?
      && OrgService.Get(out.store, newName.value) == Some(out.outcome.value)
      && out.outcome.value.collectionName == Database.OrgCollectionName(Text.Strip(newName.value))
  {
    var out := OrgService.Update(s, oldName, newName, email, password, hash);
    var oldN := Text.Strip(oldName);
    var i := Find(s.organizations, OrgNamed(oldN)).value;
    var rename := OrgService.RenameTo(oldName, newName);
    var newEmail := if OrgService.Truthy(email) then email else None;
    OrgService.UpdateWritesRecords(s, oldName, newName, email, password, hash);
    assert OrgNamed(oldN)(s.organizations[i]);
    assert forall k :: 0 <= k < |s.organizations| ==> !OrgNamed(rename.value)(s.organizations[k]);
    RenamedRowLookups(s, out.store, i, oldN, newEmail, rename);
    var row := out.store.organizations[i].rec;
    assert DistinctIds(s.organizations);
    assert out.outcome.value == ViewOf(row);
    assert rename.value == Text.Strip(newName.value);
    assert OrgService.OrgUpdated(s.organizations[i].rec, row, newEmail, rename);
    assert row.collectionName == Database.OrgCollectionName(rename.value);
    assert Find(out.store.organizations, OrgNamed(Text.Strip(newName.value))) == Some(i);
    assert OrgService.Get(out.store, newName.value) == Some(ViewOf(row));
  }

  /** The lookups after an update renamed row `i` from `oldN` to a free name. */
  lemma RenamedRowLookups(s: Store, t: Store, i: nat, oldN: string, newEmail: Option<string>, rename: Option<string>)
    requires UniqueKeys(s) && i < |s.organizations|
    requires OrgService.OrgRowWritten(s, t, i, newEmail, rename)
    requires rename.Some? && rename.value != oldN && s.organizations[i].rec.organizationName == oldN
    requires forall k :: 0 <= k < |s.organizations| ==> s.organizations[k].rec.organizationName != rename.value
    ensures Find(t.organizations, OrgNamed(oldN)).None?
    ensures Find(t.organizations, OrgNamed(rename.value)) == Some(i)
  {
    assert OrgService.OrgUpdated(s.organizations[i].rec, t.organizations[i].rec, newEmail, rename);
    NameMoved(s.organizations, t.organizations, i, oldN, rename.value);
  }

  /**
   * A rename moves the data: the old collection is gone, and the new one
   * holds what it held followed by a copy of every old document, so none is
   * lost when the two names differ.
   */
  lemma RenameMovesDocuments(
    s: Store, oldName: string, newName: Option<string>, email: Option<string>, password: Option<string>,
    hash: string -> string)
    requires UpdatePasses(s, oldName, newName, email)
    requires OrgService.RenameTo(oldName, newName).Some?
    ensures var out := OrgService.Update(s, oldName, newName, email, password, hash);
      var i := Find(s.organizations, OrgNamed(Text.Strip(oldName))).value;
      var source := s.organizations[i].rec.collectionName;
      var target := Database.OrgCollectionName(Text.Strip(newName.value));
      && source !in out.store.collections
      && (source != target ==> OrgService.CopiedInto(s, out.store, source, target))
      && (source != target ==> |Docs(out.store, target)| == |Docs(s, target)| + |Docs(s, source)|)
  {
    var out := OrgService.Update(s, oldName, newName, email, password, hash);
    var i := Find(s.organizations, OrgNamed(Text.Strip(oldName))).value;
    var source := s.organizations[i].rec.collectionName;
    var rename := OrgService.RenameTo(oldName, newName);
    assert rename.value == Text.Strip(newName.value);
    var target := Database.OrgCollectionName(rename.value);
    OrgService.UpdateMovesCollection(s, oldName, newName, email, password, hash);
    if source != target {
      assert OrgService.CopiedInto(s, out.store, source, target);
    }
  }

  /** After its owner deletes an organisation, looking its name up finds nothing. */
  lemma DeleteThenGet(s: Store, organizationName: string, requester: Id)
    requires WellFormed(s)
    requires OrgService.Delete(s, organizationName, requester).outcome.Success?
    ensures OrgService.Get(OrgService.Delete(s, organizationName, requester).store, organizationName).None?
  {
    var out := OrgService.Delete(s, organizationName, requester);
    var name := Text.Strip(organizationName);
    var found := Find(s.organizations, OrgNamed(name));
    assert found.Some? && s.organizations[found.value].rec.adminId == requester;
    var i := found.value;
    assert out.store.organizations == DeleteFirst(s.organizations, HasId(s.organizations[i].id));
    assert OrgNamed(name)(s.organizations[i]);
    FindById(s.organizations, i);
    DeleteFirstShape(s.organizations, HasId(s.organizations[i].id));
    RemovedNameGone(s.organizations, out.store.organizations, i, name);
  }

  /** With unique names, removing the row holding a name leaves no row holding it. */
  lemma RemovedNameGone(s: seq<Row<Organization>>, t: seq<Row<Organization>>, i: nat, name: string)
    requires i < |s| && s[i].rec.organizationName == name && |t| == |s| - 1
    requires forall k, l :: 0 <= k < l < |s| ==> s[k].rec.organizationName != s[l].rec.organizationName
    requires forall k :: 0 <= k < |t| ==> t[k] == s[Skip(k, i)]
    ensures Find(t, OrgNamed(name)).None?
  {
    forall k | 0 <= k < |t|
      ensures !OrgNamed(name)(t[k])
    {
      assert t[k] == s[Skip(k, i)];
    }
  }

  /** After a delete, a token naming the deleted admin no longer passes the gate. */
  lemma DeleteThenGateRejects(
    s: Store, organizationName: string, requester: Id, token: string, decode: string -> Deps.Decoded)
    requires WellFormed(s)
    requires OrgService.Delete(s, organizationName, requester).outcome.Success?
    requires requester < IdSpace && decode(token) == Deps.Claims(Some(Deps.StringClaim(Format(requester))))
    ensures Deps.GetCurrentAdmin(Some(token), decode, Deps.Ready(OrgService.Delete(s, organizationName, requester).store))
            == Failure(HttpException(Unauthorized, Deps.CouldNotValidate, true))
  {
    var out := OrgService.Delete(s, organizationName, requester);
    var found := Find(s.organizations, OrgNamed(Text.Strip(organizationName)));
    assert found.Some? && s.organizations[found.value].rec.adminId == requester;
    var admins := out.store.admins;
    assert admins == DeleteFirst(s.admins, HasId(requester));
    DeleteById(s.admins, requester);
    assert forall k :: 0 <= k < |admins| ==> !HasId<Admin>(requester)(admins[k]);
    ParseFormat(requester);
    GateRejectsUnknown(token, decode, out.store, requester);
  }

  /** The gate refuses a well-formed id that names no admin. */
  lemma GateRejectsUnknown(token: string, decode: string -> Deps.Decoded, s: Store, id: Id)
    requires Parse(Format(id)) == Some(id)
    requires decode(token) == Deps.Claims(Some(Deps.StringClaim(Format(id))))
    requires Find(s.admins, HasId(id)).None?
    ensures Deps.GetCurrentAdmin(Some(token), decode, Deps.Ready(s)) == Failure(HttpException(Unauthorized, Deps.CouldNotValidate, true))
  {
  }

  /**
   * Whatever the input, `update_organization` only ever raises an HTTP
   * error, a 404 or a 400: once both checks pass, the closing read-back
   * always finds the organisation it wrote.
   */
  lemma UpdateRaisesOnlyHttp(
    s: Store, oldName: string, newName: Option<string>, email: Option<string>, password: Option<string>,
    hash: string -> string)
    ensures var out := OrgService.Update(s, oldName, newName, email, password, hash);
      out.outcome.Failure? ==>
        out.outcome.error.HttpException? && (out.outcome.error.status == NotFound || out.outcome.error.status == BadRequest)
  {
    var found := Find(s.organizations, OrgNamed(Text.Strip(oldName)));
    var rename := OrgService.RenameTo(oldName, newName);
    OrgService.UpdateWritesRecords(s, oldName, newName, email, password, hash);
    OrgService.UpdateEmailConflict(s, oldName, newName, email, password, hash);
  }

  /**
   * Hence the update route's "Failed to update organization" 500 is never
   * sent: every 500 it answers comes from a caller id that is not an ObjectId.
   */
  lemma UpdateRouteServerErrors(
    s: Store, path: string, gate: Result<Deps.CurrentAdmin, Raised>,
    newName: Option<string>, email: Option<string>, password: Option<string>, hash: string -> string)
    requires gate.Success?
    ensures var out := OrgRoutes.UpdateOrg(s, path, gate, newName, email, password, hash);
      out.outcome.Failure? && OrgRoutes.StatusOf(out.outcome.error) == ServerError ==>
        out.outcome.error == HttpException(ServerError, "Internal Server Error", false) && Parse(gate.value.adminId).None?
  {
    var out := OrgRoutes.UpdateOrg(s, path, gate, newName, email, password, hash);
    if OrgModel.ValidateUpdate(newName, email, password).Success? && OrgService.Get(s, path).Some? {
      match Parse(gate.value.adminId)
      case None =>
        assert out.outcome == Failure(HttpException(ServerError, "Internal Server Error", false));
      case Some(callerId) =>
        if Find(s.organizations, OrgNamedOwnedBy(path, callerId)).Some? {
          UpdateRaisesOnlyHttp(s, path, newName, email, password, hash);
          assert out == OrgRoutes.RunUpdate(s, path, OrgModel.OrgUpdate(newName, email, password), hash);
        }
    }
  }

  /**
   * The ownership check compares the raw path segment with the stored,
   * trimmed names: a valid update of an existing organisation addressed by
   * a padded name is refused with 403, even when the caller owns it.
   */
  lemma PaddedPathForbidden(
    s: Store, path: string, caller: Deps.CurrentAdmin,
    newName: Option<string>, email: Option<string>, password: Option<string>, hash: string -> string)
    requires WellFormed(s)
    requires Text.Strip(path) != path
    requires OrgModel.ValidateUpdate(newName, email, password).Success?
    requires OrgService.Get(s, path).Some? && Parse(caller.adminId).Some?
    ensures OrgRoutes.UpdateOrg(s, path, Success(caller), newName, email, password, hash)
            == Step(s, Failure(HttpException(Forbidden, "Only the organization admin can update this organization", false)))
  {
    var callerId := Parse(caller.adminId).value;
    forall k | 0 <= k < |s.organizations|
      ensures !OrgNamedOwnedBy(path, callerId)(s.organizations[k])
    {
      assert Normalized(s.organizations[k].rec);
    }
  }

  /**
   * A rename onto a name with the same collection name (a change of letter
   * case, or "Acme Corp" to "acme-corp") copies the collection onto itself,
   * and the drop that follows loses every document, while the record still
   * names the dropped collection.
   */
  lemma RenameOntoSameCollectionDropsData(
    s: Store, oldName: string, newName: Option<string>, email: Option<string>, password: Option<string>,
    hash: string -> string)
    requires WellFormed(s)
    requires UpdatePasses(s, oldName, newName, email)
    requires OrgService.RenameTo(oldName, newName).Some?
    requires Database.OrgCollectionName(Text.Strip(newName.value))
             == s.organizations[Find(s.organizations, OrgNamed(Text.Strip(oldName))).value].rec.collectionName
    ensures var out := OrgService.Update(s, oldName, newName, email, password, hash);
      var i := Find(s.organizations, OrgNamed(Text.Strip(oldName))).value;
      var source := s.organizations[i].rec.collectionName;
      && out.outcome.Success?
      && source !in out.store.collections
      && i < |out.store.organizations|
      && out.store.organizations[i].rec.collectionName == source
  {
    var out := OrgService.Update(s, oldName, newName, email, password, hash);
    var i := Find(s.organizations, OrgNamed(Text.Strip(oldName))).value;
    var rename := OrgService.RenameTo(oldName, newName);
    var newEmail := if OrgService.Truthy(email) then email else None;
    OrgService.UpdateWritesRecords(s, oldName, newName, email, password, hash);
    assert OrgService.OrgUpdated(s.organizations[i].rec, out.store.organizations[i].rec, newEmail, rename);
    RenameMovesDocuments(s, oldName, newName, email, password, hash);
  }

  /**
   * A rename that changes only ASCII letter case keeps the collection name of
   * a well-formed directory's record, so it loses the data as above.
   */
  lemma CaseOnlyRenameKeepsCollection(s: Store, oldName: string, newName: string)
    requires WellFormed(s)
    requires Find(s.organizations, OrgNamed(Text.Strip(oldName))).Some?
    requires Text.Lower(newName) == Text.Lower(oldName)
    ensures Database.OrgCollectionName(Text.Strip(newName))
            == s.organizations[Find(s.organizations, OrgNamed(Text.Strip(oldName))).value].rec.collectionName
  {
    var i := Find(s.organizations, OrgNamed(Text.Strip(oldName))).value;
    assert OrgNamed(Text.Strip(oldName))(s.organizations[i]);
    assert Normalized(s.organizations[i].rec);
    SameCollection(oldName, newName);
  }

  /** Names equal up to ASCII case map to the same collection once trimmed. */
  lemma SameCollection(a: string, b: string)
    requires Text.Lower(a) == Text.Lower(b)
    ensures Database.OrgCollectionName(Text.Strip(a)) == Database.OrgCollectionName(Text.Strip(b))
  {
    Database.CollectionNameIgnoresCaseAndPadding(a);
    Database.CollectionNameIgnoresCaseAndPadding(b);
  }

  /**
   * A whitespace-only new name passes the update body's rules (only the
   * create body rejects blank names) and renames the organisation to the
   * empty name, whose collection is `org_default`. (A string strips to
   * nothing exactly when it is all whitespace: `Text.StripEmpty`.)
   */
  lemma BlankRename(oldName: string, blank: string, email: string, password: string)
    requires Text.Strip(blank) == []
    requires 1 <= |blank| <= OrgModel.NameMaxLength
    requires Text.Strip(oldName) != []
    ensures OrgModel.ValidateUpdate(Some(blank), None, None).Success?
    ensures OrgModel.ValidateCreate(blank, email, password).Failure?
    ensures OrgService.RenameTo(oldName, Some(blank)) == Some([])
    ensures Database.OrgCollectionName([]) == Database.CollectionPrefix + Database.EmptyNameSuffix
  {
    assert OrgService.Truthy(Some(blank));
    Database.EmptyNameCollection();
  }
}
