/**
 * The organisation service's four workflows as transitions over the store:
 * provisioning (`create_organization`), lookup (`get_organization_by_name`),
 * rename and credential update (`update_organization`) and deprovisioning
 * (`delete_organization`). Each returns the store as the sequence of writes
 * leaves it together with the view or the exception the workflow ends with.
 */
module OrgService {
  import opened Wrappers
  import opened ObjectIds
  import opened Tables
  import opened Directory
  import Text
  import Database

  /** Python truthiness of an optional string: present and non-empty. */
  predicate Truthy(o: Option<string>) {
    o.Some? && o.value != ""
  }

  /** `delete_one({"_dummy": True})` on a list of documents. */
  function RemoveFirstDummy(docs: seq<Document>): (r: seq<Document>)
    ensures (exists k :: 0 <= k < |docs| && docs[k].dummy) ==> |r| == |docs| - 1
    ensures (forall k :: 0 <= k < |docs| ==> !docs[k].dummy) ==> r == docs
  {
    if docs == [] then []
    else if docs[0].dummy then docs[1..]
    else [docs[0]] + RemoveFirstDummy(docs[1..])
  }

  /**
   * Creating a collection by inserting a placeholder document and deleting
   * the first `_dummy` document again. The collection exists afterwards, keeps
   * its size, and keeps its contents when it held no `_dummy` document.
   */
  function TouchCollection(s: Store, name: string): (r: Store)
    ensures name in r.collections
    ensures |Docs(r, name)| == |Docs(s, name)|
    ensures (forall k :: 0 <= k < |Docs(s, name)| ==> !Docs(s, name)[k].dummy) ==> Docs(r, name) == Docs(s, name)
    ensures forall c :: c != name ==> (c in r.collections <==> c in s.collections) && Docs(r, c) == Docs(s, c)
    ensures r.admins == s.admins && r.organizations == s.organizations && r.nextId == s.nextId + 1
  {
    var placeholder := Document(s.nextId, true, "");
    var docs := Docs(s, name);
    PlaceholderRemoved(docs, placeholder);
    s.(collections := s.collections[name := RemoveFirstDummy(docs + [placeholder])], nextId := s.nextId + 1)
  }

  /** Removing the first `_dummy` document after appending a placeholder keeps the size, and the contents when no other was there. */
  lemma PlaceholderRemoved(docs: seq<Document>, placeholder: Document)
    requires placeholder.dummy
    ensures |RemoveFirstDummy(docs + [placeholder])| == |docs|
    ensures (forall k :: 0 <= k < |docs| ==> !docs[k].dummy) ==> RemoveFirstDummy(docs + [placeholder]) == docs
  {
    if forall k :: 0 <= k < |docs| ==> !docs[k].dummy {
      RemoveDummyAppended(docs, placeholder);
    } else {
      assert (docs + [placeholder])[|docs|].dummy;
    }
  }

  lemma {:induction false} RemoveDummyAppended(docs: seq<Document>, placeholder: Document)
    requires placeholder.dummy
    requires forall k :: 0 <= k < |docs| ==> !docs[k].dummy
    ensures RemoveFirstDummy(docs + [placeholder]) == docs
  {
    if docs == [] {
      assert docs + [placeholder] == [placeholder];
    } else {
      assert (docs + [placeholder])[1..] == docs[1..] + [placeholder];
      RemoveDummyAppended(docs[1..], placeholder);
    }
  }

  /**
   * `create_organization`: both uniqueness checks come before every write;
   * on success exactly one admin and one organisation are appended, tied
   * together by the admin's fresh id and carrying the trimmed name and its
   * collection name.
   */
  function Create(
    s: Store, organizationName: string, email: string, password: string,
    hash: string -> string, adminCreatedAt: Timestamp, orgCreatedAt: Timestamp): (out: Step<OrgView>)
    ensures var name := Text.Strip(organizationName);
      OrgNameTaken(s, name) ==>
        out == Step(s, Failure(Conflict("Organization '" + name + "' already exists")))
    ensures var name := Text.Strip(organizationName);
      !OrgNameTaken(s, name) && EmailTaken(s, email) ==>
        out == Step(s, Failure(Conflict("Email '" + email + "' is already registered")))
    ensures var name := Text.Strip(organizationName);
      !OrgNameTaken(s, name) && !EmailTaken(s, email) ==>
        && out.outcome.Success?
        && |out.store.admins| == |s.admins| + 1 && out.store.admins[..|s.admins|] == s.admins
        && |out.store.organizations| == |s.organizations| + 1
        && out.store.organizations[..|s.organizations|] == s.organizations
        && var admin := out.store.admins[|s.admins|];
           var org := out.store.organizations[|s.organizations|];
           && admin.id >= s.nextId && org.id >= s.nextId && admin.id != org.id
           && org.rec.adminId == admin.id
           && admin.rec == Admin(email, hash(password), name, Database.OrgCollectionName(name), adminCreatedAt)
           && org.rec == Organization(name, Database.OrgCollectionName(name), admin.id, email, orgCreatedAt)
           && out.outcome.value == OrgView(name, Database.OrgCollectionName(name), email, orgCreatedAt)
           && out.store.nextId > org.id && out.store.nextId > admin.id
    ensures var c := Database.OrgCollectionName(Text.Strip(organizationName));
      out.outcome.Success? ==>
        && c in out.store.collections
        && ((forall k :: 0 <= k < |Docs(s, c)| ==> !Docs(s, c)[k].dummy) ==> Docs(out.store, c) == Docs(s, c))
        && (forall other :: other != c ==>
              (other in out.store.collections <==> other in s.collections) && Docs(out.store, other) == Docs(s, other))
  {
    var name := Text.Strip(organizationName);
    if OrgNameTaken(s, name) then
      Step(s, Failure(Conflict("Organization '" + name + "' already exists")))
    else if EmailTaken(s, email) then
      Step(s, Failure(Conflict("Email '" + email + "' is already registered")))
    else
      Provision(s, name, email, password, hash, adminCreatedAt, orgCreatedAt)
  }

  /**
   * The writes of a create once both checks have passed: the admin, the
   * tenant collection (placeholder in, placeholder out), then the organisation.
   */
  function Provision(
    s: Store, name: string, email: string, password: string,
    hash: string -> string, adminCreatedAt: Timestamp, orgCreatedAt: Timestamp): (out: Step<OrgView>)
    ensures out.outcome.Success?
    ensures |out.store.admins| == |s.admins| + 1 && out.store.admins[..|s.admins|] == s.admins
    ensures |out.store.organizations| == |s.organizations| + 1
    ensures out.store.organizations[..|s.organizations|] == s.organizations
    ensures var admin := out.store.admins[|s.admins|];
      var org := out.store.organizations[|s.organizations|];
      && admin.id >= s.nextId && org.id >= s.nextId && admin.id != org.id
      && org.rec.adminId == admin.id
      && admin.rec == Admin(email, hash(password), name, Database.OrgCollectionName(name), adminCreatedAt)
      && org.rec == Organization(name, Database.OrgCollectionName(name), admin.id, email, orgCreatedAt)
      && out.outcome.value == OrgView(name, Database.OrgCollectionName(name), email, orgCreatedAt)
      && out.store.nextId > org.id && out.store.nextId > admin.id
    ensures var c := Database.OrgCollectionName(name);
      && c in out.store.collections
      && ((forall k :: 0 <= k < |Docs(s, c)| ==> !Docs(s, c)[k].dummy) ==> Docs(out.store, c) == Docs(s, c))
      && (forall other :: other != c ==>
            (other in out.store.collections <==> other in s.collections) && Docs(out.store, other) == Docs(s, other))
  {
    var collection := Database.OrgCollectionName(name);
    var adminId := s.nextId;
    var admin := Admin(email, hash(password), name, collection, adminCreatedAt);
    var withAdmin := s.(admins := s.admins + [Row(adminId, admin)], nextId := adminId + 1);
    var touched := TouchCollection(withAdmin, collection);
    var org := Organization(name, collection, adminId, email, orgCreatedAt);
    var withOrg := touched.(
      organizations := touched.organizations + [Row(touched.nextId, org)],
      nextId := touched.nextId + 1);
    Step(withOrg, Success(ViewOf(org)))
  }

  /**
   * `get_organization_by_name`: the view of the organisation whose name is
   * exactly the trimmed argument, or `None`. It reads the store only.
   */
  function Get(s: Store, organizationName: string): (r: Option<OrgView>)
    ensures r.None? <==>
      forall i :: 0 <= i < |s.organizations| ==> s.organizations[i].rec.organizationName != Text.Strip(organizationName)
    ensures r.Some? ==>
      exists i :: 0 <= i < |s.organizations|
        && s.organizations[i].rec.organizationName == Text.Strip(organizationName)
        && r.value == ViewOf(s.organizations[i].rec)
  {
    match Find(s.organizations, OrgNamed(Text.Strip(organizationName)))
    case None => None
    case Some(i) => Some(ViewOf(s.organizations[i].rec))
  }

  /**
   * `delete_organization`: 404 for an unknown name, 403 for anyone but the
   * owning admin (both without a write); otherwise the collection, the
   * organisation record and its admin record are removed, in that order.
   */
  function Delete(s: Store, organizationName: string, requester: Id): (out: Step<string>)
    ensures Find(s.organizations, OrgNamed(Text.Strip(organizationName))).None? ==>
      out == Step(s, Failure(HttpException(NotFound, "Organization '" + organizationName + "' not found", false)))
    ensures var found := Find(s.organizations, OrgNamed(Text.Strip(organizationName)));
      found.Some? && s.organizations[found.value].rec.adminId != requester ==>
        out == Step(s, Failure(HttpException(Forbidden, "Only the organization admin can delete this organization", false)))
    ensures var found := Find(s.organizations, OrgNamed(Text.Strip(organizationName)));
      found.Some? && s.organizations[found.value].rec.adminId == requester ==>
        var org := s.organizations[found.value];
        && out.outcome == Success("Organization '" + organizationName + "' and all associated data deleted successfully")
        && org.rec.collectionName !in out.store.collections
        && (forall c :: c != org.rec.collectionName ==>
              (c in out.store.collections <==> c in s.collections) && Docs(out.store, c) == Docs(s, c))
        && out.store.organizations == DeleteFirst(s.organizations, HasId(org.id))
        && out.store.admins == DeleteFirst(s.admins, HasId(requester))
        && out.store.nextId == s.nextId
  {
    match Find(s.organizations, OrgNamed(Text.Strip(organizationName)))
    case None =>
      Step(s, Failure(HttpException(NotFound, "Organization '" + organizationName + "' not found", false)))
    case Some(i) =>
      var org := s.organizations[i];
      if org.rec.adminId != requester then
        Step(s, Failure(HttpException(Forbidden, "Only the organization admin can delete this organization", false)))
      else
        var dropped := DropCollection(s, org.rec.collectionName);
        var withoutOrg := dropped.(organizations := DeleteFirst(dropped.organizations, HasId(org.id)));
        var withoutAdmin := withoutOrg.(admins := DeleteFirst(withoutOrg.admins, HasId(org.rec.adminId)));
        Step(withoutAdmin, Success("Organization '" + organizationName + "' and all associated data deleted successfully"))
  }

  /**
   * Re-inserting documents with `_id` removed: MongoDB hands each copy the
   * next fresh id, and everything else is carried over.
   */
  function Reissue(docs: seq<Document>, next: Id): (r: seq<Document>)
    ensures |r| == |docs|
    ensures forall k :: 0 <= k < |docs| ==> SameContent(r[k], docs[k]) && r[k].id == next + k
  {
    if docs == [] then [] else [docs[0].(id := next)] + Reissue(docs[1..], next + 1)
  }

  /**
   * `target` in `after` holds what it held in `before`, followed by a copy,
   * in order, of every document of `source`, each under a fresh `_id`.
   */
  ghost predicate CopiedInto(before: Store, after: Store, source: string, target: string) {
    var kept := Docs(before, target);
    var moved := Docs(before, source);
    && |Docs(after, target)| == |kept| + |moved|
    && Docs(after, target)[..|kept|] == kept
    && forall k :: 0 <= k < |moved| ==>
         SameContent(Docs(after, target)[|kept| + k], moved[k]) && Docs(after, target)[|kept| + k].id >= before.nextId
  }

  /** Every collection other than the two named ones is as it was. */
  ghost predicate OtherCollectionsKept(before: Store, after: Store, source: string, target: string) {
    forall c :: c != source && c != target ==>
      (c in after.collections <==> c in before.collections) && Docs(after, c) == Docs(before, c)
  }

  /**
   * The rename's copy-then-drop: every document of `source` is appended,
   * with a fresh `_id`, to `target` (nothing is written when there is
   * nothing to copy), and only then is `source` dropped.
   */
  function MoveCollection(s: Store, source: string, target: string): (r: Store)
    ensures source !in r.collections
    ensures source != target ==> CopiedInto(s, r, source, target)
    ensures OtherCollectionsKept(s, r, source, target)
    ensures r.admins == s.admins && r.organizations == s.organizations && r.nextId >= s.nextId
  {
    var moved := Docs(s, source);
    var copied :=
      if moved == [] then s
      else s.(collections := s.collections[target := Docs(s, target) + Reissue(moved, s.nextId)],
              nextId := s.nextId + |moved|);
    DropCollection(copied, source)
  }

  /** The rename step of an update: move the collection when, and only when, renaming. */
  function RenameCollection(s: Store, source: string, rename: Option<string>): (r: Store)
    ensures rename.None? ==> r == s
    ensures rename.Some? ==>
      var target := Database.OrgCollectionName(rename.value);
      && source !in r.collections
      && (source != target ==> CopiedInto(s, r, source, target))
      && OtherCollectionsKept(s, r, source, target)
    ensures r.admins == s.admins && r.organizations == s.organizations && r.nextId >= s.nextId
  {
    if rename.Some? then MoveCollection(s, source, Database.OrgCollectionName(rename.value)) else s
  }

  /** The `$set` applied to the admin record by an update. */
  function AdminChanges(a: Admin, newEmail: Option<string>, rename: Option<string>): Admin {
    var a1 := if newEmail.Some? then a.(email := newEmail.value) else a;
    if rename.Some? then
      a1.(organizationName := rename.value, orgCollection := Database.OrgCollectionName(rename.value))
    else a1
  }

  /** The `$set` applied to the organisation record by an update. */
  function OrgChanges(o: Organization, newEmail: Option<string>, rename: Option<string>): Organization {
    var o1 := if newEmail.Some? then o.(adminEmail := newEmail.value) else o;
    if rename.Some? then
      o1.(organizationName := rename.value, collectionName := Database.OrgCollectionName(rename.value))
    else o1
  }

  /**
   * What an update promises of the admin record: new email, hash, name and
   * collection where requested, the creation time kept.
   */
  predicate AdminUpdated(before: Admin, after: Admin, newEmail: Option<string>, rename: Option<string>, digest: Option<string>) {
    && after.email == (if newEmail.Some? then newEmail.value else before.email)
    && after.hashedPassword == (if digest.Some? then digest.value else before.hashedPassword)
    && after.organizationName == (if rename.Some? then rename.value else before.organizationName)
    && after.orgCollection == (if rename.Some? then Database.OrgCollectionName(rename.value) else before.orgCollection)
    && after.createdAt == before.createdAt
  }

  /**
   * What an update promises of the organisation record: new name, collection
   * and admin email where requested; owner and creation time kept.
   */
  predicate OrgUpdated(before: Organization, after: Organization, newEmail: Option<string>, rename: Option<string>) {
    && after.organizationName == (if rename.Some? then rename.value else before.organizationName)
    && after.collectionName == (if rename.Some? then Database.OrgCollectionName(rename.value) else before.collectionName)
    && after.adminEmail == (if newEmail.Some? then newEmail.value else before.adminEmail)
    && after.adminId == before.adminId
    && after.createdAt == before.createdAt
  }

  /**
   * The writes of an update once every check has passed: the new hash, then
   * the admin's fields (both by `_id`), then the organisation's fields (by
   * its old trimmed name). Only the first matching record of each is touched.
   */
  function WriteRecords(
    s: Store, orgName: string, adminId: Id,
    newEmail: Option<string>, rename: Option<string>, digest: Option<string>): (r: Store)
    ensures r.collections == s.collections && r.nextId == s.nextId
    ensures |r.admins| == |s.admins| && |r.organizations| == |s.organizations|
    ensures Find(s.admins, HasId(adminId)).None? ==> r.admins == s.admins
    ensures var a := Find(s.admins, HasId(adminId));
      a.Some? ==>
        && (forall k :: 0 <= k < |s.admins| && k != a.value ==> r.admins[k] == s.admins[k])
        && r.admins[a.value].id == s.admins[a.value].id
        && AdminUpdated(s.admins[a.value].rec, r.admins[a.value].rec, newEmail, rename, digest)
    ensures Find(s.organizations, OrgNamed(orgName)).None? ==> r.organizations == s.organizations
    ensures var o := Find(s.organizations, OrgNamed(orgName));
      o.Some? ==>
        && (forall k :: 0 <= k < |s.organizations| && k != o.value ==> r.organizations[k] == s.organizations[k])
        && r.organizations[o.value].id == s.organizations[o.value].id
        && OrgUpdated(s.organizations[o.value].rec, r.organizations[o.value].rec, newEmail, rename)
  {
    s.(admins := WriteAdmin(s.admins, adminId, newEmail, rename, digest),
       organizations := WriteOrganization(s.organizations, orgName, newEmail, rename))
  }

  /** The two `update_one` calls on the admin: the new hash, then the synced fields. */
  function WriteAdmin(
    admins: seq<Row<Admin>>, adminId: Id, newEmail: Option<string>, rename: Option<string>, digest: Option<string>)
    : (r: seq<Row<Admin>>)
    ensures |r| == |admins|
    ensures Find(admins, HasId(adminId)).None? ==> r == admins
    ensures var a := Find(admins, HasId(adminId));
      a.Some? ==>
        && (forall k :: 0 <= k < |admins| && k != a.value ==> r[k] == admins[k])
        && r[a.value].id == admins[a.value].id
        && AdminUpdated(admins[a.value].rec, r[a.value].rec, newEmail, rename, digest)
  {
    var rehash := (a: Admin) => if digest.Some? then a.(hashedPassword := digest.value) else a;
    var rehashed := if digest.Some? then UpdateFirst(admins, HasId(adminId), rehash) else admins;
    UpdateFirstShape(admins, HasId(adminId), rehash);
    FindIdStable(admins, rehashed, adminId);
    var sync := (a: Admin) => AdminChanges(a, newEmail, rename);
    UpdateFirstShape(rehashed, HasId(adminId), sync);
    if newEmail.Some? || rename.Some? then UpdateFirst(rehashed, HasId(adminId), sync) else rehashed
  }

  /** The `update_one` on the organisation, matched by its old trimmed name. */
  function WriteOrganization(
    orgs: seq<Row<Organization>>, orgName: string, newEmail: Option<string>, rename: Option<string>)
    : (r: seq<Row<Organization>>)
    ensures |r| == |orgs|
    ensures Find(orgs, OrgNamed(orgName)).None? ==> r == orgs
    ensures var o := Find(orgs, OrgNamed(orgName));
      o.Some? ==>
        && (forall k :: 0 <= k < |orgs| && k != o.value ==> r[k] == orgs[k])
        && r[o.value].id == orgs[o.value].id
        && OrgUpdated(orgs[o.value].rec, r[o.value].rec, newEmail, rename)
  {
    var sync := (o: Organization) => OrgChanges(o, newEmail, rename);
    UpdateFirstShape(orgs, OrgNamed(orgName), sync);
    if newEmail.Some? || rename.Some? then UpdateFirst(orgs, OrgNamed(orgName), sync) else orgs
  }

  /** The new trimmed name when an update renames: given, non-empty, and different once trimmed. */
  function RenameTo(oldName: string, newName: Option<string>): (r: Option<string>)
    ensures r.Some? <==> Truthy(newName) && Text.Strip(newName.value) != Text.Strip(oldName)
    ensures r.Some? ==> r.value == Text.Strip(newName.value)
    ensures r.Some? ==> Text.Strip(r.value) == r.value
  {
    if Truthy(newName) && Text.Strip(newName.value) != Text.Strip(oldName) then
      Text.StripIdempotent(newName.value);
      Some(Text.Strip(newName.value))
    else None
  }

  /** The email check of an update: another admin already has the new email. */
  predicate EmailClash(s: Store, email: Option<string>, adminId: Id) {
    Truthy(email) && Find(s.admins, OtherAdminWithEmail(email.value, adminId)).Some?
  }

  /**
   * `update_organization`, in this order: look the organisation up,
   * check a new name is free, copy and drop the collection, check the email
   * against the other admins, re-hash the password, then write the admin and
   * organisation records and read the organisation back.
   *
   * The email check runs after the collection has been moved: an email
   * conflict returns 400 with the old collection already dropped while both
   * records still name it.
   */
  function Update(
    s: Store, oldName: string, newName: Option<string>, email: Option<string>, password: Option<string>,
    hash: string -> string): (out: Step<OrgView>)
    ensures Find(s.organizations, OrgNamed(Text.Strip(oldName))).None? ==>
      out == Step(s, Failure(HttpException(NotFound, "Organization '" + oldName + "' not found", false)))
    ensures var found := Find(s.organizations, OrgNamed(Text.Strip(oldName)));
      var rename := RenameTo(oldName, newName);
      found.Some? && rename.Some? && OrgNameTaken(s, rename.value) ==>
        out == Step(s, Failure(Conflict("Organization '" + rename.value + "' already exists")))
    ensures out.store.nextId >= s.nextId
  {
    match Find(s.organizations, OrgNamed(Text.Strip(oldName)))
    case None =>
      Step(s, Failure(HttpException(NotFound, "Organization '" + oldName + "' not found", false)))
    case Some(i) =>
      var rename := RenameTo(oldName, newName);
      if rename.Some? && OrgNameTaken(s, rename.value) then
        Step(s, Failure(Conflict("Organization '" + rename.value + "' already exists")))
      else
        Proceed(s, i, Text.Strip(oldName), rename, email, password, hash)
  }

  /** The part of an update after both lookups: move, check the email, write, read back. */
  function Proceed(
    s: Store, i: nat, name: string, rename: Option<string>, email: Option<string>, password: Option<string>,
    hash: string -> string): (out: Step<OrgView>)
    requires i < |s.organizations|
    ensures out.store.nextId >= s.nextId
  {
    var org := s.organizations[i];
    var moved := RenameCollection(s, org.rec.collectionName, rename);
    if EmailClash(moved, email, org.rec.adminId) then
      Step(moved, Failure(Conflict("Email '" + email.value + "' is already registered")))
    else
      var newEmail := if Truthy(email) then email else None;
      var digest := if Truthy(password) then Some(hash(password.value)) else None;
      ReadBack(WriteRecords(moved, name, org.rec.adminId, newEmail, rename, digest), org.id)
  }

  /** The closing `find_one` by `_id`; a miss is the `None[...]` subscript in `update_organization` then raises. */
  function ReadBack(written: Store, id: Id): (out: Step<OrgView>)
    ensures out.store == written
    ensures out.outcome.Failure? <==> Find(written.organizations, HasId(id)).None?
  {
    match Find(written.organizations, HasId(id))
    case None => Step(written, Failure(OtherException("'NoneType' object is not subscriptable")))
    case Some(j) => Step(written, Success(ViewOf(written.organizations[j].rec)))
  }

  /** An update that gets past the name check moves the collection exactly when it renames. */
  lemma UpdateMovesCollection(
    s: Store, oldName: string, newName: Option<string>, email: Option<string>, password: Option<string>,
    hash: string -> string)
    ensures var found := Find(s.organizations, OrgNamed(Text.Strip(oldName)));
      var rename := RenameTo(oldName, newName);
      var out := Update(s, oldName, newName, email, password, hash);
      found.Some? && !(rename.Some? && OrgNameTaken(s, rename.value)) ==>
        var org := s.organizations[found.value].rec;
        && (rename.None? ==> out.store.collections == s.collections)
        && (rename.Some? ==>
              var target := Database.OrgCollectionName(rename.value);
              && org.collectionName !in out.store.collections
              && (org.collectionName != target ==> CopiedInto(s, out.store, org.collectionName, target))
              && OtherCollectionsKept(s, out.store, org.collectionName, target))
  {
    var found := Find(s.organizations, OrgNamed(Text.Strip(oldName)));
    var rename := RenameTo(oldName, newName);
    if found.Some? && !(rename.Some? && OrgNameTaken(s, rename.value)) {
      ProceedMovesCollection(s, found.value, Text.Strip(oldName), rename, email, password, hash);
    }
  }

  lemma ProceedMovesCollection(
    s: Store, i: nat, name: string, rename: Option<string>, email: Option<string>, password: Option<string>,
    hash: string -> string)
    requires i < |s.organizations|
    ensures var out := Proceed(s, i, name, rename, email, password, hash);
      var org := s.organizations[i].rec;
      && (rename.None? ==> out.store.collections == s.collections)
      && (rename.Some? ==>
            var target := Database.OrgCollectionName(rename.value);
            && org.collectionName !in out.store.collections
            && (org.collectionName != target ==> CopiedInto(s, out.store, org.collectionName, target))
            && OtherCollectionsKept(s, out.store, org.collectionName, target))
  {
    var org := s.organizations[i];
    var moved := RenameCollection(s, org.rec.collectionName, rename);
    if !EmailClash(moved, email, org.rec.adminId) {
      var newEmail := if Truthy(email) then email else None;
      var digest := if Truthy(password) then Some(hash(password.value)) else None;
      var written := WriteRecords(moved, name, org.rec.adminId, newEmail, rename, digest);
      assert Proceed(s, i, name, rename, email, password, hash).store == written;
      CollectionFactsCarry(s, moved, written, org.rec.collectionName, rename);
    }
  }

  /**
   * An email already held by another admin stops the update with 400 after the
   * collection has moved: on a rename the old collection is gone, while both
   * records are as they were and so still name it.
   */
  lemma UpdateEmailConflict(
    s: Store, oldName: string, newName: Option<string>, email: Option<string>, password: Option<string>,
    hash: string -> string)
    ensures var found := Find(s.organizations, OrgNamed(Text.Strip(oldName)));
      var rename := RenameTo(oldName, newName);
      var out := Update(s, oldName, newName, email, password, hash);
      found.Some? && !(rename.Some? && OrgNameTaken(s, rename.value))
      && EmailClash(s, email, s.organizations[found.value].rec.adminId) ==>
        && out.outcome == Failure(Conflict("Email '" + email.value + "' is already registered"))
        && out.store.admins == s.admins
        && out.store.organizations == s.organizations
        && (rename.Some? ==> s.organizations[found.value].rec.collectionName !in out.store.collections)
  {
    var found := Find(s.organizations, OrgNamed(Text.Strip(oldName)));
    var rename := RenameTo(oldName, newName);
    if found.Some? && !(rename.Some? && OrgNameTaken(s, rename.value)) {
      var org := s.organizations[found.value];
      var moved := RenameCollection(s, org.rec.collectionName, rename);
      assert moved.admins == s.admins;
    }
  }

  /** Row `i` of the organisations now holds `OrgUpdated` of its old record; no other row changed. */
  ghost predicate OrgRowWritten(before: Store, after: Store, i: nat, newEmail: Option<string>, rename: Option<string>)
    requires i < |before.organizations|
  {
    && |after.organizations| == |before.organizations|
    && (forall k :: 0 <= k < |before.organizations| && k != i ==> after.organizations[k] == before.organizations[k])
    && after.organizations[i].id == before.organizations[i].id
    && OrgUpdated(before.organizations[i].rec, after.organizations[i].rec, newEmail, rename)
  }

  /** The first admin with id `adminId`, if any, now holds `AdminUpdated` of its old record; no other row changed. */
  ghost predicate AdminRowWritten(
    before: Store, after: Store, adminId: Id, newEmail: Option<string>, rename: Option<string>, digest: Option<string>)
  {
    var a := Find(before.admins, HasId(adminId));
    && |after.admins| == |before.admins|
    && (a.None? ==> after.admins == before.admins)
    && (a.Some? ==>
          && (forall k :: 0 <= k < |before.admins| && k != a.value ==> after.admins[k] == before.admins[k])
          && after.admins[a.value].id == before.admins[a.value].id
          && AdminUpdated(before.admins[a.value].rec, after.admins[a.value].rec, newEmail, rename, digest))
  }

  /**
   * An update that passes both checks rewrites the organisation row it found
   * and its admin's row, touches no other row, and returns the written
   * organisation (when ids are distinct); it never fails after the writes.
   */
  lemma UpdateWritesRecords(
    s: Store, oldName: string, newName: Option<string>, email: Option<string>, password: Option<string>,
    hash: string -> string)
    ensures var found := Find(s.organizations, OrgNamed(Text.Strip(oldName)));
      var rename := RenameTo(oldName, newName);
      var out := Update(s, oldName, newName, email, password, hash);
      found.Some? && !(rename.Some? && OrgNameTaken(s, rename.value))
      && !EmailClash(s, email, s.organizations[found.value].rec.adminId) ==>
        var i := found.value;
        var newEmail := if Truthy(email) then email else None;
        var digest := if Truthy(password) then Some(hash(password.value)) else None;
        && out.outcome.Success?
        && OrgRowWritten(s, out.store, i, newEmail, rename)
        && (DistinctIds(s.organizations) ==> out.outcome.value == ViewOf(out.store.organizations[i].rec))
        && AdminRowWritten(s, out.store, s.organizations[i].rec.adminId, newEmail, rename, digest)
  {
    var found := Find(s.organizations, OrgNamed(Text.Strip(oldName)));
    var rename := RenameTo(oldName, newName);
    if found.Some? && !(rename.Some? && OrgNameTaken(s, rename.value))
       && !EmailClash(s, email, s.organizations[found.value].rec.adminId) {
      ProceedWritesRecords(s, found.value, Text.Strip(oldName), rename, email, password, hash);
    }
  }

  lemma ProceedWritesRecords(
    s: Store, i: nat, name: string, rename: Option<string>, email: Option<string>, password: Option<string>,
    hash: string -> string)
    requires Find(s.organizations, OrgNamed(name)) == Some(i)
    requires !EmailClash(s, email, s.organizations[i].rec.adminId)
    ensures var out := Proceed(s, i, name, rename, email, password, hash);
      var newEmail := if Truthy(email) then email else None;
      var digest := if Truthy(password) then Some(hash(password.value)) else None;
      && out.outcome.Success?
      && OrgRowWritten(s, out.store, i, newEmail, rename)
      && (DistinctIds(s.organizations) ==> out.outcome.value == ViewOf(out.store.organizations[i].rec))
      && AdminRowWritten(s, out.store, s.organizations[i].rec.adminId, newEmail, rename, digest)
  {
    var org := s.organizations[i];
    var moved := RenameCollection(s, org.rec.collectionName, rename);
    var newEmail := if Truthy(email) then email else None;
    var digest := if Truthy(password) then Some(hash(password.value)) else None;
    var written := WriteRecords(moved, name, org.rec.adminId, newEmail, rename, digest);
    assert Proceed(s, i, name, rename, email, password, hash) == ReadBack(written, org.id);
    RecordsWritten(s, moved, i, name, newEmail, rename, digest);
  }

  /** The record writes of an update on a store whose tables are those of `s`, and the read-back after them. */
  lemma RecordsWritten(
    s: Store, moved: Store, i: nat, name: string, newEmail: Option<string>, rename: Option<string>, digest: Option<string>)
    requires Find(s.organizations, OrgNamed(name)) == Some(i)
    requires moved.admins == s.admins && moved.organizations == s.organizations
    ensures var written := WriteRecords(moved, name, s.organizations[i].rec.adminId, newEmail, rename, digest);
      var back := ReadBack(written, s.organizations[i].id);
      && back.outcome.Success?
      && OrgRowWritten(s, written, i, newEmail, rename)
      && (DistinctIds(s.organizations) ==> back.outcome.value == ViewOf(written.organizations[i].rec))
      && AdminRowWritten(s, written, s.organizations[i].rec.adminId, newEmail, rename, digest)
  {
    var written := WriteRecords(moved, name, s.organizations[i].rec.adminId, newEmail, rename, digest);
    FetchById(s.organizations, written.organizations, i);
  }

  /** The collection facts of the rename step survive record writes that leave the collections alone. */
  lemma CollectionFactsCarry(s: Store, moved: Store, written: Store, source: string, rename: Option<string>)
    requires written.collections == moved.collections
    requires rename.Some? ==>
      var target := Database.OrgCollectionName(rename.value);
      && (source != target ==> CopiedInto(s, moved, source, target))
      && OtherCollectionsKept(s, moved, source, target)
    ensures rename.Some? ==>
      var target := Database.OrgCollectionName(rename.value);
      && (source != target ==> CopiedInto(s, written, source, target))
      && OtherCollectionsKept(s, written, source, target)
  {
    assert forall c :: Docs(written, c) == Docs(moved, c);
  }

  /**
   * Reading a record back by `_id` after writes that kept every id finds a
   * record, and with distinct ids finds the one written.
   */
  lemma FetchById<T>(before: seq<Row<T>>, after: seq<Row<T>>, i: nat)
    requires i < |before| && |after| == |before|
    requires forall k :: 0 <= k < |before| && k != i ==> after[k] == before[k]
    requires after[i].id == before[i].id
    ensures Find(after, HasId(before[i].id)).Some?
    ensures DistinctIds(before) ==> Find(after, HasId(before[i].id)) == Some(i)
  {
    assert HasId<T>(before[i].id)(after[i]);
    if DistinctIds(before) {
      assert DistinctIds(after) by {
        forall k, l | 0 <= k < l < |after|
          ensures after[k].id != after[l].id
        {
          assert after[k].id == before[k].id && after[l].id == before[l].id;
        }
      }
      FindById(after, i);
    }
  }
}
