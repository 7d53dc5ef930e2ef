/**
 * Properties that relate several operations of the service: the directory
 * invariants every workflow keeps, and what one request lets the next see.
 */
module Workflows {
  import opened Wrappers
  import opened ObjectIds
  import opened Tables
  import opened Directory
  import OrgService
  import Text
  import Database

  /** Every admin id below `next`: the owner of any organisation is older than a fresh id. */
  lemma OwnersBelowNext(s: Store)
    requires WellFormed(s)
    ensures forall i :: 0 <= i < |s.organizations| ==> s.organizations[i].rec.adminId < s.nextId
  {
    forall i | 0 <= i < |s.organizations|
      ensures s.organizations[i].rec.adminId < s.nextId
    {
      assert HasOwner(s, s.organizations[i].rec);
      var j :| 0 <= j < |s.admins| && s.admins[j].id == s.organizations[i].rec.adminId
        && Mirrors(s.admins[j].rec, s.organizations[i].rec);
    }
  }

  /**
   * Appending one admin and the organisation it owns, both under fresh ids,
   * with a new email and a new trimmed name, keeps the invariants.
   */
  lemma AppendKeepsWellFormed(s: Store, t: Store, a: Row<Admin>, o: Row<Organization>)
    requires WellFormed(s)
    requires t.admins == s.admins + [a] && t.organizations == s.organizations + [o]
    requires s.nextId <= a.id < t.nextId && s.nextId <= o.id < t.nextId && a.id != o.id
    requires o.rec.adminId == a.id && Normalized(o.rec) && Mirrors(a.rec, o.rec)
    requires forall k :: 0 <= k < |s.admins| ==> s.admins[k].rec.email != a.rec.email
    requires forall k :: 0 <= k < |s.organizations| ==> s.organizations[k].rec.organizationName != o.rec.organizationName
    ensures WellFormed(t)
  {
    AppendKeepsFreshIds(s, t, a, o);
    OwnersBelowNext(s);
    AppendKeepsUniqueKeys(s, t, a, o);
    AppendKeepsOwned(s, t, a, o);
  }

  lemma AppendKeepsFreshIds(s: Store, t: Store, a: Row<Admin>, o: Row<Organization>)
    requires FreshIds(s)
    requires t.admins == s.admins + [a] && t.organizations == s.organizations + [o]
    requires s.nextId <= a.id < t.nextId && s.nextId <= o.id < t.nextId
    ensures FreshIds(t)
  {
    assert forall k :: 0 <= k < |s.admins| ==> t.admins[k] == s.admins[k];
    assert forall k :: 0 <= k < |s.organizations| ==> t.organizations[k] == s.organizations[k];
  }

  lemma AppendKeepsUniqueKeys(s: Store, t: Store, a: Row<Admin>, o: Row<Organization>)
    requires UniqueKeys(s)
    requires t.admins == s.admins + [a] && t.organizations == s.organizations + [o]
    requires forall k :: 0 <= k < |s.organizations| ==> s.organizations[k].rec.adminId != o.rec.adminId
    requires forall k :: 0 <= k < |s.admins| ==> s.admins[k].rec.email != a.rec.email
    requires forall k :: 0 <= k < |s.organizations| ==> s.organizations[k].rec.organizationName != o.rec.organizationName
    ensures UniqueKeys(t)
  {
    forall k, l | 0 <= k < l < |t.admins|
      ensures t.admins[k].rec.email != t.admins[l].rec.email
    {
      assert t.admins[k] == s.admins[k];
      if l < |s.admins| {
        assert t.admins[l] == s.admins[l];
      }
    }
    forall k, l | 0 <= k < l < |t.organizations|
      ensures t.organizations[k].rec.organizationName != t.organizations[l].rec.organizationName
      ensures t.organizations[k].rec.adminId != t.organizations[l].rec.adminId
    {
      assert t.organizations[k] == s.organizations[k];
      if l < |s.organizations| {
        assert t.organizations[l] == s.organizations[l];
      }
    }
  }

  lemma AppendKeepsOwned(s: Store, t: Store, a: Row<Admin>, o: Row<Organization>)
    requires Owned(s)
    requires t.admins == s.admins + [a] && t.organizations == s.organizations + [o]
    requires o.rec.adminId == a.id && Normalized(o.rec) && Mirrors(a.rec, o.rec)
    ensures Owned(t)
  {
    AppendKeepsNormalized(s.organizations, o);
    AppendKeepsOwners(s, t, a, o);
  }

  lemma AppendKeepsOwners(s: Store, t: Store, a: Row<Admin>, o: Row<Organization>)
    requires forall i :: 0 <= i < |s.organizations| ==> HasOwner(s, s.organizations[i].rec)
    requires t.admins == s.admins + [a] && t.organizations == s.organizations + [o]
    requires o.rec.adminId == a.id && Mirrors(a.rec, o.rec)
    ensures forall i :: 0 <= i < |t.organizations| ==> HasOwner(t, t.organizations[i].rec)
  {
    forall i | 0 <= i < |t.organizations|
      ensures HasOwner(t, t.organizations[i].rec)
    {
      if i < |s.organizations| {
        assert t.organizations[i] == s.organizations[i];
        AppendedOwnerKept(s, t, i);
      } else {
        assert i == |s.organizations|;
        assert t.organizations[i] == o && t.admins[|s.admins|] == a;
        OwnerAt(t, o.rec, |s.admins|);
      }
    }
  }

  lemma OwnerAt(s: Store, org: Organization, j: nat)
    requires j < |s.admins| && s.admins[j].id == org.adminId && Mirrors(s.admins[j].rec, org)
    ensures HasOwner(s, org)
  {
  }

  lemma AppendKeepsNormalized(orgs: seq<Row<Organization>>, o: Row<Organization>)
    requires forall i :: 0 <= i < |orgs| ==> Normalized(orgs[i].rec)
    requires Normalized(o.rec)
    ensures forall i :: 0 <= i < |orgs + [o]| ==> Normalized((orgs + [o])[i].rec)
  {
    forall i | 0 <= i < |orgs + [o]|
      ensures Normalized((orgs + [o])[i].rec)
    {
      if i < |orgs| {
        assert (orgs + [o])[i] == orgs[i];
      }
    }
  }

  lemma AppendedOwnerKept(s: Store, t: Store, i: nat)
    requires i < |s.organizations| && HasOwner(s, s.organizations[i].rec)
    requires |s.organizations| <= |t.organizations| && t.organizations[i] == s.organizations[i]
    requires |s.admins| <= |t.admins| && forall k :: 0 <= k < |s.admins| ==> t.admins[k] == s.admins[k]
    ensures HasOwner(t, t.organizations[i].rec)
  {
    OwnerKept(s, t, s.organizations[i].rec);
  }

  /** An owner found among the admins is still found after admins are appended. */
  lemma OwnerKept(s: Store, t: Store, org: Organization)
    requires HasOwner(s, org)
    requires |s.admins| <= |t.admins| && forall k :: 0 <= k < |s.admins| ==> t.admins[k] == s.admins[k]
    ensures HasOwner(t, org)
  {
    var j :| 0 <= j < |s.admins| && s.admins[j].id == org.adminId && Mirrors(s.admins[j].rec, org);
    assert t.admins[j] == s.admins[j];
  }

  /** `create_organization` keeps the directory invariants, whatever it ends with. */
  lemma CreateKeepsWellFormed(
    s: Store, organizationName: string, email: string, password: string,
    hash: string -> string, adminCreatedAt: Timestamp, orgCreatedAt: Timestamp)
    requires WellFormed(s)
    ensures WellFormed(OrgService.Create(s, organizationName, email, password, hash, adminCreatedAt, orgCreatedAt).store)
  {
    var out := OrgService.Create(s, organizationName, email, password, hash, adminCreatedAt, orgCreatedAt);
    var name := Text.Strip(organizationName);
    if !OrgNameTaken(s, name) && !EmailTaken(s, email) {
      var t := out.store;
      var admin := t.admins[|s.admins|];
      var org := t.organizations[|s.organizations|];
      assert t.admins == s.admins + [admin];
      assert t.organizations == s.organizations + [org];
      assert forall k :: 0 <= k < |s.admins| ==> !AdminWithEmail(email)(s.admins[k]);
      assert forall k :: 0 <= k < |s.organizations| ==> !OrgNamed(name)(s.organizations[k]);
      Text.StripIdempotent(organizationName);
      AppendKeepsWellFormed(s, t, admin, org);
    }
  }

  /**
   * Organisation row `i` removed and, if there is one, admin row `ka` (its
   * owner): every remaining record is an old one, in the old order.
   */
  ghost predicate Removed(s: Store, t: Store, i: nat, ka: Option<nat>) {
    && i < |s.organizations| && t.nextId == s.nextId
    && |t.organizations| == |s.organizations| - 1
    && (forall k :: 0 <= k < |t.organizations| ==> t.organizations[k] == s.organizations[Skip(k, i)])
    && (ka.None? ==> t.admins == s.admins)
    && (ka.Some? ==>
          && ka.value < |s.admins| && s.admins[ka.value].id == s.organizations[i].rec.adminId
          && |t.admins| == |s.admins| - 1
          && forall k :: 0 <= k < |t.admins| ==> t.admins[k] == s.admins[Skip(k, ka.value)])
  }

  /** The invariants survive removing an organisation together with its owner. */
  lemma RemoveKeepsWellFormed(s: Store, t: Store, i: nat, ka: Option<nat>)
    requires WellFormed(s) && Removed(s, t, i, ka)
    ensures WellFormed(t)
  {
    RemoveKeepsFreshIds(s, t, i, ka);
    RemoveKeepsUniqueKeys(s, t, i, ka);
    RemoveKeepsOwned(s, t, i, ka);
  }

  lemma RemoveKeepsFreshIds(s: Store, t: Store, i: nat, ka: Option<nat>)
    requires FreshIds(s) && Removed(s, t, i, ka)
    ensures FreshIds(t)
  {
    forall k, l | 0 <= k < l < |t.organizations|
      ensures t.organizations[k].id != t.organizations[l].id
    {
      assert t.organizations[k] == s.organizations[Skip(k, i)] && t.organizations[l] == s.organizations[Skip(l, i)];
    }
    forall k | 0 <= k < |t.organizations|
      ensures t.organizations[k].id < t.nextId
    {
      assert t.organizations[k] == s.organizations[Skip(k, i)];
    }
    if ka.Some? {
      forall k, l | 0 <= k < l < |t.admins|
        ensures t.admins[k].id != t.admins[l].id
      {
        assert t.admins[k] == s.admins[Skip(k, ka.value)] && t.admins[l] == s.admins[Skip(l, ka.value)];
      }
      forall k | 0 <= k < |t.admins|
        ensures t.admins[k].id < t.nextId
      {
        assert t.admins[k] == s.admins[Skip(k, ka.value)];
      }
    }
  }

  lemma RemoveKeepsUniqueKeys(s: Store, t: Store, i: nat, ka: Option<nat>)
    requires UniqueKeys(s) && Removed(s, t, i, ka)
    ensures UniqueKeys(t)
  {
    forall k, l | 0 <= k < l < |t.organizations|
      ensures t.organizations[k].rec.organizationName != t.organizations[l].rec.organizationName
      ensures t.organizations[k].rec.adminId != t.organizations[l].rec.adminId
    {
      assert t.organizations[k] == s.organizations[Skip(k, i)] && t.organizations[l] == s.organizations[Skip(l, i)];
    }
    if ka.Some? {
      forall k, l | 0 <= k < l < |t.admins|
        ensures t.admins[k].rec.email != t.admins[l].rec.email
      {
        assert t.admins[k] == s.admins[Skip(k, ka.value)] && t.admins[l] == s.admins[Skip(l, ka.value)];
      }
    }
  }

  lemma RemoveKeepsOwned(s: Store, t: Store, i: nat, ka: Option<nat>)
    requires WellFormed(s) && Removed(s, t, i, ka)
    ensures Owned(t)
  {
    forall k | 0 <= k < |t.organizations|
      ensures Normalized(t.organizations[k].rec)
    {
      assert t.organizations[k] == s.organizations[Skip(k, i)];
    }
    RemoveKeepsOwners(s, t, i, ka);
  }

  lemma RemoveKeepsOwners(s: Store, t: Store, i: nat, ka: Option<nat>)
    requires forall k :: 0 <= k < |s.organizations| ==> HasOwner(s, s.organizations[k].rec)
    requires forall k, l :: 0 <= k < l < |s.organizations| ==>
      s.organizations[k].rec.adminId != s.organizations[l].rec.adminId
    requires Removed(s, t, i, ka)
    ensures forall k :: 0 <= k < |t.organizations| ==> HasOwner(t, t.organizations[k].rec)
  {
    forall k | 0 <= k < |t.organizations|
      ensures HasOwner(t, t.organizations[k].rec)
    {
      var m := Skip(k, i);
      var org := s.organizations[m];
      assert t.organizations[k] == org;
      assert HasOwner(s, org.rec);
      var j :| 0 <= j < |s.admins| && s.admins[j].id == org.rec.adminId && Mirrors(s.admins[j].rec, org.rec);
      if ka.Some? {
        assert m != i;
        assert org.rec.adminId != s.organizations[i].rec.adminId;
        assert j != ka.value;
        if j < ka.value {
          assert Skip(j, ka.value) == j;
          assert t.admins[j] == s.admins[j];
          OwnerAt(t, org.rec, j);
        } else {
          assert Skip(j - 1, ka.value) == j;
          assert t.admins[j - 1] == s.admins[j];
          OwnerAt(t, org.rec, j - 1);
        }
      } else {
        OwnerAt(t, org.rec, j);
      }
    }
  }

  /** `delete_organization` keeps the directory invariants, whatever it ends with. */
  lemma DeleteKeepsWellFormed(s: Store, organizationName: string, requester: Id)
    requires WellFormed(s)
    ensures WellFormed(OrgService.Delete(s, organizationName, requester).store)
  {
    var found := Find(s.organizations, OrgNamed(Text.Strip(organizationName)));
    if found.Some? && s.organizations[found.value].rec.adminId == requester {
      var i := found.value;
      var t := OrgService.Delete(s, organizationName, requester).store;
      FindById(s.organizations, i);
      DeleteFirstShape(s.organizations, HasId(s.organizations[i].id));
      DeleteFirstShape(s.admins, HasId(requester));
      var ka := Find(s.admins, HasId(requester));
      RemoveKeepsWellFormed(s, t, i, ka);
    }
  }

  /**
   * The record writes of an update, in the terms of the invariants: row `i`
   * of the organisations and its owner's row rewritten, a new name only if
   * it is free, a new email only if no other admin holds it.
   */
  ghost predicate Rewritten(
    s: Store, t: Store, i: nat, newEmail: Option<string>, rename: Option<string>, digest: Option<string>)
  {
    && i < |s.organizations|
    && t.nextId >= s.nextId
    && OrgService.OrgRowWritten(s, t, i, newEmail, rename)
    && OrgService.AdminRowWritten(s, t, s.organizations[i].rec.adminId, newEmail, rename, digest)
    && (rename.Some? ==>
          forall k :: 0 <= k < |s.organizations| ==> s.organizations[k].rec.organizationName != rename.value)
    && (newEmail.Some? ==>
          forall k :: 0 <= k < |s.admins| && s.admins[k].rec.email == newEmail.value ==>
            s.admins[k].id == s.organizations[i].rec.adminId)
  }

  /** The invariants survive an update's record writes. */
  lemma RewriteKeepsWellFormed(
    s: Store, t: Store, i: nat, newEmail: Option<string>, rename: Option<string>, digest: Option<string>)
    requires WellFormed(s) && Rewritten(s, t, i, newEmail, rename, digest)
    requires Normalized(t.organizations[i].rec)
    ensures WellFormed(t)
  {
    OwnerFound(s, i);
    RewriteSameRows(s, t, i, newEmail, rename, digest);
    SameRowsKeepFreshIds(s, t);
    RewriteKeysRewritten(s, t, i, newEmail, rename, digest);
    RewriteKeepsUniqueKeys(s, t, i, newEmail, rename);
    RewriteKeepsOwned(s, t, i, newEmail, rename, digest);
  }

  /** In a well-formed directory the lookup of an organisation's admin by `_id` finds it. */
  lemma OwnerFound(s: Store, i: nat)
    requires WellFormed(s) && i < |s.organizations|
    ensures var a := Find(s.admins, HasId(s.organizations[i].rec.adminId));
      a.Some? && Mirrors(s.admins[a.value].rec, s.organizations[i].rec)
  {
    assert HasOwner(s, s.organizations[i].rec);
    var j :| 0 <= j < |s.admins| && s.admins[j].id == s.organizations[i].rec.adminId
      && Mirrors(s.admins[j].rec, s.organizations[i].rec);
    FindById(s.admins, j);
  }

  /** Both tables keep their length and every row its `_id`; `nextId` does not go back. */
  ghost predicate SameRows(s: Store, t: Store) {
    && |t.admins| == |s.admins| && |t.organizations| == |s.organizations|
    && (forall k :: 0 <= k < |s.admins| ==> t.admins[k].id == s.admins[k].id)
    && (forall k :: 0 <= k < |s.organizations| ==> t.organizations[k].id == s.organizations[k].id)
    && t.nextId >= s.nextId
  }

  lemma RewriteSameRows(
    s: Store, t: Store, i: nat, newEmail: Option<string>, rename: Option<string>, digest: Option<string>)
    requires i < |s.organizations| && t.nextId >= s.nextId
    requires OrgService.OrgRowWritten(s, t, i, newEmail, rename)
    requires OrgService.AdminRowWritten(s, t, s.organizations[i].rec.adminId, newEmail, rename, digest)
    ensures SameRows(s, t)
  {
    var a := Find(s.admins, HasId(s.organizations[i].rec.adminId));
    if a.Some? {
      assert forall k :: 0 <= k < |s.admins| && k != a.value ==> t.admins[k] == s.admins[k];
    }
    assert forall k :: 0 <= k < |s.organizations| && k != i ==> t.organizations[k] == s.organizations[k];
  }

  lemma SameRowsKeepFreshIds(s: Store, t: Store)
    requires FreshIds(s) && SameRows(s, t)
    ensures FreshIds(t)
  {
  }

  /** What the unique keys need of an update's writes, with the record fields left out. */
  ghost predicate KeysRewritten(s: Store, t: Store, i: nat, newEmail: Option<string>, rename: Option<string>)
  {
    && i < |s.organizations|
    && |t.organizations| == |s.organizations| && |t.admins| == |s.admins|
    && (forall k :: 0 <= k < |s.organizations| && k != i ==> t.organizations[k] == s.organizations[k])
    && (forall k :: 0 <= k < |s.organizations| ==> t.organizations[k].rec.adminId == s.organizations[k].rec.adminId)
    && t.organizations[i].rec.organizationName == (if rename.Some? then rename.value else s.organizations[i].rec.organizationName)
    && (rename.Some? ==>
          forall k :: 0 <= k < |s.organizations| ==> s.organizations[k].rec.organizationName != rename.value)
    && (forall k :: 0 <= k < |s.admins| && t.admins[k] != s.admins[k] ==>
          && s.admins[k].id == s.organizations[i].rec.adminId
          && t.admins[k].rec.email == (if newEmail.Some? then newEmail.value else s.admins[k].rec.email))
    && (newEmail.Some? ==>
          forall k :: 0 <= k < |s.admins| && s.admins[k].rec.email == newEmail.value ==>
            s.admins[k].id == s.organizations[i].rec.adminId)
  }

  lemma RewriteKeysRewritten(
    s: Store, t: Store, i: nat, newEmail: Option<string>, rename: Option<string>, digest: Option<string>)
    requires Rewritten(s, t, i, newEmail, rename, digest)
    ensures KeysRewritten(s, t, i, newEmail, rename)
  {
    OrgKeysRewritten(s, t, i, newEmail, rename);
    AdminKeysRewritten(s, t, s.organizations[i].rec.adminId, newEmail, rename, digest);
  }

  /** The organisation half of `KeysRewritten`. */
  lemma OrgKeysRewritten(s: Store, t: Store, i: nat, newEmail: Option<string>, rename: Option<string>)
    requires i < |s.organizations| && OrgService.OrgRowWritten(s, t, i, newEmail, rename)
    ensures |t.organizations| == |s.organizations|
    ensures forall k :: 0 <= k < |s.organizations| ==> t.organizations[k].rec.adminId == s.organizations[k].rec.adminId
    ensures t.organizations[i].rec.organizationName == (if rename.Some? then rename.value else s.organizations[i].rec.organizationName)
  {
    assert OrgService.OrgUpdated(s.organizations[i].rec, t.organizations[i].rec, newEmail, rename);
  }

  /** The admin half of `KeysRewritten`: only the owner's row changes, and only as requested. */
  lemma AdminKeysRewritten(
    s: Store, t: Store, owner: Id, newEmail: Option<string>, rename: Option<string>, digest: Option<string>)
    requires OrgService.AdminRowWritten(s, t, owner, newEmail, rename, digest)
    ensures |t.admins| == |s.admins|
    ensures forall k :: 0 <= k < |s.admins| && t.admins[k] != s.admins[k] ==>
      && s.admins[k].id == owner
      && t.admins[k].rec.email == (if newEmail.Some? then newEmail.value else s.admins[k].rec.email)
  {
    var a := Find(s.admins, HasId(owner));
    if a.Some? {
      assert forall k :: 0 <= k < |s.admins| && k != a.value ==> t.admins[k] == s.admins[k];
      assert OrgService.AdminUpdated(s.admins[a.value].rec, t.admins[a.value].rec, newEmail, rename, digest);
    }
  }

  lemma RewriteKeepsUniqueKeys(s: Store, t: Store, i: nat, newEmail: Option<string>, rename: Option<string>)
    requires DistinctIds(s.admins) && UniqueKeys(s) && KeysRewritten(s, t, i, newEmail, rename)
    ensures UniqueKeys(t)
  {
    forall k, l | 0 <= k < l < |t.organizations|
      ensures t.organizations[k].rec.organizationName != t.organizations[l].rec.organizationName
    {
    }
    forall k, l | 0 <= k < l < |t.admins|
      ensures t.admins[k].rec.email != t.admins[l].rec.email
    {
      if t.admins[k] != s.admins[k] {
        assert s.admins[l].id != s.admins[k].id;
      } else if t.admins[l] != s.admins[l] {
        assert s.admins[l].id != s.admins[k].id;
      }
    }
  }

  lemma RewriteKeepsOwned(
    s: Store, t: Store, i: nat, newEmail: Option<string>, rename: Option<string>, digest: Option<string>)
    requires WellFormed(s) && i < |s.organizations|
    requires OrgService.OrgRowWritten(s, t, i, newEmail, rename)
    requires OrgService.AdminRowWritten(s, t, s.organizations[i].rec.adminId, newEmail, rename, digest)
    requires Normalized(t.organizations[i].rec)
    requires var a := Find(s.admins, HasId(s.organizations[i].rec.adminId));
      a.Some? && Mirrors(s.admins[a.value].rec, s.organizations[i].rec)
    ensures Owned(t)
  {
    forall k | 0 <= k < |t.organizations|
      ensures Normalized(t.organizations[k].rec)
    {
      if k != i {
        assert t.organizations[k] == s.organizations[k];
      }
    }
    RewriteKeepsOwners(s, t, i, newEmail, rename, digest);
  }

  lemma RewriteKeepsOwners(
    s: Store, t: Store, i: nat, newEmail: Option<string>, rename: Option<string>, digest: Option<string>)
    requires forall k :: 0 <= k < |s.organizations| ==> HasOwner(s, s.organizations[k].rec)
    requires forall k, l :: 0 <= k < l < |s.organizations| ==>
      s.organizations[k].rec.adminId != s.organizations[l].rec.adminId
    requires i < |s.organizations|
    requires OrgService.OrgRowWritten(s, t, i, newEmail, rename)
    requires OrgService.AdminRowWritten(s, t, s.organizations[i].rec.adminId, newEmail, rename, digest)
    requires var a := Find(s.admins, HasId(s.organizations[i].rec.adminId));
      a.Some? && Mirrors(s.admins[a.value].rec, s.organizations[i].rec)
    ensures forall k :: 0 <= k < |t.organizations| ==> HasOwner(t, t.organizations[k].rec)
  {
    var a := Find(s.admins, HasId(s.organizations[i].rec.adminId)).value;
    forall k | 0 <= k < |t.organizations|
      ensures HasOwner(t, t.organizations[k].rec)
    {
      if k == i {
        assert Mirrors(t.admins[a].rec, t.organizations[i].rec);
        assert t.admins[a].id == s.admins[a].id;
        OwnerAt(t, t.organizations[i].rec, a);
      } else {
        assert t.organizations[k] == s.organizations[k];
        assert s.organizations[k].rec.adminId != s.organizations[i].rec.adminId;
        OtherOwnerKept(s, t, s.organizations[k].rec, a);
      }
    }
  }

  /** An organisation whose owner is not admin row `a` keeps its owner when only row `a` changed. */
  lemma OtherOwnerKept(s: Store, t: Store, org: Organization, a: nat)
    requires HasOwner(s, org) && a < |s.admins| && s.admins[a].id != org.adminId
    requires |t.admins| == |s.admins| && forall k :: 0 <= k < |s.admins| && k != a ==> t.admins[k] == s.admins[k]
    ensures HasOwner(t, org)
  {
    var j :| 0 <= j < |s.admins| && s.admins[j].id == org.adminId && Mirrors(s.admins[j].rec, org);
    assert t.admins[j] == s.admins[j];
    OwnerAt(t, org, j);
  }

  /** Records untouched and `nextId` not gone back: the invariants still hold. */
  lemma RecordsKeptWellFormed(s: Store, t: Store)
    requires WellFormed(s)
    requires t.admins == s.admins && t.organizations == s.organizations && t.nextId >= s.nextId
    ensures WellFormed(t)
  {
    forall k | 0 <= k < |t.organizations|
      ensures HasOwner(t, t.organizations[k].rec)
    {
      assert HasOwner(s, s.organizations[k].rec);
    }
  }

  /** A normalised record renamed to a trimmed name is normalised. */
  lemma UpdatedNormalized(before: Organization, after: Organization, newEmail: Option<string>, rename: Option<string>)
    requires Normalized(before) && OrgService.OrgUpdated(before, after, newEmail, rename)
    requires rename.Some? ==> Text.Strip(rename.value) == rename.value
    ensures Normalized(after)
  {
  }

  /** `update_organization` keeps the directory invariants, whatever it ends with. */
  lemma UpdateKeepsWellFormed(
    s: Store, oldName: string, newName: Option<string>, email: Option<string>, password: Option<string>,
    hash: string -> string)
    requires WellFormed(s)
    ensures WellFormed(OrgService.Update(s, oldName, newName, email, password, hash).store)
  {
    var out := OrgService.Update(s, oldName, newName, email, password, hash);
    var found := Find(s.organizations, OrgNamed(Text.Strip(oldName)));
    var rename := OrgService.RenameTo(oldName, newName);
    if found.None? || (rename.Some? && OrgNameTaken(s, rename.value)) {
      assert out.store == s;
    } else {
      var i := found.value;
      var adminId := s.organizations[i].rec.adminId;
      if OrgService.EmailClash(s, email, adminId) {
        OrgService.UpdateEmailConflict(s, oldName, newName, email, password, hash);
        RecordsKeptWellFormed(s, out.store);
      } else {
        PassedUpdateKeepsWellFormed(s, oldName, newName, email, password, hash);
      }
    }
  }

  /** An update that passed both lookups and the email check keeps the invariants. */
  lemma PassedUpdateKeepsWellFormed(
    s: Store, oldName: string, newName: Option<string>, email: Option<string>, password: Option<string>,
    hash: string -> string)
    requires WellFormed(s)
    requires Find(s.organizations, OrgNamed(Text.Strip(oldName))).Some?
    requires var rename := OrgService.RenameTo(oldName, newName);
      !(rename.Some? && OrgNameTaken(s, rename.value))
    requires !OrgService.EmailClash(s, email, s.organizations[Find(s.organizations, OrgNamed(Text.Strip(oldName))).value].rec.adminId)
    ensures WellFormed(OrgService.Update(s, oldName, newName, email, password, hash).store)
  {
    var out := OrgService.Update(s, oldName, newName, email, password, hash);
    var i := Find(s.organizations, OrgNamed(Text.Strip(oldName))).value;
    var rename := OrgService.RenameTo(oldName, newName);
    var adminId := s.organizations[i].rec.adminId;
    OrgService.UpdateWritesRecords(s, oldName, newName, email, password, hash);
    var newEmail := if OrgService.Truthy(email) then email else None;
    var digest := if OrgService.Truthy(password) then Some(hash(password.value)) else None;
    if rename.Some? {
      assert forall k :: 0 <= k < |s.organizations| ==> !OrgNamed(rename.value)(s.organizations[k]);
      Text.StripIdempotent(newName.value);
    }
    if newEmail.Some? {
      assert forall k :: 0 <= k < |s.admins| ==> !OtherAdminWithEmail(newEmail.value, adminId)(s.admins[k]);
    }
    WritesKeepWellFormed(s, out.store, i, newEmail, rename, digest);
  }

  /** The record writes of an update that passed its checks keep the invariants. */
  lemma WritesKeepWellFormed(
    s: Store, t: Store, i: nat, newEmail: Option<string>, rename: Option<string>, digest: Option<string>)
    requires WellFormed(s) && i < |s.organizations| && t.nextId >= s.nextId
    requires OrgService.OrgRowWritten(s, t, i, newEmail, rename)
    requires OrgService.AdminRowWritten(s, t, s.organizations[i].rec.adminId, newEmail, rename, digest)
    requires rename.Some? ==>
      && Text.Strip(rename.value) == rename.value
      && forall k :: 0 <= k < |s.organizations| ==> s.organizations[k].rec.organizationName != rename.value
    requires newEmail.Some? ==>
      forall k :: 0 <= k < |s.admins| && s.admins[k].rec.email == newEmail.value ==>
        s.admins[k].id == s.organizations[i].rec.adminId
    ensures WellFormed(t)
  {
    assert OrgService.OrgUpdated(s.organizations[i].rec, t.organizations[i].rec, newEmail, rename);
    UpdatedNormalized(s.organizations[i].rec, t.organizations[i].rec, newEmail, rename);
    RewriteKeepsWellFormed(s, t, i, newEmail, rename, digest);
  }
}
