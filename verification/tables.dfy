/**
 * A MongoDB collection of records, in natural (insertion) order. The
 * directory's `find_one`, `update_one` and `delete_one` act on the first
 * record their filter matches, which this module makes explicit.
 */
module Tables {
  import opened Wrappers
  import opened ObjectIds

  /** A stored record together with its `_id`. */
  datatype Row<T> = Row(id: Id, rec: T)

  /** `find_one(filter)`: the position of the first row the filter matches. */
  function Find<T>(t: seq<Row<T>>, matches: Row<T> -> bool): (r: Option<nat>)
    ensures r.Some? ==> r.value < |t| && matches(t[r.value])
    ensures r.Some? ==> forall j :: 0 <= j < r.value ==> !matches(t[j])
    ensures r.None? <==> forall j :: 0 <= j < |t| ==> !matches(t[j])
  {
    if t == [] then None
    else if matches(t[0]) then Some(0)
    else match Find(t[1..], matches)
      case None => None
      case Some(k) => Some(k + 1)
  }

  /** `update_one(filter, {"$set": ...})`: rewrite the first matching row, keeping its `_id`. */
  function UpdateFirst<T>(t: seq<Row<T>>, matches: Row<T> -> bool, change: T -> T): seq<Row<T>> {
    match Find(t, matches)
    case None => t
    case Some(i) => t[i := Row(t[i].id, change(t[i].rec))]
  }

  /** `delete_one(filter)`: remove the first matching row. */
  function DeleteFirst<T>(t: seq<Row<T>>, matches: Row<T> -> bool): seq<Row<T>> {
    match Find(t, matches)
    case None => t
    case Some(i) => t[..i] + t[i + 1..]
  }

  /** The filter `{"_id": id}`. */
  function HasId<T>(id: Id): Row<T> -> bool {
    (r: Row<T>) => r.id == id
  }

  /** No two rows share an `_id`. */
  ghost predicate DistinctIds<T>(t: seq<Row<T>>) {
    forall i, j :: 0 <= i < j < |t| ==> t[i].id != t[j].id
  }

  /** Every `_id` was handed out before `next`. */
  ghost predicate IdsBelow<T>(t: seq<Row<T>>, next: Id) {
    forall i :: 0 <= i < |t| ==> t[i].id < next
  }

  /** With distinct ids, looking a row up by its own id finds that row. */
  lemma FindById<T>(t: seq<Row<T>>, i: nat)
    requires DistinctIds(t) && i < |t|
    ensures Find(t, HasId(t[i].id)) == Some(i)
  {
    assert HasId(t[i].id)(t[i]);
  }

  /** A filter no existing row matches picks the appended row. */
  lemma FindAppended<T>(t: seq<Row<T>>, row: Row<T>, matches: Row<T> -> bool)
    requires Find(t, matches).None? && matches(row)
    ensures Find(t + [row], matches) == Some(|t|)
  {
    var u := t + [row];
    assert u[|t|] == row;
    assert forall j :: 0 <= j < |t| ==> u[j] == t[j];
  }

  /** Appending a row the filter does not match does not change what it finds. */
  lemma FindAppendedOther<T>(t: seq<Row<T>>, row: Row<T>, matches: Row<T> -> bool)
    requires !matches(row)
    ensures Find(t + [row], matches) == Find(t, matches)
  {
    var u := t + [row];
    assert forall j :: 0 <= j < |t| ==> u[j] == t[j];
    assert u[|t|] == row;
  }

  /** `update_one` keeps every row's `_id` and the number of rows. */
  lemma UpdateFirstShape<T>(t: seq<Row<T>>, matches: Row<T> -> bool, change: T -> T)
    ensures var u := UpdateFirst(t, matches, change);
      && |u| == |t|
      && (forall k :: 0 <= k < |t| ==> u[k].id == t[k].id)
      && (Find(t, matches).None? ==> u == t)
      && (Find(t, matches).Some? ==> forall k :: 0 <= k < |t| && k != Find(t, matches).value ==> u[k] == t[k])
  {
  }

  /** A lookup by `_id` sees through any change that keeps the ids. */
  lemma {:induction false} FindIdStable<T>(t: seq<Row<T>>, u: seq<Row<T>>, id: Id)
    requires |t| == |u| && forall k :: 0 <= k < |t| ==> u[k].id == t[k].id
    ensures Find(u, HasId(id)) == Find(t, HasId(id))
  {
    if t != [] {
      assert HasId<T>(id)(t[0]) == HasId<T>(id)(u[0]);
      FindIdStable(t[1..], u[1..], id);
    }
  }

  /** Where the `k`-th row ends up coming from once row `i` is removed. */
  function Skip(k: nat, i: nat): nat {
    if k < i then k else k + 1
  }

  /**
   * `delete_one` removes the first matching row and only that one: the
   * rows after it move up by one, and nothing is removed when none matches.
   */
  lemma DeleteFirstShape<T>(t: seq<Row<T>>, matches: Row<T> -> bool)
    ensures Find(t, matches).None? ==> DeleteFirst(t, matches) == t
    ensures Find(t, matches).Some? ==>
      var r := DeleteFirst(t, matches);
      && |r| == |t| - 1
      && forall k :: 0 <= k < |r| ==> r[k] == t[Skip(k, Find(t, matches).value)]
  {
    if Find(t, matches).Some? {
      var i := Find(t, matches).value;
      var r := t[..i] + t[i + 1..];
      assert DeleteFirst(t, matches) == r;
      forall k | 0 <= k < |r|
        ensures r[k] == t[Skip(k, i)]
      {
        if k < i {
          assert r[k] == t[..i][k];
        } else {
          assert r[k] == t[i + 1..][k - i];
        }
      }
    }
  }

  /**
   * With distinct ids, deleting by `_id` leaves no row with that id and
   * keeps every other row, so the ids stay distinct.
   */
  lemma DeleteById<T>(t: seq<Row<T>>, id: Id)
    requires DistinctIds(t)
    ensures var r := DeleteFirst(t, HasId(id));
      && DistinctIds(r)
      && (forall k :: 0 <= k < |r| ==> r[k].id != id)
      && (forall k :: 0 <= k < |t| && t[k].id != id ==> t[k] in r)
  {
    DeleteFirstShape(t, HasId(id));
    var r := DeleteFirst(t, HasId(id));
    match Find(t, HasId(id))
    case None =>
      assert forall k :: 0 <= k < |t| ==> !HasId<T>(id)(t[k]);
    case Some(i) =>
      forall k | 0 <= k < |t| && t[k].id != id
        ensures t[k] in r
      {
        if k < i {
          assert r[k] == t[k];
        } else {
          assert k != i;
          assert r[k - 1] == t[k];
        }
      }
      forall k | 0 <= k < |r|
        ensures r[k].id != id
      {
        assert r[k] == t[Skip(k, i)];
      }
      forall k, l | 0 <= k < l < |r|
        ensures r[k].id != r[l].id
      {
        assert r[k] == t[Skip(k, i)] && r[l] == t[Skip(l, i)];
      }
  }
}
