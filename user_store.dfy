/**
  The User table the service works on, as an in-memory store.

  A row is a `User` record; a `Where` value is the conjunction of attribute
  conditions the service hands to `findOne`/`findAll`/`update`; `Select` is
  the store's filtered scan in table order and `FindOne` its first hit.
  `UserTable` owns the rows and the autoincrement counter that hands out ids.
 */
module UserStore {

  datatype Option<T> = None | Some(value: T)
  {
    /** The supplied value, or `default` when nothing was supplied. */
    function GetOr(default: T): T {
      if Some? then value else default
    }
  }

  /** One row of the User table; `status == false` marks a soft-deleted user. */
  datatype User = User(
    id: nat,
    name: string,
    email: string,
    password: string,
    cellphone: string,
    status: bool,
    updatedAt: int)

  /**
    The attribute conditions a query can carry: equality on id, email and
    status, `name LIKE '%part%'`, and a strict range on updatedAt. An absent
    condition (None) does not restrict.
   */
  datatype Where = Where(
    id: Option<nat>,
    email: Option<string>,
    status: Option<bool>,
    nameLike: Option<string>,
    updatedBefore: Option<int>,
    updatedAfter: Option<int>)

  const AnyRow: Where := Where(None, None, None, None, None, None)
  const ActiveRows: Where := AnyRow.(status := Some(true))

  function ActiveById(id: nat): Where {
    AnyRow.(id := Some(id), status := Some(true))
  }

  function ByEmail(email: string): Where {
    AnyRow.(email := Some(email))
  }

  /** `part` starts at position `i` of `s`. */
  predicate OccursAt(s: string, part: string, i: nat) {
    i + |part| <= |s| && s[i..i + |part|] == part
  }

  /** `part` occurs in `s` as a contiguous substring (LIKE '%part%'). */
  predicate Contains(s: string, part: string) {
    exists i: nat :: i <= |s| && OccursAt(s, part, i)
  }

  predicate Matches(w: Where, u: User) {
    && (w.id.None? || u.id == w.id.value)
    && (w.email.None? || u.email == w.email.value)
    && (w.status.None? || u.status == w.status.value)
    && (w.nameLike.None? || Contains(u.name, w.nameLike.value))
    && (w.updatedBefore.None? || u.updatedAt < w.updatedBefore.value)
    && (w.updatedAfter.None? || u.updatedAt > w.updatedAfter.value)
  }

  /** `findAll({where: w})`: the matching rows, in table order. */
  function Select(rows: seq<User>, w: Where): (r: seq<User>)
    ensures |r| <= |rows|
    ensures forall u :: u in r <==> u in rows && Matches(w, u)
  {
    if rows == [] then []
    else if Matches(w, rows[0]) then [rows[0]] + Select(rows[1..], w)
    else Select(rows[1..], w)
  }

  /** `findOne({where: w})`: the first matching row, or nothing. */
  function FindOne(rows: seq<User>, w: Where): (r: Option<User>)
    ensures r.Some? ==> r.value in rows && Matches(w, r.value)
    ensures r.None? <==> forall u :: u in rows ==> !Matches(w, u)
  {
    var found := Select(rows, w);
    if found == [] then None else Some(found[0])
  }

  /** Scanning a concatenation scans each part in turn: results keep table order. */
  lemma {:induction false} SelectAppend(a: seq<User>, b: seq<User>, w: Where)
    ensures Select(a + b, w) == Select(a, w) + Select(b, w)
  {
    if a == [] {
      assert a + b == b;
    } else {
      assert (a + b)[0] == a[0];
      assert (a + b)[1..] == a[1..] + b;
      SelectAppend(a[1..], b, w);
    }
  }

  /** A scan of a single row keeps it exactly when it matches. */
  lemma SelectSingle(u: User, w: Where)
    ensures Select([u], w) == if Matches(w, u) then [u] else []
  {
  }

  /**
    The values an `update` writes; an absent field (None) is not part of the
    payload and keeps its stored value.
   */
  datatype Patch = Patch(
    name: Option<string>,
    password: Option<string>,
    cellphone: Option<string>,
    status: Option<bool>)

  /** The payload of a soft delete: only `status := false`. */
  const SoftDelete: Patch := Patch(None, None, None, Some(false))

  /** One row after `update`: payload fields replaced, updatedAt refreshed by the store. */
  function ApplyPatch(u: User, p: Patch, now: int): (v: User)
    ensures v.id == u.id && v.email == u.email && v.updatedAt == now
  {
    u.(name := p.name.GetOr(u.name),
       password := p.password.GetOr(u.password),
       cellphone := p.cellphone.GetOr(u.cellphone),
       status := p.status.GetOr(u.status),
       updatedAt := now)
  }

  /** `update(p, {where: {id}})`: every row with that id is patched, the others are kept. */
  function UpdateById(rows: seq<User>, id: nat, p: Patch, now: int): (r: seq<User>)
    ensures |r| == |rows|
    ensures forall i :: 0 <= i < |rows| ==>
      r[i] == if rows[i].id == id then ApplyPatch(rows[i], p, now) else rows[i]
  {
    if rows == [] then []
    else [if rows[0].id == id then ApplyPatch(rows[0], p, now) else rows[0]]
         + UpdateById(rows[1..], id, p, now)
  }

  /** Ids are told apart: no two rows share one, and all are below the counter. */
  ghost predicate DistinctIds(rows: seq<User>, nextId: nat) {
    && (forall i :: 0 <= i < |rows| ==> rows[i].id < nextId)
    && (forall i, j :: 0 <= i < j < |rows| ==> rows[i].id != rows[j].id)
  }

  /** The `db.User` model: the rows and the id counter of the table. */
  class UserTable {
    var rows: seq<User>
    var nextId: nat

    ghost predicate Valid()
      reads this
    {
      DistinctIds(rows, nextId)
    }

    constructor ()
      ensures Valid() && rows == [] && nextId == 0
    {
      rows := [];
      nextId := 0;
    }

    /** `create(fields)`: appends one row with a fresh id stamped with `now`. */
    method Create(name: string, email: string, password: string, cellphone: string, status: bool, now: int)
      returns (u: User)
      requires Valid()
      modifies this
      ensures Valid()
      ensures u == User(old(nextId), name, email, password, cellphone, status, now)
      ensures rows == old(rows) + [u] && nextId == old(nextId) + 1
      ensures forall v :: v in old(rows) ==> v.id != u.id
    {
      u := User(nextId, name, email, password, cellphone, status, now);
      rows := rows + [u];
      nextId := nextId + 1;
    }

    /** `update(p, {where: {id}})`: no row is added or removed, and ids stay put. */
    method Update(id: nat, p: Patch, now: int)
      requires Valid()
      modifies this
      ensures Valid()
      ensures rows == UpdateById(old(rows), id, p, now) && nextId == old(nextId)
    {
      rows := UpdateById(rows, id, p, now);
    }
  }
}
