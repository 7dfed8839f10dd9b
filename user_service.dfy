/**
  The user service: seven request handlers over the User table, each answering
  with a `(code, message)` response.

  The store is the `UserTable` passed as `db`; the password hasher is the
  parameter `hash`, an opaque one-way function; the store's clock is the
  parameter `now`; whether the store throws on the k-th insert of a batch is
  the parameter `storeFails(k)`.
 */
module UserService {
  import opened UserStore

  /** The one-way password hasher (`bcrypt.hash` with cost 10). */
  type Hasher = string -> string

  /** What a response carries besides its code. */
  datatype Message =
    | PasswordsMismatch
    | AlreadyExists
    | Created(id: nat)
    | Found(user: Option<User>)
    | Updated
    | Deleted
    | Listed(users: seq<User>)
    | NoMatches
    | BulkSummary(created: nat, failed: nat)

  datatype Response = Response(code: int, message: Message)

  /** The body of a create request, and one entry of a bulk request. */
  datatype CreateRequest = CreateRequest(
    name: string,
    email: string,
    password: string,
    passwordSecond: string,
    cellphone: string)

  /** The body of an update request; None stands for a null or undefined field. */
  datatype UpdateRequest = UpdateRequest(
    name: Option<string>,
    password: Option<string>,
    cellphone: Option<string>)

  /**
    The query string of a search. None stands for an absent parameter; the two
    bounds are already parsed timestamps, None also when the parameter is empty.
   */
  datatype Query = Query(
    name: Option<string>,
    eliminado: Option<string>,
    lastLoginBefore: Option<int>,
    lastLoginAfter: Option<int>)

  /** JavaScript truthiness of an optional string: present and non-empty. */
  predicate Truthy(s: Option<string>) {
    s.Some? && s.value != ""
  }

  /** Some row, active or soft-deleted, already holds this email. */
  predicate EmailInUse(rows: seq<User>, email: string) {
    exists u :: u in rows && u.email == email
  }

  /** Some row with this id is still active. */
  predicate ActiveIdIn(rows: seq<User>, id: nat) {
    exists u :: u in rows && u.id == id && u.status
  }

  /**
    Why a create request is refused, checked in the order the service checks:
    first the two passwords, then an email lookup with no status condition.
   */
  function Refusal(rows: seq<User>, req: CreateRequest): (r: Option<Message>)
    ensures r == Some(PasswordsMismatch) <==> req.password != req.passwordSecond
    ensures r == Some(AlreadyExists) <==> req.password == req.passwordSecond && EmailInUse(rows, req.email)
    ensures r.None? || r == Some(PasswordsMismatch) || r == Some(AlreadyExists)
  {
    if req.password != req.passwordSecond then Some(PasswordsMismatch)
    else if FindOne(rows, ByEmail(req.email)).Some? then Some(AlreadyExists)
    else None
  }

  /** The row an admitted create request writes under the id `id`. */
  function NewUser(id: nat, req: CreateRequest, hash: Hasher, now: int): User {
    User(id, req.name, req.email, hash(req.password), req.cellphone, true, now)
  }

  /** createUser: refuse on a password mismatch or a known email, else insert. */
  method CreateUser(db: UserTable, hash: Hasher, req: CreateRequest, now: int) returns (res: Response)
    requires db.Valid()
    modifies db
    ensures db.Valid()
    ensures req.password != req.passwordSecond ==>
      res == Response(400, PasswordsMismatch) && unchanged(db)
    ensures req.password == req.passwordSecond && EmailInUse(old(db.rows), req.email) ==>
      res == Response(400, AlreadyExists) && unchanged(db)
    ensures Refusal(old(db.rows), req).None? ==>
      var u := NewUser(old(db.nextId), req, hash, now);
      && res == Response(200, Created(u.id))
      && db.rows == old(db.rows) + [u]
      && db.nextId == old(db.nextId) + 1
      && (forall v :: v in old(db.rows) ==> v.id != u.id)
      && GetUserById(db, u.id) == Response(200, Found(Some(u)))
  {
    if req.password != req.passwordSecond {
      return Response(400, PasswordsMismatch);
    }
    var user := FindOne(db.rows, ByEmail(req.email));
    if user.Some? {
      return Response(400, AlreadyExists);
    }
    var encryptedPassword := hash(req.password);
    var newUser := db.Create(req.name, req.email, encryptedPassword, req.cellphone, true, now);
    CreatedUserIsFound(old(db.rows), newUser);
    res := Response(200, Created(newUser.id));
  }

  /** getUserById: the active row with that id, or nothing; never an error code. */
  function GetUserById(db: UserTable, id: nat): (r: Response)
    reads db
    ensures r.code == 200 && r.message.Found?
    ensures r.message.user.Some? ==>
      r.message.user.value in db.rows && r.message.user.value.id == id && r.message.user.value.status
    ensures r.message.user.None? <==> !ActiveIdIn(db.rows, id)
  {
    Response(200, Found(FindOne(db.rows, ActiveById(id))))
  }

  /** What `updateUser` writes: `??` for name and cellphone, truthiness for the password. */
  function UpdatePayload(req: UpdateRequest, hash: Hasher): Patch {
    Patch(
      req.name,
      if Truthy(req.password) then Some(hash(req.password.value)) else None,
      req.cellphone,
      None)
  }

  /** updateUser: patch the row with that id; a field not supplied keeps its value. */
  method UpdateUser(db: UserTable, hash: Hasher, id: nat, req: UpdateRequest, now: int) returns (res: Response)
    requires db.Valid()
    modifies db
    ensures db.Valid() && db.nextId == old(db.nextId)
    ensures res == Response(200, Updated)
    ensures db.rows == UpdateById(old(db.rows), id, UpdatePayload(req, hash), now)
    ensures |db.rows| == |old(db.rows)|
    ensures forall i :: 0 <= i < |db.rows| && old(db.rows)[i].id != id ==> db.rows[i] == old(db.rows)[i]
    ensures forall i :: 0 <= i < |db.rows| && old(db.rows)[i].id == id ==>
      && db.rows[i].name == (if req.name.Some? then req.name.value else old(db.rows)[i].name)
      && db.rows[i].cellphone == (if req.cellphone.Some? then req.cellphone.value else old(db.rows)[i].cellphone)
      && db.rows[i].password == (if Truthy(req.password) then hash(req.password.value) else old(db.rows)[i].password)
      && db.rows[i].id == old(db.rows)[i].id
      && db.rows[i].email == old(db.rows)[i].email
      && db.rows[i].status == old(db.rows)[i].status
      && db.rows[i].updatedAt == now
  {
    var payload := UpdatePayload(req, hash);
    db.Update(id, payload, now);
    res := Response(200, Updated);
  }

  /** deleteUser: soft delete, flipping `status` to false on the row with that id. */
  method DeleteUser(db: UserTable, id: nat, now: int) returns (res: Response)
    requires db.Valid()
    modifies db
    ensures db.Valid() && db.nextId == old(db.nextId)
    ensures res == Response(200, Deleted)
    ensures db.rows == UpdateById(old(db.rows), id, SoftDelete, now)
    ensures |db.rows| == |old(db.rows)|
    ensures forall i :: 0 <= i < |db.rows| && old(db.rows)[i].id != id ==> db.rows[i] == old(db.rows)[i]
    ensures forall i :: 0 <= i < |db.rows| && old(db.rows)[i].id == id ==>
      db.rows[i] == old(db.rows)[i].(status := false, updatedAt := now)
    ensures GetUserById(db, id) == Response(200, Found(None))
  {
    db.Update(id, SoftDelete, now);
    SoftDeleteHides(old(db.rows), id, now);
    res := Response(200, Deleted);
  }

  /** getAllUsers: every active row, in table order. */
  function GetAllUsers(db: UserTable): (r: Response)
    reads db
    ensures r.code == 200 && r.message.Listed?
    ensures forall u :: u in r.message.users <==> u in db.rows && u.status
  {
    Response(200, Listed(Select(db.rows, ActiveRows)))
  }

  /** A row passes a search when it meets every condition the query states. */
  predicate Satisfies(q: Query, u: User) {
    && (q.eliminado == Some("true") ==> !u.status)
    && (q.eliminado.Some? && q.eliminado.value != "true" ==> u.status)
    && (Truthy(q.name) ==> Contains(u.name, q.name.value))
    && (q.lastLoginBefore.Some? ==> u.updatedAt < q.lastLoginBefore.value)
    && (q.lastLoginAfter.Some? ==> u.updatedAt > q.lastLoginAfter.value)
  }

  /** The `where` object `findUsers` assembles from the query. */
  function BuildWhere(q: Query): (w: Where)
    ensures w.id.None? && w.email.None?
    ensures forall u :: Matches(w, u) <==> Satisfies(q, u)
  {
    var status := if q.eliminado.Some? then Some(q.eliminado.value != "true") else None;
    var nameLike := if Truthy(q.name) then q.name else None;
    AnyRow.(status := status, nameLike := nameLike,
            updatedBefore := q.lastLoginBefore, updatedAfter := q.lastLoginAfter)
  }

  /** findUsers: the rows meeting the query, or 404 when there are none. */
  function FindUsers(db: UserTable, q: Query): (r: Response)
    reads db
    ensures r.code == 200 || r.code == 404
    ensures r.code == 404 <==> forall u :: u in db.rows ==> !Satisfies(q, u)
    ensures r.code == 404 ==> r.message == NoMatches
    ensures r.code == 200 ==>
      && r.message.Listed?
      && r.message.users != []
      && forall u :: u in r.message.users <==> u in db.rows && Satisfies(q, u)
  {
    var users := Select(db.rows, BuildWhere(q));
    if |users| == 0 then Response(404, NoMatches)
    else assert users[0] in users; Response(200, Listed(users))
  }

  /** The table and the two counters of a batch after some of its entries. */
  datatype Batch = Batch(rows: seq<User>, nextId: nat, created: nat, failed: nat)

  /** One entry of a batch: refused, or refused by the store, or inserted. */
  function BulkStep(b: Batch, req: CreateRequest, fails: bool, hash: Hasher, now: int): (r: Batch)
    ensures r.created + r.failed == b.created + b.failed + 1
    ensures r.created == b.created + 1 <==> Refusal(b.rows, req).None? && !fails
    ensures r.created == b.created ==> r.rows == b.rows && r.nextId == b.nextId
    ensures r.created == b.created + 1 ==>
      r.rows == b.rows + [NewUser(b.nextId, req, hash, now)] && r.nextId == b.nextId + 1
  {
    if Refusal(b.rows, req).Some? || fails then b.(failed := b.failed + 1)
    else Batch(b.rows + [NewUser(b.nextId, req, hash, now)], b.nextId + 1, b.created + 1, b.failed)
  }

  /** The state after the entries `users`, in order, starting from `rows` and `nextId`. */
  function BulkInsert(rows: seq<User>, nextId: nat, users: seq<CreateRequest>,
                      storeFails: nat -> bool, hash: Hasher, now: int): Batch
    decreases |users|
  {
    if users == [] then Batch(rows, nextId, 0, 0)
    else
      var k := |users| - 1;
      BulkStep(BulkInsert(rows, nextId, users[..k], storeFails, hash, now), users[k], storeFails(k), hash, now)
  }

  /** bulkCreate: each entry is checked and inserted on its own; only the counts are reported. */
  method BulkCreate(db: UserTable, hash: Hasher, users: seq<CreateRequest>, storeFails: nat -> bool, now: int)
    returns (res: Response)
    requires db.Valid()
    modifies db
    ensures db.Valid()
    ensures var b := BulkInsert(old(db.rows), old(db.nextId), users, storeFails, hash, now);
      db.rows == b.rows && db.nextId == b.nextId && res == Response(200, BulkSummary(b.created, b.failed))
    ensures res.code == 200 && res.message.BulkSummary?
    ensures res.message.created + res.message.failed == |users|
    ensures |db.rows| == |old(db.rows)| + res.message.created
    ensures db.rows[..|old(db.rows)|] == old(db.rows)
  {
    ghost var rows0, next0 := db.rows, db.nextId;
    var succeeded, failed := 0, 0;
    for i := 0 to |users|
      invariant db.Valid()
      invariant var b := BulkInsert(rows0, next0, users[..i], storeFails, hash, now);
        db.rows == b.rows && db.nextId == b.nextId && succeeded == b.created && failed == b.failed
    {
      assert users[..i + 1][..i] == users[..i];
      var req := users[i];
      if req.password != req.passwordSecond {
        failed := failed + 1;
        continue;
      }
      var existingUser := FindOne(db.rows, ByEmail(req.email));
      if existingUser.Some? {
        failed := failed + 1;
        continue;
      }
      var encryptedPassword := hash(req.password);
      if storeFails(i) {
        failed := failed + 1;
      } else {
        var inserted := db.Create(req.name, req.email, encryptedPassword, req.cellphone, true, now);
        succeeded := succeeded + 1;
      }
    }
    assert users[..|users|] == users;
    BulkCounts(rows0, next0, users, storeFails, hash, now);
    res := Response(200, BulkSummary(succeeded, failed));
  }

  // ---------------------------------------------------------------------------
  // Properties of the operations
  // ---------------------------------------------------------------------------

  /** A freshly created active row is what `getUserById` finds under its id. */
  lemma CreatedUserIsFound(rows: seq<User>, u: User)
    requires forall v :: v in rows ==> v.id != u.id
    requires u.status
    ensures FindOne(rows + [u], ActiveById(u.id)) == Some(u)
  {
    var w := ActiveById(u.id);
    SelectAppend(rows, [u], w);
    SelectSingle(u, w);
  }

  /** After a soft delete no read query sees the row: not by id, not in the list of all. */
  lemma SoftDeleteHides(rows: seq<User>, id: nat, now: int)
    ensures var after := UpdateById(rows, id, SoftDelete, now);
      && FindOne(after, ActiveById(id)) == None
      && forall u :: u in Select(after, ActiveRows) ==> u.id != id
  {
  }

  /** Deleting twice leaves the table as one delete (at the later time) does. */
  lemma SoftDeleteIdempotent(rows: seq<User>, id: nat, first: int, second: int)
    ensures UpdateById(UpdateById(rows, id, SoftDelete, first), id, SoftDelete, second)
         == UpdateById(rows, id, SoftDelete, second)
  {
  }

  /** The counters of a batch add up to its size, and the table grows by the successes only. */
  lemma {:induction false} BulkCounts(rows: seq<User>, nextId: nat, users: seq<CreateRequest>,
                                      storeFails: nat -> bool, hash: Hasher, now: int)
    ensures var b := BulkInsert(rows, nextId, users, storeFails, hash, now);
      && b.created + b.failed == |users|
      && |b.rows| == |rows| + b.created
      && b.nextId == nextId + b.created
      && b.rows[..|rows|] == rows
  {
    if users != [] {
      var k := |users| - 1;
      BulkCounts(rows, nextId, users[..k], storeFails, hash, now);
      var prev := BulkInsert(rows, nextId, users[..k], storeFails, hash, now);
      assert (prev.rows + [NewUser(prev.nextId, users[k], hash, now)])[..|rows|] == prev.rows[..|rows|];
    }
  }

  /** Every row a batch adds is active, carries the hash of an entry's password and a fresh id. */
  lemma {:induction false} BulkAddsActiveHashedUsers(rows: seq<User>, nextId: nat, users: seq<CreateRequest>,
                                                     storeFails: nat -> bool, hash: Hasher, now: int)
    ensures var b := BulkInsert(rows, nextId, users, storeFails, hash, now);
      forall i :: |rows| <= i < |b.rows| ==>
        && b.rows[i].status
        && b.rows[i].id == nextId + (i - |rows|)
        && exists k :: 0 <= k < |users| && users[k].password == users[k].passwordSecond
                       && b.rows[i] == NewUser(b.rows[i].id, users[k], hash, now)
  {
    BulkCounts(rows, nextId, users, storeFails, hash, now);
    if users != [] {
      var k := |users| - 1;
      var prefix := users[..k];
      BulkAddsActiveHashedUsers(rows, nextId, prefix, storeFails, hash, now);
      BulkCounts(rows, nextId, prefix, storeFails, hash, now);
      var prev := BulkInsert(rows, nextId, prefix, storeFails, hash, now);
      var b := BulkInsert(rows, nextId, users, storeFails, hash, now);
      forall i | |rows| <= i < |b.rows|
        ensures exists j :: 0 <= j < |users| && users[j].password == users[j].passwordSecond
                            && b.rows[i] == NewUser(b.rows[i].id, users[j], hash, now)
      {
        if i < |prev.rows| {
          assert b.rows[i] == prev.rows[i];
          var j :| 0 <= j < |prefix| && prefix[j].password == prefix[j].passwordSecond
                   && prev.rows[i] == NewUser(prev.rows[i].id, prefix[j], hash, now);
          assert users[j] == prefix[j];
        } else {
          assert b.rows[i] == NewUser(prev.nextId, users[k], hash, now);
        }
      }
    }
  }

  /** The table after the first `k` entries is a prefix of the table after all of them. */
  lemma {:induction false} BulkPrefixGrows(rows: seq<User>, nextId: nat, users: seq<CreateRequest>,
                                           storeFails: nat -> bool, hash: Hasher, now: int, k: nat)
    requires k <= |users|
    ensures BulkInsert(rows, nextId, users[..k], storeFails, hash, now).rows
         <= BulkInsert(rows, nextId, users, storeFails, hash, now).rows
  {
    if k < |users| {
      var n := |users| - 1;
      assert users[..n][..k] == users[..k];
      BulkPrefixGrows(rows, nextId, users[..n], storeFails, hash, now, k);
    } else {
      assert users[..k] == users;
    }
  }

  /** Entry `k` of a batch was inserted (its success counter went up). */
  ghost predicate EntryInserted(rows: seq<User>, nextId: nat, users: seq<CreateRequest>,
                                storeFails: nat -> bool, hash: Hasher, now: int, k: nat)
    requires k < |users|
  {
    BulkInsert(rows, nextId, users[..k + 1], storeFails, hash, now).created
      == BulkInsert(rows, nextId, users[..k], storeFails, hash, now).created + 1
  }

  /** An entry whose email an earlier entry of the same batch inserted is counted as an error. */
  lemma BatchDuplicateFails(rows: seq<User>, nextId: nat, users: seq<CreateRequest>,
                            storeFails: nat -> bool, hash: Hasher, now: int, i: nat, j: nat)
    requires i < j < |users|
    requires users[i].email == users[j].email
    requires EntryInserted(rows, nextId, users, storeFails, hash, now, i)
    ensures !EntryInserted(rows, nextId, users, storeFails, hash, now, j)
    ensures BulkInsert(rows, nextId, users[..j + 1], storeFails, hash, now).failed
         == BulkInsert(rows, nextId, users[..j], storeFails, hash, now).failed + 1
  {
    assert users[..i + 1][..i] == users[..i];
    assert users[..j + 1][..j] == users[..j];
    var before := BulkInsert(rows, nextId, users[..i], storeFails, hash, now);
    var after := BulkInsert(rows, nextId, users[..i + 1], storeFails, hash, now);
    var u := NewUser(before.nextId, users[i], hash, now);
    assert after.rows == before.rows + [u];
    assert u in after.rows;
    assert users[..j][..i + 1] == users[..i + 1];
    BulkPrefixGrows(rows, nextId, users[..j], storeFails, hash, now, i + 1);
    var atJ := BulkInsert(rows, nextId, users[..j], storeFails, hash, now);
    assert u in atJ.rows;
    assert EmailInUse(atJ.rows, users[j].email);
  }
}
