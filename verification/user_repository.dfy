/**
 * The credential store of backend/repositories/user_repository.go. The
 * table `auth.users` is a finite map from id to row; each SQL statement is
 * a map operation. The database supplies new ids and the current time, so
 * both are parameters. Connection and I/O failures are not modelled.
 */
module UserRepository {
  import opened Wrappers
  import opened Uuids
  import opened Models

  /** The table: every row is filed under its own id. */
  type UserTable = m: map<Uuid, User> | forall id | id in m :: m[id].id == id witness map[]

  /** Errors the statements themselves raise. */
  datatype StoreError =
    | DuplicateKey  // INSERT produced an id already in use
    | NoRows        // UPDATE ... RETURNING matched no row

  ghost predicate HasEmail(store: UserTable, email: string) {
    exists id | id in store :: store[id].email == email
  }

  /** No two rows share an e-mail address. */
  ghost predicate UniqueEmails(store: UserTable) {
    forall a, b | a in store && b in store && store[a].email == store[b].email :: a == b
  }

  /**
   * INSERT ... RETURNING id, created_at, updated_at: the row gets the
   * database's `id` and time and otherwise stores the five columns exactly
   * as given. There is no e-mail check here.
   */
  function Create(store: UserTable, user: User, id: Uuid, now: int): (r: Result<(UserTable, User), StoreError>)
    ensures r.Failure? <==> id in store
    ensures r.Failure? ==> r.error == DuplicateKey
    ensures r.Success? ==>
      var (store', created) := r.value;
      && created == User(id, user.email, user.passwordHash, user.fullName, user.role, user.avatarUrl, now, now)
      && store'.Keys == store.Keys + {id}
      && store'[id] == created
      && (forall other | other in store :: store'[other] == store[other])
  {
    if id in store then Failure(DuplicateKey)
    else
      var created := User(id, user.email, user.passwordHash, user.fullName, user.role, user.avatarUrl, now, now);
      Success((store[id := created], created))
  }

  /** SELECT ... WHERE id = $1: absent (not an error) when no row matches. */
  function GetById(store: UserTable, id: Uuid): (r: Option<User>)
    ensures r.None? <==> id !in store
    ensures r.Some? ==> r.value.id == id && r.value in store.Values
  {
    if id in store then Some(store[id]) else None
  }

  /**
   * SELECT ... WHERE email = $1: some row with that e-mail address, absent
   * (not an error) when there is none. When several rows match, which one
   * comes back is the database's choice.
   */
  method GetByEmail(store: UserTable, email: string) returns (r: Option<User>)
    ensures r.None? <==> !HasEmail(store, email)
    ensures r.Some? ==> r.value.id in store && store[r.value.id] == r.value && r.value.email == email
  {
    var pending := store.Keys;
    while pending != {}
      invariant pending <= store.Keys
      invariant forall id | id in store && id !in pending :: store[id].email != email
      decreases pending
    {
      var id :| id in pending;
      if store[id].email == email {
        return Some(store[id]);
      }
      pending := pending - {id};
    }
    return None;
  }

  /** With unique e-mail addresses the lookup has exactly one possible answer. */
  lemma EmailLookupDetermined(store: UserTable, email: string, a: User, b: User)
    requires UniqueEmails(store)
    requires a.id in store && store[a.id] == a && a.email == email
    requires b.id in store && store[b.id] == b && b.email == email
    ensures a == b
  {
  }

  /**
   * UPDATE SET email, full_name, role, avatar_url WHERE id: only those four
   * columns of that one row change. With no such row, the RETURNING scan
   * reports no rows.
   */
  function Update(store: UserTable, user: User): (r: Result<UserTable, StoreError>)
    ensures r.Failure? <==> user.id !in store
    ensures r.Failure? ==> r.error == NoRows
    ensures r.Success? ==>
      var store' := r.value;
      var before := store[user.id];
      && store'.Keys == store.Keys
      && store'[user.id] == User(user.id, user.email, before.passwordHash, user.fullName, user.role,
                                 user.avatarUrl, before.createdAt, before.updatedAt)
      && (forall other | other in store && other != user.id :: store'[other] == store[other])
  {
    if user.id !in store then Failure(NoRows)
    else
      var before := store[user.id];
      Success(store[user.id := before.(email := user.email, fullName := user.fullName,
                                        role := user.role, avatarUrl := user.avatarUrl)])
  }

  /**
   * UPDATE SET password_hash WHERE id: only that column of that row
   * changes; with no such row nothing changes and no error is raised.
   */
  function UpdatePassword(store: UserTable, id: Uuid, passwordHash: string): (store': UserTable)
    ensures store'.Keys == store.Keys
    ensures id in store ==> store'[id] == store[id].(passwordHash := passwordHash)
    ensures forall other | other in store && other != id :: store'[other] == store[other]
  {
    if id in store then store[id := store[id].(passwordHash := passwordHash)] else store
  }

  /** DELETE WHERE id: that row disappears and every other stays as it was. */
  function Delete(store: UserTable, id: Uuid): (store': UserTable)
    ensures GetById(store', id).None?
    ensures store'.Keys == store.Keys - {id}
    ensures forall other | other in store && other != id :: GetById(store', other) == GetById(store, other)
  {
    store - {id}
  }

  /** SELECT COUNT(*). */
  function Count(store: UserTable): nat {
    |store|
  }

  // ---------------------------------------------------------------------------
  // SELECT ... ORDER BY created_at DESC LIMIT $1 OFFSET $2
  // ---------------------------------------------------------------------------

  ghost predicate NewestFirst(users: seq<User>) {
    forall i, j | 0 <= i < j < |users| :: users[i].createdAt >= users[j].createdAt
  }

  /** `all` lists every row of the table exactly once, newest first (ties in any order). */
  ghost predicate IsOrdering(store: UserTable, all: seq<User>) {
    && |all| == |store|
    && (forall u | u in all :: u.id in store && store[u.id] == u)
    && (forall id | id in store :: multiset(all)[store[id]] == 1)
    && NewestFirst(all)
  }

  /** LIMIT and OFFSET applied to an ordering. */
  function Page(all: seq<User>, limit: nat, offset: nat): (page: seq<User>)
    ensures |page| == if offset >= |all| then 0 else if offset + limit <= |all| then limit else |all| - offset
  {
    if offset >= |all| then []
    else if offset + limit <= |all| then all[offset..offset + limit]
    else all[offset..]
  }

  /** Inserts `u` before the first user that is not newer than it. */
  function InsertNewestFirst(users: seq<User>, u: User): (r: seq<User>)
    ensures |r| == |users| + 1
    ensures multiset(r) == multiset(users) + multiset{u}
    ensures forall x | x in r :: x in users || x == u
  {
    if users == [] || u.createdAt >= users[0].createdAt then [u] + users
    else
      assert users == [users[0]] + users[1..];
      [users[0]] + InsertNewestFirst(users[1..], u)
  }

  lemma {:induction false} InsertKeepsNewestFirst(users: seq<User>, u: User)
    requires NewestFirst(users)
    ensures NewestFirst(InsertNewestFirst(users, u))
  {
    var r := InsertNewestFirst(users, u);
    if users == [] || u.createdAt >= users[0].createdAt {
      assert r == [u] + users;
      forall i, j | 0 <= i < j < |r|
        ensures r[i].createdAt >= r[j].createdAt
      {
        assert r[j] == users[j - 1];
        if i > 0 {
          assert r[i] == users[i - 1];
        } else {
          assert users[0].createdAt >= users[j - 1].createdAt;
        }
      }
    } else {
      var rest := InsertNewestFirst(users[1..], u);
      assert r == [users[0]] + rest;
      assert NewestFirst(users[1..]) by {
        forall i, j | 0 <= i < j < |users[1..]|
          ensures users[1..][i].createdAt >= users[1..][j].createdAt
        {
          assert users[1..][i] == users[i + 1] && users[1..][j] == users[j + 1];
        }
      }
      InsertKeepsNewestFirst(users[1..], u);
      forall i, j | 0 <= i < j < |r|
        ensures r[i].createdAt >= r[j].createdAt
      {
        assert r[j] == rest[j - 1];
        if i > 0 {
          assert r[i] == rest[i - 1];
        } else {
          assert rest[j - 1] in rest;
          if rest[j - 1] != u {
            var k :| 0 <= k < |users[1..]| && users[1..][k] == rest[j - 1];
            assert users[k + 1] == rest[j - 1];
          }
        }
      }
    }
  }

  /**
   * The page of users starting at `offset`, at most `limit` of them, taken
   * from the table ordered newest first. A negative LIMIT or OFFSET is an
   * error of the database.
   */
  method List(store: UserTable, limit: int, offset: int) returns (r: Option<seq<User>>)
    ensures r.None? <==> limit < 0 || offset < 0
    ensures r.Some? ==> exists all :: IsOrdering(store, all) && r.value == Page(all, limit, offset)
  {
    if limit < 0 || offset < 0 {
      return None;
    }
    var all: seq<User> := [];
    var pending := store.Keys;
    while pending != {}
      invariant pending <= store.Keys
      invariant |all| == |store.Keys| - |pending|
      invariant forall u | u in all :: u.id in store && store[u.id] == u && u.id !in pending
      invariant forall id | id in store && id !in pending :: multiset(all)[store[id]] == 1
      invariant NewestFirst(all)
      decreases pending
    {
      var id :| id in pending;
      var u := store[id];
      assert u !in all;
      InsertKeepsNewestFirst(all, u);
      all := InsertNewestFirst(all, u);
      assert |pending - {id}| == |pending| - 1;
      pending := pending - {id};
      forall other | other in store && other != id
        ensures store[other] != u
      {
      }
    }
    assert IsOrdering(store, all);
    return Some(Page(all, limit, offset));
  }

  // ---------------------------------------------------------------------------
  // How the statements relate to one another
  // ---------------------------------------------------------------------------

  /** A created row can be read back by its id, and the count grows by one. */
  lemma CreateThenGet(store: UserTable, user: User, id: Uuid, now: int)
    requires id !in store
    ensures Create(store, user, id, now).Success?
    ensures var (store', created) := Create(store, user, id, now).value;
      && GetById(store', id) == Some(created)
      && Count(store') == Count(store) + 1
  {
    var store' := Create(store, user, id, now).value.0;
    assert store'.Keys == store.Keys + {id};
    assert |store'.Keys| == |store.Keys| + 1;
  }

  /** After a delete the row is gone; the count shrinks by one exactly when the row existed. */
  lemma DeleteCount(store: UserTable, id: Uuid)
    ensures Count(Delete(store, id)) == if id in store then Count(store) - 1 else Count(store)
  {
    assert Delete(store, id).Keys == store.Keys - {id};
  }

  /** Updating the profile never touches the password hash, and updating the password never touches the profile. */
  lemma UpdatesAreIndependent(store: UserTable, user: User, hash: string)
    requires user.id in store
    ensures var after := Update(store, user).value;
      after[user.id].passwordHash == store[user.id].passwordHash
    ensures var after := UpdatePassword(store, user.id, hash);
      after[user.id].(passwordHash := store[user.id].passwordHash) == store[user.id]
  {
  }

  /**
   * Create does not guard e-mail uniqueness: inserting a second row with an
   * address already present yields a table with two rows sharing it.
   */
  lemma CreateAllowsDuplicateEmail(store: UserTable, user: User, id: Uuid, now: int)
    requires HasEmail(store, user.email)
    requires id !in store
    ensures !UniqueEmails(Create(store, user, id, now).value.0)
  {
    var existing :| existing in store && store[existing].email == user.email;
    var store' := Create(store, user, id, now).value.0;
    assert store'[existing].email == store'[id].email && existing != id;
  }
}
