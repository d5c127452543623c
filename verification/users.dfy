/** The `/users` endpoints. A user row never holds a plaintext password:
    create and update replace it by its hash. The hash is salted afresh on
    every call, so each request takes the hash it uses as a parameter.
    Usernames are checked for uniqueness on create only. */
module Users {
  import opened Wrappers
  import Tables

  datatype User = User(username: string, hashedPassword: string, isActive: bool, isAdmin: bool)

  datatype UserCreate = UserCreate(username: string, password: string, isActive: bool, isAdmin: bool)

  /** `password` may be sent as null or as the empty string; neither
      changes the stored hash. */
  datatype UserUpdate = UserUpdate(
    username: Patch<string>,
    password: Patch<Option<string>>,
    isActive: Patch<bool>,
    isAdmin: Patch<bool>)

  type Table = map<Id, User>

  predicate UsernameTaken(users: Table, name: string) {
    exists id :: id in users && users[id].username == name
  }

  predicate UniqueUsernames(users: Table) {
    forall a, b :: a in users && b in users && a != b ==> users[a].username != users[b].username
  }

  /** `POST /users`: 400 when the username exists; otherwise the row is
      stored under the new key `id` with the hash of the password. `hash`
      stands for this request's salted hash: its output for this call. */
  function CreateUser(users: Table, req: UserCreate, id: Id, hash: string -> string): (r: Result<(Table, User)>)
    requires id !in users
    ensures r.Err? <==> UsernameTaken(users, req.username)
    ensures r.Err? ==> r.error == BadRequest
    ensures r.Ok? ==> r.value.0 == users[id := r.value.1]
    ensures r.Ok? ==> && r.value.1.username == req.username
                      && r.value.1.hashedPassword == hash(req.password)
                      && r.value.1.isActive == req.isActive && r.value.1.isAdmin == req.isAdmin
  {
    if UsernameTaken(users, req.username) then Err(BadRequest)
    else
      var u := User(req.username, hash(req.password), req.isActive, req.isAdmin);
      Ok((users[id := u], u))
  }

  /** The password that replaces the stored hash: one that was sent and is
      truthy (not null, not empty). */
  function NewPassword(p: UserUpdate): (r: Option<string>)
    ensures r.Some? <==> p.password.Put? && p.password.value.Some? && p.password.value.value != []
    ensures r.Some? ==> r.value == p.password.value.value
  {
    if p.password.Put? && p.password.value.Some? && p.password.value.value != [] then p.password.value
    else None
  }

  /** `PUT /users/{id}` (admin) and `PUT /users/me` (with the caller's own
      id): 404 for an unknown id; otherwise the fields sent are set, and a
      non-empty password is stored as its hash while a null or empty one
      leaves the hash as it was. The username is not checked. `hash`
      stands for this request's salted hash, as in `CreateUser`. */
  function UpdateUser(users: Table, id: Id, p: UserUpdate, hash: string -> string): (r: Result<(Table, User)>)
    ensures r.Err? <==> id !in users
    ensures r.Err? ==> r.error == NotFound
    ensures r.Ok? ==> r.value.0 == users[id := r.value.1]
    ensures r.Ok? ==> var (before, after) := (users[id], r.value.1);
              && (if p.username.Put? then after.username == p.username.value else after.username == before.username)
              && (if p.isActive.Put? then after.isActive == p.isActive.value else after.isActive == before.isActive)
              && (if p.isAdmin.Put? then after.isAdmin == p.isAdmin.value else after.isAdmin == before.isAdmin)
              && (if p.password.Put? && p.password.value.Some? && p.password.value.value != []
                  then after.hashedPassword == hash(p.password.value.value)
                  else after.hashedPassword == before.hashedPassword)
  {
    if id !in users then Err(NotFound)
    else
      var u := users[id];
      var u' := User(p.username.Apply(u.username),
                     match NewPassword(p) case Some(pw) => hash(pw) case None => u.hashedPassword,
                     p.isActive.Apply(u.isActive), p.isAdmin.Apply(u.isAdmin));
      Ok((users[id := u'], u'))
  }

  /** `GET /users/{id}`. */
  function ReadUserById(users: Table, id: Id): (r: Result<User>)
    ensures r.Err? <==> id !in users
    ensures r.Err? ==> r.error == NotFound
    ensures r.Ok? ==> r.value == users[id]
  {
    Tables.Get(users, id)
  }

  /** `DELETE /users/{id}`: 404 for an unknown id, otherwise exactly that
      user is removed and returned. */
  function DeleteUser(users: Table, id: Id): (r: Result<(Table, User)>)
    ensures r.Err? <==> id !in users
    ensures r.Err? ==> r.error == NotFound
    ensures r.Ok? ==> r.value.0.Keys == users.Keys - {id} && r.value.1 == users[id]
    ensures r.Ok? ==> forall k :: k in r.value.0 ==> r.value.0[k] == users[k]
  {
    Tables.Remove(users, id)
  }

  /** Creating keeps usernames unique. */
  lemma CreateKeepsUnique(users: Table, req: UserCreate, id: Id, hash: string -> string)
    requires id !in users && UniqueUsernames(users) && CreateUser(users, req, id, hash).Ok?
    ensures UniqueUsernames(CreateUser(users, req, id, hash).value.0)
  {
    var m := CreateUser(users, req, id, hash).value.0;
    forall a, b | a in m && b in m && a != b ensures m[a].username != m[b].username {
      if a == id {
        assert b in users && m[b] == users[b];
      } else if b == id {
        assert a in users && m[a] == users[a];
      }
    }
  }

  /** The stored hash depends on the password only through its hash: two
      creates whose passwords hash alike store the same row. */
  lemma CreateStoresOnlyHash(users: Table, req: UserCreate, other: string, id: Id, hash: string -> string)
    requires id !in users && hash(other) == hash(req.password)
    ensures CreateUser(users, req, id, hash) == CreateUser(users, req.(password := other), id, hash)
  {
  }

  /** The update does not check the new username, so it can leave two
      users with one username. */
  lemma UpdateCanDuplicateUsername(hash: string -> string)
    ensures var users := map[1 := User("ann", "h1", true, false), 2 := User("bob", "h2", true, false)];
      && UniqueUsernames(users)
      && UpdateUser(users, 2, UserUpdate(Put("ann"), Keep, Keep, Keep), hash).Ok?
      && !UniqueUsernames(UpdateUser(users, 2, UserUpdate(Put("ann"), Keep, Keep, Keep), hash).value.0)
  {
    var users := map[1 := User("ann", "h1", true, false), 2 := User("bob", "h2", true, false)];
    var m := UpdateUser(users, 2, UserUpdate(Put("ann"), Keep, Keep, Keep), hash).value.0;
    assert m[1].username == m[2].username;
  }

  /** Sending the same update twice leaves the table as the first one did,
      except for the stored hash when a new password was sent: the hash is
      salted afresh on every request, so each request gets its own `hash`
      (`first`, then `second`). With no new password the second request
      changes nothing at all. */
  lemma UpdateIdempotent(users: Table, id: Id, p: UserUpdate, first: string -> string, second: string -> string)
    requires UpdateUser(users, id, p, first).Ok?
    ensures var (m, u) := UpdateUser(users, id, p, first).value;
      var r := UpdateUser(m, id, p, second);
      && r.Ok?
      && r.value.0 == m[id := r.value.1]
      && r.value.1 == u.(hashedPassword := r.value.1.hashedPassword)
      && (NewPassword(p).None? ==> r == Ok((m, u)))
      && (NewPassword(p).Some? ==> r.value.1.hashedPassword == second(NewPassword(p).value))
  {
    var (m, u) := UpdateUser(users, id, p, first).value;
    assert m[id := u] == m;
  }

  /** A repeated password update stores a different hash whenever the
      second request's salted hash differs from the first one's. */
  lemma RepeatedPasswordUpdateRehashes(users: Table, id: Id, p: UserUpdate, first: string -> string, second: string -> string)
    requires UpdateUser(users, id, p, first).Ok? && NewPassword(p).Some?
    requires first(NewPassword(p).value) != second(NewPassword(p).value)
    ensures var (m, u) := UpdateUser(users, id, p, first).value;
      UpdateUser(m, id, p, second).value.1.hashedPassword != u.hashedPassword
  {
  }
}
