/** user-service's `UserController`: list, get, create, update and delete
    users held in the record store. */
module UserController {
  import opened Wrappers
  import opened Responses
  import opened RecordStore

  /** A user as stored and as sent over the wire; the id is null until the
      store assigns one, and the other fields may be null too. */
  datatype User = User(id: Option<int>, name: Option<string>, email: Option<string>)

  type Users = Store<User>

  /** A reachable user store: valid, and every user carries its own key as id */
  ghost predicate Consistent(s: Users) {
    Valid(s) && forall k :: k in s.rows ==> s.rows[k].id == Some(k)
  }

  /** GET /users: every stored user, in the order they were created */
  function All(s: Users): (r: seq<User>)
    requires Consistent(s)
    ensures |r| == |s.order| == |s.rows|
    ensures forall i :: 0 <= i < |r| ==> s.order[i] in s.rows && r[i] == s.rows[s.order[i]]
    ensures forall u :: u in r <==> u in s.rows.Values
  {
    var r := FindAll(s);
    assert forall u :: u in s.rows.Values ==> exists k :: k in s.rows && s.rows[k] == u;
    r
  }

  /** GET /users/{id}: the stored user, or 404 */
  function Get(s: Users, id: int): (r: Response<User>)
    ensures r.Ok? <==> id in s.rows
    ensures r.Ok? ==> r.body == s.rows[id]
    ensures Consistent(s) && r.Ok? ==> r.body.id == Some(id)
    ensures !r.NoContent?
  {
    match Find(s, id)
    case Some(u) => Ok(u)
    case None => NotFound
  }

  /** POST /users with no id in the body: the user is stored under a fresh
      id and returned with it. */
  function Create(s: Users, u: User): (r: (Users, User))
    requires Consistent(s)
    requires u.id.None?
    ensures var (t, saved) := r;
      && saved.id == Some(s.nextId) && saved.id.value !in s.rows
      && saved.name == u.name && saved.email == u.email
      && t.rows == s.rows[saved.id.value := saved]
      && Consistent(t)
      && t.nextId > s.nextId
      && All(t) == All(s) + [saved]
  {
    var saved := u.(id := Some(s.nextId));
    (Append(s, saved), saved)
  }

  /** PUT /users/{id}: name and email are replaced by the body's, nulls
      included; the id stays; a missing id is a 404 with nothing changed. */
  function Update(s: Users, id: int, u: User): (r: Handled<Users, User>)
    requires Consistent(s)
    ensures id !in s.rows ==> r == Handled(s, NotFound)
    ensures id in s.rows ==>
      && r.response.Ok?
      && r.response.body == User(s.rows[id].id, u.name, u.email)
      && r.store.rows == s.rows[id := r.response.body]
      && r.store.order == s.order
    ensures r.store.nextId == s.nextId
    ensures Consistent(r.store)
  {
    match Find(s, id)
    case None => Handled(s, NotFound)
    case Some(user) =>
      var updated := user.(name := u.name, email := u.email);
      Handled(Replace(s, id, updated), Ok(updated))
  }

  /** DELETE /users/{id}: 204 and the user gone, or 404 and nothing gone */
  function Delete(s: Users, id: int): (r: Handled<Users, ()>)
    requires Consistent(s)
    ensures id !in s.rows ==> r == Handled(s, NotFound)
    ensures id in s.rows ==> r.response == NoContent && r.store.rows == s.rows - {id}
    ensures id in s.rows ==> r.store.order == Without(s.order, id) && r.store.nextId == s.nextId
    ensures Consistent(r.store)
  {
    if id !in s.rows then Handled(s, NotFound)
    else Handled(Remove(s, id), NoContent)
  }

  /** A created user can be read back under its new id */
  lemma GetAfterCreate(s: Users, u: User)
    requires Consistent(s) && u.id.None?
    ensures var (t, saved) := Create(s, u); Get(t, saved.id.value) == Ok(saved)
  {
  }

  /** A created user goes to the end of the listing: creation order is
      listing order. */
  lemma AllAfterCreate(s: Users, u: User)
    requires Consistent(s) && u.id.None?
    ensures var (t, saved) := Create(s, u); All(t) == All(s) + [saved]
  {
  }

  /** Deleting the user listed at position `k` drops exactly that entry
      from the listing; the others keep their order. */
  lemma AllAfterDelete(s: Users, k: int, id: int)
    requires Consistent(s) && 0 <= k < |All(s)| && All(s)[k].id == Some(id)
    ensures All(Delete(s, id).store) == All(s)[..k] + All(s)[k + 1..]
  {
    assert s.order[k] in s.rows;
    assert id == s.order[k];
    FindAllAfterRemove(s, k);
  }

  /** The IDENTITY counter never hands out a deleted id again, not even
      after an update in between. */
  lemma DeletedIdNotReused(s: Users, id: int, other: int, v: User, u: User)
    requires Consistent(s) && id in s.rows && u.id.None?
    ensures Create(Delete(s, id).store, u).1.id != Some(id)
    ensures Create(Update(Delete(s, id).store, other, v).store, u).1.id != Some(id)
  {
  }

  /** An updated user reads back as the update returned it, and every other
      user reads back as before. */
  lemma GetAfterUpdate(s: Users, id: int, u: User, other: int)
    requires Consistent(s) && id in s.rows && other != id
    ensures var t := Update(s, id, u).store;
      Get(t, id) == Update(s, id, u).response && Get(t, other) == Get(s, other)
  {
  }

  /** A deleted user is gone and every other user is untouched; deleting it
      again is a 404. */
  lemma GetAfterDelete(s: Users, id: int, other: int)
    requires Consistent(s) && id in s.rows && other != id
    ensures var t := Delete(s, id).store;
      && Get(t, id) == NotFound
      && Get(t, other) == Get(s, other)
      && Delete(t, id) == Handled(t, NotFound)
  {
  }

  /** Users created one after another on an empty store are listed in that
      order: John first, Jane second. */
  lemma ListingScenario()
    ensures var (s1, john) := Create(Empty(), User(None, Some("John"), Some("john@example.com")));
      var (s2, jane) := Create(s1, User(None, Some("Jane"), Some("jane@example.com")));
      && All(s2) == [john, jane]
      && All(s2)[0].name == Some("John") && All(s2)[1].name == Some("Jane")
  {
    var s0: Users := Empty();
    var u1, u2 := User(None, Some("John"), Some("john@example.com")), User(None, Some("Jane"), Some("jane@example.com"));
    var (s1, john) := Create(s0, u1);
    assert All(s0) == [];
    AllAfterCreate(s0, u1);
    assert All(s1) == [john];
    AllAfterCreate(s1, u2);
  }

  /** Asking an empty store for user 999 is a 404 */
  lemma MissingUserScenario()
    ensures Get(Empty(), 999) == NotFound
  {
  }
}
