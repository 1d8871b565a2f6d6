/**
 * The user collection the sign-up handler writes to. Only what the handler relies on is
 * modelled: a user document's `personal_info`, the `User.exists` query on usernames, and
 * `save()`, which the collection's unique indexes make fail with code 11000 when the
 * email or the username is already stored.
 */
module Users {
  import opened Wrappers

  /** The `personal_info` of a user document; `password` holds the bcrypt digest. */
  datatype User = User(fullname: string, username: string, email: string, password: string)

  /** MongoDB's error code for a write that would break a unique index. */
  const DuplicateKeyCode := 11000

  /** The error a failed `save()` rejects with. */
  datatype StoreError = StoreError(code: int, message: string)

  /** No two stored users share an email or a username (the unique indexes). */
  predicate KeysUnique(users: seq<User>) {
    forall i, j :: 0 <= i < j < |users| ==> users[i].email != users[j].email && users[i].username != users[j].username
  }

  predicate HasUsername(users: seq<User>, name: string) {
    exists i :: 0 <= i < |users| && users[i].username == name
  }

  predicate HasEmail(users: seq<User>, email: string) {
    exists i :: 0 <= i < |users| && users[i].email == email
  }

  /**
   * The result of saving `u` into `users` and the users stored afterwards. `fault` stands for
   * whatever else can make the write fail (connection loss, schema validation); a write that
   * fails stores nothing.
   */
  function SaveOutcome(users: seq<User>, u: User, fault: Option<StoreError>): (o: (Result<User, StoreError>, seq<User>))
    ensures o.0.Ok? <==> fault.None? && !HasEmail(users, u.email) && !HasUsername(users, u.username)
    ensures o.0.Ok? ==> o.0.value == u && o.1 == users + [u]
    ensures o.0.Err? ==> o.1 == users
    ensures fault.Some? ==> o.0 == Err(fault.value)
    ensures fault.None? && o.0.Err? ==> o.0.error.code == DuplicateKeyCode
  {
    if fault.Some? then (Err(fault.value), users)
    else if HasEmail(users, u.email) || HasUsername(users, u.username) then
      (Err(StoreError(DuplicateKeyCode, "E11000 duplicate key error")), users)
    else (Ok(u), users + [u])
  }

  /** A save never breaks the unique indexes. */
  lemma SaveKeepsKeysUnique(users: seq<User>, u: User, fault: Option<StoreError>)
    requires KeysUnique(users)
    ensures KeysUnique(SaveOutcome(users, u, fault).1)
  {
    var after := SaveOutcome(users, u, fault).1;
    if after != users {
      forall i, j | 0 <= i < j < |after|
        ensures after[i].email != after[j].email && after[i].username != after[j].username
      {
        if j == |users| {
          assert after[j] == u && after[i] == users[i];
        } else {
          assert after[i] == users[i] && after[j] == users[j];
        }
      }
    }
  }

  /** The collection, updated in place by `save()`. */
  class UserStore {
    var users: seq<User>

    ghost predicate Valid()
      reads this
    {
      KeysUnique(users)
    }

    constructor ()
      ensures Valid() && users == []
    {
      users := [];
    }

    /** `User.exists({"personal_info.username": name})` */
    predicate UsernameExists(name: string)
      reads this
      ensures UsernameExists(name) <==> exists u :: u in users && u.username == name
    {
      HasUsername(users, name)
    }

    /** `new User(...).save()`: stores `u` unless `fault` or a unique index rejects it. */
    method Save(u: User, fault: Option<StoreError>) returns (r: Result<User, StoreError>)
      requires Valid()
      modifies this
      ensures Valid()
      ensures (r, users) == SaveOutcome(old(users), u, fault)
    {
      SaveKeepsKeysUnique(users, u, fault);
      var o := SaveOutcome(users, u, fault);
      r, users := o.0, o.1;
    }
  }
}
