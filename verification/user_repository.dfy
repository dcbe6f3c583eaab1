/** Repositories/UserRepository.cs: the user table and its lookups. */
module UserRepo {
  import opened Primitives
  import opened UserModel

  /** No two users share a key. */
  ghost predicate UserIdsDistinct(users: seq<User>) {
    forall i, j :: 0 <= i < j < |users| ==> users[i].Id != users[j].Id
  }

  /**
   * `FirstOrDefault(u => u.Email == email)`, taken as exact (ordinal)
   * equality and the first match in table order. On the database the
   * comparison follows the column's collation and the order is unspecified.
   */
  function FindByEmail(users: seq<User>, email: string): (r: Option<User>)
    ensures r.Some? <==> exists u :: u in users && u.Email == email
    ensures r.Some? ==> r.value in users && r.value.Email == email
  {
    if users == [] then None
    else if users[0].Email == email then Some(users[0])
    else FindByEmail(users[1..], email)
  }

  /** `Users.Find(id)`: the user with that key, or null. */
  function FindById(users: seq<User>, id: Guid): (r: Option<User>)
    ensures r.Some? <==> exists u :: u in users && u.Id == id
    ensures r.Some? ==> r.value in users && r.value.Id == id
  {
    if users == [] then None
    else if users[0].Id == id then Some(users[0])
    else FindById(users[1..], id)
  }

  /** FindByEmail returns the earliest stored user with that e-mail. */
  lemma {:induction false} FindByEmailIsFirst(users: seq<User>, email: string, i: nat)
    requires i < |users| && users[i].Email == email
    requires forall j :: 0 <= j < i ==> users[j].Email != email
    ensures FindByEmail(users, email) == Some(users[i])
  {
    if i > 0 {
      FindByEmailIsFirst(users[1..], email, i - 1);
    }
  }

  /** Appending a user: every e-mail that was found still finds the same user; the new e-mail finds it otherwise. */
  lemma {:induction false} FindByEmailAppend(users: seq<User>, u: User, email: string)
    ensures FindByEmail(users + [u], email) ==
      if FindByEmail(users, email).Some? then FindByEmail(users, email)
      else if u.Email == email then Some(u) else None
  {
    if users != [] {
      assert (users + [u])[1..] == users[1..] + [u];
      FindByEmailAppend(users[1..], u, email);
    }
  }

  /** Appending a user: lookups by key behave the same way. */
  lemma {:induction false} FindByIdAppend(users: seq<User>, u: User, id: Guid)
    ensures FindById(users + [u], id) ==
      if FindById(users, id).Some? then FindById(users, id)
      else if u.Id == id then Some(u) else None
  {
    if users != [] {
      assert (users + [u])[1..] == users[1..] + [u];
      FindByIdAppend(users[1..], u, id);
    }
  }

  class UserRepository {
    var users: seq<User>

    ghost predicate Valid()
      reads this
    {
      UserIdsDistinct(users)
    }

    constructor (initial: seq<User>)
      requires UserIdsDistinct(initial)
      ensures Valid() && users == initial
    {
      users := initial;
    }

    /** The first stored user with that e-mail, or null. */
    function GetUserByEmail(email: string): (r: Option<User>)
      reads this
      ensures r.Some? ==> r.value in users && r.value.Email == email
      ensures r.None? ==> forall u :: u in users ==> u.Email != email
    {
      FindByEmail(users, email)
    }

    /**
     * `Users.Add(user)` and save. A second user with a key already stored
     * makes that throw; the model reports it as `added == false`.
     */
    method AddUser(user: User) returns (added: bool)
      requires Valid()
      modifies this
      ensures Valid()
      ensures added <==> old(FindById(users, user.Id)).None?
      ensures users == if added then old(users) + [user] else old(users)
      ensures added ==> FindByEmail(users, user.Email).Some?
    {
      added := FindById(users, user.Id).None?;
      if added {
        FindByEmailAppend(users, user, user.Email);
        users := users + [user];
      }
    }

    /** The user with that key, or null. */
    function GetUserById(id: Guid): (r: Option<User>)
      reads this
      ensures r.Some? ==> r.value in users && r.value.Id == id
      ensures r.None? ==> forall u :: u in users ==> u.Id != id
    {
      FindById(users, id)
    }
  }
}
