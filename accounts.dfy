/** The user table with its registration rules, and the login decision with
    its choice of where to send the user afterwards. Password hashing and
    checking are library code; they are parameters here. */
module Accounts {
  import opened Wrappers

  /** One row of the user table; `password` holds the hash, never the text. */
  datatype User = User(id: nat, username: string, email: string, password: string)

  /** Row ids are assigned 1, 2, 3, ... in insertion order (nothing deletes a
      user), and usernames and emails are each unique across the table. */
  predicate TableInvariant(users: seq<User>)
  {
    && (forall i :: 0 <= i < |users| ==> users[i].id == i + 1)
    && (forall i, j :: 0 <= i < j < |users| ==>
          users[i].username != users[j].username && users[i].email != users[j].email)
  }

  /** `filter_by(...).first()`: the position of the first row that satisfies p. */
  function First(users: seq<User>, p: User -> bool): (r: Option<nat>)
    ensures r.Some? ==> r.value < |users| && p(users[r.value])
    ensures r.Some? ==> forall j :: 0 <= j < r.value ==> !p(users[j])
    ensures r.None? ==> forall j :: 0 <= j < |users| ==> !p(users[j])
  {
    if users == [] then None
    else if p(users[0]) then Some(0)
    else match First(users[1..], p)
      case None => None
      case Some(k) => Some(k + 1)
  }

  function ByUsername(users: seq<User>, username: string): Option<nat>
  {
    First(users, (u: User) => u.username == username)
  }

  function ByEmail(users: seq<User>, email: string): Option<nat>
  {
    First(users, (u: User) => u.email == email)
  }

  /** A form field counts as missing when it is absent or empty. */
  function Missing(field: Option<string>): (missing: bool)
    ensures missing <==> field == None || field == Some("")
  {
    field.None? || field.value == ""
  }

  datatype Registration = MissingFields | UsernameTaken | EmailTaken | Registered(id: nat)

  /** What a registration request does to the user table: the outcome and
      the table afterwards. The checks run in order: missing fields, then a
      taken username, then a taken email; otherwise one row is appended with
      the hashed password. */
  function RegisterEffect(users: seq<User>, username: Option<string>, email: Option<string>,
                          password: Option<string>, hash: string -> string): (r: (Registration, seq<User>))
    ensures r.0 == MissingFields <==> Missing(username) || Missing(email) || Missing(password)
    ensures r.0 == UsernameTaken <==>
      !r.0.MissingFields? && exists i :: 0 <= i < |users| && users[i].username == username.value
    ensures r.0 == EmailTaken <==>
      && !r.0.MissingFields? && !r.0.UsernameTaken?
      && exists i :: 0 <= i < |users| && users[i].email == email.value
    ensures !r.0.Registered? ==> r.1 == users
    ensures r.0.Registered? ==>
      r.1 == users + [User(r.0.id, username.value, email.value, hash(password.value))]
  {
    if Missing(username) || Missing(email) || Missing(password) then (MissingFields, users)
    else if ByUsername(users, username.value).Some? then (UsernameTaken, users)
    else if ByEmail(users, email.value).Some? then (EmailTaken, users)
    else
      var id := |users| + 1;
      (Registered(id), users + [User(id, username.value, email.value, hash(password.value))])
  }

  /** A successful registration keeps usernames and emails unique and gives
      the new row the next id. */
  lemma RegisterPreservesInvariant(users: seq<User>, username: Option<string>, email: Option<string>,
                                   password: Option<string>, hash: string -> string)
    requires TableInvariant(users)
    ensures TableInvariant(RegisterEffect(users, username, email, password, hash).1)
  {
    var r := RegisterEffect(users, username, email, password, hash);
    if r.0.Registered? {
      var nu := r.1[|users|];
      assert forall i :: 0 <= i < |users| ==> users[i].username != nu.username && users[i].email != nu.email;
    }
  }

  /** The table grows by exactly one row on success and not at all otherwise. */
  lemma RegisterGrowsByOne(users: seq<User>, username: Option<string>, email: Option<string>,
                           password: Option<string>, hash: string -> string)
    ensures var r := RegisterEffect(users, username, email, password, hash);
      |r.1| == |users| + (if r.0.Registered? then 1 else 0)
  {
  }

  /** The in-memory user table. */
  class UserStore {
    var users: seq<User>

    ghost predicate Valid()
      reads this
    {
      TableInvariant(users)
    }

    constructor ()
      ensures Valid() && users == []
    {
      users := [];
    }

    /** `register` on a POST: the form's three fields, and the hash function. */
    method Register(username: Option<string>, email: Option<string>, password: Option<string>,
                    hash: string -> string) returns (outcome: Registration)
      requires Valid()
      modifies this
      ensures Valid()
      ensures (outcome, users) == RegisterEffect(old(users), username, email, password, hash)
    {
      RegisterPreservesInvariant(users, username, email, password, hash);
      if Missing(username) || Missing(email) || Missing(password) {
        return MissingFields;
      }
      var existingUser := ByUsername(users, username.value);
      if existingUser.Some? {
        return UsernameTaken;
      }
      var existingEmail := ByEmail(users, email.value);
      if existingEmail.Some? {
        return EmailTaken;
      }
      var newUser := User(|users| + 1, username.value, email.value, hash(password.value));
      users := users + [newUser];
      outcome := Registered(newUser.id);
    }
  }

  /** The URL of the home page, the route at '/'. */
  const Home := "/"

  /** Where to go after logging in: the requested `next` target if it is
      non-empty and starts with '/', the home page otherwise. */
  function NextPage(next: Option<string>): (target: string)
    ensures target == Home || (next == Some(target) && target != "" && target[0] == '/')
    ensures next.Some? && next.value != "" && next.value[0] == '/' ==> target == next.value
  {
    if next.None? || next.value == "" || next.value[0] != '/' then Home else next.value
  }

  /** The target is never unchecked: it always starts with '/'. */
  lemma NextPageIsLocalPath(next: Option<string>)
    ensures NextPage(next) != "" && NextPage(next)[0] == '/'
  {
  }

  /** Choosing again from a chosen target changes nothing. */
  lemma NextPageIdempotent(next: Option<string>)
    ensures NextPage(Some(NextPage(next))) == NextPage(next)
  {
  }

  /** The check looks only at the first character, so a protocol-relative
      target such as "//example.com" passes it. */
  lemma NextPageKeepsProtocolRelative()
    ensures NextPage(Some("//example.com")) == "//example.com"
  {
  }

  datatype LoginOutcome = LoggedIn(userId: nat, target: string) | InvalidCredentials

  /** `login` on a POST: look up the first user with the given username and
      check the password against its stored hash with `check`. */
  function Login(users: seq<User>, username: Option<string>, password: Option<string>,
                 next: Option<string>, check: (string, Option<string>) -> bool): (r: LoginOutcome)
    ensures r.LoggedIn? <==>
      username.Some? && exists i :: 0 <= i < |users| && users[i].username == username.value
                                    && check(users[i].password, password)
                                    && forall j :: 0 <= j < i ==> users[j].username != username.value
    ensures r.LoggedIn? ==> r.target == NextPage(next)
    ensures r.LoggedIn? ==> exists u :: u in users && u.id == r.userId && Some(u.username) == username
  {
    // A missing username matches no row: the column is never null.
    if username.None? then InvalidCredentials
    else match ByUsername(users, username.value)
      case None => InvalidCredentials
      case Some(i) =>
        if check(users[i].password, password) then LoggedIn(users[i].id, NextPage(next))
        else InvalidCredentials
  }

  /** With unique usernames, logging in succeeds exactly when the user with
      that name exists and the password checks against that user's hash. */
  lemma LoginUnique(users: seq<User>, i: nat, password: Option<string>, next: Option<string>,
                    check: (string, Option<string>) -> bool)
    requires TableInvariant(users) && i < |users|
    ensures Login(users, Some(users[i].username), password, next, check) ==
      if check(users[i].password, password) then LoggedIn(users[i].id, NextPage(next)) else InvalidCredentials
  {
    var k := ByUsername(users, users[i].username);
    assert k == Some(i) by {
      assert k.Some?;
      if k.value < i {
      } else if k.value > i {
      }
    }
  }
}
