/** The users table, registration and the login decision. Password
    hashing is outside the model: the store keeps whatever hash the caller
    computed, and the login decision is given the hash check to use. */
module Users {
  import opened Common
  import opened Text

  datatype User = User(id: nat, name: string, email: string, passwordHash: string)

  /** Row i has id i + 1 (no user is ever deleted). */
  predicate IdsAreRows(users: seq<User>) {
    forall i :: 0 <= i < |users| ==> users[i].id == i + 1
  }

  /** The UNIQUE constraints on name and on email. */
  predicate NamesUnique(users: seq<User>) {
    forall i, j :: 0 <= i < j < |users| ==> users[i].name != users[j].name
  }

  predicate EmailsUnique(users: seq<User>) {
    forall i, j :: 0 <= i < j < |users| ==> users[i].email != users[j].email
  }

  predicate NameOrEmailTaken(users: seq<User>, name: string, email: string) {
    exists i :: 0 <= i < |users| && (users[i].name == name || users[i].email == email)
  }

  /** The first row whose name is exactly this name (what .scalar() returns). */
  function FindByName(users: seq<User>, name: string): (r: Option<User>)
    ensures r.None? <==> forall i :: 0 <= i < |users| ==> users[i].name != name
    ensures r.Some? ==> r.value in users && r.value.name == name
  {
    if users == [] then None
    else if users[0].name == name then Some(users[0])
    else
      var r := FindByName(users[1..], name);
      assert forall i :: 1 <= i < |users| ==> users[i] == users[1..][i - 1];
      r
  }

  /** get_user: looks the stripped name up. */
  function GetUser(users: seq<User>, name: string): (r: Option<User>)
    ensures r.None? <==> forall i :: 0 <= i < |users| ==> users[i].name != Strip(name)
    ensures r.Some? ==> r.value in users && r.value.name == Strip(name)
  {
    FindByName(users, Strip(name))
  }

  /** With unique names the lookup finds the one user of that name. */
  lemma {:induction false} FindByNameUnique(users: seq<User>, i: nat)
    requires NamesUnique(users) && i < |users|
    ensures FindByName(users, users[i].name) == Some(users[i])
  {
    if i > 0 {
      assert users[0].name != users[i].name;
      assert users[1..][i - 1] == users[i];
      FindByNameUnique(users[1..], i - 1);
    }
  }

  /** The three ways a login attempt can end. */
  datatype LoginOutcome = LoggedIn(user: User) | IncorrectUsername | InvalidPassword
  {
    /** The error shown on the login form, if any. */
    function Error(): (r: Option<string>)
      ensures r.None? <==> LoggedIn?
      ensures IncorrectUsername? ==> r == Some("Incorrect username")
      ensures InvalidPassword? ==> r == Some("Invalid password.")
    {
      match this
      case LoggedIn(_) => None
      case IncorrectUsername => Some("Incorrect username")
      case InvalidPassword => Some("Invalid password.")
    }
  }

  /** The decision of login(): look the stripped name up, then check the
      password against the stored hash. */
  function Login(users: seq<User>, name: string, password: string, check: (string, string) -> bool): (r: LoginOutcome)
    ensures r == IncorrectUsername <==> forall i :: 0 <= i < |users| ==> users[i].name != Strip(name)
    ensures r.LoggedIn? ==>
      r.user in users && r.user.name == Strip(name) && check(r.user.passwordHash, password)
    ensures r == InvalidPassword ==>
      exists i :: 0 <= i < |users| && users[i].name == Strip(name) && !check(users[i].passwordHash, password)
  {
    match GetUser(users, name)
    case None => IncorrectUsername
    case Some(u) => if check(u.passwordHash, password) then LoggedIn(u) else InvalidPassword
  }

  /** With unique names the outcome is decided by the one matching record. */
  lemma LoginByRecord(users: seq<User>, i: nat, name: string, password: string, check: (string, string) -> bool)
    requires NamesUnique(users) && i < |users| && users[i].name == Strip(name)
    ensures Login(users, name, password, check) ==
      if check(users[i].passwordHash, password) then LoggedIn(users[i]) else InvalidPassword
  {
    FindByNameUnique(users, i);
  }

  /** White space typed around the name does not change the outcome. */
  lemma LoginIgnoresPadding(users: seq<User>, a: string, name: string, b: string,
                            password: string, check: (string, string) -> bool)
    requires AllSpace(a) && AllSpace(b)
    ensures Login(users, a + name + b, password, check) == Login(users, name, password, check)
  {
    StripIgnoresPadding(a, name, b);
  }

  /** The record add_user writes. */
  function NewUser(users: seq<User>, name: string, email: string, passwordHash: string): (u: User)
    ensures u.name == Strip(name) && u.email == Strip(email) && Trimmed(u.name) && Trimmed(u.email)
    ensures u.passwordHash == passwordHash && u.id == |users| + 1
  {
    User(|users| + 1, Strip(name), Strip(email), passwordHash)
  }

  /** A user just registered is found under any spelling of the name that
      strips to the same string, and logs in exactly when the check accepts
      the password against the stored hash. */
  lemma RegisteredUserLogsIn(users: seq<User>, name: string, email: string, passwordHash: string,
                             loginName: string, password: string, check: (string, string) -> bool)
    requires NamesUnique(users) && !NameOrEmailTaken(users, Strip(name), Strip(email))
    requires Strip(loginName) == Strip(name)
    ensures var u := NewUser(users, name, email, passwordHash);
      Login(users + [u], loginName, password, check) ==
        if check(passwordHash, password) then LoggedIn(u) else InvalidPassword
  {
    var u := NewUser(users, name, email, passwordHash);
    var users' := users + [u];
    assert NamesUnique(users') by {
      forall i, j | 0 <= i < j < |users'| ensures users'[i].name != users'[j].name {
        assert users'[i] == users[i];
        if j < |users| {
          assert users'[j] == users[j];
        }
      }
    }
    LoginByRecord(users', |users|, loginName, password, check);
  }

  /** Appending a record whose name and email are both new keeps the
      table's constraints. */
  lemma AppendKeepsConstraints(users: seq<User>, u: User)
    requires IdsAreRows(users) && NamesUnique(users) && EmailsUnique(users)
    requires u.id == |users| + 1 && !NameOrEmailTaken(users, u.name, u.email)
    ensures var users' := users + [u];
      IdsAreRows(users') && NamesUnique(users') && EmailsUnique(users')
  {
    var users' := users + [u];
    forall i, j | 0 <= i < j < |users'|
      ensures users'[i].name != users'[j].name && users'[i].email != users'[j].email
    {
      assert users'[i] == users[i];
      if j < |users| {
        assert users'[j] == users[j];
      }
    }
  }

  /** The users table; each method is one committed session. */
  class UserStore {
    var users: seq<User>

    ghost predicate Valid()
      reads this
    {
      IdsAreRows(users) && NamesUnique(users) && EmailsUnique(users)
    }

    constructor ()
      ensures Valid() && users == []
    {
      users := [];
    }

    /** add_user: store the stripped name and email with the given password
        hash; a name or email already taken makes the commit fail and
        leaves the table as it was. */
    method AddUser(name: string, email: string, passwordHash: string) returns (s: Status)
      requires Valid()
      modifies this
      ensures Valid()
      ensures s == Done || s == Conflict
      ensures s == Conflict <==> NameOrEmailTaken(old(users), Strip(name), Strip(email))
      ensures s == Conflict ==> users == old(users)
      ensures s == Done ==> users == old(users) + [NewUser(old(users), name, email, passwordHash)]
    {
      var n, e := Strip(name), Strip(email);
      if NameOrEmailTaken(users, n, e) {
        return Conflict;
      }
      var u := User(|users| + 1, n, e, passwordHash);
      AppendKeepsConstraints(users, u);
      users := users + [u];
      s := Done;
    }
  }
}
