/**
 * The photo editor's browser-side account store (`AuthContext.tsx`): a list
 * of users kept in local storage and the current user kept in session
 * storage. Sign-up, e-mail verification by token, login and logout are
 * functions of that pair. The random verification token is a parameter.
 */
module AuthStore {
  import opened Wrappers

  datatype StoredUser = StoredUser(username: string, password: string, verified: bool, token: Option<string>)

  /** The stored user list and the signed-in user's name, if any. */
  datatype Accounts = Accounts(users: seq<StoredUser>, current: Option<string>)

  datatype AuthError = UserExists | UserNotFound | PasswordMismatch | EmailNotVerified | InvalidToken

  predicate NameTaken(users: seq<StoredUser>, username: string) {
    exists i :: 0 <= i < |users| && users[i].username == username
  }

  /** No two stored users share a name. */
  predicate UniqueNames(users: seq<StoredUser>) {
    forall i, j :: 0 <= i < j < |users| ==> users[i].username != users[j].username
  }

  /**
   * `signup`: a taken name is refused and nothing changes; otherwise one
   * unverified user holding the new token is appended, and nobody is signed
   * in by it. The result carries the name and the token.
   */
  function Signup(acc: Accounts, username: string, password: string, token: string): (r: Result<(Accounts, string), AuthError>)
    ensures r.Failure? <==> NameTaken(acc.users, username)
    ensures r.Failure? ==> r.error == UserExists
    ensures r.Success? ==>
      r.value.0 == Accounts(acc.users + [StoredUser(username, password, false, Some(token))], acc.current)
      && r.value.1 == token
  {
    if NameTaken(acc.users, username) then Failure(UserExists)
    else Success((Accounts(acc.users + [StoredUser(username, password, false, Some(token))], acc.current), token))
  }

  /** Sign-up keeps names unique. */
  lemma SignupKeepsNamesUnique(acc: Accounts, username: string, password: string, token: string)
    requires UniqueNames(acc.users)
    ensures var r := Signup(acc, username, password, token);
      r.Success? ==> UniqueNames(r.value.0.users)
  {
    var r := Signup(acc, username, password, token);
    if r.Success? {
      var users := r.value.0.users;
      forall i, j | 0 <= i < j < |users| ensures users[i].username != users[j].username {
        if j == |users| - 1 {
          assert users[i] == acc.users[i];
        }
      }
    }
  }

  /** The first stored user with the name, as `Array.prototype.find` gives it. */
  function FindUser(users: seq<StoredUser>, username: string): (r: Option<nat>)
    ensures r.Some? ==>
      r.value < |users| && users[r.value].username == username
      && forall j :: 0 <= j < r.value ==> users[j].username != username
    ensures r.None? <==> !NameTaken(users, username)
    decreases |users|
  {
    if |users| == 0 then None
    else if users[0].username == username then Some(0)
    else match FindUser(users[1..], username)
      case None => None
      case Some(i) => Some(i + 1)
  }

  /**
   * `login`: refused for an unknown name, then a wrong password, then an
   * unverified account, checked on the first user with the name; otherwise
   * that user is signed in and the list is untouched.
   */
  function Login(acc: Accounts, username: string, password: string): (r: Result<Accounts, AuthError>)
    ensures !NameTaken(acc.users, username) ==> r == Failure(UserNotFound)
    ensures NameTaken(acc.users, username) ==>
      var u := acc.users[FindUser(acc.users, username).value];
      (u.password != password ==> r == Failure(PasswordMismatch))
      && (u.password == password && !u.verified ==> r == Failure(EmailNotVerified))
      && (u.password == password && u.verified ==> r == Success(Accounts(acc.users, Some(username))))
  {
    match FindUser(acc.users, username)
    case None => Failure(UserNotFound)
    case Some(i) =>
      var u := acc.users[i];
      if u.password != password then Failure(PasswordMismatch)
      else if !u.verified then Failure(EmailNotVerified)
      else Success(Accounts(acc.users, Some(u.username)))
  }

  /** The first stored user still waiting with this token (`findIndex`). */
  function FindToken(users: seq<StoredUser>, token: string): (r: Option<nat>)
    ensures r.Some? ==>
      r.value < |users| && users[r.value].token == Some(token)
      && forall j :: 0 <= j < r.value ==> users[j].token != Some(token)
    ensures r.None? <==> forall j :: 0 <= j < |users| ==> users[j].token != Some(token)
    decreases |users|
  {
    if |users| == 0 then None
    else if users[0].token == Some(token) then Some(0)
    else match FindToken(users[1..], token)
      case None => None
      case Some(i) => Some(i + 1)
  }

  /**
   * `verifyEmail`: an unknown token is refused; otherwise the first user
   * holding it is marked verified, loses the token and is signed in; no
   * other user changes.
   */
  function VerifyEmail(acc: Accounts, token: string): (r: Result<Accounts, AuthError>)
    ensures r.Failure? <==> forall j :: 0 <= j < |acc.users| ==> acc.users[j].token != Some(token)
    ensures r.Failure? ==> r.error == InvalidToken
    ensures r.Success? ==>
      var i := FindToken(acc.users, token).value;
      |r.value.users| == |acc.users|
      && r.value.users[i] == acc.users[i].(verified := true, token := None)
      && (forall j :: 0 <= j < |acc.users| && j != i ==> r.value.users[j] == acc.users[j])
      && r.value.current == Some(acc.users[i].username)
  {
    match FindToken(acc.users, token)
    case None => Failure(InvalidToken)
    case Some(i) =>
      var u := acc.users[i].(verified := true, token := None);
      Success(Accounts(acc.users[i := u], Some(u.username)))
  }

  /** `logout`: nobody is signed in; the user list is untouched. */
  function Logout(acc: Accounts): (r: Accounts)
    ensures r.current.None? && r.users == acc.users
  {
    acc.(current := None)
  }

  /**
   * A token works once: when no other user holds it, verifying with it a
   * second time is refused.
   */
  lemma TokenSingleUse(acc: Accounts, token: string)
    requires forall i, j :: 0 <= i < j < |acc.users| && acc.users[i].token == Some(token) ==> acc.users[j].token != Some(token)
    requires VerifyEmail(acc, token).Success?
    ensures VerifyEmail(VerifyEmail(acc, token).value, token) == Failure(InvalidToken)
  {
    var i := FindToken(acc.users, token).value;
    var after := VerifyEmail(acc, token).value;
    forall j | 0 <= j < |after.users| ensures after.users[j].token != Some(token) {
      if j != i {
        assert after.users[j] == acc.users[j];
        if j > i {
          assert acc.users[i].token == Some(token);
        }
      }
    }
  }

  /**
   * The whole journey: signing up under a free name with a token nobody
   * else holds, verifying with that token and logging in with the same
   * password signs that user in.
   */
  lemma SignupVerifyLogin(acc: Accounts, username: string, password: string, token: string)
    requires !NameTaken(acc.users, username)
    requires forall j :: 0 <= j < |acc.users| ==> acc.users[j].token != Some(token)
    ensures var signed := Signup(acc, username, password, token).value.0;
      var verified := VerifyEmail(signed, token);
      verified.Success? && verified.value.current == Some(username)
      && Login(Logout(verified.value), username, password) == Success(Accounts(verified.value.users, Some(username)))
  {
    var signed := Signup(acc, username, password, token).value.0;
    var n := |acc.users|;
    assert signed.users[n].token == Some(token);
    assert FindToken(signed.users, token) == Some(n);
    var verified := VerifyEmail(signed, token).value;
    assert verified.users[n] == StoredUser(username, password, true, None);
    assert NameTaken(verified.users, username);
    assert FindUser(verified.users, username) == Some(n);
  }
}
