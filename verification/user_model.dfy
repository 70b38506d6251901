/**
 * The user document (api/models/user.model.js): the `fullName` and
 * `displayName` virtuals, the trimmed and lower-cased fields with their
 * bounds, and the defaults. The password is stored as given here (hashing
 * happens elsewhere); social links, preferences other than the theme, and
 * timestamps are not modelled.
 */
module UserModel {
  import opened Wrappers
  import opened Text
  import Validation

  datatype Theme = Light | Dark | Auto

  datatype UserStats = UserStats(postsCount: int, commentsCount: int, followersCount: int, followingCount: int)

  datatype User = User(
    id: string,
    username: string,
    email: string,
    password: string,
    bio: string,
    firstName: Option<string>,
    lastName: Option<string>,
    isAdmin: bool,
    isVerified: bool,
    isActive: bool,
    theme: Theme,
    stats: UserStats)

  /** The `fullName` virtual: first and last name when both are set, the username otherwise. */
  function FullName(u: User): (r: string)
    ensures Truthy(u.firstName) && Truthy(u.lastName) ==>
              var f, l := u.firstName.value, u.lastName.value;
              |r| == |f| + 1 + |l| && r[..|f|] == f && r[|f|] == ' ' && r[|f| + 1..] == l
    ensures !(Truthy(u.firstName) && Truthy(u.lastName)) ==> r == u.username
  {
    if Truthy(u.firstName) && Truthy(u.lastName) then u.firstName.value + " " + u.lastName.value
    else u.username
  }

  /** The `displayName` virtual: `fullName || username`. */
  function DisplayName(u: User): (r: string)
    ensures FullName(u) != "" ==> r == FullName(u)
    ensures FullName(u) == "" ==> r == u.username
  {
    var f := FullName(u);
    if f != "" then f else u.username
  }

  /** `displayName` always equals `fullName`: when `fullName` is empty it is the username already. */
  lemma {:induction false} DisplayNameIsFullName(u: User)
    ensures DisplayName(u) == FullName(u)
  {
  }

  datatype SchemaError = UsernameLength | EmailRequired | PasswordTooShort

  /**
   * A new user as the schema stores it: username trimmed and 3 to 30
   * characters, email trimmed, lower-cased and required, password of at
   * least 6 characters, and the defaults for everything else.
   */
  function NewUser(id: string, username: string, email: string, password: string): (r: Result<User, SchemaError>)
    ensures r.Ok? <==> 3 <= |Trim(username)| <= 30 && Trim(email) != "" && |password| >= 6
    ensures r.Ok? ==> var u := r.value;
              && u.username == Trim(username) && u.email == Lower(Trim(email)) && u.password == password
              && !u.isAdmin && !u.isVerified && u.isActive && u.theme == Auto && u.bio == ""
              && u.firstName.None? && u.lastName.None?
              && u.stats == UserStats(0, 0, 0, 0)
  {
    var name := Trim(username);
    var mail := Lower(Trim(email));
    if !(3 <= |name| <= 30) then Err(UsernameLength)
    else if mail == "" then Err(EmailRequired)
    else if |password| < 6 then Err(PasswordTooShort)
    else Ok(User(id, name, mail, password, "", None, None, false, false, true, Auto, UserStats(0, 0, 0, 0)))
  }

  /** The stored email is already lower case. */
  lemma {:induction false} StoredEmailIsLower(id: string, username: string, email: string, password: string)
    requires NewUser(id, username, email, password).Ok?
    ensures var e := NewUser(id, username, email, password).value.email;
            Lower(e) == e
  {
    LowerTwice(Trim(email));
  }

  /** A username `validateUsername` accepts is stored unchanged by the schema. */
  lemma {:induction false} ValidUsernameStoredAsIs(username: string)
    requires Validation.ValidateUsername(username)
    ensures Trim(username) == username && 3 <= |Trim(username)| <= 30
  {
    Validation.UsernameHasNoSpace(username);
    TrimNoop(username);
  }
}
