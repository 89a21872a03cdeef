/**
 * The registration checks of the `User` model. The users table is a sequence of
 * rows in query order; "already exists" is `filter_by(...).first() is not None`.
 * Every check is a function of the table and the candidate values, so none of
 * them can change a user or the table.
 */
module UserModel {
  import opened Wrappers
  import opened Text

  /** One row of the `users` table; `id` is absent until the row is stored. */
  datatype User = User(id: Option<int>, username: string, email: string, passwordHash: Option<string>)

  /** The two columns the registration checks look users up by. */
  datatype Column = Username | Email

  function Field(u: User, column: Column): string {
    match column
    case Username => u.username
    case Email => u.email
  }

  /** `User.query.filter_by(<column>=value).first()`: the earliest row whose column holds `value`. */
  function FirstWith(users: seq<User>, column: Column, value: string): (found: Option<User>)
    ensures found.Some? ==> found.value in users && Field(found.value, column) == value
    ensures found.None? <==> forall k | 0 <= k < |users| :: Field(users[k], column) != value
  {
    if |users| == 0 then None
    else if Field(users[0], column) == value then Some(users[0])
    else FirstWith(users[1..], column, value)
  }

  /** The row found is the earliest one whose column holds the value. */
  lemma {:induction false} FirstWithIsEarliest(users: seq<User>, column: Column, value: string, k: nat)
    requires k < |users| && Field(users[k], column) == value
    requires forall j | 0 <= j < k :: Field(users[j], column) != value
    ensures FirstWith(users, column, value) == Some(users[k])
  {
    if k > 0 {
      FirstWithIsEarliest(users[1..], column, value, k - 1);
    }
  }

  /** `_does_user_already_exist`. */
  predicate DoesUserAlreadyExist(users: seq<User>, username: string) {
    FirstWith(users, Username, username).Some?
  }

  predicate IsUsernameEmpty(username: string) {
    username == ""
  }

  predicate IsEmailEmpty(email: string) {
    email == ""
  }

  /** `_does_email_already_exist`: the flag and the row it found. */
  function DoesEmailAlreadyExist(users: seq<User>, email: string): (r: (bool, Option<User>))
    ensures r.0 <==> exists k | 0 <= k < |users| :: users[k].email == email
    ensures r.0 <==> r.1.Some?
    ensures r.1.Some? ==> r.1.value in users && r.1.value.email == email
  {
    var found := FirstWith(users, Email, email);
    (found.Some?, found)
  }

  predicate DoesEmailIncludeAtSymbol(email: string) {
    '@' in email
  }

  /** `len(email.split("@")) == 2 and len(email.split(".")) == 2`. */
  predicate DoesEmailFollowTextAtTextDotTextFormat(email: string) {
    |Split(email, '@')| == 2 && |Split(email, '.')| == 2
  }

  /** The format check only counts: exactly one '@' and exactly one '.', anywhere, parts possibly empty. */
  lemma FormatMeansOneAtOneDot(email: string)
    ensures DoesEmailFollowTextAtTextDotTextFormat(email) <==> Count(email, '@') == 1 && Count(email, '.') == 1
  {
    SplitLength(email, '@');
    SplitLength(email, '.');
  }

  /** A passing format check already implies the '@' check. */
  lemma FormatImpliesAtSymbol(email: string)
    requires DoesEmailFollowTextAtTextDotTextFormat(email)
    ensures DoesEmailIncludeAtSymbol(email)
  {
    FormatMeansOneAtOneDot(email);
    CountPositive(email, '@');
  }

  /** A character occurring once between two stretches free of it is counted once. */
  lemma CountOnce(a: string, c: char, b: string)
    requires c !in a && c !in b
    ensures Count(a + [c] + b, c) == 1
  {
    CountConcat(a + [c], b, c);
    CountConcat(a, [c], c);
    CountPositive(a, c);
    CountPositive(b, c);
  }

  // The example lemmas below take their email as a parameter fixed by `requires`: with
  // a literal argument Dafny unfolds `Split` and `Count` on it without bound.

  /** The dot may come before the '@'. */
  lemma DotBeforeAtPasses(email: string)
    requires email == "a.b@c"
    ensures DoesEmailFollowTextAtTextDotTextFormat(email)
  {
    assert email == "a" + ['.'] + "b@c" == "a.b" + ['@'] + "c";
    CountOnce("a", '.', "b@c");
    CountOnce("a.b", '@', "c");
    FormatMeansOneAtOneDot(email);
  }

  /** All three parts may be empty. */
  lemma EmptyPartsPass(email: string)
    requires email == "@."
    ensures DoesEmailFollowTextAtTextDotTextFormat(email)
  {
    assert email == "" + ['@'] + "." == "@" + ['.'] + "";
    CountOnce("", '@', ".");
    CountOnce("@", '.', "");
    FormatMeansOneAtOneDot(email);
  }

  /** A second dot in the domain fails. */
  lemma TwoDotsFail(email: string)
    requires email == "a@b.co.uk"
    ensures !DoesEmailFollowTextAtTextDotTextFormat(email)
  {
    assert email == "a@b." + "co.uk";
    CountConcat("a@b.", "co.uk", '.');
    CountPositive("a@b.", '.');
    CountPositive("co.uk", '.');
    FormatMeansOneAtOneDot(email);
  }

  /** `validate_username_before_adding_new_user`. */
  predicate ValidateUsername(users: seq<User>, username: string) {
    if IsUsernameEmpty(username) then false
    else if DoesUserAlreadyExist(users, username) then false
    else true
  }

  /** Valid exactly when non-empty and no row has that username. */
  lemma ValidateUsernameMeaning(users: seq<User>, username: string)
    ensures ValidateUsername(users, username) <==>
      username != "" && forall k | 0 <= k < |users| :: users[k].username != username
  {
  }

  /** `validate_email_before_adding_new_user`. */
  predicate ValidateEmail(users: seq<User>, email: string) {
    if IsEmailEmpty(email) then false
    else if DoesEmailAlreadyExist(users, email).0 then false
    else if !DoesEmailIncludeAtSymbol(email) then false
    else if !DoesEmailFollowTextAtTextDotTextFormat(email) then false
    else true
  }

  /** Valid exactly when non-empty, unused, and holding one '@' and one '.'. */
  lemma ValidateEmailMeaning(users: seq<User>, email: string)
    ensures ValidateEmail(users, email) <==>
      email != "" &&
      (forall k | 0 <= k < |users| :: users[k].email != email) &&
      Count(email, '@') == 1 && Count(email, '.') == 1
  {
    FormatMeansOneAtOneDot(email);
    CountPositive(email, '@');
  }

  /** The same chain with the '@' branch removed. */
  predicate ValidateEmailWithoutAtCheck(users: seq<User>, email: string) {
    if IsEmailEmpty(email) then false
    else if DoesEmailAlreadyExist(users, email).0 then false
    else if !DoesEmailFollowTextAtTextDotTextFormat(email) then false
    else true
  }

  /** Removing the '@' branch never changes the verdict. */
  lemma AtCheckIsRedundant(users: seq<User>, email: string)
    ensures ValidateEmail(users, email) == ValidateEmailWithoutAtCheck(users, email)
  {
    if DoesEmailFollowTextAtTextDotTextFormat(email) {
      FormatImpliesAtSymbol(email);
    }
  }

  predicate IsPasswordEmpty(password: string) {
    password == ""
  }

  predicate IsPasswordAtLeast8CharactersLong(password: string) {
    |password| >= 8
  }

  /** `validate_password_before_adding_new_user`. */
  predicate ValidatePassword(password: string, username: string, email: string, firstName: string, lastName: string) {
    if IsPasswordEmpty(password) then false
    else if password == username then false
    else if password == email then false
    else if password == firstName then false
    else if password == lastName then false
    else if !IsPasswordAtLeast8CharactersLong(password) then false
    else true
  }

  /** Valid exactly when at least 8 characters and equal to none of the four other fields. */
  lemma ValidatePasswordMeaning(password: string, username: string, email: string, firstName: string, lastName: string)
    ensures ValidatePassword(password, username, email, firstName, lastName) <==>
      |password| >= 8 && password != username && password != email &&
      password != firstName && password != lastName
  {
  }

  /** The same chain with the emptiness branch removed. */
  predicate ValidatePasswordWithoutEmptyCheck(password: string, username: string, email: string, firstName: string, lastName: string) {
    if password == username then false
    else if password == email then false
    else if password == firstName then false
    else if password == lastName then false
    else if !IsPasswordAtLeast8CharactersLong(password) then false
    else true
  }

  /** The length check subsumes the emptiness check. */
  lemma EmptyCheckIsRedundant(password: string, username: string, email: string, firstName: string, lastName: string)
    ensures ValidatePassword(password, username, email, firstName, lastName) ==
      ValidatePasswordWithoutEmptyCheck(password, username, email, firstName, lastName)
  {
  }

  /** A value `getattr` can return for a column. */
  datatype Value = IntValue(i: int) | StrValue(s: string) | NullValue

  const ReprJson: seq<string> := ["id", "username", "email"]
  const ReprJsonExclude: seq<string> := ["password_hash"]

  /** `getattr(user, column)` for the four columns of the table. */
  function Attr(u: User, column: string): (v: Value)
    requires column in {"id", "username", "email", "password_hash"}
    ensures column == "username" ==> v == StrValue(u.username)
    ensures column == "email" ==> v == StrValue(u.email)
  {
    if column == "id" then (if u.id.Some? then IntValue(u.id.value) else NullValue)
    else if column == "username" then StrValue(u.username)
    else if column == "email" then StrValue(u.email)
    else if u.passwordHash.Some? then StrValue(u.passwordHash.value) else NullValue
  }

  /** `to_dict`: one entry per name in `ReprJson`. */
  function ToDict(u: User): (d: map<string, Value>)
    ensures d.Keys == {"id", "username", "email"}
    ensures forall a | a in ReprJsonExclude :: a !in d
    ensures d["username"] == StrValue(u.username) && d["email"] == StrValue(u.email)
    ensures d["id"] == (if u.id.Some? then IntValue(u.id.value) else NullValue)
  {
    map a | a in ReprJson :: Attr(u, a)
  }

  /** The password hash never reaches the dictionary. */
  lemma ToDictIgnoresPasswordHash(u: User, hash: Option<string>)
    ensures ToDict(u.(passwordHash := hash)) == ToDict(u)
  {
  }
}
