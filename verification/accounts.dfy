/** The users table as a value, and the two routes that only read it:
    `/api/login` (find the row by e-mail, compare the password, project id,
    name and phone) and `/api/users` (every row without its password hash). */
module Accounts {
  import opened Wrappers
  import opened JsString
  import opened Email
  import opened Validation

  /** The random salt bcrypt draws for each hash; a parameter here. */
  type Salt = nat
  /** A clock reading, only ever stored and returned. */
  type Timestamp = nat

  /** The password hashing library, treated as opaque: `hash(password, salt)`
      is what `bcrypt.hash` stores, `compare(password, stored)` is
      `bcrypt.compare`. */
  datatype Hasher = Hasher(hash: (string, Salt) -> string, compare: (string, string) -> bool)

  /** The one property of the library the handlers depend on: a password
      always compares equal to a hash made from it. */
  ghost predicate RoundTrips(h: Hasher)
  {
    forall password, salt :: h.compare(password, h.hash(password, salt))
  }

  /** A row of `users`. `phone` is nullable for rows older than the column. */
  datatype Row = Row(
    id: nat,
    name: string,
    email: string,
    passwordHash: string,
    phone: Option<string>,
    createdAt: Timestamp,
    updatedAt: Timestamp)

  /** The columns `/api/users` selects: id, name, email, phone, created_at. */
  datatype PublicUser = PublicUser(
    id: nat,
    name: string,
    email: string,
    phone: Option<string>,
    createdAt: Timestamp)

  /** The JSON bodies the three routes answer with. `Fail` is
      `{ success: false, message }`. */
  datatype Body =
    | Fail(message: string)
    | Created(message: string, userId: nat)
    | LoggedIn(message: string, userId: nat, name: string, phone: Option<string>)
    | UserList(users: seq<PublicUser>)

  datatype Reply = Reply(status: nat, body: Body)

  const EmailTaken := "Email already registered"

  function WelcomeNew(name: string): string
  {
    "Account created successfully! Welcome, " + name + "!"
  }

  function WelcomeBack(email: string): string
  {
    "Welcome back! Logged in as " + email
  }

  /** No two rows share an e-mail (the column is UNIQUE). */
  ghost predicate EmailsUnique(rows: seq<Row>)
  {
    forall i, j | 0 <= i < j < |rows| :: rows[i].email != rows[j].email
  }

  /** `SELECT * FROM users WHERE email = ?`, first match. */
  function FindByEmail(rows: seq<Row>, email: string): (found: Option<Row>)
    ensures found.None? <==> forall i | 0 <= i < |rows| :: rows[i].email != email
    ensures found.Some? ==> exists i | 0 <= i < |rows| :: rows[i] == found.value && rows[i].email == email
  {
    if rows == [] then None
    else if rows[0].email == email then Some(rows[0])
    else
      var found := FindByEmail(rows[1..], email);
      assert forall i | 1 <= i < |rows| :: rows[i] == rows[1..][i - 1];
      found
  }

  /** In a table with unique e-mails, looking up a row's e-mail finds that row. */
  lemma FindUnique(rows: seq<Row>, i: nat)
    requires EmailsUnique(rows) && i < |rows|
    ensures FindByEmail(rows, rows[i].email) == Some(rows[i])
  {
  }

  /** Appending a row changes a lookup only for that row's e-mail, and only
      when no earlier row has it. */
  lemma {:induction false} FindAfterAppend(rows: seq<Row>, row: Row, email: string)
    ensures FindByEmail(rows + [row], email) ==
      if FindByEmail(rows, email).Some? then FindByEmail(rows, email)
      else if row.email == email then Some(row)
      else None
  {
    if rows != [] {
      assert (rows + [row])[1..] == rows[1..] + [row];
      FindAfterAppend(rows[1..], row, email);
    }
  }

  /** `user.phone || null`: a missing or empty phone is reported as null. */
  function PhoneOrNull(phone: Option<string>): Option<string>
  {
    if Filled(phone) then phone else None
  }

  /** The `/api/login` handler over a table. */
  function Authenticate(rows: seq<Row>, h: Hasher, form: LoginForm): (reply: Reply)
    ensures reply.status in {200, 400, 401}
    ensures reply.status == 400 <==> ValidateLogin(form).Invalid?
    ensures reply.status == 400 ==> reply.body == Fail(ValidateLogin(form).message)
    ensures reply.status == 401 ==> reply.body == Fail(BadCredentials)
    ensures reply.status == 200 ==> exists i | 0 <= i < |rows| ::
      && rows[i].email == Text(form.email)
      && h.compare(Text(form.password), rows[i].passwordHash)
      && reply.body == LoggedIn(WelcomeBack(Text(form.email)), rows[i].id, rows[i].name, PhoneOrNull(rows[i].phone))
    ensures ValidateLogin(form) == Valid && FindByEmail(rows, Text(form.email)).Some? &&
            h.compare(Text(form.password), FindByEmail(rows, Text(form.email)).value.passwordHash) ==>
              reply.status == 200
  {
    match ValidateLogin(form)
    case Invalid(message) => Reply(400, Fail(message))
    case Valid =>
      var email, password := Text(form.email), Text(form.password);
      match FindByEmail(rows, email)
      case None => Reply(401, Fail(BadCredentials))
      case Some(user) =>
        if !h.compare(password, user.passwordHash) then Reply(401, Fail(BadCredentials))
        else Reply(200, LoggedIn(WelcomeBack(email), user.id, user.name, PhoneOrNull(user.phone)))
  }

  /** In a table with unique e-mails, a well-formed login succeeds exactly when
      the row holding that e-mail accepts the password, and answers with that
      row's id, name and phone. */
  lemma LoginSucceedsIff(rows: seq<Row>, h: Hasher, form: LoginForm, i: nat)
    requires EmailsUnique(rows) && i < |rows| && rows[i].email == Text(form.email)
    requires ValidateLogin(form) == Valid
    ensures Authenticate(rows, h, form).status == 200 <==> h.compare(Text(form.password), rows[i].passwordHash)
    ensures h.compare(Text(form.password), rows[i].passwordHash) ==>
              Authenticate(rows, h, form) ==
              Reply(200, LoggedIn(WelcomeBack(rows[i].email), rows[i].id, rows[i].name, PhoneOrNull(rows[i].phone)))
  {
    FindUnique(rows, i);
  }

  /** An unknown e-mail and a wrong password for a known one get the very
      same answer, so a caller cannot tell which accounts exist. */
  lemma UnknownEmailLooksLikeWrongPassword(rows: seq<Row>, h: Hasher, unknown: LoginForm, wrong: LoginForm, i: nat)
    requires EmailsUnique(rows)
    requires ValidateLogin(unknown) == Valid && ValidateLogin(wrong) == Valid
    requires forall k | 0 <= k < |rows| :: rows[k].email != Text(unknown.email)
    requires i < |rows| && rows[i].email == Text(wrong.email)
    requires !h.compare(Text(wrong.password), rows[i].passwordHash)
    ensures Authenticate(rows, h, unknown) == Authenticate(rows, h, wrong) == Reply(401, Fail(BadCredentials))
  {
    FindUnique(rows, i);
  }

  /** A well-formed login whose password is shorter than six code units is
      answered 400 with the generic credential message, whatever the table and
      the hasher: the table is not consulted. */
  lemma ShortLoginPasswordIgnoresTable(rows: seq<Row>, other: seq<Row>, h: Hasher, g: Hasher, form: LoginForm)
    requires Filled(form.email) && Filled(form.password)
    requires IsValidEmail(form.email.value)
    requires Utf16Length(form.password.value) < 6
    ensures Authenticate(rows, h, form) == Authenticate(other, g, form) == Reply(400, Fail(BadCredentials))
  {
    LoginFirstFailureWins(form);
  }

  /** The row `/api/signup` inserts for a validated form. */
  function NewRow(id: nat, form: SignupForm, passwordHash: string, now: Timestamp): Row
  {
    Row(id, Text(form.name), Text(form.email), passwordHash, Some(Text(form.phone)), now, now)
  }

  /** An account just added for a fresh e-mail logs in with the password it
      was registered with, provided the hasher round-trips. */
  lemma {:induction false} LoginAfterRegister(rows: seq<Row>, h: Hasher, form: SignupForm, id: nat, salt: Salt, now: Timestamp)
    requires RoundTrips(h)
    requires ValidateSignup(form) == Valid
    requires FindByEmail(rows, Text(form.email)).None?
    ensures Authenticate(rows + [NewRow(id, form, h.hash(Text(form.password), salt), now)], h, LoginForm(form.email, form.password)) ==
      Reply(200, LoggedIn(WelcomeBack(Text(form.email)), id, Text(form.name), Some(Text(form.phone))))
  {
    var row := NewRow(id, form, h.hash(Text(form.password), salt), now);
    SignupValidImpliesLoginValid(form);
    SignupFirstFailureWins(form);
    FindAfterAppend(rows, row, Text(form.email));
  }

  /** Adding an account with a fresh e-mail leaves every other login's answer
      as it was. */
  lemma {:induction false} RegisterKeepsOtherLogins(rows: seq<Row>, row: Row, h: Hasher, form: LoginForm)
    requires Text(form.email) != row.email
    ensures Authenticate(rows + [row], h, form) == Authenticate(rows, h, form)
  {
    FindAfterAppend(rows, row, Text(form.email));
  }

  /** The projection `/api/users` applies to a row. */
  function Project(row: Row): PublicUser
  {
    PublicUser(row.id, row.name, row.email, row.phone, row.createdAt)
  }

  /** `SELECT id, name, email, phone, created_at FROM users`: one entry per
      row, in table order. */
  function ListUsers(rows: seq<Row>): (users: seq<PublicUser>)
    ensures |users| == |rows|
    ensures forall i | 0 <= i < |rows| :: users[i] == Project(rows[i])
  {
    if rows == [] then [] else [Project(rows[0])] + ListUsers(rows[1..])
  }

  /** Two rows that differ only in their password hash and update time. */
  ghost predicate SameButSecret(a: Row, b: Row)
  {
    a.id == b.id && a.name == b.name && a.email == b.email && a.phone == b.phone && a.createdAt == b.createdAt
  }

  /** The listing does not depend on any password hash: tables that differ
      only in their hashes list alike. */
  lemma ListHidesPasswordHashes(rows: seq<Row>, other: seq<Row>)
    requires |rows| == |other|
    requires forall i | 0 <= i < |rows| :: SameButSecret(rows[i], other[i])
    ensures ListUsers(rows) == ListUsers(other)
  {
  }

  /** A new account is listed last, after the existing ones unchanged. */
  lemma ListAfterRegister(rows: seq<Row>, row: Row)
    ensures ListUsers(rows + [row]) == ListUsers(rows) + [Project(row)]
  {
  }
}
