/** The `users` table the three routes share, held in memory: its rows in
    insertion order and the next AUTO_INCREMENT id. `/api/signup` is the only
    route that changes it. */
module UsersTable {
  import opened Wrappers
  import opened JsString
  import opened Email
  import opened Validation
  import opened Accounts

  class UserStore {
    var rows: seq<Row>
    var nextId: nat
    /** The password hashing library the handlers call. */
    const hasher: Hasher

    /** E-mails are unique, ids are positive, increasing in table order and
        below the next one to hand out, and the hasher round-trips. */
    ghost predicate Valid()
      reads this
    {
      && RoundTrips(hasher)
      && 1 <= nextId
      && EmailsUnique(rows)
      && IdsOrdered(rows, nextId)
    }

    /** An empty table whose ids start at 1. */
    constructor (hasher: Hasher)
      requires RoundTrips(hasher)
      ensures Valid()
      ensures rows == [] && nextId == 1 && this.hasher == hasher
    {
      this.hasher := hasher;
      rows := [];
      nextId := 1;
    }

    /** The `/api/signup` handler: validate, then register. */
    method Signup(form: SignupForm, salt: Salt, now: Timestamp) returns (reply: Reply)
      requires Valid()
      modifies this
      ensures Valid()
      ensures ValidateSignup(form).Invalid? ==>
                && reply == Reply(400, Fail(ValidateSignup(form).message))
                && rows == old(rows) && nextId == old(nextId)
      ensures ValidateSignup(form).Valid? && FindByEmail(old(rows), Text(form.email)).Some? ==>
                && reply == Reply(400, Fail(EmailTaken))
                && rows == old(rows) && nextId == old(nextId)
      ensures ValidateSignup(form).Valid? && FindByEmail(old(rows), Text(form.email)).None? ==>
                && rows == old(rows) + [NewRow(old(nextId), form, hasher.hash(Text(form.password), salt), now)]
                && nextId == old(nextId) + 1
                && reply == Reply(201, Created(WelcomeNew(Text(form.name)), old(nextId)))
                && Authenticate(rows, hasher, LoginForm(form.email, form.password)).status == 200
    {
      var verdict := ValidateSignup(form);
      if verdict.Invalid? {
        return Reply(400, Fail(verdict.message));
      }
      reply := Register(form, salt, now);
    }

    /** The part of `/api/signup` after validation: hash, reject a registered
        e-mail, insert one row and answer 201 with its id. */
    method Register(form: SignupForm, salt: Salt, now: Timestamp) returns (reply: Reply)
      requires Valid() && ValidateSignup(form).Valid?
      modifies this
      ensures Valid()
      ensures FindByEmail(old(rows), Text(form.email)).Some? ==>
                && reply == Reply(400, Fail(EmailTaken))
                && rows == old(rows) && nextId == old(nextId)
      ensures FindByEmail(old(rows), Text(form.email)).None? ==>
                && rows == old(rows) + [NewRow(old(nextId), form, hasher.hash(Text(form.password), salt), now)]
                && nextId == old(nextId) + 1
                && reply == Reply(201, Created(WelcomeNew(Text(form.name)), old(nextId)))
                && Authenticate(rows, hasher, LoginForm(form.email, form.password)).status == 200
    {
      var name, email, password := Text(form.name), Text(form.email), Text(form.password);
      var hashed := hasher.hash(password, salt);
      if FindByEmail(rows, email).Some? {
        return Reply(400, Fail(EmailTaken));
      }
      var id := nextId;
      LoginAfterRegister(rows, hasher, form, id, salt, now);
      AppendKeepsTableInvariant(rows, NewRow(id, form, hashed, now), id);
      rows := rows + [NewRow(id, form, hashed, now)];
      nextId := nextId + 1;
      reply := Reply(201, Created(WelcomeNew(name), id));
    }

    /** The `/api/login` handler; it only reads the table. */
    method Login(form: LoginForm) returns (reply: Reply)
      requires Valid()
      ensures reply == Authenticate(rows, hasher, form)
    {
      reply := Authenticate(rows, hasher, form);
    }

    /** The `/api/users` handler; it only reads the table. */
    method ListAll() returns (reply: Reply)
      ensures reply == Reply(200, UserList(ListUsers(rows)))
    {
      reply := Reply(200, UserList(ListUsers(rows)));
    }
  }

  /** Ids are increasing in table order and lie between 1 and `next`, exclusive. */
  ghost predicate IdsOrdered(rows: seq<Row>, next: nat)
  {
    && (forall i, j | 0 <= i < j < |rows| :: rows[i].id < rows[j].id)
    && (forall i | 0 <= i < |rows| :: 1 <= rows[i].id < next)
  }

  /** Appending a row with a fresh e-mail and the next id keeps e-mails unique
      and ids ordered. */
  lemma AppendKeepsTableInvariant(rows: seq<Row>, row: Row, next: nat)
    requires EmailsUnique(rows) && IdsOrdered(rows, next) && 1 <= next
    requires FindByEmail(rows, row.email).None? && row.id == next
    ensures EmailsUnique(rows + [row]) && IdsOrdered(rows + [row], next + 1)
  {
  }

  /** The signup form of the session below. */
  function JoForm(password: string): SignupForm
  {
    SignupForm(Some("Jo"), Some("jo@x.com"), Some(password), Some(password), Some("1234567890"))
  }

  lemma JoEmailValid()
    ensures IsValidEmail("jo@x.com")
  {
    PatternPartsMakeValidEmail("jo", "x", "com");
    assert "jo" + "@" + "x" + "." + "com" == "jo@x.com";
  }

  lemma JoNameLongEnough()
    ensures Utf16Length(Trim("Jo")) >= 2
  {
    assert !IsWhitespace('J') && !IsWhitespace('o');
  }

  lemma JoSignupValid()
    ensures ValidateSignup(JoForm("secret1")) == Valid
  {
    var form := JoForm("secret1");
    assert form.name.value == "Jo" && form.email.value == "jo@x.com";
    assert form.password.value == "secret1" == form.confirmPassword.value;
    assert AllSignupFieldsFilled(form);
    JoEmailValid();
    JoNameLongEnough();
    assert Utf16Length("secret1") >= 6;
    SignupFirstFailureWins(form);
  }

  lemma AbcTooShort()
    ensures ValidateSignup(JoForm("abc")) == Invalid(PasswordTooShort)
  {
    var form := JoForm("abc");
    assert form.name.value == "Jo" && form.email.value == "jo@x.com";
    assert form.password.value == "abc" == form.confirmPassword.value;
    assert AllSignupFieldsFilled(form);
    JoEmailValid();
    JoNameLongEnough();
    assert Utf16Length("abc") == 3;
    SignupFirstFailureWins(form);
  }

  lemma JoLoginsValid()
    ensures ValidateLogin(LoginForm(Some("jo@x.com"), Some("secret1"))) == Valid
    ensures ValidateLogin(LoginForm(Some("jo@x.com"), Some("wrong1"))) == Valid
  {
    JoEmailValid();
    LoginFirstFailureWins(LoginForm(Some("jo@x.com"), Some("secret1")));
    LoginFirstFailureWins(LoginForm(Some("jo@x.com"), Some("wrong1")));
  }

  /** A session against a fresh table: sign Jo up, sign up again with the same
      form, log in with a wrong and with the right password, and sign up with a
      three-character password, then list the table: only Jo's account is in
      it. The wrong password is one the hasher rejects. */
  method SignupLoginSession(h: Hasher, salt: Salt, now: Timestamp)
    returns (created: Reply, again: Reply, wrong: Reply, right: Reply, short: Reply, listed: Reply)
    requires RoundTrips(h)
    requires !h.compare("wrong1", h.hash("secret1", salt))
    ensures created == Reply(201, Created(WelcomeNew("Jo"), 1))
    ensures again == Reply(400, Fail(EmailTaken))
    ensures wrong == Reply(401, Fail(BadCredentials))
    ensures right == Reply(200, LoggedIn(WelcomeBack("jo@x.com"), 1, "Jo", Some("1234567890")))
    ensures short == Reply(400, Fail(PasswordTooShort))
    ensures listed == Reply(200, UserList([PublicUser(1, "Jo", "jo@x.com", Some("1234567890"), now)]))
  {
    JoSignupValid();
    AbcTooShort();
    JoLoginsValid();
    var store := new UserStore(h);
    created := store.Signup(JoForm("secret1"), salt, now);
    var row := store.rows[0];
    assert store.rows == [row];
    assert row.email == "jo@x.com" && row.passwordHash == h.hash("secret1", salt);
    again := store.Signup(JoForm("secret1"), salt, now);
    var wrongForm := LoginForm(Some("jo@x.com"), Some("wrong1"));
    LoginSucceedsIff(store.rows, h, wrongForm, 0);
    wrong := store.Login(wrongForm);
    var rightForm := LoginForm(Some("jo@x.com"), Some("secret1"));
    LoginSucceedsIff(store.rows, h, rightForm, 0);
    right := store.Login(rightForm);
    short := store.Signup(JoForm("abc"), salt, now);
    assert store.rows == [row];
    assert ListUsers([row]) == [Project(row)];
    listed := store.ListAll();
  }
}
