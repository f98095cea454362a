/** The input checks that open the `/api/signup` and `/api/login` handlers:
    guarded early returns, each answering 400 with one message, the first
    failing check winning. */
module Validation {
  import opened Wrappers
  import opened JsString
  import opened Email

  const FillAllFields := "Please fill in all fields"
  const NameTooShort := "Name must be at least 2 characters"
  const InvalidEmail := "Please enter a valid email address"
  const PasswordTooShort := "Password must be at least 6 characters"
  const PasswordMismatch := "Passwords do not match"
  /** Shared by a too-short login password and by both credential failures. */
  const BadCredentials := "Invalid email or password"

  /** The fields of a signup request body; `None` is a field the body lacks. */
  datatype SignupForm = SignupForm(
    name: Option<string>,
    email: Option<string>,
    password: Option<string>,
    confirmPassword: Option<string>,
    phone: Option<string>)

  /** The fields of a login request body. */
  datatype LoginForm = LoginForm(email: Option<string>, password: Option<string>)

  datatype Verdict = Valid | Invalid(message: string)

  /** One guard of a chain: whether it lets the request through, and what it answers if not. */
  datatype Check = Check(passes: bool, message: string)

  /** JavaScript truthiness of a string field: `!field` is false exactly when
      the field is present and not the empty string. */
  predicate Filled(field: Option<string>)
    ensures Filled(field) <==> field.Some? && Utf16Length(field.value) > 0
  {
    field.Some? && field.value != ""
  }

  /** The text of a field, `""` when it is absent. */
  function Text(field: Option<string>): (t: string)
    ensures Filled(field) <==> t != ""
    ensures field.Some? ==> t == field.value
  {
    if field.Some? then field.value else ""
  }

  /** Runs a chain of guards in order: the first failing guard decides. */
  function FirstFailure(checks: seq<Check>): (v: Verdict)
    ensures v == Valid <==> forall i | 0 <= i < |checks| :: checks[i].passes
    ensures v.Invalid? ==> exists i | 0 <= i < |checks| ::
      && !checks[i].passes
      && v.message == checks[i].message
      && forall j | 0 <= j < i :: checks[j].passes
  {
    if checks == [] then Valid
    else if !checks[0].passes then Invalid(checks[0].message)
    else
      var v := FirstFailure(checks[1..]);
      assert forall i | 1 <= i < |checks| :: checks[i] == checks[1..][i - 1];
      v
  }

  predicate AllSignupFieldsFilled(form: SignupForm)
  {
    && Filled(form.name) && Filled(form.email) && Filled(form.password)
    && Filled(form.confirmPassword) && Filled(form.phone)
  }

  /** The five guards of `/api/signup`, in the handler's order. A guard after
      the presence check reads an absent field as `""`; it is never the first
      to fail then, because the presence check already has. */
  function SignupChecks(form: SignupForm): seq<Check>
  {
    [ Check(AllSignupFieldsFilled(form), FillAllFields),
      Check(Utf16Length(Trim(Text(form.name))) >= 2, NameTooShort),
      Check(IsValidEmail(Text(form.email)), InvalidEmail),
      Check(Utf16Length(Text(form.password)) >= 6, PasswordTooShort),
      Check(Text(form.password) == Text(form.confirmPassword), PasswordMismatch) ]
  }

  /** The validation of a signup request: it passes exactly when all five
      guards hold, and otherwise answers one of their five messages. */
  function ValidateSignup(form: SignupForm): (v: Verdict)
    ensures v == Valid <==>
      && AllSignupFieldsFilled(form)
      && Utf16Length(Trim(form.name.value)) >= 2
      && IsValidEmail(form.email.value)
      && Utf16Length(form.password.value) >= 6
      && form.password.value == form.confirmPassword.value
    ensures v.Invalid? ==>
      v.message in {FillAllFields, NameTooShort, InvalidEmail, PasswordTooShort, PasswordMismatch}
  {
    SignupFirstFailureWins(form);
    FirstFailure(SignupChecks(form))
  }

  /** The three guards of `/api/login`, in the handler's order. */
  function LoginChecks(form: LoginForm): seq<Check>
  {
    [ Check(Filled(form.email) && Filled(form.password), FillAllFields),
      Check(IsValidEmail(Text(form.email)), InvalidEmail),
      Check(Utf16Length(Text(form.password)) >= 6, BadCredentials) ]
  }

  /** The validation of a login request: it passes exactly when both fields
      are filled, the e-mail has the pattern's shape and the password has at
      least six code units; it never answers the signup-only messages. */
  function ValidateLogin(form: LoginForm): (v: Verdict)
    ensures v == Valid <==>
      && Filled(form.email) && Filled(form.password)
      && IsValidEmail(form.email.value)
      && Utf16Length(form.password.value) >= 6
    ensures v.Invalid? ==> v.message in {FillAllFields, InvalidEmail, BadCredentials}
  {
    LoginFirstFailureWins(form);
    FirstFailure(LoginChecks(form))
  }

  /** The signup chain answers the message of the first failing guard, in the
      fixed order presence, name, e-mail, password length, confirmation; and
      passes exactly when all five hold. */
  lemma SignupFirstFailureWins(form: SignupForm)
    ensures FirstFailure(SignupChecks(form)) ==
      if !AllSignupFieldsFilled(form) then Invalid(FillAllFields)
      else if Utf16Length(Trim(form.name.value)) < 2 then Invalid(NameTooShort)
      else if !IsValidEmail(form.email.value) then Invalid(InvalidEmail)
      else if Utf16Length(form.password.value) < 6 then Invalid(PasswordTooShort)
      else if form.password.value != form.confirmPassword.value then Invalid(PasswordMismatch)
      else Valid
  {
    var checks := SignupChecks(form);
    var v := FirstFailure(checks);
    if v.Invalid? {
      var i :| 0 <= i < |checks| && !checks[i].passes && v.message == checks[i].message &&
        forall j | 0 <= j < i :: checks[j].passes;
      assert i == 0 || checks[0].passes;
      assert i <= 1 || checks[1].passes;
      assert i <= 2 || checks[2].passes;
      assert i <= 3 || checks[3].passes;
    } else {
      assert checks[0].passes && checks[1].passes && checks[2].passes;
      assert checks[3].passes && checks[4].passes;
    }
  }

  /** The login chain answers the message of the first failing guard:
      presence, then e-mail shape, then a password length failure that reports
      only the generic credential message. */
  lemma LoginFirstFailureWins(form: LoginForm)
    ensures FirstFailure(LoginChecks(form)) ==
      if !(Filled(form.email) && Filled(form.password)) then Invalid(FillAllFields)
      else if !IsValidEmail(form.email.value) then Invalid(InvalidEmail)
      else if Utf16Length(form.password.value) < 6 then Invalid(BadCredentials)
      else Valid
  {
    var checks := LoginChecks(form);
    var v := FirstFailure(checks);
    if v.Invalid? {
      var i :| 0 <= i < |checks| && !checks[i].passes && v.message == checks[i].message &&
        forall j | 0 <= j < i :: checks[j].passes;
      assert i == 0 || checks[0].passes;
      assert i <= 1 || checks[1].passes;
    } else {
      assert checks[0].passes && checks[1].passes && checks[2].passes;
    }
  }

  /** Credentials that pass signup validation also pass login validation, so
      a registered account is never locked out by the login guards. */
  lemma SignupValidImpliesLoginValid(form: SignupForm)
    requires ValidateSignup(form) == Valid
    ensures ValidateLogin(LoginForm(form.email, form.password)) == Valid
  {
    SignupFirstFailureWins(form);
    LoginFirstFailureWins(LoginForm(form.email, form.password));
  }
}
