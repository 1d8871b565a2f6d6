/**
 * How the browser's pre-submit check relates to the server's validation chain for the same
 * three fields: they agree whenever a fullname is given, and a form without one that the
 * browser lets through is always refused by `/signup`.
 */
module Agreement {
  import opened Wrappers
  import opened Text
  import opened Patterns
  import opened Signup
  import opened AuthForm

  /** The server error that corresponds to a client rule. */
  function ServerErrorFor(rule: FormRule): SignupError {
    match rule
    case FieldsGiven => MissingFields
    case NameLongEnough => NameTooShort
    case EmailValid => InvalidEmail
    case PasswordStrong => WeakPassword
  }

  /** With a fullname given, the browser posts exactly what the server's validation chain accepts, and otherwise shows the very message the server would send. */
  lemma AgreeWhenFullnameGiven(fullname: Option<string>, email: Option<string>, password: Option<string>)
    requires !Falsy(fullname)
    ensures CheckForm(fullname, email, password).None? <==> Validate(SignupBody(fullname, email, password)).Ok?
    ensures CheckForm(fullname, email, password).Some? ==>
              && Validate(SignupBody(fullname, email, password)) == Err(ServerErrorFor(CheckForm(fullname, email, password).value))
              && Toast(CheckForm(fullname, email, password).value) == Message(Validate(SignupBody(fullname, email, password)).error)
  {
    var body := SignupBody(fullname, email, password);
    if Falsy(email) || Falsy(password) {
      assert CheckForm(fullname, email, password) == Some(FieldsGiven);
      assert Validate(body) == Err(MissingFields);
    } else if |fullname.value| < 3 {
      assert CheckForm(fullname, email, password) == Some(NameLongEnough);
      assert Validate(body) == Err(NameTooShort);
    } else if !IsEmail(email.value) {
      assert CheckForm(fullname, email, password) == Some(EmailValid);
      assert Validate(body) == Err(InvalidEmail);
    } else if !IsStrongPassword(password.value) {
      assert CheckForm(fullname, email, password) == Some(PasswordStrong);
      assert Validate(body) == Err(WeakPassword);
    } else {
      assert CheckForm(fullname, email, password) == None;
      assert Validate(body).Ok?;
    }
  }

  /**
   * Without a fullname the browser skips the length rule, but the server refuses the request
   * with "Please enter all fields" even when the browser would post it.
   */
  lemma MissingFullnameRefusedByServer(fullname: Option<string>, email: Option<string>, password: Option<string>)
    requires Falsy(fullname)
    ensures CheckForm(fullname, email, password) != Some(NameLongEnough)
    ensures Validate(SignupBody(fullname, email, password)) == Err(MissingFields)
    ensures CheckForm(fullname, email, password).None? ==>
              Message(Validate(SignupBody(fullname, email, password)).error) == "Please enter all fields"
  {
  }
}
