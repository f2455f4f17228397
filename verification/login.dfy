/** The login form: both fields are trimmed, then checked in order (email,
    then password); only inputs that pass are sent to sign-in, which is not
    part of this model. */
module Login {
  import opened Common
  import opened Strings

  const MinPasswordLength: nat := 6
  const EmailRequired: string := "Email is required"
  const PasswordRequired: string := "Password is required"
  const PasswordTooShort: string := "Password must be at least 6 characters"

  /** `validateInput` over the already-trimmed email and password: the first
      failing check names the error. */
  function ValidateLogin(email: string, password: string): (o: Outcome)
    ensures o == Pass <==> email != [] && |password| >= MinPasswordLength
    ensures email == [] ==> o == Fail(EmailRequired)
    ensures o.Fail? ==> o.error in {EmailRequired, PasswordRequired, PasswordTooShort}
  {
    if email == [] then Fail(EmailRequired)
    else if password == [] then Fail(PasswordRequired)
    else if |password| < MinPasswordLength then Fail(PasswordTooShort)
    else Pass
  }

  /** With an email present, an empty password and a short one are told
      apart. */
  lemma PasswordErrorsInOrder(email: string, password: string)
    requires email != []
    ensures password == [] ==> ValidateLogin(email, password) == Fail(PasswordRequired)
    ensures 0 < |password| < MinPasswordLength ==> ValidateLogin(email, password) == Fail(PasswordTooShort)
  {
  }

  /** The login button: the credentials sign-in receives, or the error shown
      instead. */
  function LoginRequest(emailText: string, passwordText: string): (r: Result<(string, string)>)
    ensures r.Success? <==> ValidateLogin(Trim(emailText), Trim(passwordText)) == Pass
    ensures r.Success? ==> r.value == (Trim(emailText), Trim(passwordText))
    ensures r.Failure? ==> Fail(r.error) == ValidateLogin(Trim(emailText), Trim(passwordText))
  {
    var email, password := Trim(emailText), Trim(passwordText);
    match ValidateLogin(email, password)
    case Pass => Success((email, password))
    case Fail(e) => Failure(e)
  }

  /** What reaches sign-in has no whitespace at either end, a non-empty
      email and a password of at least six characters. */
  lemma LoginRequestIsTrimmed(emailText: string, passwordText: string)
    requires LoginRequest(emailText, passwordText).Success?
    ensures var (email, password) := LoginRequest(emailText, passwordText).value;
      && email != [] && |password| >= MinPasswordLength
      && !IsWhitespace(email[0]) && !IsWhitespace(email[|email| - 1])
      && !IsWhitespace(password[0]) && !IsWhitespace(password[|password| - 1])
  {
  }

  /** Submitting what reached sign-in once more sends the same credentials:
      trimming the typed text first changes nothing. */
  lemma LoginRequestStable(emailText: string, passwordText: string)
    requires LoginRequest(emailText, passwordText).Success?
    ensures var (email, password) := LoginRequest(emailText, passwordText).value;
      LoginRequest(email, password) == LoginRequest(emailText, passwordText)
  {
    TrimIdempotent(Trim(emailText));
    TrimIdempotent(Trim(passwordText));
  }
}
