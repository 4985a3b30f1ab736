/** `handleSubmit` of `src/pages/RegisterPage.tsx`: the order of the form checks,
    the call to `register`, the verification email that is sent but never waited
    on for success, and where the page goes next. The outcomes of the two server
    calls are parameters. */
module RegisterPage {
  import opened Wrappers
  import Uri

  /** The shortest password the form accepts. */
  const MinPasswordLength := 6

  /** What submitting the form leads to. */
  datatype SubmitOutcome =
    | PasswordsDiffer                    // "Passwords do not match"; nothing sent
    | PasswordTooShort                   // "Password must be at least 6 characters"; nothing sent
    | RegisterFailed(message: string)    // the server's error, or the generic message
    | Registered(sendFailed: bool, path: string)

  /** The message shown when registration fails without a server error text. */
  const GenericFailure := "Registration failed. Please try again."

  /** The page the user is sent to after registering. */
  function VerifyEmailPath(email: string): string {
    "/verify-email?email=" + Uri.Encode(email)
  }

  /** `handleSubmit`: a mismatch is reported before the length check, and neither
      calls `register`; a failed `register` shows the server's error; a
      successful one always navigates to the verification page, whether or not
      sending the code worked. */
  function HandleSubmit(email: string, password: string, confirm: string,
                        registerError: Option<Option<string>>, sendSucceeds: bool): (r: SubmitOutcome)
    ensures password != confirm <==> r.PasswordsDiffer?
    ensures r.PasswordTooShort? <==> password == confirm && |password| < MinPasswordLength
    ensures (r.RegisterFailed? || r.Registered?) ==> password == confirm && |password| >= MinPasswordLength
    ensures r.RegisterFailed? <==>
      password == confirm && |password| >= MinPasswordLength && registerError.Some?
    ensures r.RegisterFailed? ==> r.message == (if Truthy(registerError.value) then registerError.value.value else GenericFailure)
    ensures r.Registered? ==> r.path == VerifyEmailPath(email) && r.sendFailed == !sendSucceeds
  {
    if password != confirm then PasswordsDiffer
    else if |password| < MinPasswordLength then PasswordTooShort
    else
      match registerError
      case Some(error) => RegisterFailed(if Truthy(error) then error.value else GenericFailure)
      case None => Registered(!sendSucceeds, VerifyEmailPath(email))
  }

  /** Whether the verification email went out or not, a successful registration
      lands on the same page. */
  lemma SendFailureDoesNotBlock(email: string, password: string)
    requires |password| >= MinPasswordLength
    ensures HandleSubmit(email, password, password, None, false).Registered?
    ensures HandleSubmit(email, password, password, None, false).path
         == HandleSubmit(email, password, password, None, true).path
  {
  }

  /** The verification page reads back exactly the email that was typed: the
      query value decodes to it. */
  lemma QueryCarriesEmail(email: string)
    ensures |VerifyEmailPath(email)| >= |"/verify-email?email="|
    ensures VerifyEmailPath(email)[..|"/verify-email?email="|] == "/verify-email?email="
    ensures Uri.Decode(VerifyEmailPath(email)[|"/verify-email?email="|..]) == Some(email)
  {
    var prefix := "/verify-email?email=";
    assert VerifyEmailPath(email)[|prefix|..] == Uri.Encode(email);
    Uri.DecodeEncode(email);
  }
}
