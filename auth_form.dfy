/** The sign-in / registration form's submit handler: trim, lowercase and check the fields,
    then either report the first failure or hand the cleaned values on. */
module AuthFormView {
  import opened Wrappers
  import opened Strings
  import opened EmailPattern
  import opened AuthRoutes

  datatype FormOutcome = Invalid(error: string) | Submitted(name: string, email: string, password: string)

  /** `handleSubmit`. The name is checked only when registering; the e-mail address is
      trimmed and lowercased before its checks; the password is trimmed. */
  function HandleSubmit(isLogin: bool, name: string, email: string, password: string): (r: FormOutcome)
    ensures !isLogin && |Trim(name)| < 2 ==> r == Invalid("Name must be at least 2 characters")
    ensures (isLogin || |Trim(name)| >= 2) && (Lower(Trim(email)) == [] || !IsEmail(Lower(Trim(email)))) ==>
      r == Invalid("Please enter a valid email address")
    ensures (isLogin || |Trim(name)| >= 2) && Lower(Trim(email)) != [] && IsEmail(Lower(Trim(email)))
            && |Trim(password)| < 6 ==>
      r == Invalid("Password must be at least 6 characters")
    ensures r.Submitted? <==>
      (isLogin || |Trim(name)| >= 2) && IsEmail(Lower(Trim(email))) && |Trim(password)| >= 6
    ensures r.Submitted? ==>
      r.name == Trim(name) && r.email == Lower(Trim(email)) && r.password == Trim(password)
  {
    var trimmedName := Trim(name);
    var trimmedEmail := Lower(Trim(email));
    var trimmedPassword := Trim(password);
    if !isLogin && |trimmedName| < 2 then Invalid("Name must be at least 2 characters")
    else if trimmedEmail == [] || !IsEmail(trimmedEmail) then Invalid("Please enter a valid email address")
    else if |trimmedPassword| < 6 then Invalid("Password must be at least 6 characters")
    else Submitted(trimmedName, trimmedEmail, trimmedPassword)
  }

  /** In login mode the name never decides the outcome. */
  lemma LoginIgnoresName(name1: string, name2: string, email: string, password: string)
    ensures HandleSubmit(true, name1, email, password).Submitted? == HandleSubmit(true, name2, email, password).Submitted?
    ensures HandleSubmit(true, name1, email, password).Invalid? ==>
      HandleSubmit(true, name1, email, password) == HandleSubmit(true, name2, email, password)
  {
  }

  /** What a submission guarantees about the values it carries. */
  lemma SubmittedValues(isLogin: bool, name: string, email: string, password: string)
    requires HandleSubmit(isLogin, name, email, password).Submitted?
    ensures var s := HandleSubmit(isLogin, name, email, password);
      && Present(Some(s.email)) && IsEmail(s.email)
      && Present(Some(s.password)) && |s.password| >= 6
      && (!isLogin ==> Present(Some(s.name)) && |Trim(s.name)| >= 2)
  {
    var s := HandleSubmit(isLogin, name, email, password);
    assert s.name == Trim(name);
    TrimIdempotent(name);
    assert IsEmail(s.email) && s.email != [];
  }

  /** Whatever the registration form submits passes the server's registration checks: the
      form's checks are at least as strict. */
  lemma SubmittedRegistrationPassesServer(name: string, email: string, password: string)
    requires HandleSubmit(false, name, email, password).Submitted?
    ensures var s := HandleSubmit(false, name, email, password);
      RegisterCheck(Some(s.name), Some(s.email), Some(s.password)).None?
  {
    SubmittedValues(false, name, email, password);
  }

  /** Whatever the login form submits gets past the server's missing-field check. */
  lemma SubmittedLoginHasBothFields(name: string, email: string, password: string)
    requires HandleSubmit(true, name, email, password).Submitted?
    ensures var s := HandleSubmit(true, name, email, password);
      Login([], Some(s.email), Some(s.password), (p: string, h: string) => false).status != 400
  {
    SubmittedValues(true, name, email, password);
  }
}
