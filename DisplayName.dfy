/** The name the offline Login and Signup forms hand to the dashboard when
    they are submitted. Neither form checks the password; it is a parameter
    here only so that its irrelevance can be stated. */
module DisplayName {
  import opened Text

  /** Login's `email.split("@")[0] || "User"`. */
  function LoginName(email: string, password: string): (user: string)
    ensures user != ""
    ensures '@' !in user
    ensures email == "" || email[0] == '@' ==> user == "User"
    ensures '@' !in email && email != "" ==> user == email
  {
    var local := BeforeFirst(email, '@');
    if local != "" then local else "User"
  }

  /** When the email has a non-empty first part `email[..k]` (it holds no `@`
      and ends at an `@` or at the end), that part is the name. */
  lemma LoginNameIsLocalPart(email: string, password: string, k: int)
    requires 0 < k <= |email|
    requires '@' !in email[..k]
    requires k == |email| || email[k] == '@'
    ensures LoginName(email, password) == email[..k]
  {
  }

  lemma LoginNameIgnoresPassword(email: string, password1: string, password2: string)
    ensures LoginName(email, password1) == LoginName(email, password2)
  {
  }

  /** Signup's `username.trim() || email.split("@")[0] || "User"`. */
  function SignupName(username: string, email: string, password: string): (user: string)
    ensures user != ""
    ensures !AllWhitespace(username) ==> user == Trim(username) && IsTrimmed(user)
    ensures AllWhitespace(username) ==> user == LoginName(email, password)
  {
    var name := Trim(username);
    if name != "" then name else LoginName(email, password)
  }

  lemma SignupNameIgnoresPassword(username: string, email: string, password1: string, password2: string)
    ensures SignupName(username, email, password1) == SignupName(username, email, password2)
  {
  }
}
