/**
 * The login form: its two rules, the credentials it sends (an email when
 * the identifier contains `@`, a username otherwise), the mapping of server
 * messages onto fields, and the clearing of errors as the user types.
 */
module LoginPage {
  import opened Wrappers
  import opened Text
  import RegisterPage

  datatype Field = EmailOrUsername | Password

  function Key(f: Field): string {
    match f
    case EmailOrUsername => "emailOrUsername"
    case Password => "password"
  }

  const GeneralKey := "general"

  datatype FormData = FormData(emailOrUsername: string, password: string)

  /** `{ ...formData, [field]: value }` */
  function Set(form: FormData, f: Field, v: string): (r: FormData)
    ensures f == EmailOrUsername ==> r.emailOrUsername == v && r.password == form.password
    ensures f == Password ==> r.password == v && r.emailOrUsername == form.emailOrUsername
  {
    match f
    case EmailOrUsername => form.(emailOrUsername := v)
    case Password => form.(password := v)
  }

  const IdentifierRequired := "Email or username is required"
  const PasswordRequired := "Password is required"

  /** `errors[key]` is truthy: present and not the empty string. */
  predicate HasError(errors: map<string, string>, key: string) {
    key in errors && errors[key] != ""
  }

  // ---------------------------------------------------------------------------
  // Credentials
  // ---------------------------------------------------------------------------

  /** The body sent to the login endpoint: the password and exactly one of `email` and `username`. */
  datatype Credentials = Credentials(password: string, email: Option<string>, username: Option<string>)

  /**
   * The identifier is trimmed; if it contains `@` it is sent, lowercased,
   * as `email`, otherwise as typed as `username`. The password is sent as
   * typed.
   */
  function MakeCredentials(form: FormData): (r: Credentials)
    ensures r.password == form.password
    ensures r.email.Some? != r.username.Some?
    ensures r.email.Some? <==> '@' in Trim(form.emailOrUsername)
    ensures r.email.Some? ==> '@' in r.email.value && forall i | 0 <= i < |r.email.value| :: !IsUpper(r.email.value[i])
    ensures r.username.Some? ==> '@' !in r.username.value && r.username.value == Trim(form.emailOrUsername)
    ensures r.email.Some? ==> Lower(r.email.value) == Lower(Trim(form.emailOrUsername))
  {
    var input := Trim(form.emailOrUsername);
    if '@' in input then
      LowerKeepsAt(input);
      LowerIdempotent(input);
      Credentials(form.password, Some(Lower(input)), None)
    else
      Credentials(form.password, None, Some(input))
  }

  lemma LowerKeepsAt(s: string)
    requires '@' in s
    ensures '@' in Lower(s)
  {
    var i :| 0 <= i < |s| && s[i] == '@';
    assert Lower(s)[i] == '@';
  }

  /**
   * After a passing validation the identifier sent is not empty and has no
   * white space at either end.
   */
  lemma CredentialsIdentifierTrimmed(form: FormData)
    requires !IsBlank(form.emailOrUsername)
    ensures MakeCredentials(form).email.Some? ==> Trimmed(MakeCredentials(form).email.value)
    ensures MakeCredentials(form).username.Some? ==> Trimmed(MakeCredentials(form).username.value)
  {
    var input := Trim(form.emailOrUsername);
    assert Trimmed(input);
    LowerTrimmed(input);
  }

  /** Lowercasing keeps a trimmed text trimmed. */
  lemma LowerTrimmed(s: string)
    requires Trimmed(s)
    ensures Trimmed(Lower(s))
  {
    var l := Lower(s);
    assert l[0] == LowerChar(s[0]) && l[|l| - 1] == LowerChar(s[|s| - 1]);
    LowerCharNotSpace(s[0]);
    LowerCharNotSpace(s[|s| - 1]);
  }

  lemma LowerCharNotSpace(c: char)
    requires !IsSpace(c)
    ensures !IsSpace(LowerChar(c))
  {
  }

  /** Emails are matched without regard to case or surrounding white space. */
  lemma EmailCaseIgnored(a: FormData, b: FormData)
    requires a.password == b.password
    requires '@' in Trim(a.emailOrUsername) && '@' in Trim(b.emailOrUsername)
    requires Lower(Trim(a.emailOrUsername)) == Lower(Trim(b.emailOrUsername))
    ensures MakeCredentials(a) == MakeCredentials(b)
  {
  }

  /**
   * Logging in with the email typed at registration sends exactly the email
   * the registration stored: a valid email has no white space and contains
   * `@`, and both pages trim and lowercase it.
   */
  lemma RegisteredEmailLogsIn(reg: RegisterPage.FormData, avatar: RegisterPage.AvatarFile)
    requires RegisterPage.AllRulesHold(reg, Some(avatar))
    ensures MakeCredentials(FormData(reg.email, reg.password)).email
            == Some(RegisterPage.MakePayload(reg, avatar).email)
  {
    RegisterPage.EmailTestCorrect(reg.email);
    var i := RegisterPage.FirstIndexFrom(reg.email, '@', 1).value;
    TrimNoSpace(reg.email);
    assert reg.email[i] == '@';
  }

  /**
   * Logging in with the username typed at registration, with or without
   * surrounding white space, sends exactly the username the registration
   * sent: a valid username has no `@` and no white space.
   */
  lemma RegisteredUsernameLogsIn(reg: RegisterPage.FormData, avatar: RegisterPage.AvatarFile, padding: string)
    requires RegisterPage.AllRulesHold(reg, Some(avatar))
    requires IsBlank(padding)
    ensures MakeCredentials(FormData(padding + reg.username + padding, reg.password)).username
            == Some(RegisterPage.MakePayload(reg, avatar).username)
  {
    UsernameIdentifier(reg.username, padding);
    RegisterPage.UsernameUntrimmed(reg.username);
  }

  lemma UsernameIdentifier(u: string, padding: string)
    requires RegisterPage.UsernameChars(u) && IsBlank(padding)
    ensures Trim(padding + u + padding) == u && '@' !in u
  {
    RegisterPage.UsernameUntrimmed(u);
    PaddedTrim(padding, u);
    UsernameHasNoAt(u);
  }

  lemma UsernameHasNoAt(u: string)
    requires RegisterPage.UsernameChars(u)
    ensures '@' !in u
  {
    forall k | 0 <= k < |u| ensures u[k] != '@' {
      assert RegisterPage.WordChar(u[k]);
    }
  }

  /** Trimming removes blank padding around a trimmed, non-empty text. */
  lemma PaddedTrim(padding: string, u: string)
    requires IsBlank(padding) && u != [] && Trim(u) == u
    ensures Trim(padding + u + padding) == u
  {
    assert !IsSpace(u[0]) && !IsSpace(u[|u| - 1]);
    assert padding + u + padding == padding + (u + padding);
    TrimStartOfPadded(padding, u + padding);
    TrimEndOfPadded(u, padding);
  }

  lemma {:induction false} TrimStartOfPadded(padding: string, rest: string)
    requires IsBlank(padding) && rest != [] && !IsSpace(rest[0])
    ensures TrimStart(padding + rest) == rest
    decreases |padding|
  {
    if padding == [] {
      assert padding + rest == rest;
    } else {
      var s := padding + rest;
      assert s[0] == padding[0];
      assert s[1..] == padding[1..] + rest;
      TrimStartOfPadded(padding[1..], rest);
    }
  }

  lemma {:induction false} TrimEndOfPadded(u: string, padding: string)
    requires IsBlank(padding) && u != [] && !IsSpace(u[|u| - 1])
    ensures TrimEnd(u + padding) == u
    decreases |padding|
  {
    var s := u + padding;
    if padding == [] {
      assert s == u;
    } else {
      var p := padding[..|padding| - 1];
      assert s[|s| - 1] == padding[|padding| - 1];
      assert s[..|s| - 1] == u + p;
      TrimEndOfPadded(u, p);
    }
  }

  // ---------------------------------------------------------------------------
  // Server messages
  // ---------------------------------------------------------------------------

  const UserNotFound := "User not found"
  const InvalidPassword := "Invalid password"
  const LoginFailed := "Login failed. Please try again."

  /** The first test: the message says the user was not found, in either capitalisation the page looks for. */
  predicate NamesMissingUser(m: string) {
    Contains(m, "user not found") || Contains(m, "User not found")
  }

  /** The second test: the message names the password or invalid credentials. */
  predicate NamesPassword(m: string) {
    Contains(m, "password") || Contains(m, "invalid user credentials")
  }

  /** The third test: the message names the identifier. */
  predicate NamesIdentifier(m: string) {
    Contains(m, "username or email")
  }

  /**
   * Where a failed login is shown, replacing all earlier errors: a message
   * saying the user was not found goes to the identifier as `User not
   * found`; else one naming `password` or invalid credentials goes to the
   * password as `Invalid password`; else one naming `username or email`
   * goes to the identifier verbatim; any other message is a general error,
   * and no message gives the general `Login failed` text.
   */
  function ServerErrors(message: Option<string>): (r: map<string, string>)
    ensures |r.Keys| == 1
    ensures r.Keys <= {Key(EmailOrUsername), Key(Password), GeneralKey}
    ensures Key(EmailOrUsername) in r <==>
              Truthy(message) && (NamesMissingUser(message.value) || (!NamesPassword(message.value) && NamesIdentifier(message.value)))
    ensures Key(Password) in r <==> Truthy(message) && !NamesMissingUser(message.value) && NamesPassword(message.value)
    ensures GeneralKey in r <==>
              !Truthy(message) || (!NamesMissingUser(message.value) && !NamesPassword(message.value) && !NamesIdentifier(message.value))
    ensures Truthy(message) && NamesMissingUser(message.value) ==> r[Key(EmailOrUsername)] == UserNotFound
    ensures Truthy(message) && !NamesMissingUser(message.value) && Key(EmailOrUsername) in r ==> r[Key(EmailOrUsername)] == message.value
    ensures Key(Password) in r ==> r[Key(Password)] == InvalidPassword
    ensures !Truthy(message) ==> r == map[GeneralKey := LoginFailed]
    ensures Truthy(message) && GeneralKey in r ==> r[GeneralKey] == message.value
  {
    if !Truthy(message) then map[GeneralKey := LoginFailed]
    else
      var m := message.value;
      if NamesMissingUser(m) then map[Key(EmailOrUsername) := UserNotFound]
      else if NamesPassword(m) then map[Key(Password) := InvalidPassword]
      else if NamesIdentifier(m) then map[Key(EmailOrUsername) := m]
      else map[GeneralKey := m]
  }

  /**
   * A message that names a missing user, in either capitalisation, never
   * lands on the password field, even when it also names the password.
   */
  lemma MissingUserBeatsPassword(m: string)
    requires Contains(m, "User not found") || Contains(m, "user not found")
    ensures ServerErrors(Some(m)) == map[Key(EmailOrUsername) := UserNotFound]
  {
    var i :| OccursAt(m, "User not found", i) || OccursAt(m, "user not found", i);
    assert m != "" by { assert |m| >= |"User not found"|; }
  }

  // ---------------------------------------------------------------------------
  // The page's state
  // ---------------------------------------------------------------------------

  /**
   * Clearing on input, as `handleInputChange` does it: both updates are
   * computed from the same `errors`, and the second one, when it happens,
   * overwrites the first. With a general error present only the general
   * error goes; otherwise the field's own error goes.
   */
  function Cleared(errors: map<string, string>, f: Field): map<string, string> {
    if HasError(errors, GeneralKey) then errors - {GeneralKey}
    else if HasError(errors, Key(f)) then errors - {Key(f)}
    else errors
  }

  /** Typing never leaves a general error, and removes nothing but the field's and the general error. */
  lemma ClearedDropsGeneral(errors: map<string, string>, f: Field)
    ensures !HasError(Cleared(errors, f), GeneralKey)
    ensures forall k | k in errors && k != GeneralKey && k != Key(f) :: k in Cleared(errors, f) && Cleared(errors, f)[k] == errors[k]
    ensures Cleared(errors, f).Keys <= errors.Keys
  {
  }

  /**
   * The field's own error is cleared only when no general error was shown:
   * with both present, the field's error survives the keystroke.
   */
  lemma ClearedFieldError(errors: map<string, string>, f: Field)
    ensures !HasError(Cleared(errors, f), Key(f)) <==> !HasError(errors, Key(f)) || !HasError(errors, GeneralKey)
  {
    assert Key(f) != GeneralKey;
  }

  class LoginPageState {
    var form: FormData
    var errors: map<string, string>

    constructor ()
      ensures form == FormData("", "") && errors == map[]
    {
      form := FormData("", "");
      errors := map[];
    }

    /**
     * `validateForm`: the identifier is required once trimmed and the
     * password as typed; the fresh error map replaces the old one and the
     * form may be submitted iff it is empty.
     */
    method ValidateForm() returns (ok: bool)
      modifies this
      ensures form == old(form)
      ensures Key(EmailOrUsername) in errors <==> IsBlank(form.emailOrUsername)
      ensures Key(EmailOrUsername) in errors ==> errors[Key(EmailOrUsername)] == IdentifierRequired
      ensures Key(Password) in errors <==> form.password == ""
      ensures Key(Password) in errors ==> errors[Key(Password)] == PasswordRequired
      ensures errors.Keys <= {Key(EmailOrUsername), Key(Password)}
      ensures ok <==> errors == map[]
      ensures ok <==> !IsBlank(form.emailOrUsername) && form.password != ""
    {
      var newErrors: map<string, string> := map[];
      var missingIdentifier := Trim(form.emailOrUsername) == "";
      assert missingIdentifier <==> IsBlank(form.emailOrUsername);
      if missingIdentifier {
        newErrors := newErrors[Key(EmailOrUsername) := IdentifierRequired];
      }
      if form.password == "" {
        newErrors := newErrors[Key(Password) := PasswordRequired];
      }
      errors := newErrors;
      ok := |errors| == 0;
      assert ok <==> errors == map[] by {
        if |errors| == 0 { assert errors == map[]; }
      }
      assert errors == map[] <==> !missingIdentifier && form.password != "" by {
        if missingIdentifier || form.password != "" { assert Key(EmailOrUsername) in errors || Key(Password) in errors || form.password != ""; }
      }
    }

    /** The `catch` branch of the submission: the mapped server message replaces the errors. */
    method LoginFailure(message: Option<string>)
      modifies this
      ensures form == old(form)
      ensures errors == ServerErrors(message)
    {
      if Truthy(message) {
        var m := message.value;
        if Contains(m, "user not found") || Contains(m, "User not found") {
          errors := map[Key(EmailOrUsername) := UserNotFound];
        } else if Contains(m, "password") || Contains(m, "invalid user credentials") {
          errors := map[Key(Password) := InvalidPassword];
        } else if Contains(m, "username or email") {
          errors := map[Key(EmailOrUsername) := m];
        } else {
          errors := map[GeneralKey := m];
        }
      } else {
        errors := map[GeneralKey := LoginFailed];
      }
    }

    /**
     * `handleInputChange`: stores the value, then schedules the two error
     * updates, each computed from the errors as they were before the
     * keystroke; the later update wins.
     */
    method InputChange(f: Field, value: string)
      modifies this
      ensures form == Set(old(form), f, value)
      ensures errors == Cleared(old(errors), f)
    {
      form := Set(form, f, value);
      var next := errors;
      if HasError(errors, Key(f)) {
        next := errors - {Key(f)};
      }
      if HasError(errors, GeneralKey) {
        next := errors - {GeneralKey};
      }
      errors := next;
    }
  }
}
