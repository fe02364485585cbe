/**
 * The registration form: its field rules, the avatar file checks, the
 * payload it submits, the mapping of server messages onto fields, and the
 * clearing of a field's error when the field is edited. Error messages live
 * in a map from field name to text, as the page's `errors` object does.
 */
module RegisterPage {
  import opened Wrappers
  import opened Text
  import Users
  import ApiErrors

  datatype Field = Username | FullName | Email | Password | ConfirmPassword

  /** The name under which a field's value and error are stored. */
  function Key(f: Field): string {
    match f
    case Username => "username"
    case FullName => "fullName"
    case Email => "email"
    case Password => "password"
    case ConfirmPassword => "confirmPassword"
  }

  const AvatarKey := "avatar"
  const GeneralKey := "general"

  datatype FormData = FormData(username: string, fullName: string, email: string, password: string, confirmPassword: string)

  function Get(form: FormData, f: Field): string {
    match f
    case Username => form.username
    case FullName => form.fullName
    case Email => form.email
    case Password => form.password
    case ConfirmPassword => form.confirmPassword
  }

  /** `{ ...formData, [field]: value }` */
  function Set(form: FormData, f: Field, v: string): (r: FormData)
    ensures Get(r, f) == v
    ensures forall g | g != f :: Get(r, g) == Get(form, g)
  {
    match f
    case Username => form.(username := v)
    case FullName => form.(fullName := v)
    case Email => form.(email := v)
    case Password => form.(password := v)
    case ConfirmPassword => form.(confirmPassword := v)
  }

  /** The chosen file, as far as the checks look at it: its MIME type and its size in bytes. */
  datatype AvatarFile = AvatarFile(mimeType: string, size: nat)

  // ---------------------------------------------------------------------------
  // Field rules
  // ---------------------------------------------------------------------------

  /** `[a-zA-Z0-9_]` */
  predicate WordChar(c: char) {
    ('a' <= c <= 'z') || ('A' <= c <= 'Z') || ('0' <= c <= '9') || c == '_'
  }

  /** `/^[a-zA-Z0-9_]+$/.test(s)` */
  predicate UsernameChars(s: string) {
    s != [] && forall i | 0 <= i < |s| :: WordChar(s[i])
  }

  /**
   * `/^\S+@\S+\.\S+$/.test(s)`: the text splits as `a@b.c` with `a`, `b`
   * and `c` non-empty and free of white space (`\S` also matches `@` and `.`).
   */
  predicate EmailShape(s: string) {
    exists i, j | 0 < i && i + 1 < j && j + 1 < |s| ::
      s[i] == '@' && s[j] == '.' && NoSpace(s[..i]) && NoSpace(s[i + 1..j]) && NoSpace(s[j + 1..])
  }

  /** The position of the last `c` in `s[..end]`, if any. */
  function LastIndexBefore(s: string, c: char, end: nat): (r: Option<nat>)
    requires end <= |s|
    ensures r.Some? ==> r.value < end && s[r.value] == c && forall k | r.value < k < end :: s[k] != c
    ensures r.None? ==> forall k | 0 <= k < end :: s[k] != c
  {
    if end == 0 then None
    else if s[end - 1] == c then Some(end - 1)
    else LastIndexBefore(s, c, end - 1)
  }

  /** The position of the first `c` in `s` at or after `start`, if any. */
  function FirstIndexFrom(s: string, c: char, start: nat): (r: Option<nat>)
    requires start <= |s|
    ensures r.Some? ==> start <= r.value < |s| && s[r.value] == c && forall k | start <= k < r.value :: s[k] != c
    ensures r.None? ==> forall k | start <= k < |s| :: s[k] != c
    decreases |s| - start
  {
    if start == |s| then None
    else if s[start] == c then Some(start)
    else FirstIndexFrom(s, c, start + 1)
  }

  /**
   * The regular expression's test computed directly: no white space at all,
   * and the earliest `@` after the first character stands at least two
   * places before the last `.` that is not the final character.
   */
  predicate LooksLikeEmail(s: string) {
    && NoSpace(s)
    && |s| >= 1
    && var at := FirstIndexFrom(s, '@', 1);
       var dot := LastIndexBefore(s, '.', |s| - 1);
       at.Some? && dot.Some? && at.value + 1 < dot.value
  }

  lemma NoSpaceSlices(s: string, i: int, j: int)
    requires NoSpace(s) && 0 <= i <= j <= |s|
    ensures NoSpace(s[i..j]) && NoSpace(s[..i]) && NoSpace(s[j..])
  {
  }

  /** The computed test agrees with the regular expression on every text. */
  lemma EmailTestCorrect(s: string)
    ensures LooksLikeEmail(s) <==> EmailShape(s)
  {
    if LooksLikeEmail(s) { EmailTestSound(s); }
    if EmailShape(s) { EmailTestComplete(s); }
  }

  lemma EmailTestSound(s: string)
    requires LooksLikeEmail(s)
    ensures EmailShape(s)
  {
    var i := FirstIndexFrom(s, '@', 1).value;
    var j := LastIndexBefore(s, '.', |s| - 1).value;
    NoSpaceSlices(s, i + 1, j);
    NoSpaceSlices(s, i, i);
    NoSpaceSlices(s, j + 1, j + 1);
    assert s[i] == '@' && s[j] == '.';
  }

  lemma EmailTestComplete(s: string)
    requires EmailShape(s)
    ensures LooksLikeEmail(s)
  {
    var i, j :| 0 < i && i + 1 < j && j + 1 < |s| &&
      s[i] == '@' && s[j] == '.' && NoSpace(s[..i]) && NoSpace(s[i + 1..j]) && NoSpace(s[j + 1..]);
    forall k | 0 <= k < |s| ensures !IsSpace(s[k]) {
      if k < i { assert s[k] == s[..i][k]; }
      else if i < k < j { assert s[k] == s[i + 1..j][k - i - 1]; }
      else if j < k { assert s[k] == s[j + 1..][k - j - 1]; }
    }
    var at := FirstIndexFrom(s, '@', 1);
    var dot := LastIndexBefore(s, '.', |s| - 1);
    assert at.Some? && at.value <= i;
    assert dot.Some? && dot.value >= j;
  }

  const UsernameRequired := "Username is required"
  const UsernameTooShort := "Username must be at least 3 characters"
  const UsernameBadChars := "Username can only contain letters, numbers, and underscores"
  const FullNameRequired := "Full name is required"
  const FullNameTooShort := "Full name must be at least 2 characters"
  const EmailRequired := "Email is required"
  const EmailInvalid := "Please enter a valid email address"
  const PasswordRequired := "Password is required"
  const PasswordTooShort := "Password must be at least 6 characters"
  const ConfirmRequired := "Please confirm your password"
  const PasswordsDiffer := "Passwords do not match"
  const AvatarRequired := "Avatar image is required"

  /** The message of the first rule a field's value fails, if any. */
  function FieldError(form: FormData, f: Field): Option<string> {
    match f
    case Username =>
      if IsBlank(form.username) then Some(UsernameRequired)
      else if JsLength(form.username) < 3 then Some(UsernameTooShort)
      else if !UsernameChars(form.username) then Some(UsernameBadChars)
      else None
    case FullName =>
      if IsBlank(form.fullName) then Some(FullNameRequired)
      else if JsLength(form.fullName) < 2 then Some(FullNameTooShort)
      else None
    case Email =>
      if IsBlank(form.email) then Some(EmailRequired)
      else if !EmailShape(form.email) then Some(EmailInvalid)
      else None
    case Password =>
      if form.password == "" then Some(PasswordRequired)
      else if JsLength(form.password) < 6 then Some(PasswordTooShort)
      else None
    case ConfirmPassword =>
      if form.confirmPassword == "" then Some(ConfirmRequired)
      else if form.password != form.confirmPassword then Some(PasswordsDiffer)
      else None
  }

  /** Every rule of the form holds. */
  predicate AllRulesHold(form: FormData, avatar: Option<AvatarFile>) {
    && !IsBlank(form.username) && JsLength(form.username) >= 3 && UsernameChars(form.username)
    && !IsBlank(form.fullName) && JsLength(form.fullName) >= 2
    && !IsBlank(form.email) && EmailShape(form.email)
    && JsLength(form.password) >= 6
    && form.confirmPassword == form.password
    && avatar.Some?
  }

  // ---------------------------------------------------------------------------
  // Payload
  // ---------------------------------------------------------------------------

  /** `userData`: username and full name trimmed, email trimmed and lowercased, password as typed. */
  datatype Payload = Payload(username: string, fullName: string, email: string, password: string, avatar: AvatarFile)

  function MakePayload(form: FormData, avatar: AvatarFile): Payload {
    Payload(Trim(form.username), Trim(form.fullName), Lower(Trim(form.email)), form.password, avatar)
  }

  /** The registration body the server receives for a payload. */
  function AsRegistration(p: Payload): Users.Registration {
    Users.Registration(Some(p.fullName), Some(p.email), Some(p.username), Some(p.password))
  }

  /** Lowercasing keeps a character that is not white space non-white. */
  lemma LowerKeepsNonSpace(s: string)
    requires !IsBlank(s)
    ensures !IsBlank(Lower(s))
  {
    var i :| 0 <= i < |s| && !IsSpace(s[i]);
    assert Lower(s)[i] == LowerChar(s[i]);
  }

  /** A name made of `[a-zA-Z0-9_]` holds no white space, so trimming it changes nothing. */
  lemma UsernameUntrimmed(u: string)
    requires UsernameChars(u)
    ensures Trim(u) == u
  {
    forall i | 0 <= i < |u| ensures !IsSpace(u[i]) {
      assert WordChar(u[i]);
    }
    TrimNoSpace(u);
  }

  /**
   * A form that passes every rule sends the username exactly as typed, and
   * the server's blank-field check then fails only for a password made of
   * white space, which the client's length rule lets through.
   */
  lemma ValidFormPayload(form: FormData, avatar: AvatarFile)
    requires AllRulesHold(form, Some(avatar))
    ensures MakePayload(form, avatar).username == form.username
    ensures Users.AnyBlank(AsRegistration(MakePayload(form, avatar))) <==> IsBlank(form.password)
  {
    UsernameUntrimmed(form.username);
    PayloadFieldsPresent(form, avatar);
  }

  /** Only the password can be blank in the payload of a form whose other texts are not blank. */
  lemma PayloadFieldsPresent(form: FormData, avatar: AvatarFile)
    requires !IsBlank(form.username) && !IsBlank(form.fullName) && !IsBlank(form.email)
    ensures Users.AnyBlank(AsRegistration(MakePayload(form, avatar))) <==> IsBlank(form.password)
  {
    TrimmedNotBlank(form.username);
    TrimmedNotBlank(form.fullName);
    LoweredNotBlank(form.email);
  }

  lemma TrimmedNotBlank(s: string)
    requires !IsBlank(s)
    ensures !Users.BlankField(Some(Trim(s)))
  {
    TrimIdempotent(s);
  }

  lemma LoweredNotBlank(s: string)
    requires !IsBlank(s)
    ensures !Users.BlankField(Some(Lower(Trim(s))))
  {
    LowerKeepsNonSpace(Trim(s));
  }

  // ---------------------------------------------------------------------------
  // Server messages
  // ---------------------------------------------------------------------------

  const UsernameTaken := "Username is already taken"
  const EmailTaken := "Email is already registered"

  /** The username test: `message.includes('username') || message.includes('User with this username')`. */
  predicate NamesUsername(message: string) {
    Contains(message, "username") || Contains(message, "User with this username")
  }

  /** The second test adds nothing: any message containing the longer text contains `username`. */
  lemma NamesUsernameIff(message: string)
    ensures NamesUsername(message) <==> Contains(message, "username")
  {
    if Contains(message, "User with this username") {
      var i :| OccursAt(message, "User with this username", i);
      var w := message[i..i + 23];
      assert w == "User with this username";
      assert w[15..23] == message[i + 15..i + 23];
      assert w[15..23] == "username";
      assert OccursAt(message, "username", i + 15);
    }
  }

  /**
   * Where a server message is shown: a message naming `username` goes to the
   * username field, else one naming `email` to the email field, else one
   * naming `Avatar` or `avatar` (verbatim) to the avatar field, else it is a
   * general error. The new map replaces all earlier errors.
   */
  function ServerErrors(message: string): (r: map<string, string>)
    ensures |r.Keys| == 1
    ensures Key(Username) in r <==> NamesUsername(message)
    ensures Key(Email) in r <==> !NamesUsername(message) && Contains(message, "email")
    ensures AvatarKey in r <==> !NamesUsername(message) && !Contains(message, "email")
                                && (Contains(message, "Avatar") || Contains(message, "avatar"))
    ensures GeneralKey in r <==> !NamesUsername(message) && !Contains(message, "email")
                                 && !Contains(message, "Avatar") && !Contains(message, "avatar")
    ensures Key(Username) in r ==> r[Key(Username)] == UsernameTaken
    ensures Key(Email) in r ==> r[Key(Email)] == EmailTaken
    ensures AvatarKey in r ==> r[AvatarKey] == message
    ensures GeneralKey in r ==> r[GeneralKey] == message
  {
    if NamesUsername(message) then map[Key(Username) := UsernameTaken]
    else if Contains(message, "email") then map[Key(Email) := EmailTaken]
    else if Contains(message, "Avatar") || Contains(message, "avatar") then map[AvatarKey := message]
    else map[GeneralKey := message]
  }

  /** `sub` cannot start at `i` when its `k`-th character does not match the text there. */
  lemma MismatchAt(s: string, sub: string, i: int, k: nat)
    requires k < |sub| && (i + k < 0 || i + k >= |s| || s[i + k] != sub[k])
    ensures !OccursAt(s, sub, i)
  {
    if 0 <= i && i + |sub| <= |s| {
      assert s[i..i + |sub|][k] == s[i + k];
    }
  }

  /** A text lacking the `k`-th character of `sub` does not contain `sub`. */
  lemma LacksLetter(s: string, sub: string, k: nat)
    requires k < |sub| && forall j | 0 <= j < |s| :: s[j] != sub[k]
    ensures !Contains(s, sub)
  {
    forall i ensures !OccursAt(s, sub, i) {
      MismatchAt(s, sub, i, k);
    }
  }

  /** A message naming `username` goes to the username field. */
  lemma UsernameMessage(m: string)
    requires Contains(m, "username")
    ensures ServerErrors(m) == map[Key(Username) := UsernameTaken]
  {
  }

  lemma DuplicateText(m: string)
    requires m == Users.UserExists.message
    ensures m == "User with this username or email already exists"
  {
  }

  lemma DuplicateLetters(m: string)
    requires m == "User with this username or email already exists"
    ensures |m| >= 23 && m[15] == 'u' && m[16] == 's' && m[17] == 'e' && m[18] == 'r'
    ensures m[19] == 'n' && m[20] == 'a' && m[21] == 'm' && m[22] == 'e'
  {
    DuplicateLettersFront(m);
    DuplicateLettersBack(m);
  }

  lemma DuplicateLettersFront(m: string)
    requires m == "User with this username or email already exists"
    ensures |m| >= 23 && m[15] == 'u' && m[16] == 's' && m[17] == 'e' && m[18] == 'r'
  {
  }

  lemma DuplicateLettersBack(m: string)
    requires m == "User with this username or email already exists"
    ensures |m| >= 23 && m[19] == 'n' && m[20] == 'a' && m[21] == 'm' && m[22] == 'e'
  {
  }

  /** `username` spelt out letter by letter from position `i`. */
  lemma UsernameAt(s: string, i: nat)
    requires i + 8 <= |s| && s[i] == 'u' && s[i + 1] == 's' && s[i + 2] == 'e' && s[i + 3] == 'r'
    requires s[i + 4] == 'n' && s[i + 5] == 'a' && s[i + 6] == 'm' && s[i + 7] == 'e'
    ensures OccursAt(s, "username", i)
  {
    assert s[i..i + 8] == "username";
  }

  /** The 409 of a duplicate lands on the username field, even when it was the email that clashed. */
  lemma DuplicateShownOnUsername(m: string)
    requires m == Users.UserExists.message
    ensures ServerErrors(m) == map[Key(Username) := UsernameTaken]
  {
    DuplicateText(m);
    DuplicateLetters(m);
    UsernameAt(m, 15);
    UsernameMessage(m);
  }

  /** A message that starts with `Avatar` and has no `m` (so names neither `username` nor `email`) goes to the avatar field. */
  lemma AvatarMessage(m: string)
    requires (forall j | 0 <= j < |m| :: m[j] != 'm') && |m| >= 6 && m[..6] == "Avatar"
    ensures ServerErrors(m) == map[AvatarKey := m]
  {
    LacksLetter(m, "username", 6);
    LacksLetter(m, "email", 1);
    NamesUsernameIff(m);
    assert OccursAt(m, "Avatar", 0);
  }

  lemma UploadFailureText(m: string)
    requires m == Users.AvatarNotUploaded.message
    ensures m == "Avatar is not uploaded to cloudinary"
  {
  }

  lemma UploadFailureLetters(m: string)
    requires m == "Avatar is not uploaded to cloudinary"
    ensures (forall j | 0 <= j < |m| :: m[j] != 'm') && |m| >= 6 && m[..6] == "Avatar"
  {
  }

  /** The upload failure is shown on the avatar field with the server's text. */
  lemma UploadFailureShownOnAvatar(m: string)
    requires m == Users.AvatarNotUploaded.message
    ensures ServerErrors(m) == map[AvatarKey := m]
  {
    UploadFailureText(m);
    UploadFailureLetters(m);
    AvatarMessage(m);
  }

  /**
   * A message with no `m` and no `n`, whose only `A` is its first character
   * and whose only `v` is its second, and whose fifth character is not `a`,
   * names none of `username`, `email`, `Avatar` and `avatar`, so it is a
   * general error.
   */
  lemma GeneralMessage(m: string)
    requires |m| >= 5 && m[0] == 'A' && m[1] == 'v' && m[4] != 'a'
    requires forall j | 0 <= j < |m| :: m[j] != 'm' && m[j] != 'n'
    requires forall j | 1 <= j < |m| :: m[j] != 'A'
    requires forall j | 2 <= j < |m| :: m[j] != 'v'
    ensures ServerErrors(m) == map[GeneralKey := m]
  {
    LacksLetter(m, "username", 4);
    LacksLetter(m, "email", 1);
    forall i ensures !OccursAt(m, "Avatar", i) && !OccursAt(m, "avatar", i) {
      if i == 0 {
        MismatchAt(m, "Avatar", i, 4);
        MismatchAt(m, "avatar", i, 0);
      } else {
        MismatchAt(m, "Avatar", i, 0);
        MismatchAt(m, "avatar", i, 1);
      }
    }
    NamesUsernameIff(m);
  }

  lemma MissingAvatarText(m: string)
    requires m == Users.AvatarRequired.message
    ensures m == "Avater is required"
  {
  }

  lemma MissingAvatarLetters(m: string)
    requires m == "Avater is required"
    ensures |m| >= 5 && m[0] == 'A' && m[1] == 'v' && m[4] != 'a'
    ensures forall j | 0 <= j < |m| :: m[j] != 'm' && m[j] != 'n'
    ensures forall j | 1 <= j < |m| :: m[j] != 'A'
    ensures forall j | 2 <= j < |m| :: m[j] != 'v'
  {
  }

  /**
   * The server's "missing avatar" message is spelt `Avater is required`, so
   * it names neither `Avatar` nor `avatar` and is shown as a general error.
   */
  lemma MissingAvatarShownAsGeneral(m: string)
    requires m == Users.AvatarRequired.message
    ensures ServerErrors(m) == map[GeneralKey := m]
  {
    MissingAvatarText(m);
    MissingAvatarLetters(m);
    GeneralMessage(m);
  }

  /** A message with neither `m` nor `v` names none of `username`, `email`, `Avatar` and `avatar`, so it is a general error. */
  lemma NoMNoVMessage(m: string)
    requires forall j | 0 <= j < |m| :: m[j] != 'm' && m[j] != 'v'
    ensures ServerErrors(m) == map[GeneralKey := m]
  {
    LacksLetter(m, "username", 6);
    LacksLetter(m, "email", 1);
    LacksLetter(m, "Avatar", 1);
    LacksLetter(m, "avatar", 1);
    NamesUsernameIff(m);
  }

  lemma BlankFieldText(m: string)
    requires m == Users.AllFieldsRequired.message
    ensures m == "All fields are required"
  {
  }

  lemma BlankFieldLetters(m: string)
    requires m == "All fields are required"
    ensures forall j | 0 <= j < |m| :: m[j] != 'm' && m[j] != 'v'
  {
  }

  /**
   * The server's 400 for a blank field, reachable with a password of white
   * space only (`ValidFormPayload`), is shown as a general error.
   */
  lemma BlankFieldShownAsGeneral(m: string)
    requires m == Users.AllFieldsRequired.message
    ensures ServerErrors(m) == map[GeneralKey := m]
  {
    BlankFieldText(m);
    BlankFieldLetters(m);
    NoMNoVMessage(m);
  }

  // ---------------------------------------------------------------------------
  // The page's state
  // ---------------------------------------------------------------------------

  const AvatarTypes := ["image/jpeg", "image/jpg", "image/png", "image/gif", "image/webp"]
  const MaxAvatarSize := 5 * 1024 * 1024
  const AvatarBadType := "Please upload a valid image (JPG, PNG, GIF, or WebP)"
  const AvatarTooLarge := "Image size must be less than 5MB"

  class RegisterPageState {
    var form: FormData
    var avatar: Option<AvatarFile>
    var errors: map<string, string>

    /** Every avatar the page holds passed the file checks. */
    ghost predicate Valid()
      reads this
    {
      avatar.Some? ==> avatar.value.mimeType in AvatarTypes && avatar.value.size <= MaxAvatarSize
    }

    constructor ()
      ensures Valid() && form == FormData("", "", "", "", "") && avatar == None && errors == map[]
    {
      form := FormData("", "", "", "", "");
      avatar := None;
      errors := map[];
    }

    /**
     * `handleAvatarChange`: no file changes nothing; a file of another type,
     * or larger than 5 MB, only records an avatar error; an accepted file
     * replaces the avatar and clears the avatar error.
     */
    method AvatarChange(file: Option<AvatarFile>)
      requires Valid()
      modifies this
      ensures Valid() && form == old(form)
      ensures file.None? ==> avatar == old(avatar) && errors == old(errors)
      ensures file.Some? && file.value.mimeType !in AvatarTypes ==>
                avatar == old(avatar) && errors == old(errors)[AvatarKey := AvatarBadType]
      ensures file.Some? && file.value.mimeType in AvatarTypes && file.value.size > MaxAvatarSize ==>
                avatar == old(avatar) && errors == old(errors)[AvatarKey := AvatarTooLarge]
      ensures file.Some? && file.value.mimeType in AvatarTypes && file.value.size <= MaxAvatarSize ==>
                avatar == file && errors == old(errors) - {AvatarKey}
    {
      if file.Some? {
        var f := file.value;
        if f.mimeType !in AvatarTypes {
          errors := errors[AvatarKey := AvatarBadType];
          return;
        }
        if f.size > MaxAvatarSize {
          errors := errors[AvatarKey := AvatarTooLarge];
          return;
        }
        errors := errors - {AvatarKey};
        avatar := file;
      }
    }

    /**
     * `validateForm`: collects the first failing rule's message of every
     * field, and the avatar requirement, into a fresh error map that
     * replaces the old one; the form may be submitted iff the map is empty,
     * which `ReportedRules` shows is iff every rule holds.
     */
    method ValidateForm() returns (ok: bool)
      requires Valid()
      modifies this
      ensures Valid() && form == old(form) && avatar == old(avatar)
      ensures Reports(errors, form, avatar)
      ensures ok <==> errors == map[]
    {
      errors := CollectErrors(form, avatar);
      ok := |errors| == 0;
      assert ok <==> errors == map[] by {
        if |errors| == 0 { assert errors == map[]; }
      }
    }

    /** `handleInputChange`: stores the value and drops that field's error if it had a non-empty one. */
    method InputChange(f: Field, value: string)
      requires Valid()
      modifies this
      ensures Valid() && avatar == old(avatar)
      ensures form == Set(old(form), f, value)
      ensures errors == if Key(f) in old(errors) && old(errors)[Key(f)] != "" then old(errors) - {Key(f)} else old(errors)
    {
      form := Set(form, f, value);
      if Key(f) in errors && errors[Key(f)] != "" {
        errors := errors - {Key(f)};
      }
    }

    /**
     * The `catch` branch of the submission: a truthy server message replaces
     * the errors with the mapped one; no message leaves them unchanged.
     */
    method ServerFailure(message: Option<string>)
      requires Valid()
      modifies this
      ensures Valid() && form == old(form) && avatar == old(avatar)
      ensures errors == if Truthy(message) then ServerErrors(message.value) else old(errors)
    {
      if Truthy(message) {
        errors := ServerErrors(message.value);
      }
    }
  }

  /** The `newErrors` object of `validateForm`, filled one field at a time. */
  method CollectErrors(form: FormData, avatar: Option<AvatarFile>) returns (newErrors: map<string, string>)
    ensures Reports(newErrors, form, avatar)
  {
    newErrors := map[];
    var message := FieldError(form, Username);
    if message.Some? {
      newErrors := newErrors[Key(Username) := message.value];
    }
    assert ReportsField(newErrors, form, Username);
    message := FieldError(form, FullName);
    if message.Some? {
      newErrors := newErrors[Key(FullName) := message.value];
    }
    assert ReportsField(newErrors, form, FullName);
    message := FieldError(form, Email);
    if message.Some? {
      newErrors := newErrors[Key(Email) := message.value];
    }
    assert ReportsField(newErrors, form, Email);
    message := FieldError(form, Password);
    if message.Some? {
      newErrors := newErrors[Key(Password) := message.value];
    }
    assert ReportsField(newErrors, form, Password);
    message := FieldError(form, ConfirmPassword);
    if message.Some? {
      newErrors := newErrors[Key(ConfirmPassword) := message.value];
    }
    assert ReportsField(newErrors, form, ConfirmPassword);
    if avatar.None? {
      newErrors := newErrors[AvatarKey := AvatarRequired];
    }
    ReportsByField(newErrors, form, avatar);
  }

  /**
   * `errors` reports the form: a field has an entry iff one of its rules
   * fails, and then the message of the first one; the avatar has an entry,
   * `Avatar image is required`, iff no file is chosen; nothing else has one.
   */
  ghost predicate Reports(errors: map<string, string>, form: FormData, avatar: Option<AvatarFile>) {
    && (forall f: Field :: ReportsField(errors, form, f))
    && (AvatarKey in errors <==> avatar.None?)
    && (AvatarKey in errors ==> errors[AvatarKey] == AvatarRequired)
    && errors.Keys <= FormKeys
  }

  const FormKeys: set<string> := {"username", "fullName", "email", "password", "confirmPassword", "avatar"}

  /** The entry of one field: present iff one of its rules fails, and then the first failing rule's message. */
  ghost predicate ReportsField(errors: map<string, string>, form: FormData, f: Field) {
    (Key(f) in errors <==> FieldError(form, f).Some?) && (Key(f) in errors ==> errors[Key(f)] == FieldError(form, f).value)
  }

  lemma ReportsByField(errors: map<string, string>, form: FormData, avatar: Option<AvatarFile>)
    requires ReportsField(errors, form, Username) && ReportsField(errors, form, FullName) && ReportsField(errors, form, Email)
    requires ReportsField(errors, form, Password) && ReportsField(errors, form, ConfirmPassword)
    requires AvatarKey in errors <==> avatar.None?
    requires AvatarKey in errors ==> errors[AvatarKey] == AvatarRequired
    requires errors.Keys <= FormKeys
    ensures Reports(errors, form, avatar)
  {
    forall f: Field ensures ReportsField(errors, form, f) {
      match f
      case Username =>
      case FullName =>
      case Email =>
      case Password =>
      case ConfirmPassword =>
    }
  }

  /** A report is empty exactly when the form passes every rule. */
  lemma ReportedRules(errors: map<string, string>, form: FormData, avatar: Option<AvatarFile>)
    requires Reports(errors, form, avatar)
    ensures errors == map[] <==> AllRulesHold(form, avatar)
  {
    RulesByField(form, avatar);
    if errors == map[] {
      forall f: Field ensures FieldError(form, f).None? {
        assert ReportsField(errors, form, f);
      }
    }
    if AllRulesHold(form, avatar) {
      assert ReportsField(errors, form, Username) && ReportsField(errors, form, FullName);
      assert ReportsField(errors, form, Email) && ReportsField(errors, form, Password);
      assert ReportsField(errors, form, ConfirmPassword);
      assert Key(Username) !in errors && Key(FullName) !in errors && Key(Email) !in errors;
      assert Key(Password) !in errors && Key(ConfirmPassword) !in errors && AvatarKey !in errors;
      assert errors.Keys == {};
    }
  }

  /** The rules hold iff no field has a failing rule and an avatar is set. */
  lemma RulesByField(form: FormData, avatar: Option<AvatarFile>)
    ensures AllRulesHold(form, avatar) <==> avatar.Some? && forall f: Field :: FieldError(form, f).None?
  {
    if avatar.Some? && forall f: Field :: FieldError(form, f).None? {
      assert FieldError(form, Username).None? && FieldError(form, FullName).None? && FieldError(form, Email).None?;
      assert FieldError(form, Password).None? && FieldError(form, ConfirmPassword).None?;
    }
  }
}
