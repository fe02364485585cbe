/**
 * User registration: the ordered checks of `registerUser` (blank fields,
 * an existing user with the same username or email, a missing avatar file, a
 * failed avatar upload) over an in-memory user collection, and the stored user
 * with its username lowercased.
 */
module Users {
  import opened Wrappers
  import opened Text
  import opened ApiErrors
  import opened PostModel

  datatype User = User(
    id: UserId,
    username: string,
    email: Option<string>,
    fullName: Option<string>,
    password: Option<string>,
    avatar: Option<string>)

  /** `User.findOne({ username: name })`: the first user, in collection order, with that exact username. */
  function FindByUsername(users: seq<User>, name: string): (r: Option<User>)
    ensures r.Some? ==> r.value in users && r.value.username == name
    ensures r.None? <==> forall i | 0 <= i < |users| :: users[i].username != name
  {
    if users == [] then None
    else if users[0].username == name then Some(users[0])
    else FindByUsername(users[1..], name)
  }

  /** The body of a registration request; an absent field is `None` (JavaScript `undefined`). */
  datatype Registration = Registration(
    fullName: Option<string>,
    email: Option<string>,
    username: Option<string>,
    password: Option<string>)

  /** `field?.trim() === ""`: the field is present and only white space. */
  predicate BlankField(f: Option<string>) {
    f.Some? && Trim(f.value) == ""
  }

  /** `[fullName, email, username, password].some(field => field?.trim() === "")`. */
  predicate AnyBlank(reg: Registration) {
    BlankField(reg.fullName) || BlankField(reg.email) || BlankField(reg.username) || BlankField(reg.password)
  }

  /**
   * `User.findOne({ $or: [{ username }, { email }] })` finds someone: a user
   * whose username equals the supplied one exactly, or whose email does. An
   * absent value is sent as `null` and matches no stored user.
   */
  predicate Clashes(u: User, reg: Registration) {
    (reg.username.Some? && u.username == reg.username.value)
    || (reg.email.Some? && u.email == reg.email)
  }

  predicate Taken(users: seq<User>, reg: Registration) {
    exists i | 0 <= i < |users| :: Clashes(users[i], reg)
  }

  const AllFieldsRequired := ApiError(BadRequest, "All fields are required")
  const UserExists := ApiError(Conflict, "User with this username or email already exists")
  const AvatarRequired := ApiError(BadRequest, "Avater is required")
  const AvatarNotUploaded := ApiError(BadRequest, "Avatar is not uploaded to cloudinary")

  /**
   * The decision `registerUser` takes. `avatarPath` is the uploaded file's
   * local path and `upload` the URL the media store returned (`None` when
   * the upload gave nothing). The checks run in this order and the first
   * that fails decides the error; on success the user gets `id`, the
   * lowercased username and the upload URL as avatar. A missing username that
   * reaches `username.toLowerCase()` is a TypeError.
   */
  function Register(users: seq<User>, id: UserId, reg: Registration, avatarPath: Option<string>,
                    upload: Option<Option<string>>): (r: Result<User, Error>)
    ensures AnyBlank(reg) ==> r == Failure(AllFieldsRequired)
    ensures !AnyBlank(reg) && Taken(users, reg) ==> r == Failure(UserExists)
    ensures !AnyBlank(reg) && !Taken(users, reg) && !Truthy(avatarPath) ==> r == Failure(AvatarRequired)
    ensures !AnyBlank(reg) && !Taken(users, reg) && Truthy(avatarPath) && upload.None?
            ==> r == Failure(AvatarNotUploaded)
    ensures !AnyBlank(reg) && !Taken(users, reg) && Truthy(avatarPath) && upload.Some? && reg.username.None?
            ==> r == Failure(RuntimeFault)
    ensures r.Success? <==> !AnyBlank(reg) && !Taken(users, reg) && Truthy(avatarPath) && upload.Some? && reg.username.Some?
    ensures r.Success? ==> r.value == User(id, Lower(reg.username.value), reg.email, reg.fullName, reg.password, upload.value)
  {
    if AnyBlank(reg) then Failure(AllFieldsRequired)
    else if exists i | 0 <= i < |users| :: Clashes(users[i], reg) then Failure(UserExists)
    else if !Truthy(avatarPath) then Failure(AvatarRequired)
    else if upload.None? then Failure(AvatarNotUploaded)
    else if reg.username.None? then Failure(RuntimeFault)
    else Success(User(id, Lower(reg.username.value), reg.email, reg.fullName, reg.password, upload.value))
  }

  /**
   * The duplicate check compares the username as supplied while the stored one
   * is lowercased: when a stored user already has the lowercased form of the
   * requested username (say `alice`, requested as `Alice`) and nothing else
   * clashes, registration goes through and stores a second user named `alice`.
   */
  lemma CaseSensitiveDuplicateCheck(users: seq<User>, reg: Registration, avatarPath: Option<string>,
                                    upload: Option<Option<string>>, i: int)
    requires 0 <= i < |users| && reg.username.Some? && users[i].username == Lower(reg.username.value)
    requires !AnyBlank(reg) && !Taken(users, reg) && Truthy(avatarPath) && upload.Some?
    ensures Register(users, |users|, reg, avatarPath, upload).Success?
    ensures Register(users, |users|, reg, avatarPath, upload).value.username == users[i].username
  {
  }

  /**
   * The user collection. Users are appended in creation order, which is the
   * order in which `findOne` meets them; ids come from a counter and are unique.
   */
  class UserStore {
    var users: seq<User>
    var nextId: UserId

    ghost predicate Valid()
      reads this
    {
      && (forall i | 0 <= i < |users| :: users[i].id < nextId)
      && (forall i, j | 0 <= i < j < |users| :: users[i].id < users[j].id)
    }

    constructor ()
      ensures Valid() && users == []
    {
      users := [];
      nextId := 0;
    }

    /** `registerUser`: applies `Register` and, on success, inserts the new user. */
    method RegisterUser(reg: Registration, avatarPath: Option<string>, upload: Option<Option<string>>)
      returns (r: Result<User, Error>)
      requires Valid()
      modifies this
      ensures Valid()
      ensures r == Register(old(users), old(nextId), reg, avatarPath, upload)
      ensures r.Success? ==> users == old(users) + [r.value] && nextId == old(nextId) + 1
      ensures r.Failure? ==> users == old(users) && nextId == old(nextId)
    {
      r := Register(users, nextId, reg, avatarPath, upload);
      if r.Success? {
        users := users + [r.value];
        nextId := nextId + 1;
      }
    }
  }
}
