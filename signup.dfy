/**
 * The server's `POST /signup` handler: the ordered validation chain, bcrypt hashing,
 * `generateUsername`, the save, and the mapping of each outcome to a status and a JSON body.
 * The hash, the three-character nanoid suffix and the store's own failures are inputs.
 */
module Signup {
  import opened Wrappers
  import opened Text
  import opened Patterns
  import opened Users

  // ---------------------------------------------------------------------------
  // Request and validation

  /** `req.body`: each field is a string or absent. */
  datatype SignupBody = SignupBody(fullname: Option<string>, email: Option<string>, password: Option<string>)

  /** The four rules, each with its message, in the order they are checked. */
  datatype SignupError = MissingFields | NameTooShort | InvalidEmail | WeakPassword

  function Rank(e: SignupError): nat {
    match e
    case MissingFields => 0
    case NameTooShort => 1
    case InvalidEmail => 2
    case WeakPassword => 3
  }

  function Message(e: SignupError): string {
    match e
    case MissingFields => "Please enter all fields"
    case NameTooShort => "Fullname must be at least 3 characters"
    case InvalidEmail => "Please enter a valid email"
    case WeakPassword => "Password must be 6 to 20 characters which contain at least one numeric digit, one uppercase and one lowercase letter"
  }

  /** Whether `body` satisfies the rule whose failure is reported as `e`, looked at on its own. */
  predicate Passes(body: SignupBody, e: SignupError) {
    match e
    case MissingFields => !Falsy(body.fullname) && !Falsy(body.email) && !Falsy(body.password)
    case NameTooShort => body.fullname.Some? && |body.fullname.value| >= 3
    case InvalidEmail => body.email.Some? && IsEmail(body.email.value)
    case WeakPassword => body.password.Some? && IsStrongPassword(body.password.value)
  }

  /** The three fields once every rule has passed. */
  datatype Credentials = Credentials(fullname: string, email: string, password: string)

  /** The early-return validation chain: the first rule that fails decides the error. */
  function Validate(body: SignupBody): (r: Result<Credentials, SignupError>)
    ensures r.Ok? ==> forall e :: Passes(body, e)
    ensures r.Err? ==> !Passes(body, r.error) && forall e :: Rank(e) < Rank(r.error) ==> Passes(body, e)
    ensures r.Ok? ==>
              && body.fullname.Some? && body.email.Some? && body.password.Some?
              && r.value == Credentials(body.fullname.value, body.email.value, body.password.value)
  {
    if Falsy(body.fullname) || Falsy(body.email) || Falsy(body.password) then Err(MissingFields)
    else if |body.fullname.value| < 3 then Err(NameTooShort)
    else if !IsEmail(body.email.value) then Err(InvalidEmail)
    else if !IsStrongPassword(body.password.value) then Err(WeakPassword)
    else Ok(Credentials(body.fullname.value, body.email.value, body.password.value))
  }

  // ---------------------------------------------------------------------------
  // Hashing and username derivation

  /** What `bcrypt.hash(password, 10, ...)` yields: "$2b$10$", 22 salt and 31 hash characters. */
  type BcryptDigest = s: string | |s| == 60 && s[..7] == "$2b$10$"
    witness "$2b$10$" + seq(53, _ => 'a')

  /** The callback's `(err, hash)`. */
  datatype HashOutcome = Hashed(digest: BcryptDigest) | HashFailed

  /** A character nanoid's default alphabet draws from. */
  predicate IsNanoidChar(c: char) {
    IsWordChar(c) || c == '-'
  }

  /** `nanoid().substring(0, 3)` */
  predicate IsSuffix(s: string) {
    |s| == 3 && forall i :: 0 <= i < |s| ==> IsNanoidChar(s[i])
  }

  /**
   * The username `generateUsername` settles on: the text before the first `@`, with the suffix
   * appended when some stored user already has that name. The suffixed name is not checked.
   */
  function Username(users: seq<User>, email: string, suffix: string): (r: string)
    requires IsSuffix(suffix)
    ensures var base := BeforeFirst(email, '@');
      && base <= r
      && (r == base <==> !HasUsername(users, base))
      && (HasUsername(users, base) ==> r[|base|..] == suffix)
  {
    var base := BeforeFirst(email, '@');
    if HasUsername(users, base) then base + suffix else base
  }

  /** `generateUsername(email)`: queries the store, then extends the name with `+=` when it is taken. */
  method GenerateUsername(store: UserStore, email: string, suffix: string) returns (username: string)
    requires IsSuffix(suffix)
    ensures username == Username(store.users, email, suffix)
  {
    username := BeforeFirst(email, '@');
    var isUsernameNotUnique := store.UsernameExists(username);
    if isUsernameNotUnique {
      username := username + suffix;
    }
  }

  // ---------------------------------------------------------------------------
  // Responses and the handler

  /** The JSON bodies the handler sends: `{msg}`, `{'Server error': message}` or `{user}`. */
  datatype Json = MsgBody(msg: string) | ServerErrorBody(serverError: string) | UserBody(user: User)

  datatype Response = Response(status: int, body: Json)

  /** A response together with the users stored once the request is done. */
  datatype Outcome = Outcome(response: Response, users: seq<User>)

  /**
   * The user document the handler builds from the validated fields: the request's fullname and
   * email, the derived username, and the digest in place of the password.
   */
  function NewUser(users: seq<User>, c: Credentials, digest: BcryptDigest, suffix: string): (u: User)
    requires IsSuffix(suffix)
    ensures u.fullname == c.fullname && u.email == c.email && u.password == digest
    ensures BeforeFirst(c.email, '@') <= u.username
    ensures |c.password| <= 20 ==> u.password != c.password
  {
    User(c.fullname, Username(users, c.email, suffix), c.email, digest)
  }

  /** What one `POST /signup` does, from the users stored before it. */
  function SignupSpec(users: seq<User>, body: SignupBody, hash: HashOutcome, suffix: string, fault: Option<StoreError>): (o: Outcome)
    requires IsSuffix(suffix)
    ensures o.response.status in {200, 403, 500}
    ensures o.response.status != 200 ==> o.users == users
    ensures o.response.status == 200 ==> o.response.body.UserBody? && o.users == users + [o.response.body.user]
  {
    match Validate(body)
    case Err(e) => Outcome(Response(403, MsgBody(Message(e))), users)
    case Ok(c) =>
      match hash
      case HashFailed => Outcome(Response(500, MsgBody("Server error")), users)
      case Hashed(digest) =>
        var saved := SaveOutcome(users, NewUser(users, c, digest, suffix), fault);
        match saved.0
        case Ok(u) => Outcome(Response(200, UserBody(u)), saved.1)
        case Err(err) =>
          if err.code == DuplicateKeyCode then Outcome(Response(500, MsgBody("Email already exists")), saved.1)
          else Outcome(Response(500, ServerErrorBody(err.message)), saved.1)
  }

  /** The `/signup` handler, run against the store in place. */
  method SignUp(store: UserStore, body: SignupBody, hash: HashOutcome, suffix: string, fault: Option<StoreError>)
    returns (response: Response)
    requires store.Valid() && IsSuffix(suffix)
    modifies store
    ensures store.Valid()
    ensures Outcome(response, store.users) == SignupSpec(old(store.users), body, hash, suffix, fault)
  {
    var checked := Validate(body);
    if checked.Err? {
      return Response(403, MsgBody(Message(checked.error)));
    }
    var c := checked.value;
    if hash.HashFailed? {
      return Response(500, MsgBody("Server error"));
    }
    var username := GenerateUsername(store, c.email, suffix);
    var user := User(c.fullname, username, c.email, hash.digest);
    var saved := store.Save(user, fault);
    match saved
    case Ok(u) =>
      response := Response(200, UserBody(u));
    case Err(err) =>
      if err.code == DuplicateKeyCode {
        response := Response(500, MsgBody("Email already exists"));
      } else {
        response := Response(500, ServerErrorBody(err.message));
      }
  }
}
