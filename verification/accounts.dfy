/** The user store of server.js (the `users` array, server.js:14) and the three
    account handlers over it: register (server.js:20-51), login
    (server.js:54-73) and the current-user lookup `/api/auth/me`
    (server.js:76-100). Each handler is a pure function of the store and the
    request; register also returns the new store. */
module Accounts {
  import opened Wrappers
  import opened Seqs
  import opened Strings
  import opened Decimal
  import opened Token
  import opened AuthHeader

  /** A stored user record (server.js:28-36). */
  datatype User = User(
    id: string,
    email: string,
    password: string,
    name: string,
    company: string,
    role: string,
    createdAt: int)

  /** The user object sent in responses: every field but the password and the
      creation time (server.js:43-49, 65-71, 92-98). */
  datatype PublicUser = PublicUser(
    id: string,
    email: string,
    name: string,
    company: string,
    role: string)

  function View(u: User): PublicUser
  {
    PublicUser(u.id, u.email, u.name, u.company, u.role)
  }

  type Store = seq<User>

  /** A handler's JSON answer: a token-issuing success (register, login), a
      profile (`/me`), or an error status with its message. */
  datatype Response =
    | Issued(message: string, token: string, user: PublicUser)
    | Profile(user: PublicUser)
    | Failure(status: nat, error: string)

  /** A response together with the store after the call. */
  datatype Reply = Reply(response: Response, users: Store)

  /** The only role ever assigned. */
  const DriverRole: string := "driver"

  const UserExists: Response := Failure(400, "User already exists")
  const InvalidCredentials: Response := Failure(400, "Invalid credentials")
  const AccessDenied: Response := Failure(401, "Access denied")
  const UserNotFound: Response := Failure(404, "User not found")

  /** The `find` predicates of the handlers. */
  function ByEmail(email: string): User -> bool
  {
    (u: User) => u.email == email
  }

  function ById(id: string): User -> bool
  {
    (u: User) => u.id == id
  }

  predicate HasEmail(users: Store, email: string)
  {
    exists i :: 0 <= i < |users| && users[i].email == email
  }

  predicate HasId(users: Store, id: string)
  {
    exists i :: 0 <= i < |users| && users[i].id == id
  }

  /** No two stored users share an email. */
  predicate UniqueEmails(users: Store)
  {
    forall i, j :: 0 <= i < j < |users| ==> users[i].email != users[j].email
  }

  /** Every stored id is a string of digits, as clock readings are. */
  predicate DigitIds(users: Store)
  {
    forall i :: 0 <= i < |users| ==> AllDigits(users[i].id)
  }

  /** POST /api/auth/register. `now` is the `Date.now()` reading the id is made
      from and `createdAt` the `new Date()` reading; `company` is None when the
      body has none. */
  function Register(users: Store, email: string, password: string, name: string,
                    company: Option<string>, now: nat, createdAt: int): (r: Reply)
    // duplicate email: the error, and the store untouched
    ensures HasEmail(users, email) ==> r == Reply(UserExists, users)
    // otherwise exactly one user is appended after the unchanged earlier ones
    ensures !HasEmail(users, email) ==>
      && |r.users| == |users| + 1
      && r.users[..|users|] == users
      && var u := r.users[|users|];
      && u.id == DecimalString(now)
      && u.email == email && u.password == password && u.name == name
      && u.role == DriverRole
      && (company.None? ==> u.company == "")
      && (company.Some? ==> u.company == company.value)
      && u.createdAt == createdAt
      && r.response == Issued("User registered successfully", Issue(u.id), View(u))
    ensures UniqueEmails(users) ==> UniqueEmails(r.users)
    ensures DigitIds(users) ==> DigitIds(r.users)
  {
    match FindFirst(users, ByEmail(email))
    case Some(_) => Reply(UserExists, users)
    case None =>
      var user := User(DecimalString(now), email, password, name,
                       company.GetOr(""), DriverRole, createdAt);
      Reply(Issued("User registered successfully", Issue(user.id), View(user)),
            users + [user])
  }

  /** POST /api/auth/login: the first user with the email, if its password is
      exactly the one supplied. */
  function Login(users: Store, email: string, password: string): (r: Response)
    ensures r.Issued? || r == InvalidCredentials
    ensures r.Issued? <==>
      exists i :: IsFirst(users, ByEmail(email), i) && users[i].password == password
    ensures forall i :: IsFirst(users, ByEmail(email), i) && users[i].password == password ==>
      r == Issued("Login successful", Issue(users[i].id), View(users[i]))
  {
    match FindFirst(users, ByEmail(email))
    case None => InvalidCredentials
    case Some(i) =>
      if users[i].password != password then InvalidCredentials
      else Issued("Login successful", Issue(users[i].id), View(users[i]))
  }

  /** GET /api/auth/me with the request's Authorization header. */
  function Me(users: Store, header: Option<string>): (r: Response)
    ensures r.Profile? || r == AccessDenied || r == UserNotFound
    // 401: no header, no non-empty field [1], or a field [1] without the prefix
    ensures r == AccessDenied <==>
      BearerField(header).None? || !StartsWith(BearerField(header).value, Prefix)
    // 404: a well-formed token whose id no stored user has
    ensures r == UserNotFound <==>
      && BearerField(header).Some? && StartsWith(BearerField(header).value, Prefix)
      && !HasId(users, BearerField(header).value[|Prefix|..])
    // 200: the first user holding the token's id
    ensures r.Profile? ==>
      && BearerField(header).Some? && StartsWith(BearerField(header).value, Prefix)
      && exists i :: IsFirst(users, ById(BearerField(header).value[|Prefix|..]), i)
                     && r.user == View(users[i])
  {
    match Gate(header)
    case None => AccessDenied
    case Some(id) =>
      assert id == BearerField(header).value[|Prefix|..];
      match FindFirst(users, ById(id))
      case None => UserNotFound
      case Some(i) => Profile(View(users[i]))
  }

  /** Under unique emails, login succeeds exactly when some user has both the
      email and the password; an unknown email and a wrong password get the
      same error. */
  lemma LoginIff(users: Store, email: string, password: string)
    requires UniqueEmails(users)
    ensures Login(users, email, password).Issued? <==>
      exists i :: 0 <= i < |users| && users[i].email == email && users[i].password == password
    ensures !Login(users, email, password).Issued? ==> Login(users, email, password) == InvalidCredentials
  {
  }

  /** The public view keeps the five public fields and is blind to the
      password and the creation time. */
  lemma ViewOmitsPassword(u: User, password: string, createdAt: int)
    ensures View(u.(password := password, createdAt := createdAt)) == View(u)
    ensures var v := View(u);
      v.id == u.id && v.email == u.email && v.name == u.name && v.company == u.company && v.role == u.role
  {
  }

  /** `company || ''`: a registered user's company is empty exactly when the
      request gave none or gave the empty string. */
  lemma RegisterCompanyDefault(users: Store, email: string, password: string, name: string,
                               company: Option<string>, now: nat, createdAt: int)
    requires !HasEmail(users, email)
    ensures var r := Register(users, email, password, name, company, now, createdAt);
      r.users[|users|].company == "" <==> company.None? || company == Some("")
  {
  }

  /** Stores that differ only in passwords and creation times. */
  predicate SamePublic(users: Store, users': Store)
  {
    |users| == |users'| && forall i :: 0 <= i < |users| ==> View(users[i]) == View(users'[i])
  }

  /** `/me` never depends on a stored password. */
  lemma MeIgnoresPasswords(users: Store, users': Store, header: Option<string>)
    requires SamePublic(users, users')
    ensures Me(users, header) == Me(users', header)
  {
  }

  /** The register response does not depend on the password submitted. */
  lemma RegisterResponseIgnoresPassword(users: Store, email: string, password1: string,
                                        password2: string, name: string,
                                        company: Option<string>, now: nat, createdAt: int)
    ensures Register(users, email, password1, name, company, now, createdAt).response ==
            Register(users, email, password2, name, company, now, createdAt).response
  {
  }
}
