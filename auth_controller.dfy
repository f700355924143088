/**
 * `AuthController` (src/modules/users/controller/auth.controller.ts): the
 * HTTP handlers for registration, login, the authenticated-user lookup,
 * password change and logout.
 *
 * The Express response is an object the handlers change in place: a status
 * code, a body, and the `Set-Cookie` instructions issued so far. The
 * collaborators whose code is not part of this model (`validateUser`,
 * `generateToken`, `getAuthenticatedUser` and `changePassword` of the auth
 * service, and bcrypt's `compare`) appear as their results or as functions
 * passed in; a rejected promise is a `Failure`. Every exception a handler
 * catches is re-thrown as an `UnauthorizedException` with the same message.
 */
module Auth {
  import opened Common
  import opened UserDto
  import opened Users

  datatype SameSite = Strict | Lax | NoSameSite

  datatype CookieOptions = CookieOptions(httpOnly: bool, sameSite: SameSite, maxAgeMs: int)

  /** A `Set-Cookie` instruction on the response. */
  datatype CookieAction =
    | SetCookie(name: string, value: string, options: CookieOptions)
    | ClearCookie(name: string)

  const TokenCookie := "token"

  /** The cookie attributes a login sets: HTTP-only, same-site strict, two hours. */
  const TokenCookieOptions := CookieOptions(true, Strict, 2 * 60 * 60 * 1000)

  /** A user as sent to the client: every stored field except `password`. */
  datatype PublicUser = PublicUser(
    id: int,
    username: string,
    email: string,
    firstName: Option<string>,
    lastName: Option<string>,
    company: Option<string>)

  /** `const { password, ...userInfo } = user` and `delete user.password`. */
  function WithoutPassword(u: User): (p: PublicUser)
    ensures p.id == u.id && p.username == u.username && p.email == u.email
    ensures p.firstName == u.firstName && p.lastName == u.lastName && p.company == u.company
  {
    PublicUser(u.id, u.username, u.email, u.firstName, u.lastName, u.company)
  }

  /** Two users are sent alike exactly when they differ at most in their
      password: the projection drops that field and no other. */
  lemma WithoutPasswordDropsOnlyPassword(u: User, v: User)
    ensures WithoutPassword(u) == WithoutPassword(v) <==> u.(password := v.password) == v
  {
  }

  datatype Body =
    | MessageBody(message: string)
    | RegisteredBody(message: string, userInfo: PublicUser)
    | LoggedInBody(message: string, user: PublicUser)

  /** `catch (error) { throw new UnauthorizedException(error.message) }`. */
  function AsUnauthorized<T>(r: Result<T>): (u: Result<T>)
    ensures u.Success? <==> r.Success?
    ensures r.Success? ==> u == r
    ensures r.Failure? ==> u.error == Error(Unauthorized, r.error.message)
  {
    match r
    case Success(_) => r
    case Failure(e) => Failure(Error(Unauthorized, e.message))
  }

  /** The Express response object a handler writes to. */
  class Response {
    var statusCode: int
    var body: Option<Body>
    var cookies: seq<CookieAction>

    constructor ()
      ensures statusCode == 200 && body == None && cookies == []
    {
      statusCode := 200;
      body := None;
      cookies := [];
    }

    /** `res.status(code)` */
    method Status(code: int)
      modifies this
      ensures statusCode == code && body == old(body) && cookies == old(cookies)
    {
      statusCode := code;
    }

    /** `res.send(b)` or `res.json(b)` */
    method Send(b: Body)
      modifies this
      ensures body == Some(b) && statusCode == old(statusCode) && cookies == old(cookies)
    {
      body := Some(b);
    }

    /** `res.cookie(name, value, options)` */
    method Cookie(name: string, value: string, options: CookieOptions)
      modifies this
      ensures cookies == old(cookies) + [SetCookie(name, value, options)]
      ensures statusCode == old(statusCode) && body == old(body)
    {
      cookies := cookies + [SetCookie(name, value, options)];
    }

    /** `res.clearCookie(name)` */
    method ClearCookieNamed(name: string)
      modifies this
      ensures cookies == old(cookies) + [ClearCookie(name)]
      ensures statusCode == old(statusCode) && body == old(body)
    {
      cookies := cookies + [ClearCookie(name)];
    }
  }

  /** `POST auth/register`: create the user; answer 202 with the stored
      record minus its password. A refused or failed creation is rejected as
      Unauthorized with the service's message, and nothing is sent. */
  method Register(users: UserService, dto: CreateUserDto, res: Response) returns (r: Result<()>)
    requires users.Valid()
    modifies users, res
    ensures users.Valid()
    ensures Clashes(old(users.rows), dto.username, dto.email) ==>
      && r == Failure(Error(Unauthorized, "Error creating user: " + DuplicateMessage))
      && users.rows == old(users.rows) && users.nextId == old(users.nextId)
      && res.statusCode == old(res.statusCode) && res.body == old(res.body) && res.cookies == old(res.cookies)
    ensures !Clashes(old(users.rows), dto.username, dto.email) ==>
      && r == Success(())
      && users.rows == old(users.rows) + [NewUser(old(users.nextId), dto)]
      && users.nextId == old(users.nextId) + 1
      && res.statusCode == 202
      && res.body == Some(RegisteredBody("Registration successful", WithoutPassword(NewUser(old(users.nextId), dto))))
      && res.cookies == old(res.cookies)
  {
    var created := users.Create(dto);
    if created.Failure? {
      r := AsUnauthorized(Failure(created.error));
      return;
    }
    var userInfo := WithoutPassword(created.value);
    res.Status(202);
    res.Send(RegisteredBody("Registration successful", userInfo));
    r := Success(());
  }

  /** `POST auth/login`. `validated` is what `validateUser` resolved to (no
      user for bad credentials), `generateToken` signs a token for a user.
      The cookie is set only once a token exists; the body never carries the
      password. */
  method Login(validated: Result<Option<User>>, generateToken: User -> Result<string>, res: Response)
    returns (r: Result<()>)
    modifies res
    ensures r.Success? <==>
      validated.Success? && validated.value.Some? && generateToken(validated.value.value).Success?
    ensures validated.Failure? ==> r == Failure(Error(Unauthorized, validated.error.message))
    ensures validated == Success(None) ==> r == Failure(Error(Unauthorized, "Invalid credentials"))
    ensures validated.Success? && validated.value.Some? && generateToken(validated.value.value).Failure? ==>
      r == Failure(Error(Unauthorized, generateToken(validated.value.value).error.message))
    ensures r.Failure? ==>
      res.statusCode == old(res.statusCode) && res.body == old(res.body) && res.cookies == old(res.cookies)
    ensures r.Success? ==>
      && res.cookies == old(res.cookies) +
           [SetCookie("token", generateToken(validated.value.value).value, CookieOptions(true, Strict, 7200000))]
      && res.statusCode == 202
      && res.body == Some(LoggedInBody("Login successful", WithoutPassword(validated.value.value)))
  {
    if validated.Failure? {
      r := AsUnauthorized(Failure(validated.error));
      return;
    }
    if validated.value.None? {
      r := AsUnauthorized(Failure(Error(Unauthorized, "Invalid credentials")));
      return;
    }
    var user := validated.value.value;
    var token := generateToken(user);
    if token.Failure? {
      r := AsUnauthorized(Failure(token.error));
      return;
    }
    res.Cookie(TokenCookie, token.value, TokenCookieOptions);
    var sent := WithoutPassword(user);
    res.Status(202);
    res.Send(LoggedInBody("Login successful", sent));
    r := Success(());
  }

  /** `GET auth/authenticated-user` as written: whatever the auth service
      returns for the token subject `sub`, including its `password` field. */
  function GetAuthenticatedUserAsWritten(sub: int, getUser: int -> Result<User>): (r: Result<User>)
    ensures r.Success? <==> getUser(sub).Success?
    ensures r.Success? ==> r.value == getUser(sub).value
    ensures r.Failure? ==> r.error == Error(Unauthorized, getUser(sub).error.message)
  {
    AsUnauthorized(getUser(sub))
  }

  /** `GET auth/authenticated-user` with the password removed, as login and
      register already do. */
  function GetAuthenticatedUser(sub: int, getUser: int -> Result<User>): (r: Result<PublicUser>)
    ensures r.Success? <==> getUser(sub).Success?
    ensures r.Success? ==> r.value == WithoutPassword(getUser(sub).value)
    ensures r.Failure? ==> r.error == Error(Unauthorized, getUser(sub).error.message)
  {
    match getUser(sub)
    case Success(u) => Success(WithoutPassword(u))
    case Failure(e) => Failure(Error(Unauthorized, e.message))
  }

  /** The record `changePassword` checks the old password against comes from
      the same lookup the endpoint answers with, so as written two users who
      differ only in their password hash get different answers, and the
      answer carries the hash; the corrected endpoint answers both alike. */
  lemma AuthenticatedUserExposesPassword(sub: int, getA: int -> Result<User>, getB: int -> Result<User>, hash: string)
    requires getA(sub).Success? && hash != getA(sub).value.password
    requires getB(sub) == Success(getA(sub).value.(password := hash))
    ensures GetAuthenticatedUserAsWritten(sub, getB).value.password == hash
    ensures GetAuthenticatedUserAsWritten(sub, getA) != GetAuthenticatedUserAsWritten(sub, getB)
    ensures GetAuthenticatedUser(sub, getA) == GetAuthenticatedUser(sub, getB)
  {
  }

  /** The corrected endpoint reveals nothing about the stored password: two
      lookups that differ only there give the same answer. */
  lemma GetAuthenticatedUserHidesPassword(sub: int, getA: int -> Result<User>, getB: int -> Result<User>)
    requires getA(sub).Success? <==> getB(sub).Success?
    requires getA(sub).Failure? ==> getA(sub) == getB(sub)
    requires getA(sub).Success? ==> getA(sub).value.(password := getB(sub).value.password) == getB(sub).value
    ensures GetAuthenticatedUser(sub, getA) == GetAuthenticatedUser(sub, getB)
  {
  }

  /** The password write `changePassword` asks the auth service for. */
  datatype PasswordWrite = PasswordWrite(userId: int, newPassword: string)

  /** `POST auth/change-password` for the token subject `sub`: look the user
      up, check `oldPassword` against the stored hash with `compare`, and only
      then ask the auth service to store `newPassword` for that same id.
      `written` is that request, if it was made. */
  method ChangePassword(sub: int, oldPassword: string, newPassword: string,
                        getUser: int -> Result<User>,
                        compare: (string, string) -> Result<bool>,
                        storePassword: (int, string) -> Result<()>,
                        res: Response)
    returns (r: Result<()>, written: Option<PasswordWrite>)
    modifies res
    ensures written.Some? <==>
      getUser(sub).Success? && compare(oldPassword, getUser(sub).value.password) == Success(true)
    ensures written.Some? ==> written.value == PasswordWrite(sub, newPassword)
    ensures r.Success? <==> written.Some? && storePassword(sub, newPassword).Success?
    ensures getUser(sub).Failure? ==> r == Failure(Error(Unauthorized, getUser(sub).error.message))
    ensures getUser(sub).Success? && compare(oldPassword, getUser(sub).value.password) == Success(false) ==>
      r == Failure(Error(Unauthorized, "Old password is incorrect"))
    ensures r.Failure? ==> r.error.kind == Unauthorized
    ensures r.Failure? ==>
      res.statusCode == old(res.statusCode) && res.body == old(res.body) && res.cookies == old(res.cookies)
    ensures r.Success? ==>
      && res.statusCode == 202
      && res.body == Some(MessageBody("Password changed successfully"))
      && res.cookies == old(res.cookies)
  {
    written := None;
    var user := getUser(sub);
    if user.Failure? {
      r := AsUnauthorized(Failure(user.error));
      return;
    }
    var isOldPasswordValid := compare(oldPassword, user.value.password);
    if isOldPasswordValid.Failure? {
      r := AsUnauthorized(Failure(isOldPasswordValid.error));
      return;
    }
    if !isOldPasswordValid.value {
      r := AsUnauthorized(Failure(Error(Unauthorized, "Old password is incorrect")));
      return;
    }
    written := Some(PasswordWrite(sub, newPassword));
    var stored := storePassword(sub, newPassword);
    if stored.Failure? {
      r := AsUnauthorized(Failure(stored.error));
      return;
    }
    res.Status(202);
    res.Send(MessageBody("Password changed successfully"));
    r := Success(());
  }

  /** `POST auth/logout`: clear the `token` cookie and answer 200. The 500
      answer is sent only when clearing the cookie throws, which
      `clearCookieThrows` stands for. */
  method Logout(res: Response, clearCookieThrows: bool)
    modifies res
    ensures !clearCookieThrows ==>
      && res.cookies == old(res.cookies) + [ClearCookie("token")]
      && res.statusCode == 200
      && res.body == Some(MessageBody("Logged out successfully"))
    ensures clearCookieThrows ==>
      && res.cookies == old(res.cookies)
      && res.statusCode == 500
      && res.body == Some(MessageBody("An error occurred while logging out"))
  {
    if !clearCookieThrows {
      res.ClearCookieNamed(TokenCookie);
      res.Status(200);
      res.Send(MessageBody("Logged out successfully"));
    } else {
      res.Status(500);
      res.Send(MessageBody("An error occurred while logging out"));
    }
  }
}
