/** `api/auth`: registration, login with token issue, and the caller's profile. */
module AuthController {
  import opened Wrappers
  import opened Models
  import opened AppDb
  import opened Jwt
  import opened Http
  import Int32Text

  datatype RegisterRequest = RegisterRequest(email: string, password: string)

  datatype LoginRequest = LoginRequest(email: string, password: string)

  const UserExistsMessage: string := "Usuário já existe."
  const RegisteredMessage: string := "Usuário registrado com sucesso!"
  const InvalidCredentialsMessage: string := "Credenciais inválidas."
  const MissingClaimMessage: string := "Token inválido: claim 'userId' não encontrada."
  const UserNotFoundMessage: string := "Usuário não encontrado."

  /** Tokens expire two hours after they are issued (time in seconds). */
  const TokenLifetime: int := 2 * 60 * 60

  /** Registration: refused when the email is already in the user table;
      otherwise one user is added, storing the password as given. No token is
      issued and the task table is untouched. */
  method Register(db: AppDbContext, req: RegisterRequest) returns (r: Response<string>)
    requires db.Valid()
    modifies db
    ensures db.Valid()
    ensures r == if EmailTaken(old(db.users), req.email) then BadRequest(UserExistsMessage)
                 else Ok(RegisteredMessage)
    ensures EmailTaken(old(db.users), req.email) ==>
              db.users == old(db.users) && db.nextUserId == old(db.nextUserId)
    ensures !EmailTaken(old(db.users), req.email) ==>
              && db.users == old(db.users) + [User(old(db.nextUserId), req.email, req.password)]
              && db.nextUserId == old(db.nextUserId) + 1
              && forall u :: u in old(db.users) ==> u.id != old(db.nextUserId)
    ensures DistinctEmails(old(db.users)) ==> DistinctEmails(db.users)
    ensures db.tasks == old(db.tasks) && db.nextTaskId == old(db.nextTaskId)
  {
    if EmailTaken(db.users, req.email) {
      r := BadRequest(UserExistsMessage);
      return;
    }
    var _ := db.AddUser(req.email, req.password);
    r := Ok(RegisteredMessage);
  }

  /** Registering one email twice: the first call succeeds, the second is
      refused, and exactly one user with that email was added. */
  method RegisterSameEmailTwice(db: AppDbContext, req: RegisterRequest)
    returns (first: Response<string>, second: Response<string>)
    requires db.Valid()
    requires !EmailTaken(db.users, req.email)
    modifies db
    ensures first == Ok(RegisteredMessage) && second == BadRequest(UserExistsMessage)
    ensures db.users == old(db.users) + [User(old(db.nextUserId), req.email, req.password)]
  {
    first := Register(db, req);
    assert db.users[|db.users| - 1].email == req.email;
    second := Register(db, req);
  }

  /** The claims `GenerateJwtToken` signs: the user's email and id (as text),
      the configured issuer and audience, and an expiry two hours after `now`. */
  function GenerateJwtToken(cfg: JwtConfig, now: int, user: User): (t: Token)
    ensures |t.claims| == 2
    ensures FindFirst(t.claims, EmailClaimType) == Some(user.email)
    ensures FindFirst(t.claims, UserIdClaimType) == Some(Int32Text.Format(user.id))
    ensures t.issuer == cfg.issuer && t.audience == cfg.audience && t.signingKey == cfg.key
    ensures t.expires == now + TokenLifetime
  {
    Token([Claim(EmailClaimType, user.email), Claim(UserIdClaimType, Int32Text.Format(user.id))],
          cfg.issuer, cfg.audience, now + TokenLifetime, cfg.key)
  }

  /** Login: the first user with the request's email must hold exactly the
      request's password. Every failure is the same Unauthorized answer. */
  function Login(users: seq<User>, cfg: JwtConfig, now: int, req: LoginRequest): (r: Response<Token>)
    ensures r.Ok? || r == Unauthorized(InvalidCredentialsMessage)
    ensures r.Ok? ==>
      exists i :: (0 <= i < |users| && users[i].email == req.email
                   && users[i].passwordHash == req.password
                   && r.body == GenerateJwtToken(cfg, now, users[i]))
    ensures !EmailTaken(users, req.email) ==> r == Unauthorized(InvalidCredentialsMessage)
  {
    match FirstWithEmail(users, req.email)
    case None => Unauthorized(InvalidCredentialsMessage)
    case Some(user) =>
      if user.passwordHash != req.password then Unauthorized(InvalidCredentialsMessage)
      else Ok(GenerateJwtToken(cfg, now, user))
  }

  /** Profile of the caller named by the `userId` claim: Unauthorized when the
      claim is missing or not a 32-bit integer, NotFound when no user has that
      id, and otherwise the user's id and email. */
  function GetProfile(users: seq<User>, userIdClaim: Option<string>): (r: Response<Profile>)
    ensures r.Ok? || r.Unauthorized? || r.NotFound?
    ensures r.Unauthorized? <==>
              userIdClaim.None? || !Int32Text.Parse(userIdClaim.value).Parsed?
    ensures r.Unauthorized? ==> r.message == MissingClaimMessage
    ensures r.NotFound? ==>
              && r.detail == Some(UserNotFoundMessage)
              && forall i :: 0 <= i < |users| ==>
                   users[i].id != Int32Text.Parse(userIdClaim.value).value
    ensures r.Ok? ==>
              exists i :: (0 <= i < |users|
                           && Int32Text.Parse(userIdClaim.value) == Int32Text.Parsed(users[i].id)
                           && r.body == Profile(users[i].id, users[i].email))
  {
    if userIdClaim.None? then Unauthorized(MissingClaimMessage)
    else
      match Int32Text.Parse(userIdClaim.value)
      case Parsed(id) =>
        (match FirstWithId(users, id)
         case None => NotFound(Some(UserNotFoundMessage))
         case Some(user) => Ok(Profile(user.id, user.email)))
      case _ => Unauthorized(MissingClaimMessage)
  }

  /** In a table with distinct emails, login succeeds exactly when some user
      has both the request's email and its password. */
  lemma LoginSucceedsIff(users: seq<User>, cfg: JwtConfig, now: int, req: LoginRequest)
    requires DistinctEmails(users)
    ensures Login(users, cfg, now, req).Ok? <==>
              exists i :: 0 <= i < |users| && users[i].email == req.email
                          && users[i].passwordHash == req.password
  {
    if exists i :: 0 <= i < |users| && users[i].email == req.email
                   && users[i].passwordHash == req.password {
      var i :| 0 <= i < |users| && users[i].email == req.email
               && users[i].passwordHash == req.password;
      FirstWithEmailIsUnique(users, i);
    }
  }

  /** A token issued by login is accepted by the bearer middleware until two
      hours plus the clock skew after issue, and no later. */
  lemma IssuedTokenLifetime(cfg: JwtConfig, issuedAt: int, now: int, user: User)
    ensures Authenticate(cfg, now, Some(GenerateJwtToken(cfg, issuedAt, user))).Some? <==>
              now <= issuedAt + TokenLifetime + ClockSkew
  {
  }

  /** A token signed under another key is refused whatever it claims. */
  lemma ForeignKeyRejected(cfg: JwtConfig, other: JwtConfig, issuedAt: int, now: int, user: User)
    requires other.key != cfg.key
    ensures Authenticate(cfg, now, Some(GenerateJwtToken(other, issuedAt, user))).None?
  {
  }

  /** A user who logs in and presents the token in time reads back their own
      profile: the id claim written as text parses back to the same id. */
  lemma SignedInUserSeesOwnProfile(users: seq<User>, cfg: JwtConfig, issuedAt: int, now: int,
                                   req: LoginRequest, i: int)
    requires DistinctEmails(users) && DistinctUserIds(users)
    requires 0 <= i < |users| && Int32Text.InInt32(users[i].id)
    requires users[i].email == req.email && users[i].passwordHash == req.password
    requires now <= issuedAt + TokenLifetime + ClockSkew
    ensures Login(users, cfg, issuedAt, req).Ok?
    ensures
      var principal := Authenticate(cfg, now, Some(Login(users, cfg, issuedAt, req).body));
      && principal.Some?
      && GetProfile(users, FindFirst(principal.value, UserIdClaimType))
         == Ok(Profile(users[i].id, users[i].email))
  {
    FirstWithEmailIsUnique(users, i);
    FirstWithIdIsUnique(users, i);
    Int32Text.ParseFormat(users[i].id);
  }
}
