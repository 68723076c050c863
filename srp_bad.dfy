/**
 * srp/bad.ts: the monolithic `Authentication` class, which keeps the users
 * itself and does its own encoding. Its encoding and token helpers are the
 * same as in srp/good.ts (modules `Hexer` and `TokenFormat`); it differs in
 * that a missing user is an absent value rather than a thrown error.
 */
module NotSrp {
  import opened Wrappers
  import opened Credentials
  import opened TokenFormat
  import Utf8

  class Authentication {
    var users: map<string, User>

    ghost predicate Valid()
      reads this
    {
      WellKeyed(users)
    }

    constructor ()
      ensures Valid() && users == map[]
    {
      users := map[];
    }

    /** `getUser`: the stored user, or nothing (`undefined`). */
    function GetUser(username: string): (r: Option<User>)
      reads this
      ensures r.Some? <==> username in users
      ensures r.Some? ==> r.value == users[username]
    {
      if username in users then Some(users[username]) else None
    }

    /** `registerUser`: files the user under its username, replacing any earlier entry. */
    method RegisterUser(user: User) returns (registered: User)
      requires Valid()
      modifies this
      ensures Valid()
      ensures registered == user
      ensures users == old(users)[user.username := user]
      ensures GetUser(user.username) == Some(user)
      ensures forall key :: key != user.username ==> GetUser(key) == old(GetUser(key))
    {
      users := users[user.username := user];
      registered := user;
    }

    /**
     * `authenticate`: "invalid user or password" both for a missing user and
     * for a mismatch. As in srp/good.ts the password is compared with the
     * stored USERNAME.
     */
    function Authenticate(username: string, password: string): (r: Result<Token, AuthError>)
      reads this
      ensures r.Ok? <==> username in users && users[username].username == password
      ensures r.Ok? ==> r.value == CreateToken(users[username])
      ensures r.Err? ==> r.error == InvalidCredentials
    {
      match GetUser(username)
      case None => Err(InvalidCredentials)
      case Some(user) =>
        if user.username == password then Ok(CreateToken(user)) else Err(InvalidCredentials)
    }

    /** `validateToken`: "invalid user" for an unknown name, "invalid token" for any other mismatch. */
    function ValidateToken(token: Token): (r: Result<User, AuthError>)
      reads this
      ensures r.Ok? ==> token == CreateToken(r.value)
      ensures r.Ok? ==> r.value in users.Values
      ensures UsernameFromToken(token).Err? ==> r == Err(DecodeError)
      ensures UsernameFromToken(token).Ok? && UsernameFromToken(token).value !in users ==> r == Err(InvalidUser)
      ensures UsernameFromToken(token).Ok? && UsernameFromToken(token).value in users ==>
                var user := users[UsernameFromToken(token).value];
                r == if token == CreateToken(user) then Ok(user) else Err(InvalidToken)
    {
      match UsernameFromToken(token)
      case Err(e) => Err(e)
      case Ok(username) =>
        match GetUser(username)
        case None => Err(InvalidUser)
        case Some(user) =>
          if token == CreateToken(user) then Ok(user) else Err(InvalidToken)
    }
  }

  /**
   * The effect of the credential check, as in srp/good.ts: with every user
   * filed under its own name, the only password that authenticates a user is
   * the user's own name.
   */
  lemma AuthenticateAcceptsOnlyUsername(auth: Authentication, username: string, password: string)
    requires auth.Valid()
    ensures auth.Authenticate(username, password).Ok? <==> username in auth.users && password == username
  {
  }

  /**
   * A registered user's own token is accepted, provided the name has no
   * colon and does not begin with U+FEFF.
   */
  lemma ValidateOwnToken(auth: Authentication, user: User)
    requires user.username in auth.users && auth.users[user.username] == user
    requires ':' !in user.username && !Utf8.StartsWithBom(user.username)
    ensures auth.ValidateToken(CreateToken(user)) == Ok(user)
  {
    UsernameOfCreatedToken(user);
  }

  /** A user whose name begins with U+FEFF is never accepted on a token of theirs. */
  lemma BomNameNeverValidates(auth: Authentication, user: User)
    requires auth.Valid()
    requires Utf8.StartsWithBom(user.username)
    ensures auth.ValidateToken(CreateToken(user)).Err?
  {
    var token := CreateToken(user);
    if auth.ValidateToken(token).Ok? {
      var other := auth.ValidateToken(token).value;
      assert other.username == UsernameFromToken(token).value;
      UsernameOfCreatedToken(other);
      assert false;
    }
  }

  /** The demo's login with the registered password "secret" is rejected here too. */
  lemma DemoLoginRejected(auth: Authentication)
    requires auth.users == map["billy" := User("billy", "secret")]
    ensures auth.Authenticate("billy", "secret") == Err(InvalidCredentials)
  {
  }
}
