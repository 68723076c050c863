/**
 * srp/good.ts: the decomposed design. `InMemoryUserRepository` owns the
 * users, `BasicAuthenticator` issues and checks tokens through the
 * repository and the `Hexer` encoder. The `Repository`, `Encoder` and
 * `Authenticator` interfaces only serve dependency injection; here the
 * authenticator holds the concrete repository and uses the `Hexer` module.
 */
module Srp {
  import opened Wrappers
  import opened Credentials
  import opened TokenFormat
  import Utf8

  /** The users filed under the given keys. */
  ghost function StoredUnder(users: map<string, User>, keys: set<string>): set<User>
  {
    set key | key in keys && key in users :: users[key]
  }

  /** Filing one more key adds exactly its user, and in a well-keyed store that user is new. */
  lemma StoredUnderGrows(users: map<string, User>, keys: set<string>, key: string)
    requires WellKeyed(users) && key in users && key !in keys
    ensures multiset(StoredUnder(users, keys + {key})) == multiset(StoredUnder(users, keys)) + multiset{users[key]}
  {
    assert users[key] !in StoredUnder(users, keys);
    assert StoredUnder(users, keys + {key}) == StoredUnder(users, keys) + {users[key]};
  }

  /** All keys together hold all the stored users. */
  lemma StoredUnderAll(users: map<string, User>)
    ensures StoredUnder(users, users.Keys) == users.Values
  {
  }

  /** The user store: a map from username to user, changed in place. */
  class InMemoryUserRepository {
    var users: map<string, User>

    ghost predicate Valid()
      reads this
    {
      WellKeyed(users)
    }

    constructor ()
      ensures Valid() && users == map[]
    {
      users := map[];
    }

    /** `get`: the stored user, or "user not found". */
    function Get(key: string): (r: Result<User, AuthError>)
      reads this
      ensures r.Ok? <==> key in users
      ensures r.Ok? ==> r.value == users[key]
      ensures r.Err? ==> r.error == NotFound
    {
      if key in users then Ok(users[key]) else Err(NotFound)
    }

    /**
     * `getAll`: copies the stored users into an array of the store's size,
     * one slot per key, in whatever order the keys are visited.
     */
    method GetAll() returns (all: seq<User>)
      requires Valid()
      ensures |all| == |users|
      ensures multiset(all) == multiset(users.Values)
    {
      var stored := users;
      var copy := new User[|stored|];
      var index := 0;
      var pending := stored.Keys;
      ghost var visited: set<string> := {};
      ghost var copied: seq<User> := [];
      while pending != {}
        invariant visited + pending == stored.Keys && visited !! pending
        invariant index + |pending| == copy.Length
        invariant |copied| == index && forall i :: 0 <= i < index ==> copy[i] == copied[i]
        invariant multiset(copied) == multiset(StoredUnder(stored, visited))
        decreases pending
      {
        var key :| key in pending;
        StoredUnderGrows(stored, visited, key);
        copy[index] := stored[key];
        copied := copied + [stored[key]];
        index := index + 1;
        assert |pending - {key}| == |pending| - 1;
        pending := pending - {key};
        visited := visited + {key};
      }
      StoredUnderAll(stored);
      assert copy[..] == copied;
      all := copy[..];
    }

    /** `save`: files the user under its username, replacing any earlier entry. */
    method Save(item: User) returns (saved: User)
      requires Valid()
      modifies this
      ensures Valid()
      ensures saved == item
      ensures users == old(users)[item.username := item]
      ensures Get(item.username) == Ok(item)
      ensures forall key :: key != item.username ==> Get(key) == old(Get(key))
    {
      users := users[item.username := item];
      saved := item;
    }

    /** `remove`: deletes and returns the stored user, or fails with "user not found". */
    method Remove(key: string) returns (r: Result<User, AuthError>)
      requires Valid()
      modifies this
      ensures Valid()
      ensures r == old(Get(key))
      ensures r.Err? ==> users == old(users)
      ensures r.Ok? ==> users == old(users) - {key}
      ensures Get(key) == Err(NotFound)
      ensures forall other :: other != key ==> Get(other) == old(Get(other))
    {
      if key !in users {
        return Err(NotFound);
      }
      r := Ok(users[key]);
      users := users - {key};
    }
  }

  /** The authenticator: reads the repository it was given and never changes it. */
  class BasicAuthenticator {
    const userRepository: InMemoryUserRepository

    constructor (userRepository: InMemoryUserRepository)
      ensures this.userRepository == userRepository
    {
      this.userRepository := userRepository;
    }

    /**
     * `authenticate`: a missing user surfaces as the repository's "user not
     * found". As in the source, the supplied password is compared with the
     * stored user's USERNAME; the stored password is never consulted.
     */
    function Authenticate(username: string, password: string): (r: Result<Token, AuthError>)
      reads userRepository
      ensures r.Ok? <==> username in userRepository.users && userRepository.users[username].username == password
      ensures r.Ok? ==> r.value == CreateToken(userRepository.users[username])
      ensures username !in userRepository.users ==> r == Err(NotFound)
      ensures username in userRepository.users && r.Err? ==> r.error == InvalidCredentials
    {
      match userRepository.Get(username)
      case Err(e) => Err(e)
      case Ok(user) =>
        if user.username == password then Ok(CreateToken(user)) else Err(InvalidCredentials)
    }

    /**
     * `validateToken`: decodes the token, looks up the name before the first
     * colon and accepts only the exact token that user would be issued. The
     * source's "invalid user" branch cannot be reached, because the
     * repository already fails with "user not found".
     */
    function ValidateToken(token: Token): (r: Result<User, AuthError>)
      reads userRepository
      ensures r.Ok? ==> token == CreateToken(r.value)
      ensures r.Ok? ==> r.value in userRepository.users.Values
      ensures UsernameFromToken(token).Err? ==> r == Err(DecodeError)
      ensures UsernameFromToken(token).Ok? && UsernameFromToken(token).value !in userRepository.users ==> r == Err(NotFound)
      ensures UsernameFromToken(token).Ok? && UsernameFromToken(token).value in userRepository.users ==>
                var user := userRepository.users[UsernameFromToken(token).value];
                r == if token == CreateToken(user) then Ok(user) else Err(InvalidToken)
    {
      match UsernameFromToken(token)
      case Err(e) => Err(e)
      case Ok(username) =>
        match userRepository.Get(username)
        case Err(e) => Err(e)
        case Ok(user) =>
          if token == CreateToken(user) then Ok(user) else Err(InvalidToken)
    }
  }

  /**
   * The effect of the credential check: in a well-keyed store the only
   * password that authenticates a user is the user's own name.
   */
  lemma AuthenticateAcceptsOnlyUsername(auth: BasicAuthenticator, username: string, password: string)
    requires auth.userRepository.Valid()
    ensures auth.Authenticate(username, password).Ok? <==> username in auth.userRepository.users && password == username
  {
  }

  /** The stored password plays no part: swapping it leaves the outcome as it was, up to the token. */
  lemma AuthenticateIgnoresPassword(a: BasicAuthenticator, b: BasicAuthenticator, username: string, password: string, other: string)
    requires username in a.userRepository.users
    requires b.userRepository.users == a.userRepository.users[username := User(a.userRepository.users[username].username, other)]
    ensures a.Authenticate(username, password).Ok? == b.Authenticate(username, password).Ok?
  {
  }

  /** The demo's login with the registered password "secret" is rejected. */
  lemma DemoLoginRejected(auth: BasicAuthenticator)
    requires auth.userRepository.users == map["billy" := User("billy", "secret")]
    ensures auth.Authenticate("billy", "secret") == Err(InvalidCredentials)
  {
  }

  /**
   * What `validateToken` accepts, exactly: the token issued to a user who is
   * stored under its name, whose name has no colon and does not begin with
   * U+FEFF (the decoder would drop it, and look up another name).
   */
  lemma ValidateTokenExactly(auth: BasicAuthenticator, token: Token, user: User)
    requires auth.userRepository.Valid()
    ensures auth.ValidateToken(token) == Ok(user) <==>
              && user.username in auth.userRepository.users
              && auth.userRepository.users[user.username] == user
              && ':' !in user.username
              && !Utf8.StartsWithBom(user.username)
              && token == CreateToken(user)
  {
    if auth.ValidateToken(token) == Ok(user) {
      ValidatedUser(auth, token, user);
    }
    if token == CreateToken(user) && ':' !in user.username {
      UsernameOfCreatedToken(user);
    }
  }

  /** The "only if" half of `ValidateTokenExactly`. */
  lemma ValidatedUser(auth: BasicAuthenticator, token: Token, user: User)
    requires auth.userRepository.Valid()
    requires auth.ValidateToken(token) == Ok(user)
    ensures user.username in auth.userRepository.users && auth.userRepository.users[user.username] == user
    ensures ':' !in user.username && !Utf8.StartsWithBom(user.username)
    ensures token == CreateToken(user)
  {
    var name := UsernameFromToken(token).value;
    assert auth.userRepository.users[name] == user;
    assert user.username == name;
    UsernameOfCreatedToken(user);
  }

  /**
   * A token handed out by `authenticate` is accepted by `validateToken` for
   * the same user, when the name has no colon and no leading U+FEFF.
   */
  lemma AuthenticateThenValidate(auth: BasicAuthenticator, username: string, password: string)
    requires auth.userRepository.Valid()
    requires auth.Authenticate(username, password).Ok?
    requires ':' !in username && !Utf8.StartsWithBom(username)
    ensures auth.ValidateToken(auth.Authenticate(username, password).value) == Ok(auth.userRepository.users[username])
  {
    ValidateTokenExactly(auth, auth.Authenticate(username, password).value, auth.userRepository.users[username]);
  }

  /**
   * A user whose name begins with U+FEFF can never use a token of theirs:
   * the decoder drops that character, and no stored user has the token.
   */
  lemma BomNameNeverValidates(auth: BasicAuthenticator, user: User)
    requires auth.userRepository.Valid()
    requires Utf8.StartsWithBom(user.username)
    ensures auth.ValidateToken(CreateToken(user)).Err?
  {
    var token := CreateToken(user);
    if auth.ValidateToken(token).Ok? {
      var other := auth.ValidateToken(token).value;
      ValidateTokenExactly(auth, token, other);
      assert false;
    }
  }

  /** A token with an upper-case hex digit decodes, but is never accepted. */
  lemma UpperCaseTokenRejected(auth: BasicAuthenticator, token: Token, i: nat)
    requires i < |token| && 0x41 <= token[i] as int <= 0x46
    ensures auth.ValidateToken(token).Err?
  {
  }
}
