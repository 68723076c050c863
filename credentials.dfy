/**
 * The values every part of the authenticator passes around. The `User` and
 * `Token` declarations live in common/user.ts, which is not part of this
 * model; they are taken to be a record of two strings and a string.
 */
module Credentials {

  /** A registered account; the username is its key in every store. */
  datatype User = User(username: string, password: string)

  /** Every user is filed under its own username, as `save` and `registerUser` file it. */
  ghost predicate WellKeyed(users: map<string, User>)
  {
    forall key :: key in users ==> users[key].username == key
  }

  /** The text `authenticate` hands out and `validateToken` accepts. */
  type Token = string

  /** The errors the source throws, one constructor per message. */
  datatype AuthError =
    | NotFound            // "user not found", thrown by the repository
    | DecodeError         // thrown by the hex decoder on malformed digits
    | InvalidCredentials  // "invalid user or password"
    | InvalidUser         // "invalid user"
    | InvalidToken        // "invalid token"
}
