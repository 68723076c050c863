/**
 * The two designs behave alike: over the same stored users they accept and
 * reject the same calls and return the same tokens and users. Only the
 * error reported for a missing user differs.
 */
module Equivalence {
  import opened Wrappers
  import opened Credentials
  import Srp
  import NotSrp

  /** `authenticate` agrees; a missing user is "user not found" in one and "invalid user or password" in the other. */
  lemma AuthenticateAgrees(good: Srp.BasicAuthenticator, bad: NotSrp.Authentication, username: string, password: string)
    requires good.userRepository.users == bad.users
    ensures good.Authenticate(username, password).Ok? == bad.Authenticate(username, password).Ok?
    ensures good.Authenticate(username, password).Ok? ==>
              good.Authenticate(username, password).value == bad.Authenticate(username, password).value
    ensures good.Authenticate(username, password).Err? ==>
              good.Authenticate(username, password).error == (if username in bad.users then InvalidCredentials else NotFound)
  {
  }

  /** `validateToken` agrees; the unknown-name error is "user not found" in one and "invalid user" in the other. */
  lemma ValidateTokenAgrees(good: Srp.BasicAuthenticator, bad: NotSrp.Authentication, token: Token)
    requires good.userRepository.users == bad.users
    ensures good.ValidateToken(token).Ok? == bad.ValidateToken(token).Ok?
    ensures good.ValidateToken(token).Ok? ==> good.ValidateToken(token).value == bad.ValidateToken(token).value
    ensures good.ValidateToken(token).Err? ==>
              bad.ValidateToken(token).error == if good.ValidateToken(token).error == NotFound then InvalidUser
                                                else good.ValidateToken(token).error
  {
  }
}
