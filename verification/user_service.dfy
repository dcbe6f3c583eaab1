/**
 * Services/UserService.cs: registration with a duplicate-e-mail guard and
 * a hashed password, and authentication that issues a token.
 *
 * The password hasher, its verifier and the JWT writer are library code:
 * they are the function values of a `Crypto` the service is given.
 */
module Accounts {
  import opened Primitives
  import opened UserModel
  import opened UserRepo

  /** `PasswordVerificationResult`. */
  datatype Verification = Failed | Success | SuccessRehashNeeded

  /** The claims a token carries: name, e-mail and role. */
  datatype Claims = Claims(name: string, email: string, role: string)

  /**
   * `hash(user, password)` is HashPassword, `verify(user, hashed, provided)`
   * is VerifyHashedPassword, `writeToken(key, claims, expires)` signs a JWT
   * with HMAC-SHA256 under `key`.
   */
  datatype Crypto = Crypto(
    hash: (User, string) -> string,
    verify: (User, string, string) -> Verification,
    writeToken: (string, Claims, int) -> string)

  /** A token expires one hour after it is issued (in seconds). */
  const TokenLifetime: int := 3600

  /** What RegisterUser does: true, false, or the exception of a key already stored. */
  datatype Registration = Registered | EmailTaken | KeyConflict

  /** No two stored users share an e-mail. */
  ghost predicate EmailsDistinct(users: seq<User>) {
    forall i, j :: 0 <= i < j < |users| ==> users[i].Email != users[j].Email
  }

  function ClaimsOf(u: User): Claims {
    Claims(u.Name, u.Email, u.Role)
  }

  /** The record RegisterUser stores: the user with its password hashed. */
  function Hashed(crypto: Crypto, user: User): (r: User)
    ensures r.Id == user.Id && r.Name == user.Name && r.Email == user.Email && r.Role == user.Role
    ensures r.Password == crypto.hash(user, user.Password)
  {
    user.(Password := crypto.hash(user, user.Password))
  }

  /**
   * AuthenticateUser over a user table at time `now`: no token when no user
   * has the e-mail or the password does not verify with result Success;
   * otherwise a token for that user's claims, expiring an hour later.
   */
  function Authenticate(users: seq<User>, crypto: Crypto, key: string,
                        email: string, password: string, now: int): (token: Option<string>)
    ensures (forall u :: u in users ==> u.Email != email) ==> token.None?
    ensures token.Some? ==> exists u :: (
      && u in users && u.Email == email
      && crypto.verify(u, u.Password, password) == Success
      && token.value == crypto.writeToken(key, ClaimsOf(u), now + TokenLifetime))
    ensures EmailsDistinct(users) ==> forall u :: u in users && u.Email == email ==>
      (token.Some? <==> crypto.verify(u, u.Password, password) == Success)
  {
    match FindByEmail(users, email)
    case None => None
    case Some(user) =>
      if crypto.verify(user, user.Password, password) != Success then None
      else Some(crypto.writeToken(key, ClaimsOf(user), now + TokenLifetime))
  }

  /** Adding a user whose e-mail is not yet stored keeps e-mails distinct. */
  lemma EmailsStayDistinct(users: seq<User>, u: User)
    requires EmailsDistinct(users)
    requires FindByEmail(users, u.Email).None?
    ensures EmailsDistinct(users + [u])
  {
  }

  /**
   * A user just registered can sign in with the password given at
   * registration, provided the verifier accepts the hasher's output.
   */
  lemma RegisteredUserCanSignIn(users: seq<User>, crypto: Crypto, key: string, user: User, now: int)
    requires FindByEmail(users, user.Email).None?
    requires crypto.verify(Hashed(crypto, user), crypto.hash(user, user.Password), user.Password) == Success
    ensures Authenticate(users + [Hashed(crypto, user)], crypto, key, user.Email, user.Password, now)
      == Some(crypto.writeToken(key, ClaimsOf(user), now + TokenLifetime))
  {
    FindByEmailAppend(users, Hashed(crypto, user), user.Email);
  }

  /**
   * Once a user is registered, a second registration with the same e-mail
   * finds the stored, hashed record, so RegisterUser's guard refuses it.
   */
  lemma SecondRegistrationRefused(users: seq<User>, crypto: Crypto, first: User, second: User)
    requires FindByEmail(users, first.Email).None?
    requires second.Email == first.Email
    ensures FindByEmail(users + [Hashed(crypto, first)], second.Email) == Some(Hashed(crypto, first))
  {
    FindByEmailAppend(users, Hashed(crypto, first), second.Email);
  }

  class UserService {
    const userRepository: UserRepository
    const jwtSecretKey: string
    const crypto: Crypto

    ghost predicate Valid()
      reads this, userRepository
    {
      userRepository.Valid() && EmailsDistinct(userRepository.users)
    }

    constructor (userRepository: UserRepository, jwtSecretKey: string, crypto: Crypto)
      requires userRepository.Valid() && EmailsDistinct(userRepository.users)
      ensures Valid()
      ensures this.userRepository == userRepository
      ensures this.jwtSecretKey == jwtSecretKey && this.crypto == crypto
    {
      this.userRepository := userRepository;
      this.jwtSecretKey := jwtSecretKey;
      this.crypto := crypto;
    }

    /**
     * False (EmailTaken) and no change when the e-mail is stored; otherwise
     * the user is stored once, with its password hashed. A key already
     * stored makes the add throw (KeyConflict), also with no change.
     */
    method RegisterUser(user: User) returns (r: Registration)
      requires Valid()
      modifies userRepository
      ensures Valid()
      ensures r == EmailTaken <==> old(FindByEmail(userRepository.users, user.Email)).Some?
      ensures r == KeyConflict <==>
        old(FindByEmail(userRepository.users, user.Email)).None? &&
        old(FindById(userRepository.users, user.Id)).Some?
      ensures r == Registered ==> userRepository.users == old(userRepository.users) + [Hashed(crypto, user)]
      ensures r != Registered ==> userRepository.users == old(userRepository.users)
    {
      var existingUser := userRepository.GetUserByEmail(user.Email);
      if existingUser.Some? {
        return EmailTaken;
      }
      var stored := Hashed(crypto, user);
      EmailsStayDistinct(userRepository.users, stored);
      var added := userRepository.AddUser(stored);
      r := if added then Registered else KeyConflict;
    }

    /** No token for an unknown e-mail or a failed check; reads the table only. */
    function AuthenticateUser(email: string, password: string, now: int): (token: Option<string>)
      reads this, userRepository
      ensures (forall u :: u in userRepository.users ==> u.Email != email) ==> token.None?
      ensures token.Some? ==> exists u :: (
        && u in userRepository.users && u.Email == email
        && crypto.verify(u, u.Password, password) == Success
        && token.value == crypto.writeToken(jwtSecretKey, ClaimsOf(u), now + TokenLifetime))
    {
      Authenticate(userRepository.users, crypto, jwtSecretKey, email, password, now)
    }
  }
}
