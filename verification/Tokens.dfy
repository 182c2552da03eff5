/** Users and access tokens as a client handles them. */
module Tokens {
  import opened Base
  import opened Crypto
  import opened KeyRights
  import opened Protocol

  // Other users are known by identifier and public key; only the local user has a private key.
  datatype User = User(id: UserId, sk: Option<SecretKey>, pk: PublicKey)

  // A key wrapped by `owner` for `user`.
  datatype Token = Token(user: User, owner: User, token: Wrapped)

  function GenerateToken(user: User, key: Key): Token
    requires user.sk.Some?
  {
    Token(user, user, Wrap(user.sk.value, user.pk, key))
  }

  // The key inside a token of the local user.
  function TokenData(t: Token): Option<Key> {
    if t.user.sk.None? then None else Unwrap(t.user.sk.value, t.owner.pk, t.token)
  }

  // The same key wrapped again, by the holder for another user.
  function TokenForUser(t: Token, forUser: User): Option<Token> {
    var key := TokenData(t);
    if key.None? then None else Some(Token(forUser, t.user, Wrap(t.user.sk.value, forUser.pk, key.value)))
  }

  // A user as the credential store knows it.
  function LoadUser(cs: Credentials, id: UserId): Option<User> {
    if Registered(cs, id) then Some(User(id, None, cs[id])) else None
  }

  // Passing a token on gives the receiver the very same key, for any number of hands: the local
  // user wrapped it, so the receiver opens it with the local user's public key.
  lemma PassedOnKeyIsTheSame(t: Token, forUser: User, receiverSk: SecretKey)
    requires TokenData(t).Some? && t.user.pk == PublicOf(t.user.sk.value) && forUser.pk == PublicOf(receiverSk)
    ensures TokenForUser(t, forUser).Some?
    ensures TokenData(TokenForUser(t, forUser).value.(user := forUser.(sk := Some(receiverSk)))) == TokenData(t)
  {
  }
}
