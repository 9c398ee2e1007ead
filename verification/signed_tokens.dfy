/**
  An abstract timed serializer: a token carries its claims, the second it was
  issued and the secret key it was signed with. Loading a token succeeds when
  the signature verifies under the key presented and the token is not older
  than the maximum age; the signing and encoding themselves are not modelled.
 */
module SignedTokens {
  import opened Wrappers

  type Key = string

  /** The serialised payload: a dictionary from field names to strings. */
  type Claims = map<string, string>

  /** A token string as presented in a link: a well-formed signed payload or garbage. */
  datatype Token =
    | Signed(claims: Claims, issuedAt: int, signer: Key)
    | Malformed

  /** Why loading a token failed. */
  datatype LoadError = BadSignature | SignatureExpired

  /** Subscription links expire after three minutes. */
  const SubscribeMaxAge: int := 180

  /** The claim name a subscription token carries its address under. */
  const EmailClaim: string := "email"

  /** Serialise `claims` at time `now`, signed with `key`. */
  function Dumps(claims: Claims, key: Key, now: int): (t: Token)
    ensures t.Signed? && t.claims == claims && t.issuedAt == now && t.signer == key
  {
    Signed(claims, now, key)
  }

  /**
    Load a token: the signature must verify under `key`, then the age
    `now - issuedAt` must not exceed `maxAge`.
   */
  function Loads(t: Token, key: Key, maxAge: int, now: int): (r: Result<Claims, LoadError>)
    ensures r.Success? <==> t.Signed? && t.signer == key && now - t.issuedAt <= maxAge
    ensures r.Success? ==> r.value == t.claims
    ensures r.Failure? && (t.Malformed? || t.signer != key) ==> r.error == BadSignature
    ensures t.Signed? && t.signer == key && now - t.issuedAt > maxAge ==> r == Failure(SignatureExpired)
  {
    match t
    case Malformed => Failure(BadSignature)
    case Signed(claims, issuedAt, signer) =>
      if signer != key then Failure(BadSignature)
      else if now - issuedAt > maxAge then Failure(SignatureExpired)
      else Success(claims)
  }

  /** The token `send_subscriber_email` mints for `email`. */
  function MintSubscribeToken(email: string, key: Key, now: int): (t: Token)
    ensures t.Signed? && t.claims == map[EmailClaim := email] && t.issuedAt == now && t.signer == key
  {
    Dumps(map[EmailClaim := email], key, now)
  }

  /**
    `verify_subscribe_token`: the embedded address, or `None` on any failure
    (bad signature, expired, or a payload without an `email` field).
   */
  function VerifySubscribeToken(t: Token, key: Key, now: int): (r: Option<string>)
    ensures r.Some? <==>
      t.Signed? && t.signer == key && now - t.issuedAt <= SubscribeMaxAge && EmailClaim in t.claims
    ensures r.Some? ==> r.value == t.claims[EmailClaim]
  {
    match Loads(t, key, SubscribeMaxAge, now)
    case Failure(_) => None
    case Success(claims) => if EmailClaim in claims then Some(claims[EmailClaim]) else None
  }

  /** A freshly minted subscription token loads back to its address within 180 seconds. */
  lemma SubscribeTokenRoundTrip(email: string, key: Key, issuedAt: int, now: int)
    requires now - issuedAt <= SubscribeMaxAge
    ensures VerifySubscribeToken(MintSubscribeToken(email, key, issuedAt), key, now) == Some(email)
  {
  }

  /** After 180 seconds the same token is rejected. */
  lemma SubscribeTokenExpires(email: string, key: Key, issuedAt: int, now: int)
    requires now - issuedAt > SubscribeMaxAge
    ensures VerifySubscribeToken(MintSubscribeToken(email, key, issuedAt), key, now) == None
    ensures Loads(MintSubscribeToken(email, key, issuedAt), key, SubscribeMaxAge, now) == Failure(SignatureExpired)
  {
  }

  /** A token signed under another key never verifies, whatever its age. */
  lemma ForeignKeyRejected(t: Token, key: Key, now: int)
    requires t.Signed? && t.signer != key
    ensures VerifySubscribeToken(t, key, now) == None
    ensures Loads(t, key, SubscribeMaxAge, now) == Failure(BadSignature)
  {
  }
}
