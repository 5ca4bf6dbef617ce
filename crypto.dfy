/**
 * The two cryptographic collaborators of the service, as symbolic terms:
 * bcrypt's salted hash and comparison, and jsonwebtoken's signature.
 */
module Crypto {

  import opened Wrappers

  /**
   * A bcrypt digest. It is a free term over the plaintext and the salt:
   * the model never reads the plaintext back out of it except through
   * `Matches`, which is what makes it one-way.
   */
  datatype Digest = Digest(plain: string, salt: string)

  /** `bcrypt.hash(password, salt)` when it succeeds. */
  function Hash(password: string, salt: string): (d: Digest)
    ensures Matches(password, d)
    ensures forall other :: Matches(other, d) ==> other == password
  {
    Digest(password, salt)
  }

  /** Whether `candidate` is the plaintext the digest was computed from. */
  predicate Matches(candidate: string, d: Digest)
  {
    d.plain == candidate
  }

  /** The two values bcrypt's compare callback can receive. */
  datatype CompareResult = CompareError | Compared(isMatch: bool)

  /**
   * `bcrypt.compare(candidate, hash, callback)`. It reports an error when
   * the stored value is not a digest at all (`hash == None`) or when the
   * library itself fails (`fault`), and otherwise whether the candidate
   * matches.
   */
  function Compare(candidate: string, hash: Option<Digest>, fault: bool): (r: CompareResult)
    ensures r == Compared(true) <==> !fault && hash.Some? && Matches(candidate, hash.value)
    ensures r.CompareError? <==> fault || hash.None?
  {
    if fault || hash.None? then CompareError
    else Compared(Matches(candidate, hash.value))
  }

  /** The signing secret and lifetime read from the process environment. */
  datatype Config = Config(secret: string, expiresIn: string)

  /** A signed token: the claims it was issued over and how it was signed. */
  datatype Token<C> = Signed(claims: C, secret: string, expiresIn: string)

  /**
   * `jwt.sign(claims, secret, {expiresIn})`: the token gives back its
   * claims to a verifier holding the same secret, and to no other.
   */
  function Sign<C>(claims: C, cfg: Config): (t: Token<C>)
    ensures Verify(t, cfg.secret) == Some(claims)
    ensures forall other :: other != cfg.secret ==> Verify(t, other).None?
    ensures t.expiresIn == cfg.expiresIn
  {
    Signed(claims, cfg.secret, cfg.expiresIn)
  }

  /** A verifier's view of a token: its claims if the secret is the signer's. */
  function Verify<C>(t: Token<C>, secret: string): Option<C>
  {
    if t.secret == secret then Some(t.claims) else None
  }
}
