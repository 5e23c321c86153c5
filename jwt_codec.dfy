/**
 * Issuing and checking the session tokens of backend/app/utils/auth.py: JSON Web
 * Tokens (RFC 7519) signed with HS256 (section 3.2 of RFC 7518).
 *
 * The token keeps the JWS compact shape `header "." payload "." signature`. The
 * base64url-encoded JSON of header and claims is replaced by plain text: the
 * header is the algorithm name and the payload is `user_id "," iat "," exp` in
 * canonical decimal, so it parses back only from its own spelling, as JSON
 * does. The HMAC is a parameter `mac(key, signingInput)`; nothing is assumed
 * of it except where a lemma says so.
 */
module JwtCodec {
  import opened Wrappers
  import opened Text

  /** `timedelta(hours=1)`: a token lives for an hour after it is issued. */
  const TOKEN_LIFETIME: nat := 3600

  /** The only algorithm `jwt.decode(..., algorithms=["HS256"])` accepts. */
  const ALGORITHM: string := "HS256"

  /** The registered claims the code writes: `user_id`, `iat` (section 4.1.6 of RFC 7519) and `exp` (section 4.1.4 of RFC 7519). */
  datatype Claims = Claims(userId: nat, iat: nat, exp: nat)

  /** The failures of `jwt.decode`; every one is an InvalidTokenError, ExpiredSignature its subclass ExpiredSignatureError. */
  datatype JwtError = DecodeError | InvalidAlgorithm | InvalidSignature | ExpiredSignature

  /** HMAC-SHA256 of a signing input under a key, as the signature text it yields. */
  type Mac = (string, string) -> string

  /** The decimal spelling of a number, refusing any other spelling of it (such as leading zeros). */
  function CanonicalNat(s: string): (r: Option<nat>)
    ensures r.Some? ==> NatToString(r.value) == s
  {
    match ParseNat(s)
    case None => None
    case Some(n) => if NatToString(n) == s then Some(n) else None
  }

  lemma CanonicalNatRoundTrip(n: nat)
    ensures CanonicalNat(NatToString(n)) == Some(n)
  {
    ParseNatRoundTrip(n);
  }

  function Payload(c: Claims): string {
    NatToString(c.userId) + "," + NatToString(c.iat) + "," + NatToString(c.exp)
  }

  function ParsePayload(p: string): Option<Claims> {
    match SplitOnce(p, ',')
    case None => None
    case Some((a, rest)) =>
      match SplitOnce(rest, ',')
      case None => None
      case Some((b, e)) =>
        var (u, i, x) := (CanonicalNat(a), CanonicalNat(b), CanonicalNat(e));
        if u.Some? && i.Some? && x.Some? then Some(Claims(u.value, i.value, x.value)) else None
  }

  /** Claims read back from a payload were written as exactly that payload, and vice versa. */
  lemma PayloadRoundTrip(c: Claims, p: string)
    ensures ParsePayload(p) == Some(c) <==> p == Payload(c)
  {
    var a, b, e := NatToString(c.userId), NatToString(c.iat), NatToString(c.exp);
    NoSeparatorInNumber(c.userId, ',');
    NoSeparatorInNumber(c.iat, ',');
    assert Payload(c) == a + [','] + (b + [','] + e);
    SplitOnceOfJoin(a, ',', b + [','] + e);
    SplitOnceOfJoin(b, ',', e);
    CanonicalNatRoundTrip(c.userId);
    CanonicalNatRoundTrip(c.iat);
    CanonicalNatRoundTrip(c.exp);
    if ParsePayload(p) == Some(c) {
      var (a', rest) := SplitOnce(p, ',').value;
      var (b', e') := SplitOnce(rest, ',').value;
      assert a' == a && b' == b && e' == e;
    }
  }

  function SigningInput(header: string, payload: string): string {
    header + "." + payload
  }

  /** `jwt.encode(payload, key, algorithm="HS256")`. */
  function Encode(c: Claims, key: string, mac: Mac): string {
    var input := SigningInput(ALGORITHM, Payload(c));
    input + "." + mac(key, input)
  }

  /** The three dot-separated segments of a compact token, split at its first two dots. */
  function Segments(token: string): (r: Option<(string, string, string)>)
    ensures r.Some? ==> token == SigningInput(r.value.0, r.value.1) + "." + r.value.2
  {
    match SplitOnce(token, '.')
    case None => None
    case Some((header, rest)) =>
      match SplitOnce(rest, '.')
      case None => None
      case Some((payload, signature)) => Some((header, payload, signature))
  }

  /** An encoded token splits back into its algorithm, its payload and its signature. */
  lemma SegmentsOfEncode(c: Claims, key: string, mac: Mac)
    ensures Segments(Encode(c, key, mac))
         == Some((ALGORITHM, Payload(c), mac(key, SigningInput(ALGORITHM, Payload(c)))))
  {
    var p := Payload(c);
    var sig := mac(key, SigningInput(ALGORITHM, p));
    NoSeparatorInNumber(c.userId, '.');
    NoSeparatorInNumber(c.iat, '.');
    NoSeparatorInNumber(c.exp, '.');
    assert '.' !in p by {
      assert p == NatToString(c.userId) + [','] + NatToString(c.iat) + [','] + NatToString(c.exp);
    }
    assert Encode(c, key, mac) == ALGORITHM + ['.'] + (p + ['.'] + sig);
    SplitOnceOfJoin(ALGORITHM, '.', p + ['.'] + sig);
    SplitOnceOfJoin(p, '.', sig);
  }

  /**
   * `jwt.decode(token, key, algorithms=["HS256"])` at time now, checking in
   * PyJWT's order: the token's shape, the algorithm, the signature, the claims,
   * and last the expiry, which fails once `exp <= now`.
   */
  function Decode(token: string, key: string, now: nat, mac: Mac): (r: Result<Claims, JwtError>)
    ensures r.Ok? ==> now < r.value.exp && token == Encode(r.value, key, mac)
  {
    match Segments(token)
    case None => Err(DecodeError)
    case Some((header, payload, signature)) =>
      if header != ALGORITHM then Err(InvalidAlgorithm)
      else if signature != mac(key, SigningInput(header, payload)) then Err(InvalidSignature)
      else
        match ParsePayload(payload)
        case None => Err(DecodeError)
        case Some(c) =>
          PayloadRoundTrip(c, payload);
          if c.exp <= now then Err(ExpiredSignature) else Ok(c)
  }

  /** A token this key signed decodes to its claims until, and not after, its expiry. */
  lemma DecodeEncode(c: Claims, key: string, now: nat, mac: Mac)
    ensures Decode(Encode(c, key, mac), key, now, mac)
         == if now < c.exp then Ok(c) else Err(ExpiredSignature)
  {
    SegmentsOfEncode(c, key, mac);
    PayloadRoundTrip(c, Payload(c));
  }

  /** Decoding accepts exactly the unexpired tokens signed with the key, and yields their claims. */
  lemma DecodeAcceptsExactly(token: string, c: Claims, key: string, now: nat, mac: Mac)
    ensures Decode(token, key, now, mac) == Ok(c) <==> token == Encode(c, key, mac) && now < c.exp
  {
    DecodeEncode(c, key, now, mac);
  }

  /** Equal encodings carry the same claims and the same signature. */
  lemma EncodeInjective(c: Claims, k1: string, d: Claims, k2: string, mac: Mac)
    requires Encode(c, k1, mac) == Encode(d, k2, mac)
    ensures c == d
    ensures mac(k1, SigningInput(ALGORITHM, Payload(c))) == mac(k2, SigningInput(ALGORITHM, Payload(c)))
  {
    SegmentsOfEncode(c, k1, mac);
    SegmentsOfEncode(d, k2, mac);
    PayloadRoundTrip(c, Payload(c));
    PayloadRoundTrip(d, Payload(c));
  }

  /** A token signed under another key is refused when the two keys sign its input differently. */
  lemma WrongKeyRejected(c: Claims, signer: string, key: string, now: nat, mac: Mac)
    requires mac(signer, SigningInput(ALGORITHM, Payload(c))) != mac(key, SigningInput(ALGORITHM, Payload(c)))
    ensures Decode(Encode(c, signer, mac), key, now, mac).Err?
  {
    if Decode(Encode(c, signer, mac), key, now, mac).Ok? {
      var d := Decode(Encode(c, signer, mac), key, now, mac).value;
      EncodeInjective(c, signer, d, key, mac);
    }
  }

  /**
   * generate_token: the claims `user_id`, `iat = now` and `exp = now + 1 hour`,
   * signed with the secret key; None when the key is not configured, standing
   * for any failure that the `except Exception` turns into None.
   */
  function GenerateToken(userId: nat, secret: Option<string>, now: nat, mac: Mac): (r: Option<string>)
    ensures r.None? <==> secret.None?
  {
    match secret
    case None => None
    case Some(key) => Some(Encode(Claims(userId, now, now + TOKEN_LIFETIME), key, mac))
  }

  /** validate_token: the token's `user_id`, or None for any invalid or expired token. */
  function ValidateToken(token: string, secret: string, now: nat, mac: Mac): (r: Option<nat>)
    ensures r.Some? <==> Decode(token, secret, now, mac).Ok?
  {
    match Decode(token, secret, now, mac)
    case Ok(c) => Some(c.userId)
    case Err(_) => None
  }

  /** The issued token carries user_id, iat = now and exp = now + 3600. */
  lemma GeneratedClaims(userId: nat, key: string, now: nat, mac: Mac)
    ensures var t := GenerateToken(userId, Some(key), now, mac).value;
      Decode(t, key, now, mac) == Ok(Claims(userId, now, now + TOKEN_LIFETIME))
  {
    DecodeEncode(Claims(userId, now, now + TOKEN_LIFETIME), key, now, mac);
  }

  /**
   * Round trip: under the same key a generated token validates to its user
   * during the hour after issue and to None from then on.
   */
  lemma ValidateGenerated(userId: nat, key: string, issued: nat, now: nat, mac: Mac)
    ensures var t := GenerateToken(userId, Some(key), issued, mac).value;
      ValidateToken(t, key, now, mac) == if now < issued + TOKEN_LIFETIME then Some(userId) else None
  {
    DecodeEncode(Claims(userId, issued, issued + TOKEN_LIFETIME), key, now, mac);
  }
}
