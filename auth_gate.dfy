/**
 * The request guards of backend/app/utils/auth.py. `jwt_required` runs a fixed
 * chain: a token must be present after "Bearer " is removed, must not be
 * blacklisted, and must decode under the secret key before the handler runs with
 * `g.user_id` set. `admin_required` then demands a truthy `g.user_id` naming an
 * admin. The store's clock is the wall clock both checks read.
 */
module AuthGate {
  import opened Wrappers
  import opened Text
  import opened TokenStore
  import opened JwtCodec
  import opened UserService

  const BEARER_PREFIX: string := "Bearer "

  /** What a guarded request produces: the handler runs, a JSON error with a status, or an uncaught exception. */
  datatype Response = Handled | Reject(status: nat, message: string) | Crash

  /** The outcome of the `jwt_required` chain. */
  datatype Decision = Accept(userId: nat) | Deny(message: string)

  /** `request.headers.get("Authorization", "").replace("Bearer ", "")`. */
  function ExtractToken(header: Option<string>): string {
    RemoveAll(header.GetOr(""), BEARER_PREFIX)
  }

  /** The jwt_required chain: presence, then the blacklist, then decoding with its expiry check. */
  function Authorize(header: Option<string>, s: StoreState, key: string, mac: Mac): Decision {
    AuthorizeToken(ExtractToken(header), s, key, mac)
  }

  /** The chain run on the token taken from the header. */
  function AuthorizeToken(token: string, s: StoreState, key: string, mac: Mac): Decision {
    if token == "" then Deny("Token is missing")
    else if Blacklisted(s, token) then Deny("Token is expired and blacklisted")
    else
      var d := Decode(token, key, s.now, mac);
      if d.Ok? then Accept(d.value.userId)
      else if d.error == ExpiredSignature then Deny("Token has expired")
      else Deny("Invalid token")
  }

  /** Every denial of jwt_required is a 401 carrying its message. */
  function ToResponse(d: Decision): (r: Response)
    ensures d.Accept? <==> r == Handled
    ensures d.Deny? ==> r == Reject(401, d.message)
  {
    match d
    case Accept(_) => Handled
    case Deny(m) => Reject(401, m)
  }

  /** A request is accepted exactly when it presents an unexpired token signed with the key that is not blacklisted. */
  lemma AcceptIff(header: Option<string>, s: StoreState, key: string, mac: Mac, c: Claims)
    ensures Authorize(header, s, key, mac) == Accept(c.userId) <==>
      exists d: Claims :: d.userId == c.userId && AcceptedWith(header, s, key, mac, d)
  {
    var token := ExtractToken(header);
    if Authorize(header, s, key, mac) == Accept(c.userId) {
      var d := Decode(token, key, s.now, mac).value;
      assert AcceptedWith(header, s, key, mac, d);
    }
    if exists d: Claims :: d.userId == c.userId && AcceptedWith(header, s, key, mac, d) {
      var d: Claims :| d.userId == c.userId && AcceptedWith(header, s, key, mac, d);
      DecodeEncode(d, key, s.now, mac);
    }
  }

  /** The header yields a nonempty token, the key's unexpired encoding of the claims, which is not blacklisted. */
  predicate AcceptedWith(header: Option<string>, s: StoreState, key: string, mac: Mac, c: Claims) {
    var token := ExtractToken(header);
    token != "" && token == Encode(c, key, mac) && s.now < c.exp && !Blacklisted(s, token)
  }

  /** A missing token is refused first, whatever the store holds and whatever the key. */
  lemma MissingTokenFirst(header: Option<string>, s: StoreState, key: string, mac: Mac)
    requires ExtractToken(header) == ""
    ensures Authorize(header, s, key, mac) == Deny("Token is missing")
  {
  }

  /** A blacklisted token is refused even when it is validly signed and unexpired. */
  lemma BlacklistBeforeDecode(c: Claims, key: string, mac: Mac, s: StoreState, header: Option<string>)
    requires ExtractToken(header) == Encode(c, key, mac)
    requires s.now < c.exp && Blacklisted(s, Encode(c, key, mac))
    ensures Decode(Encode(c, key, mac), key, s.now, mac) == Ok(c)
    ensures Authorize(header, s, key, mac) == Deny("Token is expired and blacklisted")
  {
    DecodeEncode(c, key, s.now, mac);
  }

  /** A generated token contains no space, unless its signature does. */
  lemma {:induction false} NoSpaceInEncoding(c: Claims, key: string, mac: Mac)
    requires ' ' !in mac(key, SigningInput(ALGORITHM, Payload(c)))
    ensures ' ' !in Encode(c, key, mac)
  {
    NoSeparatorInNumber(c.userId, ' ');
    NoSeparatorInNumber(c.iat, ' ');
    NoSeparatorInNumber(c.exp, ' ');
    var sig := mac(key, SigningInput(ALGORITHM, Payload(c)));
    assert Encode(c, key, mac)
        == ALGORITHM + "." + NatToString(c.userId) + "," + NatToString(c.iat) + "," + NatToString(c.exp) + "." + sig;
  }

  /** `Authorization: Bearer <token>` yields the token, when the token holds no space. */
  lemma BearerHeaderYieldsToken(token: string)
    requires ' ' !in token
    ensures ExtractToken(Some(BEARER_PREFIX + token)) == token
  {
    RemoveAllLeading(BEARER_PREFIX, token);
    RemoveAllAbsent(token, BEARER_PREFIX, 6);
  }

  /**
   * A token just issued is accepted for its user during its hour while it is
   * not blacklisted, and refused as expired afterwards.
   */
  lemma IssuedTokenAccepted(userId: nat, key: string, issued: nat, s: StoreState, mac: Mac)
    requires ' ' !in mac(key, SigningInput(ALGORITHM, Payload(Claims(userId, issued, issued + TOKEN_LIFETIME))))
    ensures var t := GenerateToken(userId, Some(key), issued, mac).value;
      !Blacklisted(s, t) ==>
        Authorize(Some(BEARER_PREFIX + t), s, key, mac)
        == if s.now < issued + TOKEN_LIFETIME then Accept(userId) else Deny("Token has expired")
  {
    var c := Claims(userId, issued, issued + TOKEN_LIFETIME);
    NoSpaceInEncoding(c, key, mac);
    BearerHeaderYieldsToken(Encode(c, key, mac));
    DecodeEncode(c, key, s.now, mac);
  }

  /**
   * Logout blacklists for an hour, and a token lives for an hour from its
   * issue, so a token logged out at time n has `exp <= n + 3600`. It is then
   * refused at every later time: as blacklisted while the entry lasts, and as
   * expired once the entry lapses.
   */
  lemma LogoutRefusesForGood(c: Claims, key: string, mac: Mac, s: StoreState, d: nat, header: Option<string>)
    requires ExtractToken(header) == Encode(c, key, mac)
    requires c.exp <= s.now + DEFAULT_BLACKLIST_TTL
    ensures SetEx(s, Encode(c, key, mac), DEFAULT_BLACKLIST_TTL).Ok?
    ensures Authorize(header, Tick(SetEx(s, Encode(c, key, mac), DEFAULT_BLACKLIST_TTL).value, d), key, mac).Deny?
  {
    var t := Encode(c, key, mac);
    var r := Tick(SetEx(s, t, DEFAULT_BLACKLIST_TTL).value, d);
    assert r.blacklist[t] == s.now + DEFAULT_BLACKLIST_TTL;
    EncodedTokenDenied(c, key, mac, r, header);
  }

  /** A token that is the key's encoding of some claims is refused while blacklisted and once expired. */
  lemma EncodedTokenDenied(c: Claims, key: string, mac: Mac, s: StoreState, header: Option<string>)
    requires ExtractToken(header) == Encode(c, key, mac)
    requires Blacklisted(s, Encode(c, key, mac)) || c.exp <= s.now
    ensures Authorize(header, s, key, mac).Deny?
  {
    var t := Encode(c, key, mac);
    if !Blacklisted(s, t) {
      DecodeEncode(c, key, s.now, mac);
      ExpiredTokenDenied(t, s, key, mac);
    }
  }

  /** A token that decodes as expired is refused, once it passed the presence and blacklist checks. */
  lemma ExpiredTokenDenied(token: string, s: StoreState, key: string, mac: Mac)
    requires Decode(token, key, s.now, mac) == Err(ExpiredSignature)
    ensures AuthorizeToken(token, s, key, mac).Deny?
  {
  }

  /**
   * After a successful revocation every revoked token whose registry entry does
   * not end before its own `exp` is refused at every later time.
   */
  lemma RevokedTokensRefused(s: StoreState, u: UserId, c: Claims, key: string, mac: Mac, d: nat, header: Option<string>)
    requires Revoke(s, u).Ok?
    requires ExtractToken(header) == Encode(c, key, mac)
    requires Encode(c, key, mac) in UserTokens(s, u) && c.exp <= UserTokens(s, u)[Encode(c, key, mac)]
    ensures Authorize(header, Tick(Revoke(s, u).value, d), key, mac).Deny?
  {
    var r := Revoke(s, u).value;
    RevokeBlacklistsEveryToken(s, u);
    EncodedTokenDenied(c, key, mac, Tick(r, d), header);
  }

  /**
   * admin_required: a missing `g.user_id` raises; a falsy one (0) is a 401; a
   * user that does not exist or is not an admin is a 403; otherwise the handler runs.
   */
  function AdminCheck(userId: Option<nat>, users: seq<User>): Response {
    match userId
    case None => Crash
    case Some(id) =>
      if id == 0 then Reject(401, "Unauthorized")
      else match FindById(users, id)
        case None => Reject(403, "Admin access required")
        case Some(u) => if u.isAdmin then Handled else Reject(403, "Admin access required")
  }

  /** The handler runs exactly for a set, nonzero id of an existing admin (ids being unique). */
  lemma AdminCheckIff(userId: Option<nat>, users: seq<User>)
    requires forall i, j :: 0 <= i < j < |users| ==> users[i].id != users[j].id
    ensures AdminCheck(userId, users) == Handled <==>
      userId.Some? && userId.value != 0 && exists u :: u in users && u.id == userId.value && u.isAdmin
    ensures AdminCheck(userId, users).Reject? ==> AdminCheck(userId, users).status in {401, 403}
  {
    if userId.Some? && userId.value != 0 && exists u :: u in users && u.id == userId.value && u.isAdmin {
      var u :| u in users && u.id == userId.value && u.isAdmin;
      AdminFound(users, u);
    }
  }

  /** With unique ids, the user found by id is the one holding it. */
  lemma {:induction false} AdminFound(users: seq<User>, u: User)
    requires u in users
    requires forall i, j :: 0 <= i < j < |users| ==> users[i].id != users[j].id
    ensures FindById(users, u.id) == Some(u)
    decreases |users|
  {
    if users[0] != u {
      var k :| 0 <= k < |users| && users[k] == u;
      assert k > 0 && users[0].id != u.id;
      assert users[1..][k - 1] == u;
      AdminFound(users[1..], u);
    }
  }

  /** Flask's `g`: the request context that jwt_required writes and admin_required reads. */
  class RequestContext {
    /** `g.user_id`; None until jwt_required sets it. */
    var userId: Option<nat>

    constructor ()
      ensures userId == None
    {
      userId := None;
    }
  }

  /** The jwt_required wrapper: on acceptance `g.user_id` is set and the handler runs. */
  method JwtRequired(header: Option<string>, store: Store, key: string, mac: Mac, g: RequestContext)
    returns (resp: Response)
    modifies g
    ensures resp == ToResponse(Authorize(header, store.State(), key, mac))
    ensures g.userId == match Authorize(header, store.State(), key, mac)
      case Accept(u) => Some(u)
      case Deny(_) => old(g.userId)
  {
    var token := ExtractToken(header);
    if token == "" {
      return Reject(401, "Token is missing");
    }
    var banned := store.IsTokenBlacklisted(token);
    if banned {
      return Reject(401, "Token is expired and blacklisted");
    }
    var decoded := Decode(token, key, store.now, mac);
    match decoded {
      case Ok(claims) =>
        g.userId := Some(claims.userId);
      case Err(ExpiredSignature) =>
        return Reject(401, "Token has expired");
      case Err(_) =>
        return Reject(401, "Invalid token");
    }
    resp := Handled;
  }

  /** The admin_required wrapper, reading `g.user_id`. */
  method AdminRequired(g: RequestContext, users: seq<User>) returns (resp: Response)
    ensures resp == AdminCheck(g.userId, users)
  {
    if g.userId.None? {
      return Crash;
    }
    var id := g.userId.value;
    if id == 0 {
      return Reject(401, "Unauthorized");
    }
    var user := FindById(users, id);
    if user.None? || !user.value.isAdmin {
      return Reject(403, "Admin access required");
    }
    resp := Handled;
  }
}
