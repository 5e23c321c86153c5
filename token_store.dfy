/**
 * The Redis token store of backend/app/utils/redis_helper.py.
 *
 * Redis is modelled in memory with an explicit integer clock: each key family of
 * RedisKeys is a map of its own, and a key with a deadline is visible while
 * `now < deadline` (Redis drops it when its TTL runs out). StoreState and the
 * functions on it say what each helper does; the class Store holds the same
 * fields and its methods, written step by step as the helpers are, are proved
 * against those functions.
 */
module TokenStore {
  import opened Wrappers

  type UserId = nat
  type Token = string

  /** The TTL `blacklist_token` uses when none is given. */
  const DEFAULT_BLACKLIST_TTL: int := 3600

  /** SETEX refuses a TTL that is not positive ("invalid expire time"). */
  datatype StoreError = InvalidExpireTime

  datatype StoreState = StoreState(
    now: nat,
    /** `user:{id}:tokens`: token -> absolute expiry time. */
    hashes: map<UserId, map<Token, int>>,
    /** Deadline of each `user:{id}:tokens` key; a key without an entry has no TTL. */
    hashDeadline: map<UserId, int>,
    /** `blacklist:{token}` keys and their deadlines. */
    blacklist: map<Token, int>,
    /** `token:{token}:expiry` keys, plain keys without a TTL. */
    expiryKeys: map<Token, int>)

  function Empty(start: nat): StoreState {
    StoreState(start, map[], map[], map[], map[])
  }

  /** The clock moves forward by d seconds. */
  function Tick(s: StoreState, d: nat): StoreState {
    s.(now := s.now + d)
  }

  predicate HashLive(s: StoreState, u: UserId) {
    u in s.hashes && (u in s.hashDeadline ==> s.now < s.hashDeadline[u])
  }

  /** HGETALL `user:{u}:tokens`: an absent or expired key reads as an empty hash. */
  function UserTokens(s: StoreState, u: UserId): map<Token, int> {
    if HashLive(s, u) then s.hashes[u] else map[]
  }

  /** The TTL command on `user:{u}:tokens`: the seconds left, when the key has a deadline. */
  function HashTtl(s: StoreState, u: UserId): Option<int> {
    if HashLive(s, u) && u in s.hashDeadline then Some(s.hashDeadline[u] - s.now) else None
  }

  /** EXISTS `blacklist:{t}`. */
  predicate Blacklisted(s: StoreState, t: Token) {
    t in s.blacklist && s.now < s.blacklist[t]
  }

  /** `max(0, int(expiry - now))` with integer times. */
  function RemainingTtl(expiry: int, now: int): (r: int)
    ensures r >= 0
    ensures r == 0 <==> expiry <= now
    ensures r > 0 ==> now + r == expiry
  {
    if expiry - now > 0 then expiry - now else 0
  }

  function Restrict<K, V>(m: map<K, V>, keys: set<K>): map<K, V> {
    map k | k in m && k in keys :: m[k]
  }

  /**
   * add_token_to_user: HSET records `now + secs` for t in u's hash (an expired
   * hash is gone, so t lands in a fresh one), then EXPIRE gives the whole hash
   * the TTL `secs`; a TTL that is not positive deletes the key, as Redis does.
   */
  function AddToken(s: StoreState, u: UserId, t: Token, secs: int): StoreState {
    if secs > 0 then
      s.(hashes := s.hashes[u := UserTokens(s, u)[t := s.now + secs]],
         hashDeadline := s.hashDeadline[u := s.now + secs])
    else
      s.(hashes := s.hashes - {u}, hashDeadline := s.hashDeadline - {u})
  }

  /** blacklist_token: SETEX `blacklist:{t}` with the given TTL. */
  function SetEx(s: StoreState, t: Token, ttl: int): Result<StoreState, StoreError> {
    if ttl <= 0 then Err(InvalidExpireTime)
    else Ok(s.(blacklist := s.blacklist[t := s.now + ttl]))
  }

  /** A token in u's hash whose recorded expiry is not after now. */
  predicate HasLapsedToken(s: StoreState, u: UserId) {
    exists t :: t in UserTokens(s, u) && UserTokens(s, u)[t] <= s.now
  }

  /**
   * revoke_user_tokens as written: each token is blacklisted for its remaining
   * lifetime, which is 0 for a lapsed token, and SETEX refuses 0; otherwise the
   * hash is deleted. The blacklist entries written before the refusal are
   * described by Store.RevokeUserTokens.
   */
  function Revoke(s: StoreState, u: UserId): Result<StoreState, StoreError> {
    if HasLapsedToken(s, u) then Err(InvalidExpireTime)
    else Ok(s.(blacklist := s.blacklist + UserTokens(s, u),
               hashes := s.hashes - {u}, hashDeadline := s.hashDeadline - {u}))
  }

  /** The tokens of m still valid at time now. */
  function LiveTokens(m: map<Token, int>, now: int): map<Token, int> {
    map t | t in m && now < m[t] :: m[t]
  }

  /** revoke_user_tokens corrected: a lapsed token needs no blacklist entry and is skipped. */
  function RevokeSkippingLapsed(s: StoreState, u: UserId): StoreState {
    s.(blacklist := s.blacklist + LiveTokens(UserTokens(s, u), s.now),
       hashes := s.hashes - {u}, hashDeadline := s.hashDeadline - {u})
  }

  /**
   * add_token_to_user corrected to what its comment promises: the hash expires
   * after the longest-lived of its tokens, so a shorter TTL never shortens it.
   */
  function AddTokenKeepingLongest(s: StoreState, u: UserId, t: Token, secs: int): StoreState {
    var deadline :=
      if HashLive(s, u) && u in s.hashDeadline && s.hashDeadline[u] > s.now + secs
      then s.hashDeadline[u] else s.now + secs;
    if deadline > s.now then
      s.(hashes := s.hashes[u := UserTokens(s, u)[t := s.now + secs]],
         hashDeadline := s.hashDeadline[u := deadline])
    else
      s.(hashes := s.hashes - {u}, hashDeadline := s.hashDeadline - {u})
  }

  /** is_token_expired: an absent `token:{t}:expiry` counts as expired; equality does not. */
  predicate TokenExpired(s: StoreState, t: Token) {
    t !in s.expiryKeys || s.now > s.expiryKeys[t]
  }

  /** The registry outlives each of its tokens: u's hash has a deadline no earlier than any token's expiry. */
  predicate Covers(s: StoreState, u: UserId) {
    HashLive(s, u) ==>
      u in s.hashDeadline && forall t :: t in s.hashes[u] ==> s.hashes[u][t] <= s.hashDeadline[u]
  }

  lemma RestrictAdd<K, V>(m: map<K, V>, keys: set<K>, k: K)
    requires k in m
    ensures Restrict(m, keys + {k}) == Restrict(m, keys)[k := m[k]]
  {
  }

  lemma RestrictAll<K, V>(m: map<K, V>)
    ensures Restrict(m, m.Keys) == m
  {
  }

  lemma UpdateOverRemove<K, V>(m: map<K, V>, k: K, v: V)
    ensures (m - {k})[k := v] == m[k := v]
  {
  }

  lemma RemoveOverUpdate<K, V>(m: map<K, V>, k: K, v: V)
    ensures m[k := v] - {k} == m - {k}
  {
  }

  lemma RemoveTwice<K, V>(m: map<K, V>, k: K)
    ensures m - {k} - {k} == m - {k}
  {
  }

  lemma MergeUpdate<K, V>(a: map<K, V>, b: map<K, V>, k: K, v: V)
    ensures (a + b)[k := v] == a + b[k := v]
  {
  }

  lemma LiveRestrictAdd(m: map<Token, int>, keys: set<Token>, k: Token, now: int)
    requires k in m
    ensures LiveTokens(Restrict(m, keys + {k}), now)
         == if now < m[k] then LiveTokens(Restrict(m, keys), now)[k := m[k]]
            else LiveTokens(Restrict(m, keys), now) - {k}
  {
  }

  // ----- add_token_to_user -----

  /** The token is recorded with expiry now + secs; other tokens of u keep their entries. */
  lemma AddTokenRecordsExpiry(s: StoreState, u: UserId, t: Token, secs: int)
    requires secs > 0
    ensures var m := UserTokens(AddToken(s, u, t, secs), u);
      && t in m && m[t] == s.now + secs
      && (forall x :: x != t ==> (x in m <==> x in UserTokens(s, u)))
      && (forall x :: x != t && x in m ==> m[x] == UserTokens(s, u)[x])
  {
  }

  /** The whole hash's TTL becomes exactly secs, whatever it was before. */
  lemma AddTokenResetsTtl(s: StoreState, u: UserId, t: Token, secs: int)
    requires secs > 0
    ensures HashTtl(AddToken(s, u, t, secs), u) == Some(secs)
  {
  }

  /** Other users' hashes, the blacklist and the expiry keys are untouched. */
  lemma AddTokenLocal(s: StoreState, u: UserId, t: Token, secs: int, v: UserId)
    requires v != u
    ensures var r := AddToken(s, u, t, secs);
      UserTokens(r, v) == UserTokens(s, v) && HashTtl(r, v) == HashTtl(s, v)
      && r.blacklist == s.blacklist && r.expiryKeys == s.expiryKeys && r.now == s.now
  {
  }

  /**
   * test_get_user_tokens: two tokens added for one user are both listed, and
   * re-adding a token keeps one entry with the newer expiry.
   */
  lemma TokensAccumulate(start: nat, u: UserId)
    ensures var s := AddToken(AddToken(Empty(start), u, "token1", 3600), u, "token2", 3600);
      UserTokens(s, u).Keys == {"token1", "token2"}
    ensures var s := AddToken(Tick(AddToken(Empty(start), u, "token1", 3600), 10), u, "token1", 3600);
      UserTokens(s, u) == map["token1" := start + 3610]
  {
    var s1 := AddToken(Empty(start), u, "token1", 3600);
    assert UserTokens(s1, u) == map["token1" := start + 3600];
    var s2 := AddToken(Tick(s1, 10), u, "token1", 3600);
    assert UserTokens(Tick(s1, 10), u) == map["token1" := start + 3600];
  }

  /**
   * The TTL reset in action: a token registered for two hours drops out of the
   * registry 100 seconds later because a 60-second token was added after it.
   */
  lemma LatestTtlDropsEarlierToken()
    ensures var s := Tick(AddToken(AddToken(Empty(0), 1, "a", 7200), 1, "b", 60), 100);
      s.now < 7200 && UserTokens(s, 1) == map[]
    ensures !Covers(AddToken(AddToken(Empty(0), 1, "a", 7200), 1, "b", 60), 1)
  {
    var s1 := AddToken(Empty(0), 1, "a", 7200);
    var s2 := AddToken(s1, 1, "b", 60);
    assert s2.hashes[1]["a"] == 7200 && s2.hashDeadline[1] == 60;
  }

  /** The corrected add keeps the registry alive as long as its longest token. */
  lemma AddTokenKeepingLongestCovers(s: StoreState, u: UserId, t: Token, secs: int)
    requires Covers(s, u)
    ensures Covers(AddTokenKeepingLongest(s, u, t, secs), u)
    ensures secs > 0 ==> UserTokens(AddTokenKeepingLongest(s, u, t, secs), u)
                          == UserTokens(s, u)[t := s.now + secs]
  {
  }

  /** Under Covers, a token stays listed for as long as its recorded expiry has not passed. */
  lemma {:induction false} CoveredTokensStayListed(s: StoreState, u: UserId, t: Token, d: nat)
    requires Covers(s, u)
    requires t in UserTokens(s, u) && s.now + d < UserTokens(s, u)[t]
    ensures t in UserTokens(Tick(s, d), u) && UserTokens(Tick(s, d), u)[t] == UserTokens(s, u)[t]
  {
    assert HashLive(s, u);
    assert s.hashes[u][t] <= s.hashDeadline[u];
    assert HashLive(Tick(s, d), u);
  }

  // ----- blacklist_token and is_token_blacklisted -----

  /**
   * After blacklist_token(t, ttl) the token reads as blacklisted for exactly ttl
   * seconds; every other token reads as before; a TTL that is not positive is refused.
   */
  lemma BlacklistLastsTtl(s: StoreState, t: Token, ttl: int)
    ensures SetEx(s, t, ttl).Err? <==> ttl <= 0
    ensures SetEx(s, t, ttl).Ok? ==>
      && (forall d: nat :: Blacklisted(Tick(SetEx(s, t, ttl).value, d), t) <==> d < ttl)
      && (forall x :: x != t ==> (Blacklisted(SetEx(s, t, ttl).value, x) <==> Blacklisted(s, x)))
  {
  }

  /** test_is_token_blacklisted: blacklist_token with the default TTL. */
  lemma DefaultBlacklistScenario(start: nat)
    ensures SetEx(Empty(start), "blacklisted_token", DEFAULT_BLACKLIST_TTL).Ok?
    ensures var s := SetEx(Empty(start), "blacklisted_token", DEFAULT_BLACKLIST_TTL).value;
      Blacklisted(s, "blacklisted_token") && !Blacklisted(s, "non_blacklisted_token")
      && !Blacklisted(Tick(s, 3600), "blacklisted_token")
  {
  }

  // ----- revoke_user_tokens -----

  /** Revocation fails exactly when u's hash holds a lapsed token. */
  lemma RevokeFailsIffLapsed(s: StoreState, u: UserId)
    ensures Revoke(s, u).Err? <==> exists t :: t in UserTokens(s, u) && UserTokens(s, u)[t] <= s.now
  {
  }

  /**
   * On success every token of u stays blacklisted until exactly its recorded
   * expiry, u's hash reads as empty, and nothing else changes.
   */
  lemma {:induction false} RevokeBlacklistsEveryToken(s: StoreState, u: UserId)
    requires Revoke(s, u).Ok?
    ensures var r := Revoke(s, u).value;
      && UserTokens(r, u) == map[]
      && (forall t, d: nat :: t in UserTokens(s, u) ==>
            (Blacklisted(Tick(r, d), t) <==> s.now + d < UserTokens(s, u)[t]))
      && (forall t :: t !in UserTokens(s, u) ==> (t in r.blacklist <==> t in s.blacklist))
      && (forall t :: t !in UserTokens(s, u) && t in r.blacklist ==> r.blacklist[t] == s.blacklist[t])
      && (forall v :: v != u ==> UserTokens(r, v) == UserTokens(s, v))
  {
    var r := Revoke(s, u).value;
    var m := UserTokens(s, u);
    assert r.blacklist == s.blacklist + m;
    forall t, d: nat | t in m
      ensures Blacklisted(Tick(r, d), t) <==> s.now + d < m[t]
    {
      assert r.blacklist[t] == m[t];
    }
  }

  /** test_revoke_user_tokens: two fresh tokens are both blacklisted and the hash is gone. */
  lemma RevokeScenario(start: nat)
    ensures var s := AddToken(AddToken(Empty(start), 1, "token1", 3600), 1, "token2", 3600);
      Revoke(s, 1).Ok?
      && Blacklisted(Revoke(s, 1).value, "token1") && Blacklisted(Revoke(s, 1).value, "token2")
      && 1 !in Revoke(s, 1).value.hashes
  {
    var s := AddToken(AddToken(Empty(start), 1, "token1", 3600), 1, "token2", 3600);
    assert UserTokens(s, 1) == map["token1" := start + 3600, "token2" := start + 3600];
  }

  /**
   * The refusal in action: a token added at time 0 has lapsed at 3600 while the
   * hash, refreshed by a second token at 100, is still alive, so revocation at
   * 3600 fails; the corrected revocation blacklists the live token and deletes the hash.
   */
  lemma RevokeFailsOnLapsedToken()
    ensures var s := Tick(AddToken(Tick(AddToken(Empty(0), 1, "a", 3600), 100), 1, "b", 3600), 3500);
      && Revoke(s, 1).Err?
      && Blacklisted(RevokeSkippingLapsed(s, 1), "b")
      && 1 !in RevokeSkippingLapsed(s, 1).hashes
  {
    var s1 := AddToken(Empty(0), 1, "a", 3600);
    var s2 := AddToken(Tick(s1, 100), 1, "b", 3600);
    assert UserTokens(Tick(s1, 100), 1) == map["a" := 3600];
    var s := Tick(s2, 3500);
    assert s.now == 3600 && HashLive(s, 1);
    assert UserTokens(s, 1) == map["a" := 3600, "b" := 3700];
    assert "a" in UserTokens(s, 1) && UserTokens(s, 1)["a"] <= s.now;
    assert LiveTokens(UserTokens(s, 1), s.now) == map["b" := 3700];
  }

  /**
   * The corrected revocation never fails, bans each still-valid token until
   * its expiry and agrees with the original whenever that one succeeds.
   */
  lemma {:induction false} RevokeSkippingLapsedSound(s: StoreState, u: UserId)
    ensures var r := RevokeSkippingLapsed(s, u);
      && UserTokens(r, u) == map[]
      && (forall t, d: nat :: t in UserTokens(s, u) && s.now + d < UserTokens(s, u)[t] ==>
            Blacklisted(Tick(r, d), t))
      && (Revoke(s, u).Ok? ==> Revoke(s, u).value == r)
  {
    var r := RevokeSkippingLapsed(s, u);
    var m := UserTokens(s, u);
    var live := LiveTokens(m, s.now);
    forall t, d: nat | t in m && s.now + d < m[t]
      ensures Blacklisted(Tick(r, d), t)
    {
      assert t in live && r.blacklist[t] == m[t];
    }
    if Revoke(s, u).Ok? {
      assert live == m;
    }
  }

  // ----- is_token_expired -----

  /** Once expired a token stays expired; at exactly its expiry time it is not yet expired. */
  lemma TokenExpiredBoundary(s: StoreState, t: Token, d: nat)
    ensures TokenExpired(s, t) ==> TokenExpired(Tick(s, d), t)
    ensures t in s.expiryKeys && s.expiryKeys[t] == s.now ==> !TokenExpired(s, t)
    ensures t !in s.expiryKeys ==> TokenExpired(s, t)
  {
  }

  /** The store itself, updated in place as the helpers update Redis. */
  class Store {
    var now: nat
    var hashes: map<UserId, map<Token, int>>
    var hashDeadline: map<UserId, int>
    var blacklist: map<Token, int>
    var expiryKeys: map<Token, int>

    function State(): StoreState
      reads this
    {
      StoreState(now, hashes, hashDeadline, blacklist, expiryKeys)
    }

    constructor (start: nat)
      ensures State() == Empty(start)
    {
      now, hashes, hashDeadline, blacklist, expiryKeys := start, map[], map[], map[], map[];
    }

    /** The injected clock moves on. */
    method Advance(seconds: nat)
      modifies this
      ensures State() == Tick(old(State()), seconds)
    {
      now := now + seconds;
    }

    method AddTokenToUser(u: UserId, t: Token, expirySeconds: int)
      modifies this`hashes, this`hashDeadline
      ensures State() == AddToken(old(State()), u, t, expirySeconds)
    {
      // HSET: an expired hash is gone, so the field lands in a fresh hash without a TTL.
      var live := u in hashes && (u in hashDeadline ==> now < hashDeadline[u]);
      var fields := if live then hashes[u] else map[];
      var h := hashes[u := fields[t := now + expirySeconds]];
      var hd := if live then hashDeadline else hashDeadline - {u};
      // EXPIRE: the whole hash gets the latest TTL.
      if expirySeconds > 0 {
        UpdateOverRemove(hashDeadline, u, now + expirySeconds);
        hashes, hashDeadline := h, hd[u := now + expirySeconds];
      } else {
        RemoveOverUpdate(hashes, u, fields[t := now + expirySeconds]);
        RemoveTwice(hashDeadline, u);
        hashes, hashDeadline := h - {u}, hd - {u};
      }
    }

    /** The corrected add, which keeps the later of the two deadlines. */
    method AddTokenToUserKeepingLongest(u: UserId, t: Token, expirySeconds: int)
      modifies this
      ensures State() == AddTokenKeepingLongest(old(State()), u, t, expirySeconds)
    {
      var live := HashLive(State(), u);
      var fields := if live then hashes[u] else map[];
      var deadline := now + expirySeconds;
      if live && u in hashDeadline && hashDeadline[u] > deadline {
        deadline := hashDeadline[u];
      }
      if deadline > now {
        hashes := hashes[u := fields[t := now + expirySeconds]];
        hashDeadline := hashDeadline[u := deadline];
      } else {
        hashes := hashes - {u};
        hashDeadline := hashDeadline - {u};
      }
    }

    method BlacklistToken(t: Token, ttl: int := DEFAULT_BLACKLIST_TTL) returns (r: Outcome<StoreError>)
      modifies this`blacklist
      ensures SetEx(old(State()), t, ttl).Ok? ==> r == Pass && State() == SetEx(old(State()), t, ttl).value
      ensures SetEx(old(State()), t, ttl).Err? ==> r == Fail(SetEx(old(State()), t, ttl).error) && State() == old(State())
      ensures r.Pass? <==> ttl > 0
      ensures blacklist == if ttl > 0 then old(blacklist)[t := now + ttl] else old(blacklist)
    {
      if ttl <= 0 {
        return Fail(InvalidExpireTime);
      }
      blacklist := blacklist[t := now + ttl];
      r := Pass;
    }

    method IsTokenBlacklisted(t: Token) returns (b: bool)
      ensures b == Blacklisted(State(), t)
    {
      b := t in blacklist && now < blacklist[t];
    }

    method GetUserTokens(u: UserId) returns (m: map<Token, int>)
      ensures m == UserTokens(State(), u)
    {
      m := if u in hashes && (u in hashDeadline ==> now < hashDeadline[u]) then hashes[u] else map[];
    }

    /**
     * revoke_user_tokens: blacklists u's tokens one by one, in no particular
     * order, then deletes the hash. When SETEX refuses a lapsed token the loop
     * stops there: the tokens handled so far (`revoked`, all still valid) stay
     * blacklisted and the hash is kept.
     */
    method RevokeUserTokens(u: UserId) returns (r: Outcome<StoreError>, ghost revoked: set<Token>)
      modifies this
      ensures r.Pass? <==> Revoke(old(State()), u).Ok?
      ensures r.Pass? ==> State() == Revoke(old(State()), u).value
      ensures r.Fail? ==> r.error == InvalidExpireTime
      ensures r.Fail? ==>
        && revoked <= old(UserTokens(State(), u)).Keys
        && (forall t :: t in revoked ==> old(now) < old(UserTokens(State(), u))[t])
        && State() == old(State()).(blacklist := old(blacklist) + Restrict(old(UserTokens(State(), u)), revoked))
    {
      var tokens := if HashLive(State(), u) then hashes[u] else map[];
      r, revoked := BlacklistEach(tokens);
      if r.Fail? {
        return;
      }
      RestrictAll(tokens);
      hashes := hashes - {u};
      hashDeadline := hashDeadline - {u};
    }

    /** The loop of revoke_user_tokens (lines 135-144), stopping at the first refusal. */
    method BlacklistEach(tokens: map<Token, int>) returns (r: Outcome<StoreError>, ghost revoked: set<Token>)
      modifies this`blacklist
      ensures revoked <= tokens.Keys
      ensures forall t :: t in revoked ==> now < tokens[t]
      ensures blacklist == old(blacklist) + Restrict(tokens, revoked)
      ensures r.Pass? ==> revoked == tokens.Keys
      ensures r.Fail? ==> r.error == InvalidExpireTime && exists t :: t in tokens && tokens[t] <= now
    {
      var pending := tokens.Keys;
      revoked := {};
      r := Pass;
      while pending != {}
        invariant pending <= tokens.Keys && revoked == tokens.Keys - pending
        invariant forall t :: t in revoked ==> now < tokens[t]
        invariant blacklist == old(blacklist) + Restrict(tokens, revoked)
        invariant r == Pass
        decreases |pending|
      {
        var t :| t in pending;
        var remaining := RemainingTtl(tokens[t], now);
        ghost var before := blacklist;
        r := BlacklistToken(t, remaining);
        if r.Fail? {
          assert t in tokens && tokens[t] <= now;
          return;
        }
        assert blacklist == before[t := tokens[t]];
        RestrictAdd(tokens, revoked, t);
        MergeUpdate(old(blacklist), Restrict(tokens, revoked), t, tokens[t]);
        pending := pending - {t};
        revoked := revoked + {t};
      }
    }

    /** The corrected revocation: lapsed tokens are skipped, so it always completes. */
    method RevokeUserTokensSkippingLapsed(u: UserId)
      modifies this
      ensures State() == RevokeSkippingLapsed(old(State()), u)
    {
      var tokens := if HashLive(State(), u) then hashes[u] else map[];
      BlacklistLive(tokens);
      hashes := hashes - {u};
      hashDeadline := hashDeadline - {u};
    }

    /** The corrected loop: a token with no time left is passed over. */
    method BlacklistLive(tokens: map<Token, int>)
      modifies this`blacklist
      ensures blacklist == old(blacklist) + LiveTokens(tokens, now)
    {
      var pending := tokens.Keys;
      ghost var done: set<Token> := {};
      while pending != {}
        invariant pending <= tokens.Keys && done == tokens.Keys - pending
        invariant blacklist == old(blacklist) + LiveTokens(Restrict(tokens, done), now)
        decreases |pending|
      {
        var t :| t in pending;
        var remaining := RemainingTtl(tokens[t], now);
        LiveRestrictAdd(tokens, done, t, now);
        ghost var banned := LiveTokens(Restrict(tokens, done), now);
        if remaining > 0 {
          ghost var before := blacklist;
          var _ := BlacklistToken(t, remaining);
          assert blacklist == before[t := tokens[t]];
          MergeUpdate(old(blacklist), banned, t, tokens[t]);
        } else {
          assert t !in done;
          assert banned - {t} == banned;
        }
        pending := pending - {t};
        done := done + {t};
      }
      RestrictAll(tokens);
    }

    method IsTokenExpired(t: Token) returns (b: bool)
      ensures b == TokenExpired(State(), t)
    {
      if t !in expiryKeys {
        return true;
      }
      b := now > expiryKeys[t];
    }

    /** A plain SET of `token:{t}:expiry`; only the test suite writes this key. */
    method SetExpiryKey(t: Token, expiry: int)
      modifies this
      ensures State() == old(State()).(expiryKeys := old(expiryKeys)[t := expiry])
    {
      expiryKeys := expiryKeys[t := expiry];
    }
  }
}
