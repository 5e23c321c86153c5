/**
 * The three families of Redis keys the token store writes and reads
 * (backend/app/utils/redis_helper.py). The lemmas show that each key builder is
 * injective and that no two families share a key, which is why the store can
 * keep each family in a map of its own, indexed by user id or by token.
 */
module RedisKeys {
  import opened Text

  /** `user:{user_id}:tokens`, the hash of a user's tokens and their expiry times. */
  function UserTokensKey(userId: nat): string {
    "user:" + NatToString(userId) + ":tokens"
  }

  /** `blacklist:{token}`, present while the token is revoked. */
  function BlacklistKey(token: string): string {
    "blacklist:" + token
  }

  /** `token:{token}:expiry`, a plain key holding an expiry timestamp. */
  function ExpiryKey(token: string): string {
    "token:" + token + ":expiry"
  }

  lemma UserTokensKeyInjective(u: nat, v: nat)
    requires UserTokensKey(u) == UserTokensKey(v)
    ensures u == v
  {
    var ku, kv := UserTokensKey(u), UserTokensKey(v);
    assert |NatToString(u)| == |NatToString(v)|;
    assert NatToString(u) == ku[5..|ku| - 7];
    assert NatToString(v) == kv[5..|kv| - 7];
    NatToStringInjective(u, v);
  }

  lemma BlacklistKeyInjective(s: string, t: string)
    requires BlacklistKey(s) == BlacklistKey(t)
    ensures s == t
  {
    assert s == BlacklistKey(s)[10..];
    assert t == BlacklistKey(t)[10..];
  }

  lemma ExpiryKeyInjective(s: string, t: string)
    requires ExpiryKey(s) == ExpiryKey(t)
    ensures s == t
  {
    var ks, kt := ExpiryKey(s), ExpiryKey(t);
    assert s == ks[6..|ks| - 7];
    assert t == kt[6..|kt| - 7];
  }

  /** The three prefixes differ in their first character. */
  lemma KeyFamiliesDisjoint(u: nat, s: string, t: string)
    ensures UserTokensKey(u) != BlacklistKey(s)
    ensures UserTokensKey(u) != ExpiryKey(t)
    ensures BlacklistKey(s) != ExpiryKey(t)
  {
    assert UserTokensKey(u)[0] == 'u';
    assert BlacklistKey(s)[0] == 'b';
    assert ExpiryKey(t)[0] == 't';
  }
}
