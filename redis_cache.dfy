/** The Redis key space shared by every service: `get`, `set` (no expiry),
    `keys(pattern)` for a `prefix*` pattern, and `del(...keys)`. */
module RedisCache {
  import opened Wrappers
  import opened Text
  import opened Records

  /** The reply of `keys(prefix + "*")`, as a set (the reply's order is not modelled). */
  function MatchingKeys(m: map<string, Json>, prefix: string): (ks: set<string>)
    ensures forall k :: k in ks <==> k in m && HasPrefix(prefix, k)
  {
    set k | k in m && HasPrefix(prefix, k)
  }

  /** The key space after deleting every key that `prefix*` matches. */
  function Purge(m: map<string, Json>, prefix: string): (r: map<string, Json>)
    ensures forall k :: k in r <==> k in m && !HasPrefix(prefix, k)
    ensures forall k :: k in r ==> r[k] == m[k]
  {
    m - MatchingKeys(m, prefix)
  }

  /** Purging twice is purging once: a second invalidation with no write in
      between is a no-op. */
  lemma PurgeIdempotent(m: map<string, Json>, prefix: string)
    ensures Purge(Purge(m, prefix), prefix) == Purge(m, prefix)
  {
  }

  /** A key another resource's pattern matches survives a purge, with its
      value, when the two patterns differ in their first character. */
  lemma PurgeSparesOtherPrefix(m: map<string, Json>, prefix: string, other: string, k: string)
    requires |prefix| > 0 && |other| > 0 && prefix[0] != other[0]
    requires HasPrefix(other, k)
    ensures k in Purge(m, prefix) <==> k in m
    ensures k in m ==> Purge(m, prefix)[k] == m[k]
  {
    assert k[0] == other[0];
  }

  class Redis {
    var entries: map<string, Json>

    constructor ()
      ensures entries == map[]
    {
      entries := map[];
    }

    method Get(key: string) returns (v: Option<Json>)
      ensures v == if key in entries then Some(entries[key]) else None
    {
      v := if key in entries then Some(entries[key]) else None;
    }

    method Set(key: string, v: Json)
      modifies this
      ensures entries == old(entries)[key := v]
    {
      entries := entries[key := v];
    }

    method Keys(prefix: string) returns (ks: set<string>)
      ensures ks == MatchingKeys(entries, prefix)
    {
      ks := MatchingKeys(entries, prefix);
    }

    /** `del` with no key is a Redis error, which is why every caller checks
        `keys.length` first. Returns how many keys existed. */
    method Del(ks: set<string>) returns (removed: nat)
      requires ks != {}
      modifies this
      ensures entries == old(entries) - ks
      ensures removed == |ks * old(entries).Keys|
    {
      removed := |ks * entries.Keys|;
      entries := entries - ks;
    }
  }

  /** The three lines each write operation repeats: list the keys of the
      resource's pattern and delete them, if there are any. */
  method Invalidate(redis: Redis, prefix: string)
    modifies redis
    ensures redis.entries == Purge(old(redis.entries), prefix)
  {
    var keys := redis.Keys(prefix);
    if |keys| > 0 {
      var _ := redis.Del(keys);
    } else {
      assert keys == {};
    }
  }
}
