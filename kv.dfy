/** The TTL key-value namespaces (`CSRF_TOKENS`, `AUTHCODES`): a map from
    key to value and expiry instant. Time is a millisecond clock; an entry
    put with a TTL of `ttl` seconds at `now` reads as absent from
    `now + ttl * 1000` on. */
module Kv {
  import opened Common

  datatype Entry<V> = Entry(value: V, expiresAt: int)

  type Store<V> = map<string, Entry<V>>

  /** `namespace.get(key)`: the value, unless absent or expired. */
  function Get<V>(s: Store<V>, key: string, now: int): Option<V>
  {
    if key in s && now < s[key].expiresAt then Some(s[key].value) else None
  }

  /** `namespace.put(key, value, { expirationTtl: ttl })`. */
  function Put<V>(s: Store<V>, key: string, value: V, ttl: nat, now: int): Store<V>
  {
    s[key := Entry(value, now + ttl * 1000)]
  }

  /** `namespace.delete(key)`. */
  function Delete<V>(s: Store<V>, key: string): Store<V>
  {
    s - {key}
  }

  /** A value put is read back until its TTL runs out, and not after. */
  lemma GetAfterPut<V>(s: Store<V>, key: string, value: V, ttl: nat, now: int, later: int)
    requires now <= later
    ensures Get(Put(s, key, value, ttl, now), key, later) ==
            if later < now + ttl * 1000 then Some(value) else None
  {
  }

  /** A deleted key reads as absent, whatever the time. */
  lemma GetAfterDelete<V>(s: Store<V>, key: string, now: int)
    ensures Get(Delete(s, key), key, now) == None
  {
  }

  /** Writing or deleting one key leaves every other key as it was. */
  lemma OtherKeysUnaffected<V>(s: Store<V>, key: string, other: string, value: V, ttl: nat, now: int, at: int)
    requires other != key
    ensures Get(Put(s, key, value, ttl, now), other, at) == Get(s, other, at)
    ensures Get(Delete(s, key), other, at) == Get(s, other, at)
  {
  }
}
