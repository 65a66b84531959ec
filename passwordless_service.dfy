/** PasswordlessService and the distributed cache it is given, as objects
    whose state changes in place. Each method is proved to make the
    transition that module Passwordless defines for it, so the properties
    proved there (round trip, single use, expiry) hold of these methods. */
module Service {
  import opened Wrappers
  import opened Bytes
  import Utf8
  import P = Passwordless

  /** The IDistributedCache instance injected into the service: entries with
      absolute expiration times, and the clock expiry is checked against. */
  class DistributedCache {
    var entries: map<string, P.Entry>
    var now: int

    function State(): P.CacheState
      reads this
    {
      P.CacheState(entries, now)
    }

    constructor (entries: map<string, P.Entry>, now: int)
      ensures State() == P.CacheState(entries, now)
    {
      this.entries := entries;
      this.now := now;
    }

    /** GetAsync: the value of a live entry, or null. */
    method GetAsync(key: string) returns (value: Option<seq<byte>>)
      ensures value == P.Get(State(), key)
    {
      if key in entries && now < entries[key].expiresAt {
        value := Some(entries[key].value);
      } else {
        value := None;
      }
    }

    /** SetAsync with AbsoluteExpirationRelativeToNow. */
    method SetAsync(key: string, value: seq<byte>, relative: nat)
      requires relative > 0
      modifies this
      ensures State() == P.Set(old(State()), key, value, relative)
    {
      entries := entries[key := P.Entry(value, now + relative)];
    }

    /** RemoveAsync. */
    method RemoveAsync(key: string)
      modifies this
      ensures State() == P.Remove(old(State()), key)
    {
      entries := entries - {key};
    }

    /** The wall clock moving forward. */
    method Advance(dt: nat)
      modifies this
      ensures State() == P.Advance(old(State()), dt)
    {
      now := now + dt;
    }
  }

  class PasswordlessService {
    const cache: DistributedCache
    /** SHA256.Create().ComputeHash. */
    const sha256: P.Hasher

    constructor (cache: DistributedCache, sha256: P.Hasher)
      ensures this.cache == cache && this.sha256 == sha256
    {
      this.cache := cache;
      this.sha256 := sha256;
    }

    /** GenerateNonce(key). `entropy` is what RandomNumberGenerator.GetBytes
        writes into the 16-byte buffer. As in the source, the nonce is not
        returned; the ghost out-value only names it for the proofs. */
    method GenerateNonce(key: string, entropy: P.Entropy) returns (ghost nonce: string)
      modifies cache
      ensures nonce == P.NonceFor(sha256, entropy) && P.IsNonce(nonce)
      ensures cache.State() == P.Issue(sha256, old(cache.State()), entropy, key)
    {
      var n := P.NonceFor(sha256, entropy);
      cache.SetAsync(n, Utf8.GetBytes(key), P.NonceLifetime);
      nonce := n;
    }

    /** GetKeyFromNonce(nonce): a separate get and remove, not one atomic
        step; the model is sequential. */
    method GetKeyFromNonce(nonce: string) returns (key: Option<string>)
      modifies cache
      ensures (key, cache.State()) == P.Redeem(old(cache.State()), nonce)
    {
      var keyBytes := cache.GetAsync(nonce);
      if keyBytes.Some? {
        cache.RemoveAsync(nonce);
        key := Some(Utf8.GetString(keyBytes.value));
      } else {
        key := None;
      }
    }
  }

  /** A caller of the service, reasoning from the method contracts alone.
      The nonce reaches the user by another channel; here it is recomputed
      from the same random bytes. Redeemed within ten minutes of issue, it
      returns the key once, and a second redemption returns null. */
  method RedeemTwiceWithinLifetime(sha256: P.Hasher, entries: map<string, P.Entry>, now: int,
                                   key: string, entropy: P.Entropy, wait: nat)
    returns (first: Option<string>, second: Option<string>)
    requires wait < P.NonceLifetime
    ensures first == Some(key) && second == None
  {
    var cache := new DistributedCache(entries, now);
    var service := new PasswordlessService(cache, sha256);
    ghost var issued := service.GenerateNonce(key, entropy);
    cache.Advance(wait);
    var nonce := P.NonceFor(sha256, entropy);
    P.RoundTrip(sha256, P.CacheState(entries, now), entropy, key, [P.TickOp(wait)]);
    first := service.GetKeyFromNonce(nonce);
    second := service.GetKeyFromNonce(nonce);
  }
}
