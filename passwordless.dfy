/** The passwordless nonce exchange, as values: the nonce derivation (the
    private GenerateNonce() of PasswordlessService), the expiring cache the
    service writes to, and the two public operations as transitions of that
    cache. The classes in module PasswordlessService are proved to make
    exactly these transitions. */
module Passwordless {
  import opened Wrappers
  import opened Bytes
  import Utf8
  import HexFormat

  /** Number of random bytes drawn from RandomNumberGenerator per nonce. */
  const EntropyLength := 16
  /** Size of a SHA-256 digest (FIPS 180-4). */
  const DigestLength := 32
  /** Characters kept from the digest's hexadecimal rendering. */
  const NonceLength := 8
  /** TimeSpan.FromMinutes(10), in the model clock's unit (milliseconds). */
  const NonceLifetime := 10 * 60 * 1000

  type Entropy = s: seq<byte> | |s| == EntropyLength witness seq(16, _ => 0)
  type Digest = s: seq<byte> | |s| == DigestLength witness seq(32, _ => 0)

  /** SHA-256, kept abstract: any total function yielding 32 bytes. */
  type Hasher = seq<byte> -> Digest

  predicate IsNonce(s: string) {
    |s| == NonceLength && forall i :: 0 <= i < |s| ==> HexFormat.IsLowerHexDigit(s[i])
  }

  /** BitConverter.ToString(hash).Replace("-", "").Substring(0, 8).ToLowerInvariant():
      the lower-case hexadecimal rendering of the digest's first four bytes. */
  function DeriveNonce(digest: Digest): (n: string)
    ensures n == HexFormat.LowerHex(digest[..4])
    ensures IsNonce(n)
  {
    var hex := HexFormat.Replace(HexFormat.BitConverterToString(digest), "-", "");
    HexFormat.ReplaceSeparators(digest);
    HexFormat.UpperHexPrefix(digest, 4);
    HexFormat.LowerUpperHex(digest[..4]);
    HexFormat.ToLowerInvariant(HexFormat.Substring(hex, 0, NonceLength).value)
  }

  /** The private GenerateNonce(): hash the random bytes, then derive. */
  function NonceFor(hash: Hasher, entropy: Entropy): (n: string)
    ensures n == HexFormat.LowerHex(hash(entropy)[..4])
    ensures IsNonce(n)
  {
    DeriveNonce(hash(entropy))
  }

  /** The nonce depends on the first four digest bytes and on nothing else:
      two digests give the same nonce exactly when those bytes agree. */
  lemma NonceDeterminedByDigestPrefix(d1: Digest, d2: Digest)
    ensures DeriveNonce(d1) == DeriveNonce(d2) <==> d1[..4] == d2[..4]
  {
    HexFormat.LowerHexInjective(d1[..4], d2[..4]);
  }

  /** The four digest bytes can be read back from the nonce. */
  lemma NonceEncodesDigestPrefix(d: Digest)
    ensures HexFormat.ParseLowerHex(DeriveNonce(d)) == Some(d[..4])
  {
    HexFormat.ParseLowerHexRoundTrip(d[..4]);
  }

  // ---------------------------------------------------------------------
  // The distributed cache (IDistributedCache), as far as the service uses it

  /** A cached value with its absolute expiration time. */
  datatype Entry = Entry(value: seq<byte>, expiresAt: int)

  /** The cache's entries and the clock it reads when it checks expiry.
      Expired entries may linger; they are invisible to Get. */
  datatype CacheState = CacheState(entries: map<string, Entry>, now: int)

  /** An entry is visible until its absolute expiration time is reached. */
  predicate Live(st: CacheState, key: string) {
    key in st.entries && st.now < st.entries[key].expiresAt
  }

  /** IDistributedCache.Get: the value of a live entry, else null. */
  function Get(st: CacheState, key: string): (r: Option<seq<byte>>)
    ensures r.Some? <==> Live(st, key)
    ensures r.Some? ==> r.value == st.entries[key].value
  {
    if Live(st, key) then Some(st.entries[key].value) else None
  }

  /** IDistributedCache.Set with AbsoluteExpirationRelativeToNow: one entry,
      replacing any earlier one under the same key. .NET rejects a
      non-positive relative expiration. */
  function Set(st: CacheState, key: string, value: seq<byte>, relative: nat): (r: CacheState)
    requires relative > 0
    ensures r.now == st.now
    ensures r.entries.Keys == st.entries.Keys + {key}
    ensures r.entries[key] == Entry(value, st.now + relative)
    ensures forall k :: k in st.entries && k != key ==> r.entries[k] == st.entries[k]
  {
    CacheState(st.entries[key := Entry(value, st.now + relative)], st.now)
  }

  /** IDistributedCache.Remove: drops the entry, if any. */
  function Remove(st: CacheState, key: string): (r: CacheState)
    ensures r.now == st.now
    ensures r.entries.Keys == st.entries.Keys - {key}
    ensures forall k :: k in r.entries ==> r.entries[k] == st.entries[k]
  {
    CacheState(st.entries - {key}, st.now)
  }

  /** Time passing; nothing else changes. */
  function Advance(st: CacheState, dt: nat): CacheState {
    st.(now := st.now + dt)
  }

  // ---------------------------------------------------------------------
  // The service's operations on the cache

  /** GenerateNonce(key): put the UTF-8 bytes of `key` under the derived
      nonce for ten minutes. There is no collision check: an entry already
      under that nonce, live or not, is overwritten. */
  function Issue(hash: Hasher, st: CacheState, entropy: Entropy, key: string): (r: CacheState)
    ensures r.now == st.now
    ensures r.entries.Keys == st.entries.Keys + {NonceFor(hash, entropy)}
    ensures r.entries[NonceFor(hash, entropy)] == Entry(Utf8.GetBytes(key), st.now + NonceLifetime)
    ensures forall k :: k in st.entries && k != NonceFor(hash, entropy) ==> r.entries[k] == st.entries[k]
  {
    Set(st, NonceFor(hash, entropy), Utf8.GetBytes(key), NonceLifetime)
  }

  /** GetKeyFromNonce(nonce): on a live entry, remove it and return the
      decoded key; otherwise return null and leave the cache alone. */
  function Redeem(st: CacheState, nonce: string): (r: (Option<string>, CacheState))
    ensures Live(st, nonce) ==> r.0 == Some(Utf8.GetString(st.entries[nonce].value))
    ensures Live(st, nonce) ==> r.1 == CacheState(st.entries - {nonce}, st.now)
    ensures !Live(st, nonce) ==> r.0 == None && r.1 == st
  {
    var keyBytes := Get(st, nonce);
    if keyBytes.Some? then
      (Some(Utf8.GetString(keyBytes.value)), Remove(st, nonce))
    else
      (None, st)
  }

  /** What can happen to the cache between two calls of interest. */
  datatype Op =
    | GenerateOp(entropy: Entropy, key: string)
    | RedeemOp(nonce: string)
    | TickOp(dt: nat)

  function Step(hash: Hasher, st: CacheState, op: Op): CacheState {
    match op
    case GenerateOp(entropy, key) => Issue(hash, st, entropy, key)
    case RedeemOp(nonce) => Redeem(st, nonce).1
    case TickOp(dt) => Advance(st, dt)
  }

  function Run(hash: Hasher, st: CacheState, ops: seq<Op>): CacheState
    decreases |ops|
  {
    if ops == [] then st else Run(hash, Step(hash, st, ops[0]), ops[1..])
  }

  /** An operation that neither redeems `nonce` nor issues a new binding
      under it. */
  predicate Untouched(hash: Hasher, op: Op, nonce: string) {
    match op
    case GenerateOp(entropy, _) => NonceFor(hash, entropy) != nonce
    case RedeemOp(n) => n != nonce
    case TickOp(_) => true
  }

  predicate NeverIssues(hash: Hasher, op: Op, nonce: string) {
    !(op.GenerateOp? && NonceFor(hash, op.entropy) == nonce)
  }

  // ---------------------------------------------------------------------
  // Properties

  /** Operations that do not touch `nonce` keep its entry as it was. */
  lemma {:induction false} RunKeepsUntouched(hash: Hasher, st: CacheState, ops: seq<Op>, nonce: string)
    requires nonce in st.entries
    requires forall i :: 0 <= i < |ops| ==> Untouched(hash, ops[i], nonce)
    ensures nonce in Run(hash, st, ops).entries
    ensures Run(hash, st, ops).entries[nonce] == st.entries[nonce]
    decreases |ops|
  {
    if ops != [] {
      assert Untouched(hash, ops[0], nonce);
      RunKeepsUntouched(hash, Step(hash, st, ops[0]), ops[1..], nonce);
    }
  }

  /** Round trip: after GenerateNonce(key) has bound nonce n, redeeming n
      returns `key` as long as fewer than ten minutes have passed and nothing
      in between redeemed n or bound n anew. */
  lemma RoundTrip(hash: Hasher, st: CacheState, entropy: Entropy, key: string, ops: seq<Op>)
    requires forall i :: 0 <= i < |ops| ==> Untouched(hash, ops[i], NonceFor(hash, entropy))
    requires Run(hash, Issue(hash, st, entropy, key), ops).now < st.now + NonceLifetime
    ensures Redeem(Run(hash, Issue(hash, st, entropy, key), ops), NonceFor(hash, entropy)).0 == Some(key)
  {
    var n := NonceFor(hash, entropy);
    RunKeepsUntouched(hash, Issue(hash, st, entropy, key), ops, n);
    Utf8.GetStringGetBytes(key);
  }

  /** Single use: a second redemption of the same nonce, at any later time,
      returns null. */
  lemma SingleUse(st: CacheState, nonce: string, dt: nat)
    ensures Redeem(Advance(Redeem(st, nonce).1, dt), nonce).0 == None
  {
  }

  /** Once a nonce has no entry, it stays unredeemable until it is issued
      again. */
  lemma {:induction false} RunKeepsAbsent(hash: Hasher, st: CacheState, ops: seq<Op>, nonce: string)
    requires nonce !in st.entries
    requires forall i :: 0 <= i < |ops| ==> NeverIssues(hash, ops[i], nonce)
    ensures nonce !in Run(hash, st, ops).entries
    decreases |ops|
  {
    if ops != [] {
      assert NeverIssues(hash, ops[0], nonce);
      RunKeepsAbsent(hash, Step(hash, st, ops[0]), ops[1..], nonce);
    }
  }

  /** A nonce is redeemed at most once per issue: after one successful
      redemption, every later one returns null until it is issued again. */
  lemma AtMostOnce(hash: Hasher, st: CacheState, nonce: string, ops: seq<Op>)
    requires forall i :: 0 <= i < |ops| ==> NeverIssues(hash, ops[i], nonce)
    ensures Redeem(Run(hash, Redeem(st, nonce).1, ops), nonce).0 == None
  {
    if Live(st, nonce) {
      RunKeepsAbsent(hash, Redeem(st, nonce).1, ops, nonce);
    } else {
      RunKeepsExpiredOrAbsent(hash, st, ops, nonce);
    }
  }

  /** An entry that is no longer live never becomes live again, unless the
      nonce is issued anew. */
  lemma {:induction false} RunKeepsExpiredOrAbsent(hash: Hasher, st: CacheState, ops: seq<Op>, nonce: string)
    requires !Live(st, nonce)
    requires forall i :: 0 <= i < |ops| ==> NeverIssues(hash, ops[i], nonce)
    ensures !Live(Run(hash, st, ops), nonce)
    decreases |ops|
  {
    if ops != [] {
      assert NeverIssues(hash, ops[0], nonce);
      RunKeepsExpiredOrAbsent(hash, Step(hash, st, ops[0]), ops[1..], nonce);
    }
  }

  /** Expiry: ten minutes or more after issue, redemption returns null. */
  lemma Expiry(hash: Hasher, st: CacheState, entropy: Entropy, key: string, ops: seq<Op>)
    requires forall i :: 0 <= i < |ops| ==> NeverIssues(hash, ops[i], NonceFor(hash, entropy))
    requires Run(hash, Issue(hash, st, entropy, key), ops).now >= st.now + NonceLifetime
    ensures Redeem(Run(hash, Issue(hash, st, entropy, key), ops), NonceFor(hash, entropy)).0 == None
  {
    var n := NonceFor(hash, entropy);
    ExpiresAtStaysBounded(hash, Issue(hash, st, entropy, key), ops, n, st.now + NonceLifetime);
  }

  /** While a nonce is not issued again, its entry (if still there) keeps a
      deadline no later than `deadline`. */
  lemma {:induction false} ExpiresAtStaysBounded(hash: Hasher, st: CacheState, ops: seq<Op>, nonce: string, deadline: int)
    requires nonce in st.entries ==> st.entries[nonce].expiresAt <= deadline
    requires forall i :: 0 <= i < |ops| ==> NeverIssues(hash, ops[i], nonce)
    ensures var r := Run(hash, st, ops); nonce in r.entries ==> r.entries[nonce].expiresAt <= deadline
    decreases |ops|
  {
    if ops != [] {
      assert NeverIssues(hash, ops[0], nonce);
      ExpiresAtStaysBounded(hash, Step(hash, st, ops[0]), ops[1..], nonce, deadline);
    }
  }
}
