# Torutek.Auth — passwordless nonce store and authorization guard, in Dafny

This project models two pieces of the Torutek.Auth helpers for ASP.NET web APIs and proves properties of them.

**Passwordless nonce store** (`PasswordlessService`). `GenerateNonce(key)` draws 16 random bytes and hashes them with SHA-256. It renders the digest with `BitConverter.ToString`, strips the dashes, keeps the first 8 characters and lower-cases them. It then stores the UTF-8 bytes of `key` in an `IDistributedCache` under that nonce, with an absolute expiration ten minutes from now. `GetKeyFromNonce(nonce)` reads the entry. If the entry is there, it removes it and returns the decoded key; if not, it returns null.

- `utf8.dfy` (module `Utf8`) models `Encoding.UTF8.GetBytes` and `GetString`. It follows the byte layout of RFC 3629 (section 3, the encoding table; section 4, the well-formed sequences). Decoding is proved to invert encoding, so no round-trip has to be assumed.
- `hex_format.dfy` (module `HexFormat`) models the four .NET string operations of the derivation, each on its own. It also gives a reference rendering (`LowerHex`) and the parser that inverts it.
- `passwordless.dfy` (module `Passwordless`) models the derivation, the cache and the two operations as pure functions on a `CacheState` value. It also defines runs of interleaved operations, and it holds the lemmas: round trip, single use, at most once, expiry.
- `passwordless_service.dfy` (module `Service`) has the two objects as classes: `DistributedCache`, which holds a map field and a clock, and `PasswordlessService`. Each method is proved to make exactly the transition that `Passwordless` defines for it.

`GenerateNonce(string key)` returns a plain `Task`. The nonce is never returned, even though the interface comment speaks of "the returned nonce". The model keeps it that way: `Service.PasswordlessService.GenerateNonce` has no real result. It exposes the nonce only as a ghost out-value, which the proofs use.

**Authorization guard** (`RequireAuthorizeAttributeFilter`, in `authorize_filter.dfy`, module `AuthorizeFilter`). This is a fail-closed filter. A request passes only if two things hold. First, its handler is a controller action. Second, the action method's or the controller's custom attributes include `AuthorizeAttribute` or `AllowAnonymousAttribute`, or a type derived from either. Every other case throws, and the model turns each throw into an error result. A runtime type is a datatype holding its full name and its optional base type, so base-type chains are finite and acyclic by construction. `Type.IsSubclassOf` means a strict ancestor in that chain.

Environment inputs:
- SHA-256 is the abstract total function `Passwordless.Hasher`, a constant of the service object.
- The random bytes are the `entropy` parameter of `GenerateNonce`.
- The wall clock is the cache's `now` field. It is measured in milliseconds, and `DistributedCache.Advance` moves it forward.

The model follows the code in three places where a reader might expect otherwise:
- The nonce is not returned.
- The get and the remove in `GetKeyFromNonce` are two separate cache calls, not one atomic get-and-delete.
- The key is not checked to be non-empty.

## Model

| member | source | states |
|---|---|---|
| `Utf8.EncodeChar` | Torutek.Auth.Passwordless/PasswordlessService.cs:48 | one scalar value becomes 1 to 4 bytes: a valid lead byte followed by continuation bytes |
| `Utf8.GetBytes` | Torutek.Auth.Passwordless/PasswordlessService.cs:48 | the stored key has between 1 and 4 bytes per character |
| `Utf8.DecodeEncodeChar` | Torutek.Auth.Passwordless/PasswordlessService.cs:59 | decoding the front of an encoded character gives the character back and consumes exactly its bytes, whatever follows |
| `Utf8.GetString` | Torutek.Auth.Passwordless/PasswordlessService.cs:59 | the decoded key has at most one character per byte and is empty iff the bytes are; `Utf8.GetStringGetBytes` shows it inverts `GetBytes` |
| `Utf8.GetStringGetBytes` | Torutek.Auth.Passwordless/PasswordlessService.cs:59 | `GetString(GetBytes(s)) == s` for every string |
| `Utf8.GetBytesInjective` | Torutek.Auth.Passwordless/PasswordlessService.cs:48 | distinct keys are stored as distinct byte strings |
| `HexFormat.BitConverterToString` | Torutek.Auth.Passwordless/PasswordlessService.cs:76 | `BitConverter.ToString(hash)` has 3n-1 characters for n > 0 bytes, and none for no bytes |
| `HexFormat.BitConverterLayout` | Torutek.Auth.Passwordless/PasswordlessService.cs:76 | byte k is rendered as two upper-case digits at characters 3k and 3k+1, and a '-' follows every byte but the last |
| `HexFormat.Replace` | Torutek.Auth.Passwordless/PasswordlessService.cs:76 | a string with no occurrence of the searched string comes back unchanged; replacing a single character by text without it leaves no occurrence of it |
| `HexFormat.ReplaceKeepsPair` | Torutek.Auth.Passwordless/PasswordlessService.cs:76 | in `Replace("-", "")`, two digits are kept and the '-' right after them is dropped |
| `HexFormat.ReplaceKeeps` | Torutek.Auth.Passwordless/PasswordlessService.cs:76 | `Replace` keeps a leading character that cannot start an occurrence of the searched string |
| `HexFormat.ReplaceSeparators` | Torutek.Auth.Passwordless/PasswordlessService.cs:76 | `BitConverter.ToString(bytes).Replace("-", "")` is the plain upper-case hexadecimal of the bytes |
| `HexFormat.UpperHexLength` | Torutek.Auth.Passwordless/PasswordlessService.cs:76 | the separator-free rendering has two digits per byte |
| `HexFormat.UpperHexPrefix` | Torutek.Auth.Passwordless/PasswordlessService.cs:76 | the first 2k digits are the rendering of the first k bytes, so `Substring(0, 8)` keeps exactly four bytes |
| `HexFormat.Substring` | Torutek.Auth.Passwordless/PasswordlessService.cs:76 | succeeds iff the range lies inside the string, and then has the requested length |
| `HexFormat.ToLowerInvariant` | Torutek.Auth.Passwordless/PasswordlessService.cs:76 | lower-casing keeps the length |
| `HexFormat.LowerUpperHex` | Torutek.Auth.Passwordless/PasswordlessService.cs:76 | lower-casing the upper-case rendering gives the lower-case rendering |
| `HexFormat.LowerHexValue` | Torutek.Auth.Passwordless/PasswordlessService.cs:66 | each lower-case digit stands for a nibble that renders back as that digit |
| `HexFormat.LowerHex` | Torutek.Auth.Passwordless/PasswordlessService.cs:66 | the lower-case rendering has two characters per byte, all in `[0-9a-f]` |
| `HexFormat.ParseLowerHexRoundTrip` | Torutek.Auth.Passwordless/PasswordlessService.cs:76 | parsing the lower-case rendering gives the bytes back |
| `HexFormat.LowerHexOfParsed` | Torutek.Auth.Passwordless/PasswordlessService.cs:76 | every parsable string is the rendering of what it parses to, so rendering is a bijection onto digit-pair strings |
| `HexFormat.LowerHexInjective` | Torutek.Auth.Passwordless/PasswordlessService.cs:74-76 | two byte strings render alike iff they are equal |
| `Passwordless.DeriveNonce` | Torutek.Auth.Passwordless/PasswordlessService.cs:66-77 | the nonce is the lower-case hex of the digest's first 4 bytes: 8 characters, each in `[0-9a-f]` |
| `Passwordless.NonceFor` | Torutek.Auth.Passwordless/PasswordlessService.cs:69-77 | the private `GenerateNonce()` is `DeriveNonce(hash(entropy))`: the lower-case hex of the first 4 digest bytes, an 8-character string over `[0-9a-f]` |
| `Passwordless.NonceDeterminedByDigestPrefix` | Torutek.Auth.Passwordless/PasswordlessService.cs:74-76 | two digests give the same nonce iff their first 4 bytes agree, so the nonce depends on those bytes only |
| `Passwordless.NonceEncodesDigestPrefix` | Torutek.Auth.Passwordless/PasswordlessService.cs:74-76 | the first 4 digest bytes can be read back from the nonce |
| `Passwordless.Get` | Torutek.Auth.Passwordless/PasswordlessService.cs:54 | the cache returns a value iff the entry exists and its expiration time is still ahead; the value is the stored one |
| `Passwordless.Set` | Torutek.Auth.Passwordless/PasswordlessService.cs:48 | one entry is written with expiry now plus the relative expiration, replacing any earlier one under that key; all other entries and the clock are unchanged |
| `Passwordless.Remove` | Torutek.Auth.Passwordless/PasswordlessService.cs:58 | only the given key leaves the cache; everything else is unchanged |
| `Passwordless.Issue` | Torutek.Auth.Passwordless/PasswordlessService.cs:44-49 | exactly one entry is written, under the derived nonce, holding the UTF-8 bytes of the key with expiry now + 10 minutes; an earlier binding of that nonce is overwritten (no collision check); every other entry is unchanged |
| `Passwordless.Redeem` | Torutek.Auth.Passwordless/PasswordlessService.cs:52-63 | on a live entry: the decoded key, with that entry removed and nothing else changed; on an absent or expired nonce: null, with the cache unchanged |
| `Passwordless.RunKeepsUntouched` | Torutek.Auth.Passwordless/PasswordlessService.cs:46-58 | operations that neither redeem a nonce nor bind it anew leave its entry as it was |
| `Passwordless.RoundTrip` | Torutek.Auth.Passwordless/PasswordlessService.cs:44-59 | after `GenerateNonce(k)` binds n, redeeming n returns k if it happens under 10 minutes later and nothing in between redeemed n or bound it anew |
| `Passwordless.SingleUse` | Torutek.Auth.Passwordless/PasswordlessService.cs:56-62 | a second redemption of the same nonce returns null, however much later |
| `Passwordless.RunKeepsAbsent` | Torutek.Auth.Passwordless/PasswordlessService.cs:56-62 | a nonce with no entry stays without one until it is issued again |
| `Passwordless.AtMostOnce` | Torutek.Auth.Passwordless/PasswordlessService.cs:23 | after one redemption, any later one returns null if no operation in between issued the nonce again |
| `Passwordless.RunKeepsExpiredOrAbsent` | Torutek.Auth.Passwordless/PasswordlessService.cs:23 | an entry that is no longer live never becomes live again unless the nonce is issued anew |
| `Passwordless.ExpiresAtStaysBounded` | Torutek.Auth.Passwordless/PasswordlessService.cs:48 | while a nonce is not issued again, its deadline does not move later |
| `Passwordless.Expiry` | Torutek.Auth.Passwordless/PasswordlessService.cs:48 | 10 minutes or more after issue, redemption returns null unless the nonce was issued again |
| `Service.DistributedCache.constructor` | Torutek.Auth.Passwordless/PasswordlessService.cs:36-38 | the injected cache starts with the given entries and clock |
| `Service.DistributedCache.GetAsync` | Torutek.Auth.Passwordless/PasswordlessService.cs:54 | returns what `Passwordless.Get` specifies and changes nothing |
| `Service.DistributedCache.SetAsync` | Torutek.Auth.Passwordless/PasswordlessService.cs:48 | the new state is `Passwordless.Set` of the old one |
| `Service.DistributedCache.RemoveAsync` | Torutek.Auth.Passwordless/PasswordlessService.cs:58 | the new state is `Passwordless.Remove` of the old one |
| `Service.DistributedCache.Advance` | Torutek.Auth.Passwordless/PasswordlessService.cs:48 | the clock moves forward by the given amount; the entries are unchanged |
| `Service.PasswordlessService.constructor` | Torutek.Auth.Passwordless/PasswordlessService.cs:36-41 | the service keeps the injected cache and hash function |
| `Service.PasswordlessService.GenerateNonce` | Torutek.Auth.Passwordless/PasswordlessService.cs:44-49 | returns nothing real. It makes exactly the `Passwordless.Issue` transition, under the ghost nonce `NonceFor(sha256, entropy)`. That nonce is an 8-character lower-case hex string |
| `Service.PasswordlessService.GetKeyFromNonce` | Torutek.Auth.Passwordless/PasswordlessService.cs:52-63 | returns the key, or null, and leaves the cache exactly as `Passwordless.Redeem` specifies |
| `Service.RedeemTwiceWithinLifetime` | Torutek.Auth.Passwordless/PasswordlessService.cs:12-19 | on fresh service objects, after `GenerateNonce(key)` and less than 10 minutes, redeeming the nonce returns `key` and a second redemption returns null |
| `AuthorizeFilter.IsSubclassOf` | Torutek.Auth/RequireAuthorizeAttributeFilter.cs:38 | `Type.IsSubclassOf` as a strict ancestor along the base-type chain; an ancestor is structurally smaller than its descendant, so the relation has no cycles |
| `AuthorizeFilter.IsSameOrSubclass` | Torutek.Auth/RequireAuthorizeAttributeFilter.cs:36-40 | true iff the potential base is the type itself or is in its base-type chain |
| `AuthorizeFilter.Qualifies` | Torutek.Auth/RequireAuthorizeAttributeFilter.cs:26 | an attribute type qualifies iff `AuthorizeAttribute` or `AllowAnonymousAttribute` is the type itself or one of its bases |
| `AuthorizeFilter.AnyQualifies` | Torutek.Auth/RequireAuthorizeAttributeFilter.cs:26 | the front-to-back `Any` scan is true iff some attribute in the list qualifies |
| `AuthorizeFilter.OnAuthorization` | Torutek.Auth/RequireAuthorizeAttributeFilter.cs:19-34 | a descriptor that is not a controller action always fails with the "Not sure how to enforce" error. A controller action passes iff some attribute in method-attributes ++ controller-attributes qualifies; otherwise it fails with the "You (Developer) need to add" error |
| `AuthorizeFilter.IsSubclassOfBaseTypes` | Torutek.Auth/RequireAuthorizeAttributeFilter.cs:38 | `IsSubclassOf(t, c)` iff `c` is in the base-type chain of `t` |
| `AuthorizeFilter.SubclassIrreflexive` | Torutek.Auth/RequireAuthorizeAttributeFilter.cs:38-39 | no type is its own subclass, so `AuthorizeAttribute` itself qualifies only through the equality half of `IsSameOrSubclass` |
| `AuthorizeFilter.AncestorNotDescendant` | Torutek.Auth/RequireAuthorizeAttributeFilter.cs:38 | `IsSubclassOf` is asymmetric |
| `AuthorizeFilter.SubclassTransitive` | Torutek.Auth/RequireAuthorizeAttributeFilter.cs:38 | `IsSubclassOf` is transitive |
| `AuthorizeFilter.DescendantQualifies` | Torutek.Auth/RequireAuthorizeAttributeFilter.cs:26 | a type derived from a qualifying type, at any depth, qualifies |
| `AuthorizeFilter.AttributeTypesQualify` | Torutek.Auth/RequireAuthorizeAttributeFilter.cs:36-39 | `AuthorizeAttribute` and `AllowAnonymousAttribute` themselves qualify; their bases `System.Attribute` and `System.Object` do not |
| `AuthorizeFilter.NoQualifyingAttributeFails` | Torutek.Auth/RequireAuthorizeAttributeFilter.cs:26-27 | empty attribute lists, or lists of non-qualifying types only, give the missing-attribute error |
| `AuthorizeFilter.OneQualifyingAttributeSuffices` | Torutek.Auth/RequireAuthorizeAttributeFilter.cs:25-26 | one qualifying attribute passes the request, whether it is on the method or on the controller |
| `AuthorizeFilter.PlacementIrrelevant` | Torutek.Auth/RequireAuthorizeAttributeFilter.cs:25-26 | swapping the method's and the controller's attribute lists does not change the outcome |
| `AuthorizeFilter.Monotone` | Torutek.Auth/RequireAuthorizeAttributeFilter.cs:26 | adding attributes to either list, anywhere, never turns a pass into an error |

## Left out

- Torutek.Auth.Jwt/JwtExtensions.cs and Torutek.Auth.Passwordless/PasswordlessExtensions.cs: dependency-injection and authentication-options wiring only.
- Torutek.Auth.Jwt/JwtTokenFactory.cs: it wraps a token library whose code is not visible. It also reads `Guid.NewGuid`, `DateTime.UtcNow` and floating-point `TotalSeconds`.
- SHA-256 (FIPS 180-4) and `RandomNumberGenerator` are not modelled. The hash is the abstract `Hasher` function and the 16 random bytes are a parameter.
- Asynchrony and concurrency. The model is sequential. `GetKeyFromNonce` is a get followed by a separate remove, as in the code, so two concurrent redemptions could both see the key. The single-use results hold only for calls that do not overlap.
- Other writers to the shared distributed cache are not modelled.
- Cache calls are assumed to succeed. In the code, an exception from `SetAsync`, `GetAsync` or `RemoveAsync` propagates out of `GenerateNonce` or `GetKeyFromNonce`. A remove that fails after a successful get leaves the entry live and returns no key; the single-use results are unaffected by that case.
- Real eviction is not modelled: an expired entry stays in the map but is invisible to `Get`. Sliding expiration is not modelled either.
- Null arguments are not modelled: a null key or nonce makes the .NET calls throw `ArgumentNullException`, and model strings are never null.
- Utf8.GetBytes: does not model lone UTF-16 surrogates, which .NET replaces with U+FFFD. A Dafny `char` is always a Unicode scalar value.
- Utf8.GetString: decoding of ill-formed byte sequences is modelled (one U+FFFD per maximal ill-formed subpart), and only its length bound is proved for it. Every entry this service writes is encoder output.
- HexFormat.ToLowerInvariant: lowers only `A`-`Z`, not the other letters the invariant culture handles. Its contract states only the length. The property the derivation needs is `HexFormat.LowerUpperHex`.
- HexFormat.Replace requires a non-empty search string. .NET throws `ArgumentException` for an empty one, and the only call passes `"-"`.
- Passwordless.Set requires a positive relative expiration. .NET rejects any other, and the service always passes ten minutes.
- Reflection beyond the base-type chain is not modelled: interfaces, generic types, and the `Inherited` flag of attribute usage. Type identity is structural (full name plus base chain), not reference identity.
- Descriptor kinds other than `ControllerActionDescriptor` are not distinguished from each other or from a null descriptor. All of them fail the same way.
