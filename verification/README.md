# tokenkit: revocation, key cache and rotation, verified

A Dafny model of the three stateful pieces of tokenkit and of the policy that joins them.

* **Revocation** (`RevocationState`, `RevocationStore`, `RevocationEviction`, `RevocationWindow`,
  `RevocationQueue`, `RevocationInterleaving`, `RevocationSurvival`): the bounded store with its map,
  its queue and its time to live, as a class changed in place, as a window on a log, and as any number
  of `revoke` calls whose two critical sections interleave. `RedisStore` and `RedisOutcomes` are the Redis variant: a cached connection, one retry and
  a server that may serve a command late, or lose the answer.
* **Key cache** (`Jwks`, `JwksCacheClass`, `JwksProtocol`, `JwksSafety`, `JwksTheorems`,
  `JwksOutcomes`, `JwksCoalescing`): building the key map, the cache as one task sees it, and any number of tasks that
  resolve keys and force refreshes against an endpoint that publishes documents and may fail.
* **Tokens** (`Jose`, `Service`, `Rotation`, `Minting`): key selection, the try-every-key loop, claim
  stamping and the validation policy.
* **The join** (`NoResurrection`): a revoked token is never accepted again, with the exact condition on
  store time to live, token lifetime, leeway, rounding and look-up delay.

`Instants` and `Wrappers` hold clock arithmetic, `Option` and `Result`.

## What the results say

* A revoked jti with no older queue slot reads as revoked until its time to live is over, in every
  interleaving in which the calls then in flight and those that begin later are fewer than
  `maxEntries`, and the token that carries it is rejected. For fresh insertions that is exact: it does
  iff room was left behind it whenever another call made room. The least store time to live that works for
  every token is its lifetime, plus the leeway, plus one second for truncation, plus the time between
  the expiry check and the look-up.
* Along every history of prepending freshly named keys and dropping old ones, and under every policy, a
  token decodes to its own body as long as its key is held and its claims pass. That needs no
  unforgeability; only the converse does, and only of the secrets configured at the time.
* A call of the key cache, in every concurrent run, ends with the key iff the document cached at that
  moment publishes it, and with a failure iff its own request failed; a call of the Redis store ends
  with an error iff it could not connect or both its attempts failed. Calls are short, and none gets
  stuck while the holder of the lock moves.
* `decode_standard` returns claims iff a key that has a say verifies the token, the configured policy
  allows them, and no store look-up speaks against them.
* Where the code and its own documentation part, the model follows the code and proves the true side:
  * the "hard cap" (src/revocation.rs:77) holds in every reachable state iff at most one call is in
    flight; otherwise the least bound is one less than the cap plus the number of calls (with a time to
    live of zero it is the number of calls);
  * eviction takes the jti whose *first* queue slot is earliest, not the oldest entry
    (src/revocation.rs:54-58, 77-78): a revocation repeated while it is held can be the next one
    dropped, and at capacity repeating one costs another its entry;
  * memory is documented to stay bounded (src/revocation.rs:20-22, 54-58), but only entries are counted.
    Over all runs some bound on the queue holds iff the time to live is zero, or the store holds one
    entry and either has a time to live or serves one call at a time; the least one is the number of
    calls in flight. Otherwise callers keep the queue as small as the map iff no insertion finds its jti
    held, and they can see to that: a call whose jti reads as not revoked when it makes room, while no
    other call that has made room is about to insert it;
  * "exactly one fetch" for concurrent misses (src/jwks.rs:17-18), late arrivals included, holds iff no
    request fails and each looks under the lock within the refresh interval of the first overwrite,
    given two or more of them, a stale cache and no forced refresh;
  * a forced refresh that overlaps an automatic one can put an older key set back;
  * a static key set stops resolving for good once the time to live has passed since construction,
    though it is documented to fail only for unknown kids (src/jwks.rs:110-111);
  * a rotation entry with a PEM key of its own is checked by it iff neither the entry nor the config has
    a raw key, though the entry's own material is documented to come first (src/service.rs:77-79,
    680-695): a token good under the entry's key is otherwise rejected at all times;
  * a raw private key is used for elliptic curves only; for RSA it is ignored (src/service.rs:715-722);
  * for asymmetric algorithms the constructor for rotation keys drops the first key's public material
    (src/service.rs:272-297): unless its private PEM reads as a public one, every token is refused;
  * the default configuration rejects the tokens it mints unless the caller sets `iss`
    (README.md:41-59).

## Assumptions

* `jsonwebtoken` is not part of this model. `Jose.Library` is a record of functions for it; lemmas name
  the hypotheses they use, each about the token at hand: its header and body round-trip through a
  shared secret (`Signs`) or through a service's own pair of keys (`Mints`), standard claims are read as
  written (`ReadsStandardClaims`), no other configured secret verifies it (`NoOtherVerifies`). Its
  check of registered claims follows section 4.1 of RFC 7519; whether it also rejects an audience when
  none is configured, as section 4.1.3 asks, is a field of `Library` (`anyAudience`), and every result
  holds either way.
* Locks exclude one another; the clock does not run backwards; `Instant` and `Utc` readings are one
  clock. Clock readings, fresh jtis, endpoint answers, network outcomes and the schedule are inputs.
* The Redis results are about a server that keeps each key until its lifetime is over: it never evicts
  one, restarts without its data, or is told to delete one by somebody else, and its clock agrees.
* A critical section is one step. So is connecting to Redis, which happens under the write lock.

## Model

| member | source | states |
|---|---|---|
| RevocationState.EvictionMakesRoom | src/revocation.rs:39-46 | from any state with a slot per held jti, eviction ends below the bound and keeps a slot per held jti, so its `else break` is never taken |
| RevocationState.EvictShape | src/revocation.rs:39-46 | eviction pops a prefix of the queue, drops exactly the jtis in it, and no more slots than needed |
| RevocationState.ReachableAgree | src/revocation.rs:105-126 | after any sequence of critical sections every held jti has a queue slot and making room leaves fewer than `maxEntries` entries |
| RevocationState.SweepUnobservable | src/revocation.rs:31-37 | for every state: look-ups, the count and the next sweep or room-making answer as if the sweep had not run; `len` is the number of jtis that read as revoked |
| RevocationStore.InMemoryRevocationStore.WithLimits | src/revocation.rs:81-90 | an empty store whose bound is at least one |
| RevocationStore.InMemoryRevocationStore.SweepExpired | src/revocation.rs:31-37 | the in-place sweep is the specified one and keeps the invariant |
| RevocationStore.InMemoryRevocationStore.EvictOldestTo | src/revocation.rs:39-46 | the loop computes the specified eviction, ends below the bound and keeps the invariant |
| RevocationStore.InMemoryRevocationStore.Len | src/revocation.rs:93-97 | the number of jtis that read as revoked now |
| RevocationStore.InMemoryRevocationStore.IsEmpty | src/revocation.rs:100-102 | true iff no jti reads as revoked now |
| RevocationStore.InMemoryRevocationStore.MakeRoom | src/revocation.rs:105-109 | first critical section: new state, and below the bound |
| RevocationStore.InMemoryRevocationStore.Insert | src/revocation.rs:122-124 | second critical section: new state |
| RevocationStore.InMemoryRevocationStore.Revoke | src/revocation.rs:120-126 | an undisturbed call keeps the bound, and the jti reads as revoked until its time to live is over |
| RevocationStore.InMemoryRevocationStore.IsRevokedAt | src/revocation.rs:128-140 | held and younger than the time to live |
| RevocationEviction.EvictionKeeps | src/revocation.rs:39-46 | for every state: a held jti survives eviction iff those not before its first slot, itself included, are fewer than the bound |
| RevocationEviction.RevokeKeeps | src/revocation.rs:120-126 | exactly which other jtis one call leaves held |
| RevocationEviction.RepetitionEvicts | src/revocation.rs:120-126 | at capacity, revoking a held jti again forgets the one at the head of the queue and leaves the store one below its bound |
| RevocationEviction.SurvivesExactly | src/revocation.rs:39-46 | for every state, time to live and sequence of fresh revocations: a held jti survives iff at each of them it has not expired and what has not expired behind its first slot fits the bound |
| RevocationEviction.SurvivesUnexpired | src/revocation.rs:39-46 | if nothing expires in between, that is iff the jtis not before it plus the new ones fit the bound |
| RevocationEviction.NewestSurvives | src/revocation.rs:54-58 | as long as nothing expires in between, a revocation outlives `maxEntries - 1` fresh later ones iff no held jti's first slot comes after its own |
| RevocationEviction.RevokingOneJtiAgain | src/revocation.rs:120-126 | for every bound and time to live: revocations of one jti leave one entry, and a slot for each since the jti last expired (one slot if the bound is one) |
| RevocationEviction.NewestEvictedFirst | src/revocation.rs:77-78 | for every bound of at least two, as long as nothing expires in between, a history whose most recent revocation is undone by the very next call while all older ones stay |
| RevocationEviction.FloodForgets | src/revocation.rs:39-46 | from every state, `maxEntries` fresh revocations within one time to live forget any jti held before them |
| RevocationWindow.StoreRefinesWindow | src/revocation.rs:54-58 | along every history that repeats no held jti, a jti reads as revoked iff one of the last `maxEntries` calls names it and is younger than the time to live |
| RevocationWindow.HistoryShows | src/revocation.rs:31-46 | the refinement relation: the store is a suffix of the window and what is missing has expired |
| RevocationWindow.NotRevokedNotHeld | src/revocation.rs:105-109 | a jti that reads as not revoked before the call is not held once room is made, so callers can check the hypothesis |
| RevocationWindow.RepetitionLeavesWindow | src/revocation.rs:123-124 | the hypothesis is needed: a history in which the window names a jti the store has dropped |
| RevocationQueue.QueueBoundedExactly | src/revocation.rs:54-58 | over all runs with n calls in flight, some bound on the queue holds iff the time to live is zero, or the store holds one entry and has a time to live or n is one; the least bound is then n |
| RevocationQueue.HistoriesBoundedExactly | src/revocation.rs:54-58 | for undisturbed calls alone, some bound holds iff the store holds one entry or its time to live is zero, and then one slot is enough |
| RevocationQueue.OneSlotExactly | src/revocation.rs:20-27 | over every sequence of critical sections, queue and map have the same size all along iff no insertion finds its jti held |
| RevocationQueue.CarefulCallsOneSlot | src/revocation.rs:105-126 | in every run in which each call finds its jti not revoked when it makes room, and no other call about to insert it, queue and map have the same size, at most the least bound on entries |
| RevocationQueue.HistoryOneSlotExactly | src/revocation.rs:120-126 | for undisturbed calls alone, they have the same size after every call iff no call repeats a jti still held once room is made |
| RevocationInterleaving.RunsAreEvents | src/revocation.rs:105-126 | every concurrent run acts on the store as the sequence of its critical sections |
| RevocationInterleaving.CapacityBound | src/revocation.rs:105-126 | with at most n calls in flight, entries plus pending insertions never exceed `maxEntries - 1 + n`, nor n if the time to live is zero |
| RevocationInterleaving.OvershootAttained | src/revocation.rs:105-126 | for every n and every time to live a run that attains the bound |
| RevocationInterleaving.HardCapExactly | src/revocation.rs:77-78 | the least bound in general; the documented cap holds in all reachable states iff n is one, or, with a time to live of zero, at most the cap |
| RevocationInterleaving.StaysRevoked | src/revocation.rs:105-140 | over every interleaving, a jti inserted without an older slot reads as revoked until its time to live is over while there is room behind it |
| RevocationSurvival.OutlivesExactly | src/revocation.rs:31-46 | for every state, time to live and sequence of critical sections with fresh insertions: a held jti survives iff at each section it has not expired and, where room is made, what has not expired behind its first slot fits the bound |
| RevocationSurvival.StaysRevokedExactly | src/revocation.rs:105-140 | within its time to live, a jti inserted without an older slot reads as revoked in an interleaving with fresh insertions iff there was room behind it whenever room was made |
| RevocationInterleaving.CallsLeaveRoom | src/revocation.rs:120-126 | over every run: if the calls in flight at one point and those that begin later are fewer than `maxEntries`, there is that room from there on |
| RevocationInterleaving.RevokedThroughRun | src/revocation.rs:105-140 | so in every such run a jti inserted without an older slot reads as revoked until its time to live is over |
| RevocationInterleaving.FirstCallFindsNoSlot | src/revocation.rs:120-126 | a jti that no other call begins for before it is inserted has no older slot |
| RedisStore.RevokedUntilExpiry | src/revocation.rs:203-244 | in every interleaving: if `revoke` returned Ok before a call of `is_revoked` begins, that call answers true, or fails, until the revocation expires |
| RedisStore.OkMeansApplied | src/revocation.rs:203-223 | Ok from `revoke` is a SETEX for its jti applied during the call |
| RedisStore.AnswersAreTrue | src/revocation.rs:225-244 | every answer of `is_revoked` is true, both ways, of the SETEX commands applied up to an instant of the call |
| RedisStore.RetryIsFresh | src/revocation.rs:149-152 | at most two commands per call, the second over a connection opened after the one the first failed on |
| RedisOutcomes.ErrorExactly | src/revocation.rs:203-246 | a call ends in an error iff it could not connect or both its attempts failed, so a first failure is always retried; how many commands it sent |
| RedisOutcomes.SmoothCallsSucceed | src/revocation.rs:203-246 | with a lifetime, if nothing is given up and connecting succeeds, no call ends in an error and each sends one command |
| RedisOutcomes.ConnectionIsShared | src/revocation.rs:178-198 | at most one connection more is opened than calls have dropped one after a failure |
| RedisOutcomes.CallsAreShort | src/revocation.rs:203-246 | every call ends after at most nine steps of its own and can always make one until then |
| Jwks.KeyMapIsLastUnder | src/jwks.rs:292-312 | the map holds, under each kid (none counts as empty), the last convertible key with its published algorithm, and nothing else |
| Jwks.BuildKeyMap | src/jwks.rs:292-312 | the loop computes that map; an error iff nothing is convertible |
| JwksCacheClass.JwksCache.FromStaticKeys | src/jwks.rs:112-129 | the given keys, stamped with the instant of construction |
| JwksCacheClass.JwksCache.Refresh | src/jwks.rs:162-190 | all or nothing: both fields replaced on a usable document, neither touched on any failure |
| JwksCacheClass.JwksCache.RefreshCoalesced | src/jwks.rs:195-206 | no request while the map is younger than the interval, otherwise one |
| JwksCacheClass.JwksCache.ResolveKey | src/jwks.rs:212-240 | the result in every case, when a request is sent, and how old a served map can be |
| JwksCacheClass.JwksCache.DecodeToken | src/jwks.rs:257-280 | a token is accepted iff the entry its kid names is resolved, its algorithm is the one published for it and one the policy lists, the key verifies it and its claims pass; exactly when the mismatch error is returned |
| JwksSafety.RunKeeps | src/jwks.rs:162-240 | the invariant of all runs: cache, lock, spacing, request order and provenance of every task |
| JwksTheorems.SingleFlight | src/jwks.rs:195-206 | at most one automatic request in the air, forced refreshes included |
| JwksTheorems.RateLimit | src/jwks.rs:195-206 | k + 1 automatic overwrites take at least k refresh intervals |
| JwksTheorems.RequestsSpaced | src/jwks.rs:195-206 | every automatic request, failed ones included, is sent at least a refresh interval after every overwrite before it, forced ones included |
| JwksTheorems.NoRollback | src/jwks.rs:162-206 | no overwrite is older than one complete before its request was sent; automatic ones never go back behind one another |
| JwksTheorems.NoRollbackUnforced | src/jwks.rs:162-206 | without forced refreshes the installed versions never decrease |
| JwksTheorems.ForcedRefreshRollsBack | src/jwks.rs:155-190 | a run in which an overlapping forced refresh puts the older keys back |
| JwksTheorems.KeysHaveProvenance | src/jwks.rs:212-240 | every served key is the last one under its kid in the document cached at that moment, which was young enough at the first look or under the lock, or installed after the call began |
| JwksTheorems.AcceptedTokensHaveProvenance | src/jwks.rs:257-280 | every token accepted with a key served in a concurrent run verified under an entry of that provenance, published last under its kid, with the algorithm published for it |
| JwksTheorems.CacheAgreement | src/jwks.rs:162-190 | in every reachable state keys and stamp are those of the last installed document, and empty exactly before the first |
| JwksTheorems.OnlyInstallsWrite | src/jwks.rs:162-190 | no step but a successful install changes keys or stamp, and the stamp never moves backwards |
| JwksTheorems.StaticCache | src/jwks.rs:112-129 | over all runs: no request, the map as given, a kid resolves iff it was given and the time to live is not over |
| JwksOutcomes.AskServesExactly | src/jwks.rs:215-222 | in every reachable state the first look serves the key iff the cached document publishes it and is younger than the time to live; otherwise the call goes for the lock |
| JwksOutcomes.ReadServesExactly | src/jwks.rs:234-239 | in every reachable state the last look serves the key iff the cached document publishes it |
| JwksOutcomes.MissesAreTrue | src/jwks.rs:212-240 | whatever step ends a call, a kid is reported unknown only if the cached document does not publish it |
| JwksOutcomes.FailsExactly | src/jwks.rs:162-240 | in every run a call, forced refreshes included, fails iff its own request failed or there was nowhere to send one |
| JwksOutcomes.CallsAreShort | src/jwks.rs:162-240 | every call ends after at most six steps of its own |
| JwksOutcomes.NoDeadlock | src/jwks.rs:195-206 | in every reachable state an unfinished call or the holder of the lock can make a step |
| JwksCoalescing.CoalescingExactly | src/jwks.rs:17-18 | in every such run whose looks under the lock are in time, late arrivals included: N misses send one request per failure plus one, or N if none succeeds; two or more share exactly one iff none fails |
| JwksCoalescing.OneFetchExactly | src/jwks.rs:17-18 | in every run without forced refreshes, two or more misses share exactly one request iff none fails and every look under the lock is in time |
| JwksCoalescing.NothingShared | src/jwks.rs:195-206 | with a zero interval, or no successful fetch, N misses send N requests |
| JwksCoalescing.EveryMissChecks | src/jwks.rs:195-240 | in every run, the looks under the lock and the calls still queued for one are as many as the calls that missed |
| Service.DecodingKeys | src/service.rs:669-699 | one candidate per configured key, the signing key first; an error iff some key does not load |
| Service.DecodeWithRotation | src/service.rs:526-555 | the loops compute the specified decode |
| Service.BuildValidation | src/service.rs:467-489 | the specified policy, with an audience set exactly when one is configured |
| Service.PolicyExactly | src/service.rs:467-489 | over all bodies: the claims pass iff required ones are present, expiry and start are kept within the configured leeway (60 seconds if none), and issuer and audience are configured ones |
| Service.DefaultPolicyExactly | src/service.rs:272-297 | the policy of the rotation constructor and of the default configuration: `exp` and `iss` required, 60 seconds of leeway, nothing else |
| Service.StampedStandard | src/service.rs:559-583 | every claim of the caller kept; `iat`, `exp`, `iss`, `aud` (the first audience) and `jti` filled in exactly where unset; idempotent, and a written lifetime of exactly the configured seconds |
| Service.SigningKeyExactly | src/service.rs:706-736 | which key signs, for every algorithm; a raw private key is ignored for RSA |
| Service.ConstructorsSign | src/service.rs:272-297 | the two constructors sign under the first rotation key, or the empty secret if there is none, and under the given secret |
| Service.VerifyingKeyExactly | src/service.rs:746-775 | which key verifies for any entry, named or not, and when none loads |
| Rotation.NamedTokenExactly | src/service.rs:533-544 | a token naming a kid is decided by the first key of that name alone, or rejected as unknown |
| Rotation.NamedTokenPublicKey | src/service.rs:680-695 | for asymmetric algorithms, which public key decides a named token, in all cases: raw keys before PEM, the entry's before the config's within each; an entry's own PEM iff there is no raw key |
| Rotation.OwnPublicKeyOverridden | src/service.rs:680-695 | a token that verifies under its entry's own PEM key and not under the config's raw key is rejected, whatever its claims and the time |
| Rotation.UnnamedTokenExactly | src/service.rs:546-554 | a token naming none is decided by the first key that accepts it, else with the last key's error; "no keys configured" never comes back |
| Rotation.AcceptedExactly | src/service.rs:526-555 | for every token, algorithm and configuration: accepted with a body iff it has that body and the policy's algorithm, its claims pass and a key that has a say on it verifies it |
| Rotation.AsymmetricRotationLoads | src/service.rs:272-297 | with the constructor's configuration, every token of an asymmetric algorithm is refused unless the first key's private PEM reads as a public one and every entry's public key loads |
| Rotation.SignedTokenExactly | src/service.rs:526-555 | a signed token is accepted with its own body if its name selects a key of its secret and its claims pass, without any unforgeability; and only then if no other configured secret verifies it |
| Rotation.RetainedExactly | src/service.rs:264-297 | along every history of prepending freshly named keys and dropping old ones, under every policy, a token is accepted with its own body while its key is held and its claims pass; and only then if no other configured secret verifies it |
| Rotation.ReusedKidShadows | src/service.rs:536-540 | under a reused name the new key decides: tokens of the old one, still configured, are accepted iff the new secret verifies them and their claims pass |
| Minting.MintedTokenExactly | src/service.rs:590-593 | for every algorithm, and whatever the library does with an audience nobody configured: a minted token is accepted by its own service iff the policy allows what the caller passed, and every claim comes back, with the bookkeeping filled in, to the second |
| Minting.SharedSecretRoundTrip | src/service.rs:590-593 | for shared secrets all that takes is that the library signs and reads back header and body |
| Minting.LifetimesExactly | src/service.rs:590-612 | access and refresh tokens carry the caller's claims and live as long as configured for their kind |
| Minting.DefaultConfigRejectsItsOwn | src/service.rs:393-416 | tokens of the default configuration without a caller's `iss` are rejected by it at all times |
| Minting.DefaultConfigAccepts | src/service.rs:393-416 | with an issuer the default configuration accepts its access tokens for an hour, its refresh tokens for a week, and both for 60 seconds more |
| NoResurrection.DecodeStandardWith | src/service.rs:627-639 | over an in-memory store or none it returns exactly the claims that are acceptable and not revoked |
| NoResurrection.DecodeStandardExactly | src/service.rs:627-639 | for every token, configuration and store: `decode_standard` returns claims iff they are acceptable and no look-up speaks against them, and "revoked" iff they are and one does or fails |
| NoResurrection.ExpiryExactly | src/service.rs:467-489 | a token acceptable in all else is accepted iff it has no expiry or is within the configured leeway of it |
| NoResurrection.AcceptedInTime | src/service.rs:467-489 | no token is accepted later than that, nor without an expiry if one is required |
| NoResurrection.RevokedStaysRejected | src/service.rs:627-639 | end to end, in every interleaving: a revoked token is rejected by every later look-up, as revoked if it still decodes |
| NoResurrection.MintedTokenStaysRejected | src/service.rs:590-639 | in every concurrent run, minted, then revoked, with fewer than `maxEntries` calls in flight or begun later: never accepted again if the store's time to live covers lifetime, leeway, one second and the look-up delay |
| NoResurrection.OutlastingIsExact | src/service.rs:627-639 | the arithmetic condition is necessary as well as sufficient, for each token and revocation |
| NoResurrection.LeastStoreTtl | src/claims.rs:20-34 | the tokens of a lifetime are rejected at all instants of minting, revoking and asking iff the store's time to live is at least lifetime, leeway, one second and delay: the least one that works |
| NoResurrection.FloodResurrects | src/revocation.rs:39-46 | from every state, after `maxEntries` fresh revocations within one time to live a revoked token is accepted again |
| NoResurrection.RedisRevokedStaysRejected | src/revocation.rs:203-244 | the same over Redis, for a look-up that begins after `revoke` returned Ok, with lost answers, reconnects and failing look-ups |

## Left out

- Signatures, PEM and DER parsing, base64url and JSON text: library code, represented by `Jose.Library`.
- Array-valued `aud` and `iss`, and extra claims that repeat a registered name other than `nbf`.
- Calendar limits of `chrono`: lifetimes are taken to be in range, where the original would panic.
- HTTP statuses, TLS, client wiring and Redis wire details: a fetch is a document or none; a command arrives or not and is answered or not.
- The tokio scheduler, cancellation of calls midway, and fairness: no liveness is claimed beyond `CallsAreShort` and `NoDeadlock`.
- The Redis store as a class: it is modelled on values as steps of many tasks, because its retry and its shared connection only matter under interleaving.
- Rotation.SignedTokenExactly: states shared-secret algorithms only, as do `RetainedExactly` and `ReusedKidShadows`, because for the others the rotation constructor refuses every token in most cases (`AsymmetricRotationLoads`) and what a key verifies depends on pairs the library owns; `AcceptedExactly` is for all algorithms.
- JwksCacheClass.JwksCache.DecodeToken: does not model that the library refuses a policy listing algorithms of several families; the crate itself only builds policies of one algorithm.
- RevocationInterleaving.RevokedThroughRun: asks that the jti has no older queue slot when it is inserted, because with one the statement is false (`NewestEvictedFirst`).
- RevocationWindow.StoreRefinesWindow: states sequential histories; for interleaved calls the safety statements are `StaysRevoked` and `RevokedThroughRun`.
- Bearer and cookie helpers, `Debug` redaction, algorithm tables, builder setters and error texts: one-branch facts.
