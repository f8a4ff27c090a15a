# Verified model of the sister daemon and its domain core

`sisterd` is a C++ HTTP daemon: it accepts connections on a worker pool, limits login
attempts, keeps accounts and sessions in two text files, signs and verifies short-lived
internal assertions, and serves cached projections of an ecosystem. The header-only core
holds the integration runs, participation proposals and the registry of governed systems.
This project models that logic in Dafny 4.11 and proves what it keeps over whole runs and
over all inputs. `dafny verify dfyconfig.toml` checks everything.

| files | component |
|---|---|
| `ConnectionThreadPool` | the worker pool as a step system over every interleaving |
| `AttemptWindow`, `RateLimiterRuns`, `RateLimiterCapacity`, `RateLimiterWindow`, `RateLimiterEviction`, `RateLimiterAttempts`, `LoginRateLimiter` | the login rate limiter: one key's queue, whole runs, the buckets a run can need, what it takes to exceed a limit, exactly which limits evict and which keep every limit, the same laws by address and identity with the limits by name, the object |
| `Base64Url`, `Base64Bits`, `AssertionJson`, `AssertionGrammar`, `AssertionClaims`, `AssertionReader`, `ReplayCache`, `InternalAssertion`, `AssertionRuns`, `AssertionVerifier` | internal assertions: codecs and what they mean bit by bit and as a grammar, signing and verifying, replay cache, whole runs of verify, the verifier object |
| `Utf8`, `FlatJson`, `FlatJsonGrammar`, `FlatJsonParser` | the flat JSON codec of the HTTP API and the language it accepts |
| `HttpFraming`, `RequestReader`, `ContentLength` | request framing and Content-Length |
| `AuthText`, `AuthFiles`, `AuthMemory`, `AuthScenarios`, `AuthRuns`, `AuthStore` | the file-backed account store: fields, file formats, operations, what they mean for later logins, whole runs with restarts, the object |
| `IntegrationRun` | the two state machines of a run |
| `SnapshotCache`, `SnapshotState` | the declarative, operational and semantic snapshots |
| `SemanticView`, `SemanticPrint`, `SemanticReader` | the fail-closed semantic projection, written out and read back |
| `Participation`, `Federation` | duplicate detection and the system registry |
| `Text`, `Splitting`, `Duration` | digits, 64-bit numbers, splitting at delimiters, nanoseconds and seconds |

How the model is built. A C++ `char` is a Dafny `char` holding its unsigned value. Objects
that update fields are classes, and every method is tied to a function on values; runs are
explicit sequences of calls and states over those functions, and the laws are proved about
every run. The clock, random values, hash functions, the signature scheme, health probes,
delivered bytes and file contents are inputs. Exceptions are values (`None`, an error, a
refused reply).

What the proofs turned up about the code:

- The request reader is independent of how bytes arrive exactly when the head terminator is
  absent, at offset at most 65536 - 3, or beyond 65536. At the three offsets in between,
  the same bytes give 431 when they arrive one at a time and are framed normally in full
  8192-byte reads (`HttpFraming.DeliveryIndependence`, `HttpFraming.UnsafeDiffers`).
- An evicted bucket forgets its attempts, so under some configurations of the rate limiter a
  key can be admitted above its limit. Which ones is decided by the limits alone: with a
  forward clock no run evicts if and only if `maximumBuckets > 3 * global`
  (`RateLimiterEviction.NeverEvictsIff`), and every key keeps its limit in every run if and
  only if `global < least + 2` or `maximumBuckets + least + 2 > 3 * global`, where `least` is
  the smallest per-key limit (`RateLimiterEviction.KeepsLimitsIff`). The defaults the daemon
  runs with (512 and 4096) never evict and keep every limit
  (`RateLimiterEviction.DefaultsKeepLimits`).
- A session dropped by a restart stays in the sessions file until the next write. Disk and
  memory agree about sessions at a clock reading exactly when no saved session expires after
  it but not after the last such restart (`AuthStore.DiskAgrees`); so exactly when the clock
  was set back, another restart brings such a session back (`AuthRuns.ClockSetBackRevives`).
- A text accepted once is accepted again exactly when it still passes the checks and some
  call in between reached the cache with a cutoff at or past its expiry, that is, when the
  clock stepped back (`AssertionRuns.ReplayedIff`; `AssertionRuns.ClockBackReplays` is such a
  run on signed texts).
- Three defensive branches cannot be reached: the capacity exception of the rate limiter,
  the excess-data answer of the request reader, and the out-of-range exception of
  `appendUtf8` when called from the parser; neither can the `invalid_issuer` answer.

## Model

| member | source | states |
|---|---|---|
| `ConnectionThreadPool.ExactlyOnePlace` | apps/sisterd/runtime/connection_thread_pool.cpp:28-73 | after every interleaving each accepted job is in exactly one of the queue, one worker's hand and the closed jobs; jobs taken followed by jobs queued are the jobs accepted; the queue is within its limit |
| `ConnectionThreadPool.NeverClosedTwice` | apps/sisterd/runtime/connection_thread_pool.cpp:48-73 | no descriptor is closed twice and none that was not accepted is closed |
| `ConnectionThreadPool.StopClosesEverything` | apps/sisterd/runtime/connection_thread_pool.cpp:36-52 | when the stop call that set the flag returns, every accepted descriptor has been closed exactly once and every worker has exited |
| `ConnectionThreadPool.SleepersNeverStarveTheQueue` | apps/sisterd/runtime/connection_thread_pool.cpp:28-34 | no lost wake-up: while any worker sleeps there is an awake worker heading for the queue for each queued job, so a non-empty queue always has a live awake worker |
| `ConnectionThreadPool.StepKeepsInv` | apps/sisterd/runtime/connection_thread_pool.cpp:36-73 | every step of wake, take, handle, throw, close and stop, and every submission whether accepted or not, keeps conservation, wake-ups and the stop protocol |
| `ConnectionThreadPool.RunKeepsInv` | apps/sisterd/runtime/connection_thread_pool.cpp:28-73 | so does every finite run |
| `ConnectionThreadPool.StepPasses` | apps/sisterd/runtime/connection_thread_pool.cpp:28-34 | every step accepts a client exactly when it is a submission that finds the pool not stopping and fewer jobs queued than the limit |
| `ConnectionThreadPool.AcceptanceFollowsEvents` | apps/sisterd/runtime/connection_thread_pool.cpp:28-34 | in every run the accepted clients are, in order, those of the submissions met while not stopping and with the queue below its limit, the queue's length being counted from the events alone |
| `ConnectionThreadPool.EverybodyGetsIn` | apps/sisterd/main.cpp:2819-2823 | in a run without stop whose queue never reaches its limit every submitted client is accepted, in order |
| `ConnectionThreadPool.ShutdownStepDecreases` | apps/sisterd/runtime/connection_thread_pool.cpp:36-62 | once stopping, every step that changes anything lowers a measure over queue, workers and stopper |
| `ConnectionThreadPool.ShutdownIsBounded` | apps/sisterd/runtime/connection_thread_pool.cpp:36-62 | so a shutdown makes at most that many effective steps, whatever the schedule |
| `ConnectionThreadPool.ShutdownProgress` | apps/sisterd/runtime/connection_thread_pool.cpp:36-62 | until stop returns some step of the pool's own threads is possible and changes the state |
| `ConnectionThreadPool.ShutdownCompletes` | apps/sisterd/runtime/connection_thread_pool.cpp:36-73 | every stopping pool can be run to the end of stop with everything closed |
| `ConnectionThreadPool.TailDrainIsIdle` | apps/sisterd/runtime/connection_thread_pool.cpp:48-51 | with at least one worker the tail loop of stop never finds a job |
| `AttemptWindow.KeyRefinesLog` | apps/sisterd/security/login_rate_limiter.cpp:64-68 | one key's queue is the admitted attempts since its last eviction that are newer than the cutoff |
| `AttemptWindow.WindowLaw` | apps/sisterd/security/login_rate_limiter.cpp:49-70 | any limit + 1 admissions of one key since its last eviction span at least the window |
| `AttemptWindow.QueueWithinLimit` | apps/sisterd/security/login_rate_limiter.cpp:49-51 | a queue never exceeds its limit, whatever the clock does |
| `AttemptWindow.RetryKey` | apps/sisterd/security/login_rate_limiter.cpp:53-57 | once the oldest attempt has expired and nothing was admitted since, the queue is below its limit |
| `RateLimiterRuns.KeysAreFour` | apps/sisterd/security/login_rate_limiter.cpp:32-37 | the four keys of any attempt are pairwise distinct, and the limit checked at each position is the limit of the key standing there |
| `RateLimiterAttempts.KeyHasItsLimit` | apps/sisterd/security/login_rate_limiter.cpp:38-43 | the global key is held to `global`, an address key to `perAddress`, an identity key to `perIdentity`, a pair key to `perAddressAndIdentity` |
| `RateLimiterAttempts.KeyNames` | apps/sisterd/security/login_rate_limiter.cpp:32-43 | an attempt touches the key of everyone, of its address, of its identity and of its pair, and no other key |
| `RateLimiterRuns.CapacityHolds` | apps/sisterd/security/login_rate_limiter.cpp:92-116 | in every run the number of buckets stays within the configured maximum, with no premise on times |
| `RateLimiterRuns.BucketsStayWithinLimits` | apps/sisterd/security/login_rate_limiter.cpp:49-68 | in every run every bucket is within its key's limit |
| `RateLimiterRuns.SomethingToEvict` | apps/sisterd/security/login_rate_limiter.cpp:100-111 | whenever the current keys do not fit there is an unprotected bucket, so the exhaustion exception is unreachable |
| `RateLimiterRuns.VictimsAreUnprotected` | apps/sisterd/security/login_rate_limiter.cpp:102-112 | evicted buckets are distinct, present and neither the global one nor one of the current four |
| `RateLimiterRuns.BucketFollowsHistory` | apps/sisterd/security/login_rate_limiter.cpp:47-69 | buckets do not influence each other: each is what the calls on its own key give |
| `RateLimiterRuns.BucketsRefineLog` | apps/sisterd/security/login_rate_limiter.cpp:47-90 | with non-decreasing times every bucket of every run is exactly the logged admissions since its last eviction newer than the last cutoff |
| `RateLimiterRuns.GlobalNeverEvicted` | apps/sisterd/security/login_rate_limiter.cpp:103-104 | no run evicts the global key |
| `RateLimiterRuns.RateLimitWithoutEviction` | apps/sisterd/security/login_rate_limiter.cpp:47-70 | for the global key always and for any key a run did not evict, any limit + 1 consecutive admissions span at least the window |
| `RateLimiterRuns.RateLimitSinceEviction` | apps/sisterd/security/login_rate_limiter.cpp:47-116 | for an evicted key the same holds of the admissions since its last eviction |
| `RateLimiterRuns.RetryAfterTight` | apps/sisterd/security/login_rate_limiter.cpp:52-60 | the delay is at least one second, exceeds the remaining time by at most one second, and is at most window + 1 unless the front attempt lies ahead of the clock |
| `RateLimiterRuns.AttemptsArePast` | apps/sisterd/security/login_rate_limiter.cpp:64-68 | with non-decreasing times no bucket holds an attempt ahead of the clock |
| `RateLimiterRuns.RetryAfterBounded` | apps/sisterd/security/login_rate_limiter.cpp:52-60 | in every run with a forward clock every rejection announces between one second and window + 1 |
| `RateLimiterRuns.RetryAfterSound` | apps/sisterd/security/login_rate_limiter.cpp:48-61 | after the announced delay, whatever other calls came between, the bucket that caused the rejection is below its limit if nothing was admitted on its key |
| `RateLimiterCapacity.GlobalCountsAll` | apps/sisterd/security/login_rate_limiter.cpp:64-90 | the pruned global bucket holds one attempt for every live admission of the run |
| `RateLimiterCapacity.WantedBound` | apps/sisterd/security/login_rate_limiter.cpp:92-100 | in a run with a forward clock no admission needs more than three buckets for each attempt of the global limit and one more |
| `RateLimiterCapacity.RoomyNeverEvicts` | apps/sisterd/security/login_rate_limiter.cpp:92-116 | with more than three buckets per global attempt no run with a forward clock evicts |
| `RateLimiterWindow.LastAccessIs` | apps/sisterd/security/login_rate_limiter.cpp:64-68 | a bucket's last access is the time of the last admission that named its key |
| `RateLimiterWindow.EvictedBetween` | apps/sisterd/security/login_rate_limiter.cpp:47-116 | a key admitted limit + 1 times within the window was evicted in between |
| `RateLimiterWindow.EvictionNeedsBuckets` | apps/sisterd/security/login_rate_limiter.cpp:100-113 | when a key is evicted, least-recently-used order bounds the table by the admissions since that key's last one |
| `RateLimiterWindow.ExceededIsExceedable` | apps/sisterd/security/login_rate_limiter.cpp:47-116 | in every run with a forward clock, a key admitted above its limit implies an inequality between that limit, the global limit and the bucket maximum |
| `RateLimiterEviction.ShortEvicts` | apps/sisterd/security/login_rate_limiter.cpp:92-116 | whenever the bucket maximum is at most three per global attempt, some run evicts |
| `RateLimiterEviction.NeverEvictsIff` | apps/sisterd/security/login_rate_limiter.cpp:92-116 | no run with a forward clock evicts if and only if the bucket maximum exceeds three times the global limit |
| `RateLimiterEviction.SomeKeyExceeds` | apps/sisterd/security/login_rate_limiter.cpp:24-116 | whenever the inequality allows it, for an address, an identity or a pair, some run at one moment admits such a key above its limit |
| `RateLimiterEviction.RateLimitHolds` | apps/sisterd/security/login_rate_limiter.cpp:24-70 | for the global key always, and for every key when the limits satisfy the exact condition, any limit + 1 consecutive admissions of a run with a forward clock span at least the window |
| `RateLimiterEviction.KeepsLimitsIff` | apps/sisterd/security/login_rate_limiter.cpp:16-116 | every run with a forward clock keeps every key's limit if and only if the global limit is below the least per-key limit plus two, or the bucket maximum plus that limit plus two exceeds three times the global limit |
| `RateLimiterEviction.DefaultsKeepLimits` | apps/sisterd/security/login_rate_limiter.hpp:18-25 | under the default limits no run with a forward clock evicts and every limit is kept |
| `RateLimiterAttempts.CountIsAdmissions` | apps/sisterd/security/login_rate_limiter.cpp:64-68 | between two calls the log of a key holds exactly the admissions of the attempts that name its address, identity or pair |
| `RateLimiterAttempts.LimitsHold` | apps/sisterd/security/login_rate_limiter.cpp:24-70 | in every run of attempts with a forward clock, more admissions of one address than `perAddress`, of one identity than `perIdentity`, of one pair than `perAddressAndIdentity` or of anybody than `global` span at least the window; for the first three under the exact condition on the limits |
| `RateLimiterAttempts.LiveIsBucket` | apps/sisterd/security/login_rate_limiter.cpp:47-69 | the pruned bucket of a scope counts the live admissions naming that scope since its last eviction |
| `RateLimiterAttempts.DecisionIs` | apps/sisterd/security/login_rate_limiter.cpp:48-62 | an attempt is admitted exactly when no scope is spent, and otherwise rejected with the word of the first spent one in the order global, address, identity, address and identity; spent means as many live admissions as that scope's limit, by name |
| `LoginRateLimiter.Limiter.Create` | apps/sisterd/security/login_rate_limiter.cpp:16-22 | construction succeeds exactly for valid limits |
| `LoginRateLimiter.Limiter.PruneExpiredUnlocked` | apps/sisterd/security/login_rate_limiter.cpp:82-90 | drops expired attempts from the front of every queue and empty buckets, nothing else |
| `LoginRateLimiter.Limiter.FindOldest` | apps/sisterd/security/login_rate_limiter.cpp:101-108 | returns an unprotected bucket of least last access, or none if all are protected |
| `LoginRateLimiter.Limiter.EnsureCapacityUnlocked` | apps/sisterd/security/login_rate_limiter.cpp:92-116 | evicts exactly as many buckets as needed, each the oldest unprotected one left; it terminates and does not throw |
| `LoginRateLimiter.Limiter.CheckAndRecord` | apps/sisterd/security/login_rate_limiter.cpp:24-70 | an empty key is refused with no change; otherwise the run of attempts grows by exactly this one, a legal rejection or admission; with a forward clock the scope word is the one the live admissions and the named limits decide, and the attempt is allowed exactly when there is none |
| `LoginRateLimiter.Limiter.PruneExpired` | apps/sisterd/security/login_rate_limiter.cpp:72-75 | the run grows by one sweep |
| `LoginRateLimiter.Limiter.BucketCount` | apps/sisterd/security/login_rate_limiter.cpp:77-80 | the count is within the maximum |
| `Base64Url.DecodeEncode` | apps/sisterd/identity/internal_assertion.cpp:110-153 | decoding an encoding gives the bytes back exactly when they are non-empty and the encoding is within 16 KiB, and fails otherwise |
| `Base64Url.EncodeShape` | apps/sisterd/identity/internal_assertion.cpp:110-127 | length of an encoding, its URL-safe alphabet, no padding |
| `Base64Url.BlockRoundTrip` | apps/sisterd/identity/internal_assertion.cpp:129-153 | the block codecs of section 4 of RFC 4648 are inverse up to the zero bytes that padding stands for |
| `Base64Bits.EncodeIs` | apps/sisterd/identity/internal_assertion.cpp:110-127 | the encoding is that of section 5 of RFC 4648: one letter for each six bits of the byte string, the last six filled with zeros, each letter the one its six bits select |
| `Base64Bits.DecodeIs` | apps/sisterd/identity/internal_assertion.cpp:129-153 | a text of letters of either alphabet is decoded exactly when it is non-empty, within 16 KiB and not one letter over a multiple of four; its bytes are the whole eights of its letters' bits |
| `Base64Bits.ForeignIsRefused` | apps/sisterd/identity/internal_assertion.cpp:133-143 | a text with any other character is refused |
| `Base64Url.EncodeText` | apps/sisterd/identity/internal_assertion.cpp:110-123 | the in-place encoder computes the encoding |
| `Base64Url.DecodeText` | apps/sisterd/identity/internal_assertion.cpp:129-153 | the in-place decoder computes the decoding |
| `AssertionJson.UnescapeEscape` | apps/sisterd/identity/internal_assertion.cpp:62-81 | an escaped string is read back unchanged, with what follows it untouched |
| `AssertionJson.ReadPrintedObject` | apps/sisterd/identity/internal_assertion.cpp:83-108 | reading a printed object of a schema with distinct names gives every field its value back |
| `AssertionGrammar.SpelledIsRead` | apps/sisterd/identity/internal_assertion.cpp:196-222 | every spelling of a string, each character plain or as a short escape, is read as the characters it stands for |
| `AssertionGrammar.ReadIff` | apps/sisterd/identity/internal_assertion.cpp:185-264 | the reader accepts exactly the texts of a JSON grammar of strings, 64-bit integers and lists of at most eight strings, with any whitespace between tokens, that hold every name of the schema once, with a value of its kind, and no other name; the answer is the value under each name |
| `AssertionReader.ParseObject` | apps/sisterd/identity/internal_assertion.cpp:185-264 | the position-moving reader computes the reading function for any text |
| `AssertionReader.JsonReader.ReadText` | apps/sisterd/identity/internal_assertion.cpp:196-222 | the string loop reads exactly one literal and stops right after it, or fails |
| `AssertionReader.JsonReader.ReadNumber` | apps/sisterd/identity/internal_assertion.cpp:224-237 | the number loop reads a whole 64-bit integer, or fails |
| `AssertionReader.JsonReader.ReadFields` | apps/sisterd/identity/internal_assertion.cpp:289-321 | the member loop accepts each schema name once, in any order |
| `AssertionClaims.ParseSerialize` | apps/sisterd/identity/internal_assertion.cpp:83-108 | valid claims are printed and read back as exactly those claims |
| `AssertionClaims.ParseClaimsIff` | apps/sisterd/identity/internal_assertion.cpp:289-330 | a text is read as given claims if and only if they are valid and the object holds them under `iss`, `sub`, `aud`, `capabilities`, `purpose`, `iat`, `exp`, `jti` and `request_id` |
| `AssertionClaims.ParseHeaderIff` | apps/sisterd/identity/internal_assertion.cpp:266-287 | a header yields a key id if and only if it is valid and stands under `kid` beside the algorithm EdDSA and the type sister-internal+jwt |
| `AssertionClaims.CapabilityIff` | apps/sisterd/identity/internal_assertion.cpp:44-60 | the capability scan accepts exactly three segments joined by dots, each a small letter followed by small letters, digits and underscores |
| `AssertionClaims.ParseHeaderText` | apps/sisterd/identity/internal_assertion.cpp:266-287 | the header the signer prints is read back as its key id |
| `AssertionClaims.PayloadLength` | apps/sisterd/identity/internal_assertion.cpp:83-108 | valid claims print to fewer than 10000 bytes |
| `InternalAssertion.CompactFits` | apps/sisterd/identity/internal_assertion.cpp:365-386 | the compact text of valid claims is always below 16 KiB |
| `InternalAssertion.SplitJoined` | apps/sisterd/identity/internal_assertion.cpp:416-427 | three dot-free parts joined by dots split into those parts |
| `InternalAssertion.SignThenExamine` | apps/sisterd/identity/internal_assertion.cpp:365-463 | a signed text passes every check up to the claims and is then judged by the claims alone |
| `InternalAssertion.SignThenVerify` | apps/sisterd/identity/internal_assertion.cpp:365-477 | verifying a signed text accepts if and only if audience, purpose, capability, times, lifetime and the pruned cache allow it, and then returns exactly the signed claims |
| `InternalAssertion.AcceptedAreSound` | apps/sisterd/identity/internal_assertion.cpp:447-463 | for any text the issuer answer is never given, and accepted claims expire after now - skew and no later than now + skew + lifetime |
| `InternalAssertion.SplitThreeIff` | apps/sisterd/identity/internal_assertion.cpp:416-427 | a text splits into three parts if and only if it is those parts, free of dots, joined by two dots |
| `InternalAssertion.AcceptedIff` | apps/sisterd/identity/internal_assertion.cpp:408-463 | for any text, verification up to the cache accepts given claims if and only if the text is a readable header, payload and signature, the key its header names is registered and verifies the signature over header and payload, the payload reads as those valid claims, and they meet the audience, purpose, capability, times and lifetime required |
| `InternalAssertion.RefusalMeaning` | apps/sisterd/identity/internal_assertion.cpp:428-463 | a readable text is refused as unknown_key exactly when its key is not registered, as invalid_signature exactly when that key does not verify it, and after that by its claims |
| `InternalAssertion.RefusalWords` | apps/sisterd/identity/internal_assertion.cpp:448-463 | each refusal word of the claim checks is given exactly when its condition is the first to fail |
| `InternalAssertion.UnreadableIsMalformed` | apps/sisterd/identity/internal_assertion.cpp:413-434 | every text that is not three decodable parts with a valid header is refused as malformed |
| `InternalAssertion.SameTextSameClaims` | apps/sisterd/identity/internal_assertion.cpp:424-447 | what an accepted text says depends on neither keys, requirements nor time |
| `AssertionRuns.SharedIdNeedsExpiry` | apps/sisterd/identity/internal_assertion.cpp:447-477 | in any run of verify whose cutoffs do not go back, two acceptances share a token id only if the first expiry is at or before the second cutoff |
| `AssertionRuns.ServedIff` | apps/sisterd/identity/internal_assertion.cpp:408-477 | a call accepts given claims if and only if the text vouches for them under the call's keys, they meet its requirements, and their id is not among the unexpired ids in the cache |
| `AssertionRuns.AcceptedIsVouched` | apps/sisterd/identity/internal_assertion.cpp:408-477 | every acceptance of every run of verify is of a text signed under a key registered at that call |
| `AssertionRuns.SameTextNeverAcceptedTwice` | apps/sisterd/identity/internal_assertion.cpp:408-477 | no run of verify whose cutoffs do not go back accepts one text twice, although the cache is pruned and keys and requirements may change |
| `AssertionRuns.RetainedExpiries` | apps/sisterd/identity/internal_assertion.cpp:447-476 | over runs of verify with fixed skew and lifetime and a forward clock, after any call that reaches the cache every kept expiry lies in (now - skew, now + skew + lifetime] |
| `AssertionRuns.ReplayedIff` | apps/sisterd/identity/internal_assertion.cpp:465-476 | a text accepted before, its id not accepted since, is accepted again if and only if it passes the checks and a call in between overtook its expiry |
| `AssertionRuns.ClockBackReplays` | apps/sisterd/identity/internal_assertion.cpp:365-477 | for any signed claims, another signed text verified past their expiry and a clock set back make a run that accepts the first text twice |
| `AssertionRuns.CacheRunIsRun` | apps/sisterd/identity/internal_assertion.cpp:465-476 | the calls that pass all other checks drive the replay cache, and no others |
| `ReplayCache.RefusedIff` | apps/sisterd/identity/internal_assertion.cpp:465-476 | an attempt is refused as a replay if and only if an earlier accepted one with its id outlived every cutoff since |
| `ReplayCache.ReuseNeedsExpiry` | apps/sisterd/identity/internal_assertion.cpp:465-476 | an id is accepted again only after some cutoff reached the earlier expiry |
| `ReplayCache.NeverAcceptedTwice` | apps/sisterd/identity/internal_assertion.cpp:465-476 | with forward cutoffs two acceptances of an id have the first expiry at or before the second cutoff |
| `ReplayCache.RetainedWindow` | apps/sisterd/identity/internal_assertion.cpp:467-475 | bounds on every retained expiry |
| `InternalAssertion.AddedKeyDecides` | apps/sisterd/identity/internal_assertion.cpp:394-398 | after a key is added, texts signed by its private half under its id are judged by their claims alone, and texts naming another id or none are judged as before |
| `AssertionVerifier.Verifier.ExamineText` | apps/sisterd/identity/internal_assertion.cpp:413-463 | the checks in order, the signature's among them, give for any text the outcome that `AcceptedIff`, `RefusalMeaning` and `UnreadableIsMalformed` fix |
| `AssertionVerifier.Verifier.PruneSeen` | apps/sisterd/identity/internal_assertion.cpp:467-473 | the erase loop removes exactly the expired ids |
| `AssertionVerifier.Verifier.VerifyText` | apps/sisterd/identity/internal_assertion.cpp:408-481 | outcome and cache are those of the verification function, and the run of calls grows by exactly this call |
| `AssertionVerifier.ReadClaims` | apps/sisterd/identity/internal_assertion.cpp:289-330 | the reading loop computes the parsed claims |
| `AssertionVerifier.ReadHeader` | apps/sisterd/identity/internal_assertion.cpp:266-287 | the reading loop computes the parsed key id |
| `Utf8.EncodeIsRfc3629` | apps/sisterd/main.cpp:770-788 | a scalar value is encoded to given bytes if and only if those bytes decode to it by section 3 of RFC 3629 |
| `Utf8.EncodeInjective` | apps/sisterd/main.cpp:770-788 | distinct scalar values have distinct bytes |
| `Utf8.EncodeDecode` | apps/sisterd/main.cpp:770-788 | re-encoding a decoded sequence gives the same bytes |
| `FlatJson.ReadUnicodeForm` | apps/sisterd/main.cpp:901-915 | the escape form of every scalar value, a surrogate pair above U+FFFF, is read into its UTF-8 bytes |
| `FlatJson.UnicodeRejectsOnlyIllFormed` | apps/sisterd/main.cpp:864-914 | an escape is accepted if and only if it is well formed, so lone surrogates are rejected; what is accepted is valid UTF-8 |
| `FlatJson.ReadPrintedString` | apps/sisterd/main.cpp:878-921 | every printed string, control bytes included, is read back unchanged |
| `FlatJson.ParsePrint` | apps/sisterd/main.cpp:794-836 | printed members are parsed to the map they form if and only if their keys are distinct, and refused otherwise |
| `FlatJson.MapRoundTrip` | apps/sisterd/main.cpp:744-768 | any finite map of strings to strings or null, printed in any order, is parsed back to itself |
| `FlatJson.BodyRoundTrip` | apps/sisterd/main.cpp:927-931 | a printed map comes back from the request body exactly when it is within 64 KiB, and longer bodies are refused |
| `FlatJsonGrammar.ReadHex4Iff` | apps/sisterd/main.cpp:864-876 | four characters are read as a number if and only if they are hexadecimal digits of either case with that value |
| `FlatJsonGrammar.SpelledIsRead` | apps/sisterd/main.cpp:878-921 | every spelling of a string, each character plain, as a short escape, as a `\u` escape or as a surrogate pair in digits of either case, is read as the bytes it stands for |
| `FlatJsonGrammar.ReadIsSpelled` | apps/sisterd/main.cpp:878-921 | whatever is read as a string is such a spelling of what was read |
| `FlatJsonGrammar.ParseIff` | apps/sisterd/main.cpp:794-921 | the parser accepts exactly the texts of a JSON grammar of flat objects, with any whitespace between tokens and any spelling of the strings, whose keys are distinct; the answer is the map of their entries |
| `FlatJsonParser.ParseFlatJsonObject` | apps/sisterd/main.cpp:927-931 | the body parser computes the bounded parse |
| `FlatJsonParser.FlatJsonObjectParser.ParseObject` | apps/sisterd/main.cpp:794-836 | the position-moving parser computes the parsing function for any text |
| `FlatJsonParser.FlatJsonObjectParser.ParseString` | apps/sisterd/main.cpp:878-921 | the string loop reads one literal and stops right after it, or fails |
| `FlatJsonParser.FlatJsonObjectParser.ParseHex4` | apps/sisterd/main.cpp:864-876 | the digit loop reads four hexadecimal digits, or fails |
| `FlatJsonParser.FlatJsonObjectParser.ParseUnicode` | apps/sisterd/main.cpp:902-914 | one escape or surrogate pair is read |
| `FlatJsonParser.FlatJsonObjectParser.ParseMembers` | apps/sisterd/main.cpp:807-828 | the member loop collects the members and refuses a repeated key |
| `ContentLength.Parse` | apps/sisterd/http/content_length.cpp:7-25 | valid with value v if and only if the text is non-empty, all digits and its unbounded value v is within the maximum; too large if and only if some digit prefix exceeds the maximum; the machine word never overflows |
| `HttpFraming.FindFrom` | apps/sisterd/main.cpp:574-574 | the found offset is the first terminator at or after the start, and none is reported only if there is none |
| `HttpFraming.PrefixFinds` | apps/sisterd/main.cpp:573-574 | a buffered prefix shows the stream's terminator exactly when it holds all of it |
| `HttpFraming.DeliveryIndependence` | apps/sisterd/main.cpp:551-587 | every delivery of a byte stream in reads of 1 to 8192 bytes gives the delivery-free framing if and only if the terminator is absent, at most at 65533 or beyond 65536 |
| `HttpFraming.ReceiveOutcome` | apps/sisterd/main.cpp:551-726 | every delivery gives either that framing or, at the remaining offsets, 431 |
| `HttpFraming.UnsafeDiffers` | apps/sisterd/main.cpp:575-580 | at every remaining offset one delivery gives 431 and another gives the framing |
| `HttpFraming.BodyIgnoresDelivery` | apps/sisterd/main.cpp:702-726 | the body loop gives the declared slice of the stream or the end's failure, however the bytes arrive |
| `HttpFraming.AcceptedIsSlice` | apps/sisterd/main.cpp:726-726 | an accepted head, the terminator and the declared body are a prefix of the stream, and the head ends at its first terminator |
| `HttpFraming.ExcessDataUnreachable` | apps/sisterd/main.cpp:720-723 | the excess-data answer is never given |
| `HttpFraming.FailureIs` | apps/sisterd/main.cpp:551-726 | every failure has its status: 431 only for a head beyond the limit; 408 on a timeout and 400 on a close or an error before the end of the head or of the declared body; otherwise the status header processing gave to the stream's head |
| `RequestReader.ReadHeadBytes` | apps/sisterd/main.cpp:551-587 | the head loop computes the specified head and buffers at most one read beyond the limit |
| `RequestReader.ReadBodyBytes` | apps/sisterd/main.cpp:702-726 | the body loop computes the specified body |
| `RequestReader.ReadRequest` | apps/sisterd/main.cpp:551-726 | the whole reader gives the stream's own framing at every safe offset; accepted requests are slices of the stream |
| `AuthText.NormalizeFixedPoints` | apps/sisterd/auth.cpp:108-114 | normalising twice is normalising once, and the fixed points are the addresses without capitals and blank ends |
| `AuthText.TrimRemovesBlanks` | apps/sisterd/auth.cpp:101-106 | trimming removes blanks from both ends and nothing else |
| `AuthText.NormalizeIs` | apps/sisterd/auth.cpp:108-114 | a normalised address is what stands between the blanks, letter for letter in small letters |
| `AuthText.SameAddressIff` | apps/sisterd/auth.cpp:108-114 | two addresses normalise alike if and only if, blanks at the ends apart, they differ in the case of letters alone |
| `AuthFiles.UsersRoundTrip` | apps/sisterd/auth.cpp:165-218 | the users file parses back to the same users in the same order |
| `AuthFiles.SessionsRoundTrip` | apps/sisterd/auth.cpp:227-272 | written in any order, the sessions file loads as exactly the unexpired sessions of known users, expiries cut to whole seconds |
| `AuthFiles.UserLineIs` | apps/sisterd/auth.cpp:176-201 | six fields are id, name, address, role, salt and hash in this order, five are the same without a role, which is then user, and any other number of fields is no user |
| `AuthFiles.SessionLineIs` | apps/sisterd/auth.cpp:234-257 | a session line is token hash, user and expiry in seconds in this order, and is skipped unless the hash and the number are well formed |
| `AuthMemory.ApplyKeepsInv` | apps/sisterd/auth.cpp:286-580 | every operation and restart keeps: distinct ids and addresses, normalised addresses, well-formed fields, sessions owned by users |
| `AuthMemory.AdminRemains` | apps/sisterd/auth.cpp:453-507 | no operation removes or demotes the last administrator |
| `AuthMemory.InvIsStorable` | apps/sisterd/auth.cpp:116-121 | everything the invariant admits survives both files |
| `AuthRuns.RunKeepsInv` | apps/sisterd/auth.cpp:316-550 | the invariant holds in every state of every run from an empty store with fresh ids |
| `AuthRuns.AccountsStayApart` | apps/sisterd/auth.cpp:363-550 | in every reachable state two accounts differ in id and no raw address normalises to both |
| `AuthRuns.SessionsHaveOwners` | apps/sisterd/auth.cpp:509-516 | in every reachable state every session belongs to an existing user |
| `AuthRuns.AdminPersists` | apps/sisterd/auth.cpp:409-521 | once an administrator exists there is one in every later state |
| `AuthRuns.GoneStaysGone` | apps/sisterd/auth.cpp:552-580 | a session absent from memory and disk returns only if its token is issued again, restarts included |
| `AuthRuns.EndedSessionNeverReturns` | apps/sisterd/auth.cpp:479-580 | after logout or deletion of its user a token resolves to nobody at every later point of every run, unless issued again; sessions held only on disk included |
| `AuthRuns.RestartsOnlyForget` | apps/sisterd/auth.cpp:227-294 | for any run with restarts anywhere, against the same calls without them: same accounts; a token that resolves resolves to the same user; one that is lost had less than a second left; provided no restart reads an earlier clock |
| `AuthRuns.StepTracks` | apps/sisterd/auth.cpp:286-580 | each call answers alike with and without earlier restarts, token lookups excepted |
| `AuthRuns.MemoryFollowsDisk` | apps/sisterd/auth.cpp:227-294 | in every state of every run the sessions in memory are those last written, or, if a restart came since, what that restart restored of them |
| `AuthMemory.DiskAgreesIff` | apps/sisterd/auth.cpp:227-278 | with no clock premise, restoring the saved sessions and truncating those in memory agree at a clock reading if and only if no restart came since the last write or no saved session expires after the reading but not after that restart |
| `AuthRuns.ClockSetBackRevives` | apps/sisterd/auth.cpp:227-259 | in every run a restart brings back a session that memory does not hold if and only if it expires after the restart's clock but not after an earlier restart since the last write |
| `AuthScenarios.LoginDecision` | apps/sisterd/auth.cpp:335-350 | under any spelling of an account's address a login is answered with that account and the token exactly when the password derives its hash, and refused otherwise |
| `AuthScenarios.LoginOpensSession` | apps/sisterd/auth.cpp:286-352 | after a successful login the token resolves to the account whose address was given, exactly for eight hours; every account and every session under another token is unchanged, and a failed login changes nothing |
| `AuthScenarios.UnknownAddressIsRefused` | apps/sisterd/auth.cpp:335-346 | a login under an address no account has is refused and changes nothing |
| `AuthScenarios.BootstrapDecision` | apps/sisterd/auth.cpp:307-333 | the first account is made exactly in an empty store with a usable name, address and password, as an administrator, and refused otherwise |
| `AuthScenarios.RegisterOpensSession` | apps/sisterd/auth.cpp:286-305 | a registration that makes the first administrator opens a session that resolves to it exactly for eight hours and touches nothing else; a refused one changes nothing |
| `AuthScenarios.CreateDecision` | apps/sisterd/auth.cpp:363-407 | each refusal of a creation is given exactly when its condition is the first to fail, and changes nothing |
| `AuthScenarios.ImportDecision` | apps/sisterd/auth.cpp:523-550 | an import is accepted exactly for an unused id and address and valid fields, and keeps the id and role given |
| `AuthScenarios.UpdateDecision` | apps/sisterd/auth.cpp:409-477 | for an existing account: refused for an address another account has, bad fields, demoting the only administrator or a short new password, in this order; otherwise that account alone is renewed |
| `AuthScenarios.DeleteDecision` | apps/sisterd/auth.cpp:479-521 | for an existing account: refused for one's own account or the only administrator, otherwise that account and its sessions are removed |
| `AuthScenarios.UnknownIdIsRefused` | apps/sisterd/auth.cpp:409-521 | updating or deleting an id that no account has is refused as not found |
| `AuthScenarios.CountMeansOnly` | apps/sisterd/auth.cpp:453-507 | an administrator among at most one counted is the only administrator |
| `AuthScenarios.LogoutEndsOnlyThat` | apps/sisterd/auth.cpp:570-580 | a logout ends the session of its token and leaves every account and every other session |
| `AuthScenarios.CreatedAccountLogsIn` | apps/sisterd/auth.cpp:363-407 | a created account has the trimmed name, normalised address and role given, and logs in at once with its password |
| `AuthScenarios.UpdatedAccountLogsIn` | apps/sisterd/auth.cpp:409-477 | an updated account keeps its id, takes the new fields, and logs in under its new address exactly with the new password, or with the old one if none was set |
| `AuthScenarios.SessionLastsEightHours` | apps/sisterd/auth.cpp:286-294 | a session resolves to its user for eight hours and not after |
| `AuthScenarios.DeleteRemovesAccount` | apps/sisterd/auth.cpp:479-521 | a deletion that is not refused removes exactly that account and its sessions; a refused one changes nothing |
| `AuthScenarios.DeletedAccountIsGone` | apps/sisterd/auth.cpp:479-521 | when a deletion is answered as done, the account cannot log in under any spelling of its address and none of its tokens resolves, in memory or after any restart |
| `AuthScenarios.OthersAreUnaffected` | apps/sisterd/auth.cpp:409-521 | an update or deletion leaves every other account and its sessions as they were |
| `AuthStore.LoadUsers` | apps/sisterd/auth.cpp:165-203 | the line loop computes the parsed users for any text, five-field lines included |
| `AuthStore.WriteUsers` | apps/sisterd/auth.cpp:205-219 | the write loop prints all users in order |
| `AuthStore.LoadSessions` | apps/sisterd/auth.cpp:227-259 | the line loop computes the parsed sessions for any text |
| `AuthStore.WriteSessions` | apps/sisterd/auth.cpp:261-272 | the write loop prints every session once, in some order |
| `AuthStore.DiskAgrees` | apps/sisterd/auth.cpp:165-278 | whenever the store is valid its users file parses to its users in order; its sessions file parses to the live sessions in memory in whole seconds if and only if no restart since the last write separates them; and memory is the saved map or what that restart restored |
| `AuthStore.Restart` | apps/sisterd/auth.cpp:145-146 | a new store over the same files is valid and holds exactly the restarted memory |
| `AuthStore.Store.BootstrapAdmin` | apps/sisterd/auth.cpp:307-333 | new memory, reply and both files are those of the operation, and the invariant is kept |
| `AuthStore.Store.RegisterAdmin` | apps/sisterd/auth.cpp:296-305 | the same for bootstrap followed by a session |
| `AuthStore.Store.Login` | apps/sisterd/auth.cpp:335-352 | the same for login: memory and both files become those of the function that `LoginOpensSession` fixes, so the stored session is the found account's; an unknown address is refused whatever its hash |
| `AuthStore.Store.CreateUser` | apps/sisterd/auth.cpp:363-407 | the same, with each refusal in its order |
| `AuthStore.Store.UpdateUser` | apps/sisterd/auth.cpp:409-477 | the same, with each refusal in its order |
| `AuthStore.Store.DeleteUser` | apps/sisterd/auth.cpp:479-521 | the same; the user and all its sessions leave memory and both files |
| `AuthStore.Store.EraseSessions` | apps/sisterd/auth.cpp:510-516 | the erase loop removes exactly the sessions of one user |
| `AuthStore.Store.ImportUser` | apps/sisterd/auth.cpp:523-550 | the same for an imported account |
| `AuthStore.Store.UserForToken` | apps/sisterd/auth.cpp:552-568 | the same; an expired session is erased and the file rewritten |
| `AuthStore.Store.Logout` | apps/sisterd/auth.cpp:570-580 | the same; the session leaves memory and file |
| `IntegrationRun.ReachableRuns` | core/include/sister/integration_run.hpp:167-258 | in every history: validity superseded iff relations exist; valid or invalid only when completed; exactly one kind of result once terminal, none before; timestamps exactly for stages passed; identity, inputs and evidence are the proposal's |
| `IntegrationRun.SupersededForever` | core/include/sister/integration_run.hpp:224-239 | a run whose execution is superseded never changes again |
| `IntegrationRun.FourExecutionsAtMost` | core/include/sister/integration_run.hpp:192-231 | the execution status counts the successful execution transitions, so there are at most four in any history |
| `IntegrationRun.HistoryOnlyGrows` | core/include/sister/integration_run.hpp:184-258 | relations only grow, timestamps and results are set once, and a verdict once given changes only by supersession |
| `IntegrationRun.VerdictIff` | core/include/sister/integration_run.hpp:233-258 | in every history a run is valid if and only if a mark-valid transition succeeded and no supersession did, invalid if and only if a mark-invalid one did and no supersession, superseded if and only if a supersession of either kind did |
| `IntegrationRun.ExecutionAcceptedIff` | core/include/sister/integration_run.hpp:184-231 | exactly when an execution transition is accepted, and that it leads to its own status |
| `IntegrationRun.ValidityAcceptedIff` | core/include/sister/integration_run.hpp:233-258 | exactly when a validity transition is accepted |
| `IntegrationRun.ProposedIff` | core/include/sister/integration_run.hpp:167-182 | a proposal is accepted if and only if it has two participants, a purpose, a capability and an input, and the run starts proposed, pending and empty |
| `IntegrationRun.RecordsAreTraced` | core/include/sister/integration_run.hpp:193-223 | in every history each timestamp, output, error and cancellation reason is the one given by the successful event that passed its stage |
| `IntegrationRun.RelationsAreSupersessions` | core/include/sister/integration_run.hpp:224-255 | a run's relations are exactly its successful supersessions of either kind, in order |
| `SnapshotCache.CurrentIffHonest` | apps/sisterd/main.cpp:1466-1493 | every view served equals rereading the file if and only if no two neighbouring calls see different views under one path and write time |
| `SnapshotCache.DeclarativeRepliesAreCurrent` | apps/sisterd/main.cpp:1487-1493 | in any interleaving of both entry points every declarative reply is the parse of the file at that call |
| `SnapshotCache.ObservedRepliesAreRecent` | apps/sisterd/main.cpp:1495-1514 | every operational reply is the current declarative view with the health that one call less than 500 ms back observed, so it differs in health alone |
| `SnapshotCache.OperationalHasOrigin` | apps/sisterd/main.cpp:1477-1484 | a stored operational view was always observed from the stored declarative view |
| `SnapshotCache.ObserveOnlySetsHealth` | apps/sisterd/ecosystem/ecosystem_view.cpp:307-323 | observing changes health fields only |
| `SnapshotCache.HealthIs` | apps/sisterd/ecosystem/ecosystem_view.cpp:307-323 | a system that declares a path on a loopback TCP port gets the answer of its own port and path; every other one is marked as not observed with the first reason that applies |
| `SnapshotCache.RepliesAreProbedBy` | apps/sisterd/main.cpp:1495-1514 | every operational reply shows the health probed by the call in charge, which the calls alone decide: a call probes exactly when the file changed or the last probing is at least 500 ms old |
| `SnapshotState.ObserveEcosystemHealth` | apps/sisterd/ecosystem/ecosystem_view.cpp:307-323 | the loop gives every system the health its declaration and probe call for |
| `SnapshotState.EcosystemState.RefreshLocked` | apps/sisterd/main.cpp:1466-1485 | reports and handles exactly a changed source, dropping the operational view |
| `SnapshotState.EcosystemState.DeclarativeEcosystem` | apps/sisterd/main.cpp:1487-1493 | new state and reply are those of the served call |
| `SnapshotState.EcosystemState.ObservedEcosystem` | apps/sisterd/main.cpp:1495-1514 | new state and reply are those of the served call |
| `SnapshotState.SemanticState.SemanticEcosystem` | apps/sisterd/main.cpp:1516-1538 | the semantic cache refreshes the same way and serves what it stores |
| `SemanticView.AuthoritativeIff` | apps/sisterd/ecosystem/semantic_view.cpp:36-90 | a view is authoritative if and only if the last META line is well formed; its revision is that line's; otherwise it is empty |
| `SemanticView.ViewIsExplained` | apps/sisterd/ecosystem/semantic_view.cpp:57-81 | the participants are exactly those of the first lines that declare them under a well-formed header, in the order of those lines, each with the capabilities later lines grant it in order; ids are distinct and none is missing |
| `SemanticView.FirstLinesAre` | apps/sisterd/ecosystem/semantic_view.cpp:59-69 | those lines are in increasing order and are exactly the first declarations |
| `SemanticView.FailsClosed` | apps/sisterd/ecosystem/semantic_view.cpp:92-115 | whatever the file, a view that is not authoritative is empty and ids are distinct |
| `SemanticPrint.ViewRoundTrip` | apps/sisterd/ecosystem/semantic_view.cpp:36-90 | a projection written out line by line is read back field by field, participants and capabilities in order |
| `SemanticPrint.ServedIffPrintable` | apps/sisterd/ecosystem/semantic_view.cpp:30-90 | the authoritative views the reader can give are exactly those with a non-empty single-line revision, distinct participant ids and non-empty single-line fields |
| `SemanticPrint.FileRoundTrip` | apps/sisterd/ecosystem/semantic_view.cpp:92-115 | a written projection in a file is served as written up to 1 MiB and refused beyond |
| `SemanticPrint.PlainLineRules` | apps/sisterd/ecosystem/semantic_view.cpp:46-56 | blank lines and comments mean nothing, and a carriage return before the line end is no part of the line |
| `SemanticReader.SplitByTab` | apps/sisterd/ecosystem/semantic_view.cpp:15-28 | the loop yields every piece between tabs |
| `SemanticReader.ProjectionReader.ReadLine` | apps/sisterd/ecosystem/semantic_view.cpp:46-80 | one line has the specified effect |
| `SemanticReader.ParseSemanticProjection` | apps/sisterd/ecosystem/semantic_view.cpp:36-90 | the line loop computes the parsed view for any content |
| `SemanticReader.ServedViewIsCurrent` | apps/sisterd/main.cpp:1516-1538 | if changed content has a changed write time, every semantic view served is the parse of the file at that call |
| `Participation.SortFindsDuplicates` | core/include/sister/participation.hpp:172-175 | sorting and comparing neighbours finds a duplicate if and only if two identifiers are equal |
| `Participation.ProposeParticipation` | core/include/sister/participation.hpp:152-183 | the outcome, with each error, is decided by presence, completeness and pairwise distinct identifiers |
| `Federation.FaultMeaning` | core/include/sister/federation.hpp:81-90 | the nested loops report no fault if and only if identifiers are distinct and every capability is complete |
| `Federation.FaultIsFirst` | core/include/sister/federation.hpp:81-90 | the fault reported is that of the first faulty capability, an incomplete one before a repeated one |
| `Federation.FreshRegistration` | core/include/sister/federation.hpp:65-93 | under a new id a registration is accepted exactly for a sound manifest and then stored as given; each error is given exactly when its condition is the first to fail, and changes nothing |
| `Federation.RegistryIsSound` | core/include/sister/federation.hpp:65-109 | every manifest of every reachable registry is complete, keyed by its id, with non-empty and distinct capabilities |
| `Federation.ReRegistering` | core/include/sister/federation.hpp:72-80 | registering under a known id never changes the registry and is accepted if and only if the manifest is the stored one |
| `Federation.RegistrationIsPermanent` | core/include/sister/federation.hpp:95-109 | registered systems are never removed and keep version, owner and capabilities |
| `Federation.Registry.RegisterSystem` | core/include/sister/federation.hpp:65-93 | the new map and error are those of the specification |
| `Federation.RegistryFollowsCalls` | core/include/sister/federation.hpp:65-109 | systems do not influence each other: what any reachable registry holds under an id is the first sound manifest registered there with the last status and maturity set since |

## Left out

- PostgreSQL: the database half of the account store and `db.cpp`; its behaviour lives in SQL.
- Sockets, listeners, proxying, routing, logging and health probes: only delivered bytes and observed health enter the model.
- Cryptography: hashes are functions with 64 hexadecimal digits, the signature scheme has the single law that a signature made with a key verifies under its public key; PEM parsing is a predicate; `verification_failure` of the library is not modelled.
- Header lines, cookies, origin checks and path decoding of a request: `HttpFraming` takes header processing as an arbitrary function from the head to a status or a declared length.
- Parsing of the declarative projection: an arbitrary function; every field no operation here reads is one `description`.
- `core/src/contract.cpp`, the Python scripts, `web/`, `site/`, `tools/` and the gateway tests: field checklists, user interface and external behaviour.
- Library calls (`std::sort`, `find_if`, `count_if`, `tolower` in the C locale, map iteration) are functions with their contracts, or loops in an arbitrary order.
- Machine arithmetic on times and counters: unbounded integers, except the 64-bit numbers of the assertions, the session file's range and Content-Length. Clock readings of the account store are non-negative.
- Files: writes succeed and are atomic, and a projection file does not change between reading its write time and its content.
- Mutexes: each public operation outside the worker pool is one atomic step.
- Error messages: one constructor per cause instead of the text.
- AuthMemory.CallOk: new identifiers are assumed fresh, as random UUIDs are; the code does not check it.
- LoginRateLimiter.Limiter.CheckAndRecord: the pair key joins address and identity with a colon, so two pairs can share a key; the proofs hold for the key as it is built.
