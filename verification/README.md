# Verified models of cpp-commons

Dafny models of the parts of cpp-commons whose correctness does not show from reading one function, with
machine-checked proofs of what they guarantee. `dafny verify dfyconfig.toml` checks everything.

## What is modelled

**Tokens.** `Base64Url` holds the two base64url encoders (a running 32-bit accumulator and a loop over
blocks of three octets) and the skipping decoder, all against the 24-bit groups of section 4 of RFC 4648
with the alphabet of section 5. `Sha256` and `Hmac` hold the hand-written hash and MAC against sections
4.1, 5 and 6.2 of RFC 6234 and section 2 of RFC 2104; `HashConstants` derives the tables from the primes. `Jwt` puts them together: signing, the signature
check and decoding (section 7.1 of RFC 7515). Octets and words are numbers; `Bits` defines `&`, `|`, `^`
and shifts on them bit by bit, and wrap-around is written out.

**Identifiers.** `Uuid` is the 128-bit identifier with its text forms, its order and the version-4 masks
(sections 3 and 4.4 of RFC 4122).

**Resilience.** `RateLimiting` (lazy token bucket), `CircuitBreaking`, `Retrying` and `Hedge`. Classes that
update their fields are classes here; each locked region or atomic operation is also a step of a state
machine, and the theorems are about every sequence of steps. Clock readings are parameters.

**Protocols.** `Idempotency`, `Saga`, `KeyRotation` and `Outbox`. Handlers, actions, publishers and the
cipher are parameters or arbitrary choices of a run.

Exceptions are result values. JSON and AES-GCM are parameters: the JSON library is assumed to read back the
two values at hand, the cipher to decrypt what it encrypted.

## Where comments promise more than the code

* `src/resilience/hedge.hpp:14` promises the first exception when both calls throw. Counting a failure and
  recording its exception are separate steps, so the other thread can deliver the pointer before it is
  written; the null pointer is then handed to `set_exception`. `Hedge.FirstExceptionCanBeLost` is such a run;
  `Hedge.ErrorDelivered` is the exact condition.
* `src/application/outbox_publisher.hpp:45` promises at-least-once delivery. The batch is taken out before
  it is published, so a throwing publisher loses its event and the rest. `Outbox.ThrowLosesBatch` is such a
  run; `Outbox.FlushPublishesAll` is the exact condition for one flush, `Outbox.DrainedPublishedAll` for
  whole runs.
* `src/web/idempotency_middleware.hpp:22-23` promises that the handler is not invoked again. Overlapping
  requests can both miss. `Idempotency.OverlapRunsHandlerTwice` is such a run;
  `Idempotency.LookupExactly` says exactly when a lookup hits, in every interleaving, and
  `Idempotency.ExecutionsApart` states the promise itself for runs without overlap.
* `src/application/saga_orchestrator.hpp:36` promises compensation on any exception. Only exceptions derived
  from `std::exception` are caught: `Saga.ForeignExceptionLeavesStep` is a run that leaves
  a completed step standing; `Saga.UndoneExactlyWhenStandard` is the exact condition.
* `src/security/key_rotation_service.hpp:18` and `:27-29` describe a text tag "vN:". The code writes four
  big-endian version octets instead, and the model follows the code.

## Model

| member | source | states |
|---|---|---|
| Base64Url.Encode | src/security/jwt_signer.cpp:124-141 | The reference encoding has ceil(4n/3) characters, all of them in the URL-safe alphabet. |
| Base64Url.AlphabetWrittenOut | src/security/jwt_signer.cpp:125 | The character for each 6-bit value is that of the alphabet written out. |
| Base64Url.EncodeStreaming | src/security/jwt_signer.cpp:124-141 | The accumulator encoder, wrapping at 32 bits, yields the reference encoding of every octet string. |
| Base64Url.EncodeBlocks | include/cpp_commons/security/secure_random.hpp:36-56 | The block encoder yields the same reference encoding, so the two encoders agree on every input. |
| Base64Url.SextetReadRefines | src/security/jwt_signer.cpp:128-138 | What the encoder reads from the wrapped accumulator after a shift is what the unbounded accumulator holds there. |
| Base64Url.OctetReadRefines | src/security/jwt_decoder.cpp:28-39 | The same for the decoder's accumulator. |
| Base64Url.DecodeStreaming | src/security/jwt_decoder.cpp:24-42 | The decoder yields the octets of the 24-bit groups of all characters that decode, dropping an incomplete octet. |
| Base64Url.DecodeCharExactly | src/security/jwt_decoder.cpp:9-21 | A character decodes to i exactly when it is the i-th of the alphabet, or '+' for 62, or '/' for 63; all others are skipped. |
| Base64Url.RoundTrip | src/security/jwt_decoder.cpp:24-42 | Decoding an encoding gives back the octets, for every octet string. |
| Base64Url.EncodeInjective | src/security/jwt_signer.cpp:124-141 | No two octet strings share an encoding. |
| Base64Url.EncodingSpellsNumber | src/security/jwt_signer.cpp:124-141 | The encoding of any octets spells in base 64 the number they spell in base 256, moved up by the fill bits. |
| Base64Url.DecodingSpellsNumber | src/security/jwt_decoder.cpp:24-42 | The decoding of any text spells in base 256 the number its characters spell in base 64, without the bits of an incomplete octet. |
| Base64Url.OthersIgnored | src/security/jwt_decoder.cpp:30-33 | Inserting any character outside both base64 alphabets anywhere changes no decoding. |
| Base64Url.StandardAlphabetToo | src/security/jwt_decoder.cpp:16-19 | Text in the standard alphabet decodes as its URL-safe form does. |
| HashConstants.FirstPrimes | src/security/jwt_signer.cpp:14-23 | The table the constants are derived from lists exactly the primes up to 311. |
| HashConstants.PrimesIncrease | src/security/jwt_signer.cpp:14-23 | It lists them in increasing order. |
| HashConstants.RoundConstants | src/security/jwt_signer.cpp:14-23 | Each of the 64 round constants holds the first 32 fractional bits of the cube root of the prime with its index. |
| HashConstants.CubeRootBitsUnique | src/security/jwt_signer.cpp:14-23 | No other word does. |
| Sha256.Pad | src/security/jwt_signer.cpp:33-41 | The padding loops yield marker, zeros and 64-bit big-endian bit length. |
| Sha256.PaddedIsShortest | src/security/jwt_signer.cpp:36-41 | The padded length is the least multiple of 64 that leaves room for the nine suffix octets. |
| Sha256.PaddedExactly | src/security/jwt_signer.cpp:33-41 | The padding is the one and only octet string made of the message, the octet 0x80, zeros and the bit length modulo 2^64 in eight octets, most significant first. |
| Sha256.PaddingInjective | src/security/jwt_signer.cpp:33-41 | No two messages of any length have the same padding, although the bit length is kept modulo 2^64. |
| Sha256.RotrIsRotate | src/security/jwt_signer.cpp:25-27 | The shift-and-or rotation moves the n low bits to the top. |
| Sha256.RotateBits | src/security/jwt_signer.cpp:25-27 | Bit i of a word rotated by n is bit i + n, counted around the word. |
| Sha256.SigmaBits | src/security/jwt_signer.cpp:54-64 | Every bit of the four sigma functions is the parity of the three bits of the word that the standard names. |
| Sha256.SigmasRefine | src/security/jwt_signer.cpp:54-64 | The shifts and ORs of the code compute these functions. |
| Sha256.ChoiceAndMajority | src/security/jwt_signer.cpp:62-65 | Bit by bit, Ch takes y or z as x says, and Maj is the majority of the three. |
| Sha256.Expand | src/security/jwt_signer.cpp:44-57 | The in-place schedule holds the 64 words of the recurrence; all reads of the padded message are in bounds. |
| Sha256.FirstWords | src/security/jwt_signer.cpp:46-52 | The first sixteen schedule words are spelled by the block, most significant octet first. |
| Sha256.LaterWords | src/security/jwt_signer.cpp:53-57 | Every later word is the sum modulo 2^32 of words t-16 and t-7 and the sigmas of words t-15 and t-2. |
| Sha256.RunRounds | src/security/jwt_signer.cpp:59-75 | The round loop is the 64-fold iteration of the reference round. |
| Sha256.RoundsAreSequences | src/security/jwt_signer.cpp:59-75 | The eight registers after t rounds are terms t to t + 3 of two recurrent sequences. |
| Sha256.CompressionAdds | src/security/jwt_signer.cpp:59-84 | Compressing a block adds the last four terms of either sequence to the registers, modulo 2^32. |
| Sha256.InitialState | src/security/jwt_signer.cpp:30-31 | The eight initial words hold the first 32 fractional bits of the square roots of 2, 3, 5, 7, 11, 13, 17 and 19, in that order. |
| Sha256.Put | src/security/jwt_signer.cpp:88-93 | Writing a word in place puts its four octets, most significant first, behind those already written and leaves the rest alone. |
| Sha256.WriteDigest | src/security/jwt_signer.cpp:87-102 | The digest is the eight state words in order, each big-endian. |
| Sha256.ComputeHash | src/security/jwt_signer.cpp:29-103 | The whole function computes the reference hash of every message. |
| Sha256.HashExactly | src/security/jwt_signer.cpp:29-103 | The hash of any message spells the eight words at the end of the chain of compressions over the one padding of the message. |
| Hmac.HmacSha256 | src/security/jwt_signer.cpp:106-122 | The MAC is H(K^opad, H(K^ipad, m)) for keys of every length. |
| Hmac.MacExactly | src/security/jwt_signer.cpp:106-122 | Octet by octet: the outer block is the key or its hash xor 0x5c and stands before the inner hash, the inner block is xor 0x36 and stands before the message; beyond the key the pads stand alone. |
| Hmac.XorPadInjective | src/security/jwt_signer.cpp:114-120 | A padded key block determines the key block. |
| Hmac.EquivalentSecrets | src/security/jwt_signer.cpp:109-112 | Zero-extending a secret up to the block size, or hashing one that is longer, changes no MAC of any message. |
| Jwt.Stamped | src/security/jwt_signer.cpp:169-172 | Stamping keeps every claim, adds "iat" only when absent, and fails exactly for scalars and arrays. |
| Jwt.ConstantTimeEqual | src/security/jwt_signer.cpp:144-152 | The OR of the XORs is zero exactly for equal strings. |
| Jwt.DecodeJwt | src/security/jwt_decoder.cpp:46-65 | Splitting at the first two dots, decoding and parsing, with each error case. |
| Jwt.SignPayload | src/security/jwt_signer.cpp:168-181 | Computes what SignExactly and SignedTokenVerifies speak of. |
| Jwt.SignExactly | src/security/jwt_signer.cpp:168-181 | Signing fails exactly when the payload takes no claims or the JSON library throws; what it produces is one-dot text, a dot, and the encoded MAC of exactly that text. |
| Jwt.HeaderFields | src/security/jwt_signer.cpp:174 | The signed header says HS256 and JWT and nothing else. |
| Jwt.VerifyToken | src/security/jwt_signer.cpp:183-199 | Computes what FewDots, TokenExactly and SignatureCheckExact speak of. |
| Jwt.FewDots | src/security/jwt_signer.cpp:183-191 | A text without dots, and one with a single dot, is told by its own error, from decoding and from verifying. |
| Jwt.TokenExactly | src/security/jwt_signer.cpp:183-199 | Every other token is header, payload and rest; decoding parses what the first two decode to, verifying does so exactly if the rest is the encoded MAC of header, dot and payload, and else reports a mismatch. |
| Jwt.SignedTokenVerifies | src/security/jwt_signer.cpp:168-199 | For every secret and payload that can be signed, the token verifies and yields the signed header and payload, if the JSON library reads back these two values. |
| Jwt.SignatureCheckExact | src/security/jwt_signer.cpp:183-196 | The signature check passes exactly for a one-dot input, a dot and the encoded MAC of that input; such a token has exactly two dots. |
| Uuid.ReadHex | include/cpp_commons/kernel/identity.hpp:41-56 | Accepts exactly hexadecimal text of either case and computes its value up to 16 digits. |
| Uuid.DigitsWrittenOut | include/cpp_commons/kernel/identity.hpp:41-56 | Digit d is printed as the d-th of 0-9a-f and read from that or the d-th of 0-9A-F; nothing else is a digit. |
| Uuid.Parse | include/cpp_commons/kernel/identity.hpp:34-73 | Accepts exactly the 8-4-4-4-12 layout. |
| Uuid.FromString | include/cpp_commons/kernel/identity.hpp:34-73 | The parser with its shifts and ORs computes that value or rejects. |
| Uuid.ParseToString | include/cpp_commons/kernel/identity.hpp:34-79 | Parsing what was printed gives back the identifier, for all 128-bit values. |
| Uuid.ToStringParse | include/cpp_commons/kernel/identity.hpp:34-79 | Printing what was parsed gives the lower-case form of any accepted text. |
| Uuid.AcceptsExactly | include/cpp_commons/kernel/identity.hpp:34-73 | A text is accepted exactly when its lower-case form is what some identifier prints. |
| Uuid.NoDashesIsUndashed | include/cpp_commons/kernel/identity.hpp:81-84 | The undashed form is the dashed form with its dashes removed. |
| Uuid.OrderAgrees | include/cpp_commons/kernel/identity.hpp:90 | One identifier is less than another exactly when its text is lexicographically less. |
| Uuid.Generate | include/cpp_commons/kernel/identity.hpp:22-30 | The masks set version and variant and keep the other 122 drawn bits. |
| Uuid.VersionMask | include/cpp_commons/kernel/identity.hpp:27 | The mask replaces exactly the four version bits of any 64-bit word. |
| Uuid.VariantMask | include/cpp_commons/kernel/identity.hpp:28 | The mask replaces exactly the two variant bits of any 64-bit word. |
| Uuid.GeneratedText | include/cpp_commons/kernel/identity.hpp:27-28 | A generated identifier prints '4' at index 14 and one of 8, 9, a, b at index 19. |
| RateLimiting.RateLimiter.constructor | src/resilience/rate_limiter.hpp:14-18 | A new limiter is full. |
| RateLimiting.RateLimiter.Refill | src/resilience/rate_limiter.hpp:48-53 | The refill adds what accrued since the last one, up to the capacity. |
| RateLimiting.RateLimiter.TryAcquire | src/resilience/rate_limiter.hpp:24-31 | Granted exactly when the refilled level covers the cost, which is then taken. |
| RateLimiting.RateLimiter.AvailableTokens | src/resilience/rate_limiter.hpp:34-38 | Reports the refilled level and takes nothing. |
| RateLimiting.RateLimiter.ResetToFull | src/resilience/rate_limiter.hpp:41-45 | A reset makes the limiter full as of now. |
| RateLimiting.RefillTwice | src/resilience/rate_limiter.hpp:48-53 | Refilling in two steps is refilling in one. |
| RateLimiting.LevelIsLeastAllowance | src/resilience/rate_limiter.hpp:24-53 | After every run the level a request sees is the least of the capacity and, over all events since the limiter was last full, of the capacity plus the refill since then minus the costs granted since then. |
| RateLimiting.GrantedExactly | src/resilience/rate_limiter.hpp:24-31 | A request is granted exactly when it fits what every window ending now has left of its allowance. |
| RateLimiting.WindowBound | src/resilience/rate_limiter.hpp:10-11 | With non-negative settings and a clock that does not go back: in every time window since the last reset the costs of the requests that were answered true are at most the capacity plus the refill of that time. |
| RateLimiting.NeverNegative | src/resilience/rate_limiter.hpp:24-53 | With non-negative settings and a clock that does not go back the level never becomes negative. |
| RateLimiting.LazyRefillUnobservable | src/resilience/rate_limiter.hpp:24-53 | With a non-negative rate and a clock that does not go back: inserting any number of level queries and refused requests anywhere changes no decision and no level of the others, nor any later level. |
| Hedge.InvNext | src/resilience/hedge.hpp:29-64 | Every atomic step of either thread keeps the protocol invariant. |
| Hedge.RunsKeepInv | src/resilience/hedge.hpp:29-64 | The invariant holds after every interleaving. |
| Hedge.DeadBranches | src/resilience/hedge.hpp:32-62 | set_value never finds the promise satisfied; the branch at lines 59-62 is unreachable. |
| Hedge.FulfilledOnce | src/resilience/hedge.hpp:29-64 | After a delivered value no thread ever attempts another write; after a delivered error the only attempt that can follow is the set_exception of the other thread; the promise stays as it is. |
| Hedge.WritesMeet | src/resilience/hedge.hpp:32-62 | In every interleaving a thread about to write never finds a value in the promise, and finds an error only at set_exception and from the other thread. |
| Hedge.SetExceptionTwice | src/resilience/hedge.hpp:39-42 | A run in which the second set_exception finds the promise satisfied, so the handler at line 41 is live; it finishes after twelve steps. |
| Hedge.Outcome | src/resilience/hedge.hpp:29-66 | When both threads are done the promise is fulfilled, with a value exactly when a call returned, namely that of the winner of the exchange; else both threw. |
| Hedge.BackupWakes | src/resilience/hedge.hpp:52-54 | A backup that wakes calls exactly if nobody has won the exchange yet. |
| Hedge.BackupSkipped | src/resilience/hedge.hpp:52-58 | Once the exchange is won while the backup sleeps, the backup never calls, whatever steps follow. |
| Hedge.ErrorDelivered | src/resilience/hedge.hpp:34-43 | An error means both calls threw; it is the first exception exactly when its write preceded the delivering thread's read, else the null pointer. |
| Hedge.FirstExceptionCanBeLost | src/resilience/hedge.hpp:35-40 | A run in which both calls throw and the null exception pointer is delivered. |
| Hedge.RunsTerminate | src/resilience/hedge.hpp:29-64 | No interleaving has more than twelve steps, which the run of SetExceptionTwice reaches. |
| Hedge.NeverStuck | src/resilience/hedge.hpp:29-64 | A step is possible as long as a thread is not done. |
| CircuitBreaking.CircuitBreaker.constructor | src/resilience/circuit_breaker.cpp:5 | A new breaker is closed with both counters at zero. |
| CircuitBreaking.CircuitBreaker.IsOpen | src/resilience/circuit_breaker.cpp:7-10 | Reports whether the phase is open. |
| CircuitBreaking.CircuitBreaker.CheckState | src/resilience/circuit_breaker.cpp:12-23 | Refuses exactly while open and the open period has not elapsed; otherwise an open breaker becomes half-open. |
| CircuitBreaking.CircuitBreaker.OnSuccess | src/resilience/circuit_breaker.cpp:25-36 | The state after a recorded success in each phase. |
| CircuitBreaking.CircuitBreaker.OnFailure | src/resilience/circuit_breaker.cpp:38-46 | The state after a recorded failure in each phase. |
| CircuitBreaking.CircuitBreaker.Call | src/resilience/circuit_breaker.hpp:28-39 | A call is a check and, if admitted, the record of how it ended; a refused call records nothing. |
| CircuitBreaking.RefusedWhileOpen | src/resilience/circuit_breaker.cpp:12-46 | In every interleaving whose clock readings do not go back: once a failure at time T has opened the breaker, every check before T plus the open duration is refused, whatever late completions arrive. |
| CircuitBreaking.StaysOpen | src/resilience/circuit_breaker.cpp:12-46 | Late successes and failures, and checks before the deadline, leave any open breaker open. |
| CircuitBreaking.CountersSummariseHistory | src/resilience/circuit_breaker.cpp:12-46 | In every run the failure counter is below its threshold and, when closed, equals the failures since the last success; when half-open the success counter equals the successes since the probe began, with no failure among them. |
| CircuitBreaking.CountersNeverWrap | src/resilience/circuit_breaker.cpp:28-40 | No increment of either 32-bit counter ever wraps. |
| CircuitBreaking.OpensExactly | src/resilience/circuit_breaker.cpp:38-46 | A closed breaker opens exactly on the failure that completes a row of threshold length, at that failure's time, and never becomes half-open directly. |
| CircuitBreaking.ClosesExactly | src/resilience/circuit_breaker.cpp:25-46 | A half-open breaker closes exactly on the success completing the required number without a failure, and reopens exactly on a failure. |
| CircuitBreaking.OpenExplained | src/resilience/circuit_breaker.cpp:12-46 | Whenever the breaker is open, a failure of the history began the current open period: every check since came too early, and no row of failures has reached the threshold again. |
| CircuitBreaking.OpenStep | src/resilience/circuit_breaker.cpp:12-46 | An open breaker becomes half-open exactly on a check after that period, and restarts the period exactly on a failure that completes a row of threshold length. |
| CircuitBreaking.StaysClosed | src/resilience/circuit_breaker.cpp:25-46 | A new breaker stays closed as long as no row of failures reaches the threshold. |
| Retrying.WithRetry | src/resilience/retry_policy.hpp:78-102 | Every attempt but the last was retried, the last explains the result; a sleep is the delay without jitter, the draw with full jitter, and half the delay plus the draw with equal jitter. |
| Retrying.ExplanationUnique | src/resilience/retry_policy.hpp:78-102 | Result, number of calls and number of sleeps are determined by what the attempts do. |
| Retrying.ExplainsExactly | src/resilience/retry_policy.hpp:78-102 | The explanation holds of exactly the result, calls and sleeps that the loop, told as a recursion over the attempts, computes. |
| Retrying.WholeMultiplier | src/resilience/retry_policy.hpp:95-97 | For a whole multiplier m >= 1 and an initial delay within the cap the k-th delay is min(initial * m^k, cap). |
| Retrying.PlainSleeps | src/resilience/retry_policy.hpp:94-97 | The sleeps themselves, without jitter and with a whole multiplier m >= 1, are min(initial * m^k, cap). |
| Retrying.DelayFollows | src/resilience/retry_policy.hpp:95-97 | For any non-negative multiplier each delay is the integer part of the product of the one before, or the cap if the product reaches it. |
| Retrying.DelaysGrow | src/resilience/retry_policy.hpp:95-97 | For any multiplier of at least one and an initial delay within the cap the delays never shrink and stay within the cap. |
| Retrying.DelayRange | src/resilience/retry_policy.hpp:95-97 | Non-negative settings give non-negative delays, all but the first within the cap. |
| Retrying.JitterRange | src/resilience/retry_policy.hpp:54-67 | A jittered sleep is between 0 and the delay, with equal jitter at least half of it. |
| Retrying.TotalSleep | src/resilience/retry_policy.hpp:94-97 | The sleeps sum to at most the initial delay plus one cap for every further sleep. |
| Retrying.SleepBudget | src/resilience/retry_policy.hpp:78-102 | With non-negative settings, at most n >= 2 attempts sleep at most the initial delay plus n - 2 caps in total, however the loop ends. |
| Retrying.BreakerUnderRetry | src/resilience/circuit_breaker.cpp:12-46 | With any clock: before the threshold the breaker is closed and has counted every attempt, from then on it is open, and unless an attempt probed it is still in the open period that the threshold's failure began. |
| Retrying.AdmittedExactly | src/resilience/circuit_breaker.cpp:12-23 | As long as no attempt has probed, an attempt runs the callable exactly when it comes before the threshold or after that open period. |
| Retrying.RetryThroughBreaker | src/resilience/retry_policy.hpp:78-102 | Retrying an always-failing call n times through a fresh breaker, with any clock, leaves it open exactly when n reaches the threshold, and runs the call min(n, threshold) times if and only if no attempt comes after the open period that the threshold's failure began. |
| Retrying.RetryThroughBreakerExhausts | src/resilience/retry_policy.hpp:101 | Such a run, refused calls included, ends exhausted after exactly n attempts. |
| Idempotency.IdempotencyCache.Find | src/web/idempotency_middleware.hpp:42-50 | Answers exactly from an unexpired entry; an expired one is removed. |
| Idempotency.IdempotencyCache.Store | src/web/idempotency_middleware.hpp:54-60 | The response replaces the key's entry and expires ttl after the request's clock reading. |
| Idempotency.IdempotencyCache.Handle | src/web/idempotency_middleware.hpp:34-62 | One undisturbed request: pass-through, cached, executed and stored, or failed and not stored. |
| Idempotency.RunsKeepCacheInv | src/web/idempotency_middleware.hpp:42-60 | After every interleaving the cache holds exactly the last completed execution of each key that no later lookup found expired. |
| Idempotency.CachedAnswerJustified | src/web/idempotency_middleware.hpp:42-50 | In every interleaving a cached answer is that of the execution for the key that completed last, started less than ttl before. |
| Idempotency.LookupExactly | src/web/idempotency_middleware.hpp:34-62 | In every interleaving a lookup hits exactly when that execution is fresh and no lookup since its completion came after its expiry. |
| Idempotency.HandlerRunsExactly | src/web/idempotency_middleware.hpp:42-52 | In every interleaving a lookup runs the handler exactly when no completed execution of its key is the last one, started less than ttl before and was not found expired since; otherwise it is answered by that execution. |
| Idempotency.DoneExactly | src/web/idempotency_middleware.hpp:52-60 | The completed executions are exactly those of the finish actions, for the requests that arrived under their numbers. |
| Idempotency.LookupAgreesWithHistory | src/web/idempotency_middleware.hpp:34-62 | A lookup no older than those of its key since the last completion hits exactly when that execution is fresh, with its response. |
| Idempotency.DisjointRunsAgree | src/web/idempotency_middleware.hpp:34-62 | Without overlapping requests for one key, every request is answered from the cache exactly when the full history has a fresh answer, with that answer. |
| Idempotency.ExecutionsApart | src/web/idempotency_middleware.hpp:22-23 | In runs without overlapping requests for one key, any two completed executions for that key start at least ttl apart, in the order in which they complete. |
| Idempotency.SweepUnobservable | src/web/idempotency_middleware.hpp:42-50 | In runs without overlapping requests for one key, the machine that erases expired entries and one that keeps them allow the same actions and go through the same states but for the cache. |
| Idempotency.SweepKeepsAnswers | src/web/idempotency_middleware.hpp:42-50 | In such runs every pending lookup gets the same answer from both machines. |
| Idempotency.KeepingAnswers | src/web/idempotency_middleware.hpp:42-60 | Without erasure every lookup answers what the full history says, in every interleaving. |
| Idempotency.OverlapRunsHandlerTwice | src/web/idempotency_middleware.hpp:42-52 | A run in which two requests with one key both execute the handler. |
| Saga.SagaOrchestrator.AddStep | src/application/saga_orchestrator.hpp:31-34 | The step is appended. |
| Saga.SagaOrchestrator.Run | src/application/saga_orchestrator.hpp:37-48 | Final world, result and the exact sequence of callables run, for every way actions can end. |
| Saga.SagaOrchestrator.Compensate | src/application/saga_orchestrator.hpp:53-63 | Compensations run from the last completed step to the first, past empty and throwing ones. |
| Saga.ExplanationUnique | src/application/saga_orchestrator.hpp:37-63 | World, result and sequence are determined by what the callables do. |
| Saga.ExplainsExactly | src/application/saga_orchestrator.hpp:37-63 | The loop with its reverse pass is exactly nested try blocks: each step runs the later ones inside and its compensation if they fail with a standard exception. |
| Saga.StopsAt | src/application/saga_orchestrator.hpp:37-48 | Steps and initial world alone decide where a run stops and whether it reports a SagaError or lets a foreign exception escape. |
| Saga.UndoneExactly | src/application/saga_orchestrator.hpp:53-63 | Exactly the completed steps with a compensation are undone, each once, in reverse order. |
| Saga.CompensationRestores | src/application/saga_orchestrator.hpp:53-63 | If each of the first n completed steps is inverted in the world in which the run meets it, compensating them gives back the initial world. |
| Saga.AllOrNothing | src/application/saga_orchestrator.hpp:37-63 | A failed run whose completed steps are inverted where the run meets them, and whose failing action left its world alone, ends in the initial world exactly when its exception is standard or the completed actions had come back there by themselves; the failing step and later ones need no compensation. |
| Saga.UndoneExactlyWhenStandard | src/application/saga_orchestrator.hpp:36-47 | Whatever the compensations do, a failed run undoes its completed steps exactly when the exception of the first throwing step derives from std::exception, or there is nothing to undo. |
| Saga.ForeignExceptionLeavesStep | src/application/saga_orchestrator.hpp:43-46 | A run from any initial value in which a foreign exception leaves the first step done and runs no compensation, although that step could be undone. |
| KeyRotation.KeyRotationService.AddKey | src/security/key_rotation_service.hpp:23-25 | A key of 32 octets is registered if its version is new; a registered version keeps its key; a key of the wrong length changes nothing. |
| KeyRotation.KeyRotationService.Encrypt | src/security/key_rotation_service.hpp:30-46 | Four big-endian version octets of the highest version, then the ciphertext under its key. |
| KeyRotation.KeyRotationService.Decrypt | src/security/key_rotation_service.hpp:49-63 | Plaintext under the key of the version in front, or which check failed. |
| KeyRotation.KeyRotationService.CurrentVersion | src/security/key_rotation_service.hpp:65-69 | The highest registered version, or an error without keys. |
| KeyRotation.Current | src/security/key_rotation_service.hpp:65-69 | The chosen version is registered and none is higher. |
| KeyRotation.RegisteredExactly | src/security/key_rotation_service.hpp:23-25 | Over every run a version is registered exactly when some operation added it with a key of 32 octets, and its key is that of the first such operation. |
| KeyRotation.ProducedExactly | src/security/key_rotation_service.hpp:30-46 | Over every run the blobs are exactly those of the encryptions that come after some registered key, in order. |
| KeyRotation.SealUsesHighest | src/security/key_rotation_service.hpp:30-46 | An encryption uses the highest registered version and spells it in the first four octets, most significant first. |
| KeyRotation.RunsKeepInv | src/security/key_rotation_service.hpp:23-46 | After every run each blob carries a registered version in front whose key reads it. |
| KeyRotation.BlobsStayReadable | src/security/key_rotation_service.hpp:23-63 | Over every run of registrations and encryptions with a lawful cipher, every blob produced so far decrypts to its plaintext and version prefixes never decrease. |
| Outbox.OutboxPublisher.RegisterPublisher | src/application/outbox_publisher.hpp:28-34 | The kind has a publisher from now on; pending events stay. |
| Outbox.OutboxPublisher.Store | src/application/outbox_publisher.hpp:38-42 | The event is appended to the pending list. |
| Outbox.OutboxPublisher.Flush | src/application/outbox_publisher.hpp:46-57 | The pending list is emptied and each of its events meets its exact fate. |
| Outbox.OutboxPublisher.PendingCount | src/application/outbox_publisher.hpp:59-62 | The number of pending events. |
| Outbox.FateExactly | src/application/outbox_publisher.hpp:52-56 | The fate of the i-th event of a flush: dropped exactly when an earlier publisher threw, else skipped, thrown or published by its own guard. |
| Outbox.FlushPublishesAll | src/application/outbox_publisher.hpp:44-57 | A flush publishes its whole batch if and only if every event has a publisher that does not throw. |
| Outbox.FlushIsARun | src/application/outbox_publisher.hpp:46-57 | Delivering a batch step by step in the interleaved machine comes to the fates of one flush. |
| Outbox.FlushRun | src/application/outbox_publisher.hpp:46-57 | A whole flush of the machine, from the swap to the last delivery, gives each pending event the fate that the class gives it. |
| Outbox.StoredExactly | src/application/outbox_publisher.hpp:37-42 | Every store action stores one event of its kind, in order, and nothing else does. |
| Outbox.RegisteredExactly | src/application/outbox_publisher.hpp:28-34 | A kind has a publisher exactly if it had one from the start or some action registered one. |
| Outbox.RunsConserve | src/application/outbox_publisher.hpp:38-57 | After every interleaving, stored = pending + batches + done as multisets. |
| Outbox.ExactlyOnePlace | src/application/outbox_publisher.hpp:38-57 | In every interleaving each stored event is, once, in exactly one of: pending, one batch, done; so it reaches a publisher at most once. |
| Outbox.DrainedPublishedAll | src/application/outbox_publisher.hpp:44-57 | A drained outbox has published exactly the stored events if and only if every delivery of the run found a publisher and that publisher did not throw. |
| Outbox.RunPublishes | src/application/outbox_publisher.hpp:52-56 | In every interleaving nothing was skipped, thrown or dropped exactly when every delivery succeeded. |
| Outbox.CleanRunsPublish | src/application/outbox_publisher.hpp:52-56 | With all types registered beforehand and no throwing publisher, every delivery publishes. |
| Outbox.ThrowLosesBatch | src/application/outbox_publisher.hpp:45-57 | A run that drains two stored events and publishes none. |
| Outbox.StoreOrder | src/application/outbox_publisher.hpp:46-57 | With one flusher at a time, events are dealt with in the order in which they were stored. |
| Outbox.CleanRunsPublishInOrder | src/application/outbox_publisher.hpp:44-57 | With every kind registered beforehand, no throwing publisher and one flusher at a time, a drained outbox has published exactly the stored events, in store order. |

## Left out

- Content negotiation is not modelled.
- Bulkhead, health registry, metrics, pagination, email and phone checks, the buses and the remaining middleware are not modelled.
- JSON text, AES-GCM, OpenSSL, YAML, regular expressions, compression and password hashing: foreign code; JSON and AES-GCM appear as parameters.
- Random draws and the system clock: parameters; the range of a jitter draw is a hypothesis of the sleep bounds.
- Floating-point rounding and NaN: token counts and multipliers are real numbers.
- Overflow of a delay when it is converted to a 64-bit count, and size limits of std::string.
- Weak memory: the unsynchronised accesses to `first_ex`, and to the publisher table while events are flushed, are treated as single steps.
- Failing thread creation, copies or moves of results that throw, and callables that write the cancelled flag instead of polling it, in the hedged call.
- Retry filters that throw, and steps added to a saga while it runs.
- The digest of concrete messages: the hash is proved equal to its reference definition for all messages, and no single digest is computed.
- Constant-time behaviour of the signature comparison: only its result is modelled.
- The identifier wrappers and their hash: they only forward.
