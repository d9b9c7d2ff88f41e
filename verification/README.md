# Verified model of pqauth

pqauth is a post-quantum two-factor authentication server. This project models its
stateful server and the machines inside it, and proves properties of them in Dafny 4.11.
`dafny verify dfyconfig.toml` checks the whole project.

| module | models |
|---|---|
| `Machine`, `Primitives` | machine integers and byte strings; the cryptographic and encoding libraries as values with named laws |
| `ShakeMac` | the envelope construction and the constant-time comparison |
| `PqTotp` | code generation, truncation, window search |
| `CodeText`, `Recovery` | the text of recovery codes; single-use codes with a cached counter |
| `Challenges`, `ReplayCache` | signed challenges; the replay cache that forgets, against one that does not |
| `Enrollment` | the key exchange that leaves one seed at both ends |
| `RateLimiter`, `RateBounds` | the (count, start) pair against the full history of calls; how many calls it admits in an interval |
| `Server` | the server's state, its atomic steps and the class that performs them |
| `ServerRuns` | each step as a step of one user's own machine |
| `Refusals` | which requests are refused, with which error, and what a refusal leaves behind |
| `ServerInvariants`, `ServerLimits`, `ServerReplay`, `NonInterference`, `EndToEnd`, `Authenticity` | what holds of every run |
| `Witnesses` | runs that reach the bounds |

## How the model reads

Objects whose methods update fields (`PqAuthServer`, `ChallengeVerifier`,
`RecoveryCodeSet`) are classes. Each method is proved to compute a specification function of
the old state, and the whole-run theorems are about those functions. Every locked method
of the server is one atomic step, so a concurrent run is a sequence of steps in the order
in which the lock was taken.

- Clock readings, random draws and the coins of randomised library calls are inputs of a
  step. One server operation reads the clock up to three times (limiter, operation, audit
  entry), and the model keeps the three readings apart. Theorems that need a clock that
  does not go back say so (`ClockFrom`; "an ordered clock" below).
- The libraries (SHAKE-256, Kyber768, Dilithium3, hex, upper-casing) are arbitrary
  functions. Theorems assume only the laws they name: output length, decapsulation undoes
  encapsulation, generated keys verify their own signatures, hex decoding undoes encoding,
  ASCII upper-casing. `LawfulLibraryExists` shows that the laws can hold together.
  Nothing is assumed of the hash. A theorem that holds "under some hash" says that only
  a collision of the hash itself could make it fail: the bytes that are hashed tell the
  inputs apart.
- Arithmetic that can leave its width wraps, as in an optimised build. A build with
  overflow checks panics at those points, which in the server are the limiter's
  subtraction (a clock that goes back) and its counter (2^32 attempts in a window). The
  theorems that exclude both, and so hold for either build, are those about intervals:
  `SlidingBound`, `AlignedBound`, `BoundReached` and `WithinMaximumIff` of `RateBounds`, and
  `ServerRateBound`, `FiveInFiveMinutesIff` and `ServerBoundReached` on runs that are
  `Countable`. `ShortRunsCountable` gives that for every run on an ordered clock with fewer than 2^32
  requests. All other whole-run theorems are about the wrapping build, and hold of a
  checked build for as long as it does not panic.
- Hex text, server identities and stored hashes are the bytes of their text, which is how
  the code compares and hashes them. User identifiers are strings.

## Where the code and its documentation differ

- `SECURITY.md:17` promises five attempts in five minutes. The limiter's windows are opened
  by calls, so a 300-second stretch can span two of them: at most nine attempts are let
  through (`ServerLimits.ServerRateBound`), and there are runs that reach nine
  (`Witnesses.ServerBoundReached`). The promise is kept exactly when the window that was
  open at the beginning of the stretch lets none of its attempts through, or when those it
  lets through and all attempts after that window are at most five together
  (`ServerLimits.FiveInFiveMinutesIff`).
- `SECURITY.md:16` calls each nonce single-use. The replay cache holds the nonces of
  responses, and `src/challenge.rs:111-145` does not compare them with the challenge's, so
  the verifier accepts one signature for one challenge under any response nonce not in its
  cache (`ReplayCache.AcceptedUnderSecondNonceIff`, `ReplayCache.ChallengeAcceptedAgainIff`).
  The server removes a challenge with its first answer, so there each challenge is used
  once whatever the response says (`ServerInvariants.AnswersConsumeDistinctChallenges`);
  but one user's accepted answer can carry another user's nonce
  (`Witnesses.UsersCanInterfere`).
- `src/challenge.rs:147-151` says a nonce is kept until its challenge can no longer be
  accepted. That needs a positive skew and a positive issue time
  (`ReplayCache.NeverForgottenWhileValidIff`). The server's skew is 60.
- `src/recovery.rs:6` shows an example code with characters (0, 1, 5, L) that the alphabet
  of line 17 excludes (`CodeText.DocumentedCodeNotGenerated`).

## Model

| member | source | states |
|---|---|---|
| `ShakeMac.VerifyMac` | src/shake_mac.rs:59-68 | the OR-of-XOR loop returns true exactly on equal strings, of any lengths |
| `ShakeMac.EnvelopeInjectiveIff` | src/shake_mac.rs:33-43 | two inputs with one envelope are the same exactly when the keys have one length, equivalently the messages |
| `ShakeMac.EnvelopeAmbiguous` | src/shake_mac.rs:33-43 | two different inputs share one envelope |
| `PqTotp.TruncateMasksWholeWord` | src/pq_totp.rs:38-46 | truncation stays inside the 32-byte MAC, equals the mask-whole-word formula of the README, and gives fewer than nine digits |
| `PqTotp.CodeInputInjective` | src/pq_totp.rs:33-35 | secret, counter, secret determines secret and counter, for secrets of any length |
| `PqTotp.CodeValue` | src/pq_totp.rs:33-46 | a code in arithmetic: with o the last byte modulo 16 of the hash of secret, the counter's eight base-256 digits, secret, it is the big-endian number in bytes o to o + 3 without its top bit, modulo 10^8 |
| `PqTotp.CodesSeparated` | src/pq_totp.rs:33-46 | under some hash the code of one secret and counter is the code of no other |
| `PqTotp.AcceptedOnlyInItsWindow` | src/pq_totp.rs:53-67 | under that hash a code is accepted exactly for its own secret while its own step is searched |
| `PqTotp.Verify` | src/pq_totp.rs:53-67 | the search loop returns true exactly when some step between the saturated start and the machine-added end generates the code |
| `PqTotp.StepSearchedExactly` | src/pq_totp.rs:54-59 | step s is searched at time t exactly when 30(s - w) <= t < 30(s + w + 1) |
| `PqTotp.CurrentStepSearchedIff` | src/pq_totp.rs:54-59 | the current step is searched exactly when the window's end does not wrap |
| `PqTotp.CurrentStepCanBeMissed` | src/pq_totp.rs:54-59 | a window for which it wraps |
| `PqTotp.ServerWindowFits` | src/server.rs:279 | the server's window of one never wraps |
| `PqTotp.CodeLifetime` | src/pq_totp.rs:79-82 | a code's step is still searched d seconds later exactly while d < seconds remaining + 30w |
| `PqTotp.CodeAcceptedWithinDrift` | src/pq_totp.rs:53-67 | a code is accepted when the two clocks differ by at most 30w seconds either way |
| `CodeText.GenerateCode` | src/recovery.rs:43-60 | the group loops and the join give 39 characters: a dash at every fifth place, elsewhere the alphabet's character at the next draw |
| `CodeText.GeneratedRoundTrip` | src/recovery.rs:68-75 | regrouping the normalised form of a generated code gives the code back; what is hashed are its letters |
| `CodeText.GeneratedHashInputsDistinct` | src/recovery.rs:68-75 | distinct generated codes have distinct hash inputs |
| `CodeText.DashesIgnored` | src/recovery.rs:69-74 | a dash inserted anywhere, in any text, does not change what is hashed |
| `CodeText.HashedAlikeIff` | src/recovery.rs:69-75 | two ASCII texts are hashed alike exactly when a letter-by-letter comparison that passes over dashes and ignores case finds them equal |
| `CodeText.NormalizeIdempotent` | src/recovery.rs:69-74 | normalising twice is normalising once (ASCII) |
| `CodeText.DocumentedCodeNotGenerated` | src/recovery.rs:6-17 | no draw of letters gives the documented example code |
| `CodeText.AlphabetExactly` | src/recovery.rs:15-17 | the alphabet is the 29 digits and capital letters other than 0, O, 1, I, L, 5, S, in ascending order |
| `Recovery.VerifyCode` | src/recovery.rs:84-89 | returns the first unused slot with the code's hash, or nothing when there is none; an unused slot made from the code in any spelling is not missed |
| `Recovery.CodesSeparated` | src/recovery.rs:68-80 | under some hash the stored hash of a code belongs to the ASCII codes equal up to dashes and case, and to no others |
| `Recovery.GeneratedCodeHash` | src/recovery.rs:68-80 | for a generated code the hashed bytes are the key, its 32 letters and the key |
| `Recovery.RecoveryCodeSet.FromCodes` | src/recovery.rs:100-107 | one unused slot per code, in order; the counter is their number |
| `Recovery.RecoveryCodeSet.UseCode` | src/recovery.rs:110-118 | performs one attempt on the slots; a counter that was right stays right and does not underflow |
| `Recovery.UseIsRemoveOne` | src/recovery.rs:110-118 | an attempt succeeds exactly when its hash is unused somewhere, and takes it out of the unused multiset once |
| `Recovery.UseChangesOneFlag` | src/recovery.rs:110-118 | an attempt sets the flag of the first matching slot and changes nothing else |
| `Recovery.RedeemedPerHash` | src/recovery.rs:84-119 | a hash stored in m unused slots is accepted exactly min(k, m) times in k attempts, whatever is attempted in between |
| `Recovery.RedeemedPerText` | src/recovery.rs:68-119 | under some hash the attempts with a code, in any spelling, succeed exactly min(k, m) times when it is attempted k times and the set was made with it m times; a foreign code never succeeds |
| `Recovery.RunAccounting` | src/recovery.rs:84-119 | the successes of a run number the intersection of unused and attempted hashes; the difference stays unused |
| `Recovery.OrderIrrelevant` | src/recovery.rs:84-119 | neither the order of slots nor that of attempts matters |
| `Recovery.RunKeepsSlots` | src/recovery.rs:98-119 | over a run flags only go up, hashes stay, and the unused slots decrease by the number of successes |
| `Challenges.SigningPayloadInjective` | src/challenge.rs:54-59 | the signed bytes determine nonce and timestamp |
| `Challenges.SigningPayloadBytes` | src/challenge.rs:54-59 | the signed bytes are the nonce's 32, then the timestamp's eight base-256 digits, most significant first |
| `Challenges.ChallengeVerifier.constructor` | src/challenge.rs:103-108 | an empty cache with the given skew |
| `Challenges.ChallengeVerifier.ClearExpired` | src/challenge.rs:152-157 | keeps exactly the entries issued after the horizon |
| `Challenges.ChallengeVerifier.Verify` | src/challenge.rs:111-145 | verdict and cache are those of the specification step, error kinds included; a call is accepted exactly when it is in time, its nonce is not remembered, its timestamp is within the skew and its signature verifies |
| `Challenges.VerdictExactly` | src/challenge.rs:111-145 | the exact condition of acceptance and of each error, with the signature checked on the challenge's nonce and the response's timestamp |
| `Challenges.CacheExactly` | src/challenge.rs:118-157 | after a call exactly the nonces still remembered are in the cache, and that of an accepted response |
| `Challenges.HonestResponseAccepted` | src/challenge.rs:79-145 | an honest answer in time, within the skew and under an unused nonce is accepted |
| `ReplayCache.PruneAbsorbs` | src/challenge.rs:152-157 | pruning earlier changes nothing for pruning later |
| `ReplayCache.NeverForgottenWhileValidIff` | src/challenge.rs:62-64 | a nonce is remembered through its challenge's validity exactly when skew and issue time are positive (or the clock ends first) |
| `ReplayCache.AgreesIffNothingForgotten` | src/challenge.rs:111-158 | on every run of calls and prunings the pruning verifier answers like one that never forgets exactly when no forgotten nonce returns with a valid challenge |
| `ReplayCache.PruningRefinesLedger` | src/challenge.rs:111-158 | the two agree on every run with positive skew, positive issue times and one issue time per nonce |
| `ReplayCache.ZeroSkewForgetsTooSoon` | src/challenge.rs:152-157 | with skew zero one answer is accepted twice |
| `ReplayCache.ZeroIssueTimeForgetsTooSoon` | src/challenge.rs:152-157 | with issue time zero one answer is accepted twice |
| `ReplayCache.AcceptancesSeparated` | src/challenge.rs:118-157 | a nonce accepted again, after any actions, is accepted at least 300 + skew after the first issue time, for a challenge issued at least skew later |
| `ReplayCache.SeparationIsTight` | src/challenge.rs:118-157 | both distances are reached |
| `ReplayCache.AcceptedAtMostOnce` | src/challenge.rs:118-157 | with positive skew one challenge is never accepted twice under one response nonce |
| `ReplayCache.ChallengeAcceptedAgainIff` | src/challenge.rs:118-145 | after an accepted call, a later call for the same challenge is accepted exactly when it would be on its own and does not carry the same, still remembered response nonce |
| `ReplayCache.AcceptedUnderSecondNonceIff` | src/challenge.rs:118-145 | one signature for one challenge is accepted twice at once exactly when the second response nonce differs from the first |
| `ReplayCache.ForeignEntryMattersIff` | src/challenge.rs:126-129 | exactly when a cache entry put in by somebody else changes a call's verdict |
| `Enrollment.SeedInputInjective` | src/enrollment.rs:187-195 | the hashed bytes determine a 32-byte shared secret and the server identity |
| `Enrollment.ServerEnrollment.Complete` | src/enrollment.rs:116-149 | a record only comes out with a 1952-byte key, the client's, a 32-byte seed and the server's identity |
| `Enrollment.CompleteExactly` | src/enrollment.rs:116-149 | the exact condition of each error, and the record otherwise, its seed hashed from domain, decapsulated secret and identity |
| `Enrollment.SeedsSeparated` | src/enrollment.rs:187-195 | under some hash the seed of one shared secret and identity is the seed of no other |
| `Enrollment.RecordSeedsSeparated` | src/enrollment.rs:116-149 | under some hash two stored seeds agree exactly when the decapsulated secrets and the servers' identities do |
| `Enrollment.SeedAgreement` | src/enrollment.rs:98-183 | an honest exchange succeeds exactly with a non-empty identity and a key of the right length, and leaves one seed at both ends |
| `RateLimiter.PairIsGreedyWindow` | src/server.rs:180-197 | the stored pair is the start of the greedy window and its call count modulo 2^32, and decides admission exactly |
| `RateLimiter.FirstAttemptsAdmitted` | src/server.rs:180-197 | of a window's calls exactly the first max_attempts are admitted |
| `RateLimiter.CounterStartsOver` | src/server.rs:190-191 | call number 2^32 of a window is admitted again |
| `RateLimiter.BackwardClockReopensIff` | src/server.rs:186-188 | a clock that goes back opens a new window exactly when it goes back by less than 2^64 - rate_window |
| `RateLimiter.AdmittedInCounts` | src/server.rs:180-197 | the recursive count of admitted calls in an interval is the number of indices whose call is admitted after the calls before it |
| `RateBounds.SlidingBound` | src/server.rs:180-197 | in any interval at most max * (k + 1) calls are admitted when its length is k * (window + 1), and max * (k + 2) - 1 when it lies strictly between that and the next multiple |
| `RateBounds.BoundReached` | src/server.rs:180-197 | calls that reach this bound, for every interval that begins at least a window after time 0 |
| `RateBounds.WithinMaximumIff` | src/server.rs:180-197 | how many calls are admitted in an interval no longer than a window, from the pair stored at its beginning and the call times; the maximum is kept exactly when the old window admits none of the interval's calls, or those it admits and all calls after it are at most the maximum |
| `RateBounds.AlignedBound` | src/server.rs:180-197 | at most max in an interval that starts with the call opening a window and is no longer than it |
| `RateBounds.NineInThreeHundredSeconds` | src/server.rs:157-158 | ten calls of which nine are admitted in 300 seconds |
| `Server.PqAuthServer.constructor` | src/server.rs:147-161 | the initial state, with the limits 5 and 300 and skew 60 |
| `Server.PqAuthServer.AppendAudit` | src/server.rs:163-178 | appends one entry |
| `Server.PqAuthServer.CheckLimit` | src/server.rs:180-197 | the limiter's step on the user's pair |
| `Server.PqAuthServer.EnrollBegin` | src/server.rs:200-217 | performs the begin step and gives its reply |
| `Server.PqAuthServer.EnrollComplete` | src/server.rs:220-242 | performs the completion step and gives its reply |
| `Server.PqAuthServer.IssueChallenge` | src/server.rs:245-263 | performs the issue step and gives its reply |
| `Server.PqAuthServer.Verify` | src/server.rs:266-343 | performs the verification step of either form and gives its reply; it lets in exactly good codes and good answers |
| `Server.GoodCodeIff` | src/server.rs:266-297 | a code logs in exactly when the user is enrolled, the limiter lets the attempt through and the code is that of the stored seed for the present 30-second step or one next to it |
| `Server.GoodAnswerIff` | src/server.rs:298-341 | an answer logs in exactly when the user is enrolled, let through and has a pending challenge at most 300 seconds old, its nonce is not remembered, its timestamp is within 60 seconds, and its signature verifies under the stored key for the challenge's nonce and that timestamp |
| `ServerRuns.StepIsLocal` | src/server.rs:163-343 | every step is a step of its user's own machine, unseen by other users; only the cache of used nonces is shared |
| `ServerRuns.StepMoves` | src/server.rs:163-343 | the ways a step can change a user's records, challenge, counter and log, and the replies that go with them |
| `Refusals.RefusedExactly` | src/server.rs:200-309 | each error is returned exactly when its guard holds; a refusal changes at most the user's rate counter and the enrollment it could not complete |
| `Refusals.AnswersLoggedExactly` | src/server.rs:303-331 | an answer that is not refused consumes its challenge and is logged with its verdict and the exact reason |
| `ServerInvariants.ReachableWellFormed` | src/server.rs:200-274 | every reachable record has the right lengths and identity; nobody is enrolled and enrolling at once; challenges and counters belong to enrolled users |
| `ServerInvariants.RecordsWrittenOnce` | src/server.rs:225-236 | no run replaces or removes a record |
| `ServerInvariants.AuditTrace` | src/server.rs:163-343 | a user's log is begins, then at most one completion after at least one begin, then authentication; it holds a completion exactly when the user is enrolled |
| `ServerInvariants.ChallengeConservation` | src/server.rs:252-331 | challenges issued = answered + overwritten + pending, in every run; logins by challenge never outnumber them |
| `ServerInvariants.AnswersConsumeDistinctChallenges` | src/server.rs:252-331 | in every run each answer in a user's log consumes the challenge issued last before it, no two answers the same one; the log ends with an open challenge exactly when one is pending |
| `ServerLimits.StepWindow` | src/server.rs:250-274 | only the user's own attempts move the user's counter, as the limiter says |
| `ServerLimits.LetThroughIsAdmitted` | src/server.rs:250-274 | in every run the attempts let through are those the limiter admits on the user's attempt times |
| `ServerLimits.PairIsGreedyWindowInRuns` | src/server.rs:180-197 | in every run on an ordered clock, what is stored for a user is the start of the greedy window of the last attempt and its number of attempts modulo 2^32 |
| `ServerLimits.ServerRateBound` | src/server.rs:157-197 | per user, with k = floor(length / 301), at most 5 * (k + 2) - 1 attempts are let through in any interval of any countable run, 5 * (k + 1) at multiples of 301; so nine in 300 seconds |
| `ServerLimits.FiveInFiveMinutesIff` | src/server.rs:157-197 | how many attempts are let through in at most 300 seconds of a countable run; the documented five are kept exactly when the old window lets none through, or those it lets through and all attempts after it are at most five |
| `Witnesses.ServerBoundReached` | src/server.rs:157-197 | for every interval from time 300 on, a run of the server that reaches the bound, nine at 300 seconds |
| `ServerLimits.ShortRunsCountable` | src/server.rs:190 | the counter cannot wrap in a run on an ordered clock with fewer than 2^32 requests |
| `ServerReplay.NonceAcceptedAgain` | src/server.rs:303-322 | a nonce accepted twice in a run, by any users, is accepted 360 seconds after the first issue time, for a challenge issued 60 seconds later |
| `ServerReplay.ReplayRefusedIff` | src/server.rs:303-331 | after every run on an ordered clock, an admitted answer to a valid pending challenge is refused as a replay exactly when its nonce was accepted before, the last time for an issue time after the horizon |
| `ServerReplay.SameIssueRefusedIff` | src/server.rs:303-331 | for a nonce that goes with one positive issue time: exactly when it was ever accepted before |
| `NonInterference.ReplayMattersIff` | src/server.rs:266-343 | exactly when a request's effect depends on what others put into the cache, and then the log shows it |
| `NonInterference.UsersDoNotInterfereIff` | src/server.rs:180-343 | erasing everybody else's requests changes no reply to the user, nothing held about the user and nothing in the user's log, exactly when each live answer of the user finds its nonce remembered in both runs or in neither |
| `NonInterference.UsersDoNotInterfere` | src/server.rs:180-343 | that is so in every run on an ordered clock in which nobody else's accepted answer is under one of the user's nonces |
| `Witnesses.UsersCanInterfere` | src/server.rs:303-331 | a run in which another user's accepted answer gets the user's answer refused as a replay, which alone would be accepted |
| `EndToEnd.HonestEnrollment` | src/server.rs:200-242 | an honest exchange, with anything in between, leaves the client's key and seed on the server |
| `EndToEnd.CodeLogsIn` | src/server.rs:277-297 | an enrolled user's code is accepted at every later state by an admitted attempt within 30 seconds |
| `EndToEnd.EnrolledUserLogsInByCode` | src/server.rs:200-297 | from the first request to the login by code, through any history, interleaving and later run |
| `EndToEnd.AnswerLogsIn` | src/server.rs:298-341 | a signed answer to a pending challenge is accepted within 300 seconds of issue and 60 of skew, after anything in which the user's own challenge requests are refused and nobody is accepted under its nonce |
| `EndToEnd.RequestedChallengeLogsIn` | src/server.rs:245-341 | the same from the request for the challenge, answered as the reply says |
| `EndToEnd.EnrolledUserLogsInByChallenge` | src/server.rs:200-341 | from the first request to the login by challenge, through any history, interleaving and later run |
| `Authenticity.ChallengeLoginsAreAuthentic` | src/server.rs:200-341 | in every run a login by challenge follows an enrollment of that user and then the issue of its challenge, at most 300 seconds before, and is signed under the key sent in that enrollment |
| `Authenticity.CodeLoginsAreAuthentic` | src/server.rs:200-297 | in every run a login by code follows an enrollment of that user, and the code is that of the seed hashed from the secret of that exchange |

## Left out

- Internals of SHAKE-256, Kyber768, Dilithium3 and hex: library code; only the laws above are assumed. Unforgeability and collision resistance are neither assumed nor proved.
- `src/hybrid.rs`, `src/keystore.rs`, `src/main.rs`, and `src/dilithium.rs` and `src/kyber.rs` beyond sizes and result shapes: thin wrappers, command line and HTTP routing.
- JSON, zeroization, mutex poisoning and timing: not functional behaviour.
- `format_code`, `generate_codes`, the `ShakeMac` struct, `audit_log` and `is_enrolled`: direct calls or reads that would only add easy members.
- Reply message texts, which the other reply fields determine, and the printed text of a challenge error in the audit detail, where the model keeps the error itself.
- BoundReached: an interval that begins less than a window after time 0 has no room for the window before it; its maximum is not given.
- Upper-casing outside ASCII: an arbitrary function; the normalisation theorems about letter case are for ASCII text.
- A build with overflow checks: its panics, at the points where the model wraps, are not modelled.
- Quality of random draws: fresh nonces are inputs, and theorems that need one unused say so.
