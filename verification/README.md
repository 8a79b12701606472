# TrustLine backend: a verified model

This project models the parts of the TrustLine backend that carry real algorithms or
state, and proves what the service promises about them. Hash, MAC, cipher and signature
functions are parameters; random values, ids, clocks and the outcome of external checks
are arguments of the calls.

| file | models |
|---|---|
| Bits32.dfy, Base32.dfy, Base32Text.dfy, Base32Number.dfy | the 32-bit accumulator, the Base32 codec over it, and what it accepts and means |
| Otp.dfy | counter block, dynamic truncation, HOTP, TOTP and the drift window |
| Bytes.dfy, Unicode.dfy, Utf8Text.dfy, Hex.dfy, Json.dfy, JsonText.dfy, KeyOrder.dfy | UTF-16 text, UTF-8, hexadecimal, `JSON.stringify` on flat objects, and the two orders of keys |
| AuditLog.dfy | the hash-chained log, its writer and its verifier |
| WireText.dfy | the very text hashed for a login and signed for a vote |
| SigningKeys.dfy, Signing.dfy | encrypted private keys and their migration, canonical payloads, signing and verifying |
| Quorum.dfy, Requests.dfy | quorum evaluation and the life of an approval request |
| RefreshTokens.dfy, RotationRace.dfy | refresh-token families, with atomic calls and with interleaved queries |
| StepUpLimiter.dfy | the sliding-window limiter |

Code that changes state is modelled by classes and methods proved against functions of
the old state; the lemmas are about those functions and their runs.

## What the proofs found

- An encoded secret decodes to its bytes for every byte string but the empty one, which the decoder refuses (`Base32.RoundTrip`).
- The audit verifier hashes the payload as `jsonb` gives it back, with keys ordered by length, while the writer hashes it as given. Vote, resolution and risk entries have their keys in another order, so an honest log is reported broken at its first such entry. The verifier recomputes each hash (`verifyChain.ts:5`), but from text the writer never hashed; `AuditLog.WriterMeetsVerifier` gives the exact condition under which it accepts.
- The chain covers payloads only. The migration's comment (`00005_audit_log.js:34`) says ids and entry types are hashed too; the code does not (`AuditLog.EntryTypesAreNotCovered`).
- A replayed refresh token ends its family only while it has not expired, because the expiry check comes first (`RefreshTokens.ReuseKillsFamily`).
- Interleaved rotations keep every family a chain exactly as long as no rotation finds a token live that another has read and not yet revoked (`RotationRace.GuardIsExact`); two rotations that do leave two live successors (`RotationRace.OverlappingRotationsFork`).
- A family that was just revoked comes back exactly when a rotation of it is in flight (`RotationRace.ResurrectionIsExact`).
- The service lets only the requester vote, so a policy that needs two approvals is never approved by voting (`Requests.OneVoteIsNotAQuorum`). Policies are not checked for `1 <= n <= m`, which is exactly what keeps a new request in agreement with its votes (`Requests.StatusAgreesIffWellFormed`); under any other supported policy the first vote decides, whatever it is (`Requests.StatusAgreesExactly`).
- With more than `m` votes a denial can turn into an approval, exactly when the further votes can reach `n` (`Quorum.DenialSurvivesIff`).
- A vote that passes every check is stored although the call fails exactly under an unsupported policy, and the voter cannot try again (`Requests.FailedVoteIsExact`).
- A request keeps only the version of its policy (`request.service.ts:2`); the quorum is evaluated on the policy row as it stands at the vote.
- A clock that goes back makes the limiter laxer, never stricter (`StepUpLimiter.PruningIsExact`).

## Hypotheses

- Hash and MAC: any function with outputs of the right shape. Results about the log name two particular inputs that collide instead of assuming injectivity.
- Cipher: among the secrets in use, each opens what it sealed and none opens what another sealed (`SigningKeys.Trusted`; a model is given).
- Signatures: a generated pair accepts what it signed (`Signing.KeyPair`); the results name a forgery instead of assuming there is none.
- Session calls: a new session's family id is used by no row.
- One audit append is one atomic step, as the writer's header intends. In `Requests` a service call is one atomic step.

## Model

| member | source | states |
|---|---|---|
| Base32.DecodeSymbols | backend/src/services/totp.service.ts:59-77 | the decoding loop, on an unmasked 32-bit accumulator, yields the whole octets of the concatenated 5-bit symbols; its own invalid-character guard (line 67) never fires |
| Base32.DecodeBase32 | backend/src/services/totp.service.ts:31-78 | normalisation, checks and loop together give the reference decoding or the same error |
| Base32.EncodeBase32 | backend/src/services/totp.service.ts:81-96 | the encoding loop yields the symbols of the concatenated octets, zero-padded to a multiple of five bits |
| Base32.AcceptanceIsExact | backend/src/services/totp.service.ts:31-57 | a secret decodes iff, stripped and upper-cased, it is a non-empty run of symbols of length 0, 2, 4, 5 or 7 mod 8, unpadded or padded to a multiple of eight |
| Base32.FormatFixesPadding | backend/src/services/totp.service.ts:33-41 | once the regular expression matches, everything from the first `=` on is `=`: the check at line 39 is dead |
| Base32.IndexOfIsExact | backend/src/services/totp.service.ts:15 | the alphabet's `indexOf` finds exactly the characters of the class `[A-Z2-7]`, at their RFC 4648 values |
| Base32.PaddingIsIgnored | backend/src/services/totp.service.ts:43-57 | padded and unpadded forms of the same symbols decode to the same octets |
| Base32Text.SeparatorsAreIgnored | backend/src/services/totp.service.ts:32 | a hyphen or white space anywhere in a secret changes nothing |
| Base32Text.CaseIsIgnored | backend/src/services/totp.service.ts:32 | a small letter anywhere reads as the capital one |
| Base32Text.ForeignCharacterIsRefused | backend/src/services/totp.service.ts:33-35 | a character that is no letter, no digit from 2 to 7, no `=` and no separator makes the secret invalid |
| Base32Text.SymbolAfterPaddingIsRefused | backend/src/services/totp.service.ts:33-35 | a symbol anywhere after a `=` makes the secret invalid |
| Base32Text.PaddedSymbolsAreExact | backend/src/services/totp.service.ts:33-57 | for symbols followed by any amount of padding: accepted or which of the three errors, by length |
| Base32Number.DecodedNumber | backend/src/services/totp.service.ts:59-77 | read as a number in base 256 the octets are the number the symbols denote in base 32, without its spare low bits |
| Base32.RoundTrip | backend/src/services/totp.service.ts:59-96 | decoding an encoding returns the bytes for every byte string except the empty one, which is refused |
| Base32.ReverseRoundTrip | backend/src/services/totp.service.ts:31-96 | re-encoding an accepted secret returns its normalised symbols, differing at most in the last, and not at all iff the spare bits are zero |
| Bits32.PushSymbol | backend/src/services/totp.service.ts:69-70 | `(buffer << 5) | value` appends the five bits of the symbol to the pending bits, whatever overflowed |
| Bits32.PopOctet | backend/src/services/totp.service.ts:71-74 | `(buffer >>> bits) & 0xff` is the eight oldest pending bits |
| Bits32.PushOctet | backend/src/services/totp.service.ts:87-88 | `(buffer << 8) | byte` appends the eight bits of the octet |
| Bits32.PopSymbol | backend/src/services/totp.service.ts:89-92 | `(buffer >>> bits) & 0x1f` is the five oldest pending bits |
| Bits32.PadSymbol | backend/src/services/totp.service.ts:94 | `(buffer << (5 - bits)) & 0x1f` is the left-over bits followed by zeros |
| Otp.CounterBufferIsFaithful | backend/src/services/totp.service.ts:103-108 | a counter is accepted iff it is in 0 .. 2^64 - 1, and its eight bytes read back, big-endian, as the counter |
| Otp.TruncationIsBigEndian | backend/src/services/totp.service.ts:126-135 | the shifted and or-ed word equals the big-endian number of the four bytes at the offset with the sign bit cleared, below 2^31 |
| Otp.CodeIsWellFormed | backend/src/services/totp.service.ts:137-140 | a code has exactly the digits asked for, all decimal, and reads back as the truncated MAC modulo 10^digits |
| Otp.TenDigitsKeepEverything | backend/src/services/totp.service.ts:118-140 | at the upper limit of ten digits the code is the whole 31-bit number |
| Otp.HotpAcceptance | backend/src/services/totp.service.ts:117-124 | HOTP succeeds iff digits is an integer from 6 to 10, the secret is well-formed and the counter fits 64 bits |
| Otp.HotpIsExact | backend/src/services/totp.service.ts:117-141 | every refusal in the order of the checks, and the code as the decimal digits of the truncated MAC over the big-endian counter |
| Otp.TotpIsExact | backend/src/services/totp.service.ts:150-156 | the code at a time in the 30000 ms step c is the six-digit HOTP of c; other times are refused |
| Otp.SearchWindow | backend/src/services/totp.service.ts:180-191 | the drift loop answers whether some non-negative counter of the window generates the token; errors of the secret come before counter overflow; compared lengths are always equal |
| Otp.VerifyTotp | backend/src/services/totp.service.ts:166-192 | the complete outcome: malformed token, bad window, bad time, bad secret, counter overflow, or membership in the window, in that order |
| Otp.RefusedBeforeSearch | backend/src/services/totp.service.ts:172-178 | what is refused before the secret is looked at, in the order of the checks |
| Otp.VerificationIsExact | backend/src/services/totp.service.ts:180-191 | at a time in step c a six-digit token passes iff it is the HOTP of a counter at most `window` away from c |
| Otp.DriftIsTolerated | backend/src/services/totp.service.ts:144-192 | a code generated at most `window` steps of 30 s before or after the check is accepted |
| Otp.StaleCodeNeedsCollision | backend/src/services/totp.service.ts:158-192 | a code at least `window + 1` steps old passes only if a later counter generates the same six digits |
| Otp.EnrolledSecretVerifies | backend/src/services/totp.service.ts:99-192 | any 20 random bytes, encoded as the service does, give a secret whose current code verifies with the default window |
| AuditLog.AuditTable.Append | backend/src/services/audit.service.ts:34-68 | an append adds one row linked to the last one and keeps the writer invariant, or leaves the table alone when the column refuses the payload |
| AuditLog.NewRowIsExact | backend/src/services/audit.service.ts:46-60 | an appended row: its id and type, no previous hash at first and the last one afterwards, and SHA-256 of that hash, or of GENESIS, followed by the JSON |
| AuditLog.StorableIsExact | backend/migrations/00005_audit_log.js:24-27 | the column takes exactly the payloads whose strings have paired surrogates and no null character |
| AuditLog.HashInputIsExact | backend/src/services/audit.service.ts:28-31 | the bytes of `prevHash + JSON` determine both parts |
| AuditLog.VerifyChain | backend/src/scripts/verifyChain.ts:41-75 | valid iff every row names its predecessor and carries its own hash; otherwise the first row that breaks, with the right fault |
| AuditLog.RowFitsIsExact | backend/src/scripts/verifyChain.ts:47-72 | what is compared at a row, with the literal sentinel for the first, and which mismatch is reported |
| WireText.FirstLoginText | backend/src/services/audit.service.ts:28-31 | the hash of a first login entry is taken over `GENESIS{"userId":"…"}` |
| AuditLog.LastHashCommits | backend/src/services/audit.service.ts:28-31 | two accepted logs end in the same hash iff they have the same payloads row by row, or a row of one and a row of the other collide |
| AuditLog.PrefixIsAccepted | backend/src/scripts/verifyChain.ts:41-72 | every prefix of an accepted log is accepted, so truncation goes unnoticed |
| AuditLog.WriterMeetsVerifier | backend/src/scripts/verifyChain.ts:59-69 | what the writer wrote is accepted when all keys stood in `jsonb` order; the first payload for which they did not is the row reported |
| AuditLog.LoggedPayloadOrders | backend/migrations/00005_audit_log.js:24-27 | login payloads keep their key order in the column; vote, resolution and risk payloads do not |
| AuditLog.HonestVoteIsReported | backend/src/services/request.service.ts:152 | a log of logins followed by one vote is reported broken at the vote although nobody altered it, or its two forms collide |
| AuditLog.AlteredPayloadIsReported | backend/src/scripts/verifyChain.ts:59-69 | altering one payload is reported at that row, or the two inputs collide |
| AuditLog.RehashedPayloadIsReported | backend/src/scripts/verifyChain.ts:47-72 | altering a payload and its hash is reported at the next row; on the last row it passes |
| AuditLog.RemovedRowIsReported | backend/src/scripts/verifyChain.ts:47-57 | removing any row but the last is reported at its successor, or two rows collide |
| AuditLog.EntryTypesAreNotCovered | backend/src/services/audit.service.ts:28-31 | ids and entry types can be changed freely without breaking the chain |
| Json.ParseOfStringify | backend/src/services/audit.service.ts:29 | a parser undoes the printer: keys, values and order come back |
| Json.BytesInjective | backend/src/services/audit.service.ts:29-30 | equal UTF-8 bytes come from equal property lists |
| JsonText.PlainTextIsItself | backend/src/services/audit.service.ts:29 | a string is printed as it is iff its surrogates are paired and it has no control character, quotation mark or backslash |
| JsonText.EscapesAreExact | backend/src/services/audit.service.ts:29 | the seven short escapes, four lower-case digits for other control characters and lone surrogates, pairs as they are |
| JsonText.EscapeConcat | backend/src/services/audit.service.ts:29 | strings are escaped piece by piece, so these laws hold anywhere in a string |
| JsonText.PropertyIsExact | backend/src/services/audit.service.ts:29 | the text of the empty object and of a single property, string or null |
| JsonText.PropertiesAreJoined | backend/src/services/audit.service.ts:29 | the text of a longer object is that of its parts with a comma between them |
| Unicode.Utf8RoundTrip | backend/src/services/signing.service.ts:18 | UTF-8 loses nothing on well-formed text |
| Utf8Text.WellFormedIsPaired | backend/src/services/signing.service.ts:17-18 | well-formed text is text in which every surrogate stands next to its partner |
| Utf8Text.UnitBytes | backend/src/services/signing.service.ts:18 | the bytes of one unit: shortest form, by thresholds and value; U+FFFD for a lone surrogate |
| Utf8Text.PairBytes | backend/src/services/signing.service.ts:18 | the four bytes of a surrogate pair, by the value of its code point |
| Utf8Text.Utf8Concat | backend/src/services/signing.service.ts:18 | text is encoded piece by piece |
| Json.StringifyIsWellFormed | backend/src/services/signing.service.ts:17 | the printed text is well-formed even when its strings are not |
| KeyOrder.SortedListingIsUnique | backend/src/services/signing.service.ts:17 | a set of keys has one sorted listing, so the sorting algorithm does not matter |
| KeyOrder.ReorderIsCanonical | backend/src/services/signing.service.ts:17 | two objects agree after sorting iff they are the same key-to-value map |
| KeyOrder.ReorderKeepsEntries | backend/src/services/signing.service.ts:17 | sorting keeps the properties themselves |
| KeyOrder.SignedKeysAscend | backend/src/services/signing.service.ts:17 | sorted keys ascend by code units: at the first difference the smaller unit, or the shorter key |
| KeyOrder.StoredKeysAscend | backend/migrations/00005_audit_log.js:24-27 | stored keys ascend by the length of their UTF-8 bytes and then by the bytes |
| Signing.CanonicalizeIsExact | backend/src/services/signing.service.ts:16-19 | two payloads have the same canonical bytes iff they are the same key-to-value map |
| Signing.CanonicalFormIsExact | backend/src/services/signing.service.ts:16-19 | the canonical bytes are the JSON of any listing of the same properties whose keys ascend |
| WireText.SignedVoteText | backend/src/services/request.service.ts:127 | a vote is signed over `{"decision":"…","requestId":"…","timestamp":"…"}` |
| Signing.SigningService.Sign | backend/src/services/signing.service.ts:24-45 | the outcome of signing and the whole table afterwards, including the rewritten envelope |
| Signing.SignIsExact | backend/src/services/signing.service.ts:24-45 | under any configuration: which error, which key signs, and that only an envelope the active secret does not open is rewritten |
| Signing.SigningService.GenerateKeypairForUser | backend/src/services/keys.service.ts:70-87 | a first key is stored encrypted; an existing one is left unchanged |
| Signing.GenerateIsExact | backend/src/services/keys.service.ts:70-87 | a first key pair is stored with its private half sealed under the active secret and the given vector; a later one is dropped |
| Signing.VerdictIsExact | backend/src/services/signing.service.ts:51-79 | true iff the user has a non-empty public key, the signature is non-empty and the scheme accepts it for the canonical bytes; false without a key; an error iff a key meets an empty signature |
| Signing.VerdictSeesTheMapOnly | backend/src/services/signing.service.ts:51-79 | two payloads get the same verdict under every scheme iff they are the same key-to-value map |
| Signing.StepIsSafe | backend/src/services/keys.service.ts:49-114 | generating, signing and reconfiguring keep every stored key sealed under a configured secret |
| Signing.RunIsSafe | backend/src/services/keys.service.ts:49-114 | no run loses a private key or changes one |
| Signing.SignNeverLosesTheKey | backend/src/services/signing.service.ts:24-45 | signing succeeds for every user with a key, with the original key, and leaves the envelope openable under the active secret |
| Signing.SignaturesOutliveRuns | backend/src/services/signing.service.ts:24-79 | the service accepts a signature at any later time for the same key-to-value map, and for a different one only together with a forgery |
| SigningKeys.EnvelopeParts | backend/src/services/keys.service.ts:27-36 | the colon-joined hexadecimal envelope falls back into its three parts |
| SigningKeys.EnvelopeIsExact | backend/src/services/keys.service.ts:27 | where the three hexadecimal parts and the two colons stand |
| SigningKeys.HexIsExact | backend/src/services/keys.service.ts:27 | each byte is two lower-case digits, the high one first |
| SigningKeys.EncryptIsExact | backend/src/services/keys.service.ts:16-28 | the envelope holds the vector given and what the cipher sealed with it under the derived key |
| SigningKeys.DecryptIsExact | backend/src/services/keys.service.ts:31-42 | text with fewer than two colons does not decrypt; what follows a third is ignored |
| SigningKeys.TrySecrets | backend/src/services/keys.service.ts:49-66 | the loop over secrets answers with the active one first and then the first different previous one that opens the envelope |
| SigningKeys.MigrationTakesTheFirst | backend/src/services/keys.service.ts:49-66 | for any cipher: the active secret first, then the first previous one that opens; no answer iff none does |
| SigningKeys.MigrationIsExact | backend/src/services/keys.service.ts:49-66 | a stored key is readable iff its secret is configured, and is flagged iff that secret is not the active one |
| SigningKeys.TrustIsSatisfiable | backend/src/services/keys.service.ts:11-42 | the laws assumed of key derivation and cipher have a model |
| Quorum.CountRuleIsExact | backend/src/services/quorum.service.ts:30-42 | with at most m votes: approved iff every completion to m votes reaches n approvals, denied iff none does, pending iff it still depends |
| Quorum.EvaluationIsExact | backend/src/services/quorum.service.ts:25-63 | the same for `n_of_m` and `role_weighted` policies with their defaults |
| Quorum.DecisionIsStable | backend/src/services/quorum.service.ts:30-63 | decided results survive every extension to at most m votes |
| Quorum.DenialSurvivesIff | backend/src/services/quorum.service.ts:34-39 | with no bound on the votes: a denial survives every k further votes iff approvals plus k stay below n; an approval survives all |
| Quorum.EarlyResolutionIsSound | backend/src/services/quorum.service.ts:30-63 | stopping at the first decision gives the answer of all m votes, which always decides and is the head count |
| Quorum.OrderIsIrrelevant | backend/src/services/quorum.service.ts:25-68 | the result depends on the multiset of votes only |
| Quorum.SeniorDecides | backend/src/services/quorum.service.ts:44-49 | the single vote of a senior approver is decisive either way; among several votes one approval is enough |
| Quorum.DefaultsAreOne | backend/src/services/quorum.service.ts:31-67 | an open n or m means one, `role_weighted` counts as `n_of_m`, and any other type is an error that names it |
| Quorum.OpenAtFirst | backend/src/services/quorum.service.ts:30-63 | no votes means pending iff the policy is supported and 1 <= n <= m |
| Quorum.SeatsSuffice | backend/src/services/quorum.service.ts:30-63 | under a well-formed policy at most m votes (one for a senior) are needed |
| Quorum.SeatsAreNeeded | backend/src/services/quorum.service.ts:30-63 | with one vote less a well-formed poll can still be open |
| Requests.ApprovalService.CreateRequest | backend/src/services/request.service.ts:44-71 | a pending request with the policy version snapshotted, or the error and no change |
| Requests.CreationIsExact | backend/src/services/request.service.ts:44-71 | which errors, and the row recorded: requester, policy and its version, pending |
| Requests.SnapshotIsKept | backend/src/services/request.service.ts:56-68 | no run changes the requester, the policy or the recorded version of a request |
| Requests.ApprovalService.SubmitVote | backend/src/services/request.service.ts:91-192 | the outcome and the tables afterwards for every refusal, for an unsupported policy (vote kept, call fails) and for a resolution |
| Requests.RefusalIsExact | backend/src/services/request.service.ts:96-149 | what turns a vote away, in the order of the checks, and that a refused vote changes nothing |
| Requests.VoteAnswerIsStored | backend/src/services/request.service.ts:156-191 | the answer of a vote is the status stored, with the time of the resolution; all else stays |
| Requests.ApprovalService.BreakGlass | backend/src/services/request.service.ts:198-233 | the outcome and the tables afterwards, with all guards |
| Requests.BreakGlassIsExact | backend/src/services/request.service.ts:198-233 | which error for whom; the requester of a pending request gets it approved and flagged; anyone else changes nothing |
| Requests.StepKeepsInvariant | backend/src/services/request.service.ts:44-233 | every call keeps: resolved iff not pending, break-glass implies approved, flagged and undecided by votes, status equals the quorum of the stored votes under well-formed policies, votes are permitted and unique |
| Requests.RunKeepsInvariant | backend/src/services/request.service.ts:44-233 | the same over whole runs from the empty database |
| Requests.ResolutionIsFinal | backend/src/services/request.service.ts:108-110 | a resolved request keeps its row and its votes in every further run |
| Requests.StatusAgreesIffWellFormed | backend/src/services/request.service.ts:62-68 | a new request agrees with the quorum of no votes iff its policy is well-formed |
| Requests.StatusAgreesExactly | backend/src/services/request.service.ts:44-182 | over all runs, the status of a request without break-glass is what its votes call for iff the policy is supported and is well-formed or has a vote |
| Requests.FailedVoteIsExact | backend/src/services/request.service.ts:130-182 | a vote not refused fails iff the policy is unsupported; a failing call leaves the tables alone iff the vote was refused, and otherwise bars the voter's next attempt |
| Requests.OneVoteIsNotAQuorum | backend/src/services/request.service.ts:97-100 | under the service's own voter rule a request has at most one vote, so with n >= 2 approval implies break-glass and denial implies n = m |
| StepUpLimiter.Limiter.RecordStepUpAttempt | backend/src/services/risk.service.ts:23-29 | blocks iff more than three attempts of the full history are young, if the clock has not gone back; never blocks more than that; touches no other user |
| StepUpLimiter.Limiter.IsStepUpBlocked | backend/src/services/risk.service.ts:32-36 | the same answer without recording |
| StepUpLimiter.PruningIsExact | backend/src/services/risk.service.ts:25-28 | under any clock the pruned list shows no more than the full history, and the same iff no attempt still young was pruned by a later one |
| StepUpLimiter.ClockGoingBackForgets | backend/src/services/risk.service.ts:24-28 | a clock that goes back lets five attempts of a user within a minute pass, none of them blocked |
| StepUpLimiter.FourthInAMinuteIsBlocked | backend/src/services/risk.service.ts:16-29 | of four attempts of a user within less than 60 s the fourth is blocked, whatever the verdicts on the others and the times of other users |
| StepUpLimiter.ReplayIsPerUser | backend/src/services/risk.service.ts:20-27 | a user's list depends on that user's attempts only |
| RefreshTokens.RefreshTokenTable.IssueRefreshToken | backend/src/services/session.service.ts:16-29 | one new live token, or the unique-digest error and no change |
| RefreshTokens.RefreshTokenTable.RotateRefreshToken | backend/src/services/session.service.ts:57-90 | outcome and table afterwards for every branch, including the failed insert that leaves the presented token revoked |
| RefreshTokens.RotationIsExact | backend/src/services/session.service.ts:57-89 | every answer, by what the table holds: unknown, expired, revoked, digest taken, or success |
| RefreshTokens.LifetimeIsExact | backend/src/services/session.service.ts:16-29 | a token just issued can be rotated for 604800000 ms and no longer |
| RefreshTokens.SuccessorIsExact | backend/src/services/session.service.ts:84-89 | the table after a rotation, row by row, and the lifetime of the successor |
| RefreshTokens.RevocationIsExact | backend/src/services/session.service.ts:79-82 | a reused token revokes the rows of its family and no others; a failed insert and a deletion likewise |
| RefreshTokens.RefreshTokenTable.DeleteSession | backend/src/routes/auth.routes.ts:387-395 | revokes the live tokens of that family and user; an error iff there were none |
| RefreshTokens.RunKeepsChain | backend/src/services/session.service.ts:16-90 | with atomic calls every family is one user's chain with all tokens but the newest revoked |
| RefreshTokens.OneLiveToken | backend/src/services/session.service.ts:57-90 | a family has at most one live token at any time |
| RefreshTokens.ReuseKillsFamily | backend/src/services/session.service.ts:77-82 | presenting a revoked token ends its family, for all further runs, iff the token has not expired |
| RefreshTokens.ExpiredReplayIsHarmless | backend/src/services/session.service.ts:77-82 | in a run of login, rotation and replay after expiry, the live successor stays |
| RefreshTokens.DeleteEndsSession | backend/src/routes/auth.routes.ts:387-392 | the owner's delete ends the family for good; anyone else's changes nothing |
| RefreshTokens.RotationPassesTheBaton | backend/src/services/session.service.ts:84-89 | a successful rotation revokes the presented token and leaves exactly its successor alive |
| RotationRace.RunGrows | backend/src/services/session.service.ts:79-89 | under every interleaving of queries revocation is never undone and tokens keep user and family |
| RotationRace.RunIsSound | backend/src/services/session.service.ts:84-87 | under every interleaving a token with a successor is revoked and the successor keeps user and family |
| RotationRace.RunIsCounted | backend/src/services/session.service.ts:31-87 | the tokens of a family number one plus its completed successor inserts |
| RotationRace.RunIsBooked | backend/src/services/session.service.ts:84-89 | under every interleaving successors and rotations answered with a token correspond one to one |
| RotationRace.UnforkedRunIsChain | backend/src/services/session.service.ts:57-90 | under every interleaving, while no token has two successors, all tokens of a family but the newest have one and are revoked |
| RotationRace.GuardIsExact | backend/src/services/session.service.ts:60-84 | the chain is safe at every moment of an interleaved run iff no rotation finds a token live that another has read and not yet revoked |
| RotationRace.RunKeepsChain | backend/src/services/session.service.ts:57-90 | every run from the empty table that respects this guard keeps every family a chain without a fork, with one rotation in flight per token |
| RotationRace.LateReadYieldsNothing | backend/src/services/session.service.ts:60-82 | a rotation that reads its token after the revocation never yields a token |
| RotationRace.ResurrectionIsExact | backend/src/services/session.service.ts:79-87 | a family without live tokens can get one again iff a rotation of it is between its read and its insert |
| RotationRace.OverlappingRotationsFork | backend/src/services/session.service.ts:60-87 | in any table and beside any other calls, two rotations that both read a live token before either revokes it leave two live successors of it |
| RotationRace.UninterruptedIsAtomic | backend/src/services/session.service.ts:57-90 | a rotation whose queries are not interrupted changes the table and answers as the atomic call does |
| RotationRace.SingleQueriesAreAtomic | backend/src/services/session.service.ts:16-29 | logins and deletions do as single queries what they do as atomic calls |

## Left out

- Non-ASCII secrets: `toUpperCase` and `\s` reach beyond ASCII; secrets are ASCII text here.
- Verification windows and timestamps beyond 2^53, where a JavaScript number skips integers; numbers are reals with separate non-finite values.
- The time taken by comparisons, and the rest of the side channels.
- Nested payloads, numbers and booleans: payloads are flat objects with string or null values, as every call of `sign` and `appendAuditEntry` passes; the key filter of `JSON.stringify` does not matter for them.
- Keys that look like array indices, which JavaScript objects list first.
- PostgreSQL isolation: the writer's transaction runs at the default level, so its append is atomic only by hypothesis.
- Fire-and-forget audit calls: nothing is claimed about which events reach the log.
- Base64 of signatures: a signature is its text; access tokens (JWT) are not modelled.
- Malformed UTF-8 inside a decrypted private key, which cannot come from the service's own encryption.
- Concurrent calls in `Requests`: the final update does not check that the request is still pending, so the results are about calls that do not overlap.
- Delegation rows and the escalation job: a boolean argument of a vote, and a flag nothing else reads.
- `generateSecretForUser` and `verifyCode`: single-row reads and writes around the codec and the verifier; the provisioning URI.
- WebAuthn, login risk scoring, receipts, policy listing, routing, configuration parsing, the frontend and the demo scripts.
