# Nockmark verification model

Nockmark is a benchmark registry. It mints challenges, verifies the work submitted
against them, records verified runs and ranks them by a rate the server computes. This
project models the logic that makes that board trustworthy and proves it, in Dafny 4.11:

    dafny verify dfyconfig.toml

## What is modelled

- **The AI track as a crash-recoverable concurrent store.** `AiLedger` is the ledger and
  its replay from an append-only log of which any append may be cut short; `Json`, `Utf8`,
  `Events` and `HexCodec` are the log's bytes, so that what a torn line does on replay is
  proved and not assumed; `Scalars` ties well-formed UTF-8 to the code points it encodes. `AiStore` is the store itself, a class that updates its fields
  and its file. `Submission` is the whole track as a step relation: any number of
  submission handlers that check, verify without the lock and commit, mints, failed
  appends and restarts, in any order. `Outcome` says which submissions end stored and that
  the others leave no trace, `Provenance` that every stored run was sent by a client,
  `Commits` what an acknowledged commit is worth across restarts, `Credit` what the board
  credits a stored run with.
- **Difficulty and score.** `Float64` is binary64 rounding (IEEE 754-2019, section 4.3.1)
  over exact reals; `Score` is the scoring loop computed in it, under the raw (dense) and
  the scaled (canonical-MoE) comparison; `Tiers` grants tiers and inverts the score;
  `Rates` is what the tier, the clock and the display rounding do to a machine's rate.
- **Search.** `Search` has the sequential and the batched grind and shows them equal.
- **The ZK track.** `Kernel` is the poke state machine and its fixed-point window,
  `ZkGate` the submission gate, the client's striped bench and the ranked figure,
  `Figures` what that figure is of the exact rate, `Tracks` both ledgers fed by the same
  mints.
- **Supporting algorithms.** `RateLimiter`, with `ClientKeys` for the keys as sent; `Belts`
  (the FNV-1a/splitmix64 derivation) and its known value `GoldenBelts`; `History`
  (thinning). `Reals`, `Numbers`, `Bytes`, `Octets` and `Wrappers` are shared
  vocabulary.

The certificate and STARK verifiers, the jackpot of an ordinal and the derived field
elements are parameters; so are clocks, entropy and how many octets an append managed to
write. Text is a sequence of octets.

## Where the code does less than its comments say

Each of these is a theorem with the condition under which the comment holds.

- `registry/src/aipow.rs:399-401` treats torn lines as merely skipped. A fragment left
  without its line break also makes the next whole event vanish on replay
  (`AiLedger.FragmentSwallowsNext`), and a cut inside a character makes the file
  unreadable as a whole, which can happen exactly to events that are not pure ASCII
  (`AiLedger.UnreadableExactly`, with an instance in `AiLedger.TornInsideCharacter`).
- `registry/src/aipow.rs:519-520` commits once per nonce. Within one boot that is so; over
  restarts an acknowledged run is in every later boot, as long as no later cut makes the
  file unreadable, exactly when the file was valid UTF-8 and ended with a line break (or
  was empty) before it (`Commits.CommitIsDurableExactly`). From every reachable state, the
  nonce can be committed again exactly when the file was valid UTF-8 and ended with a
  fragment (`Commits.CommitRepeatsExactly`); then another client's run can also be
  acknowledged under the id already given (`Commits.OneIdTwoRuns`). A cut inside a
  hardware name that is not ASCII ends all booting (`Commits.BootRefused`).
- `registry/src/http.rs:544-547` verifies against the issued target. For a nonce minted
  twice, target and issue time of a stored run belong together in every run of the system
  exactly when the two mints agree in one of them (`Submission.TargetKeptExactly`).
- `tock/src/aipow_gpu.rs:241-247` promises the wins of the CPU loop. That is so exactly
  when the k-th win is not the last u32 ordinal (`Search.BatchedEqualsSequential`).
- `registry/src/ratelimit.rs:36-39` says a sprayer can at most double an allowance per
  window. That holds exactly for at most one clear in the window
  (`RateLimiter.DoublesExactly`): c clears give the allowance c more times, and that bound
  is reached (`RateLimiter.WindowBound`, `RateLimiter.ClearsMultiply`).
- `registry/src/ratelimit.rs:26-28` rounds the wait down. A key that waits exactly as told
  is still blocked exactly when more of its window was left than the seconds given and the
  table is not cleared (`RateLimiter.WaitingAsTold`). For every allowance there is a
  history that ends so, whenever the time left is over a second and no whole number of
  seconds (`RateLimiter.WaitedAsTold`).
  One second more suffices (`RateLimiter.WaitingSuffices`).
- `registry/src/economics.rs:152` thins to evenly spaced points ending in the newest. For
  huge caps the last spaced position rounds up to the newest point, which is then kept
  twice (`History.LastKeptTwice`); `History.Thin` is an even sample exactly when it does
  not, as for every cap up to 2^25. The only caller passes 1000
  (`registry/src/http.rs:824`), so the board never meets the failing input.
- `tock/src/main.rs:376-378` says an honest claim always fits the server's window. The
  client rounds up and the kernel down: it fits exactly when the two roundings leave room
  (`ZkGate.ClaimFitsExactly`). Work that takes all of its window is refused when the
  window ends with 1/1024 of a millisecond or more beyond a whole one, and recorded when
  it ends with none (`ZkGate.WholeWindowClaim`).
- `tock/src/aipow.rs:142-155` accepts more than hexadecimal: pairs such as `+f` pass and
  print as something else (`HexCodec.HexOfParse`, `HexCodec.PlusIsAccepted`).
- The gate binds proofs to the nonce string as sent, the ledger records the number it
  parses to (`registry/src/http.rs:373`, `391`); `ZkGate.BoundNameIsCanonical` says when
  the two agree.

## Model

| member | source | states |
|---|---|---|
| AiLedger.ReplayExact | registry/src/aipow.rs:419-475 | For every sequence of appends, each cut anywhere, what a boot rebuilds: the surviving events in order when every cut falls between characters, and no string at all otherwise. |
| AiLedger.ReplayWhole | registry/src/aipow.rs:419-475 | While all appends are whole, replay rebuilds exactly the pending challenges, used nonces, runs and next id that the events amount to. |
| AiLedger.TornLastAppend | registry/src/aipow.rs:427-434 | A torn last append yields the state before or after it, depending on whether its object is complete, or an unreadable file. |
| AiLedger.FragmentSwallowsNext | registry/src/aipow.rs:431-434 | An unterminated fragment makes the next whole event vanish on replay. |
| AiLedger.UnreadableExactly | registry/src/aipow.rs:427-430 | Some cut of an event's line makes the whole file unreadable if and only if the line is not pure ASCII. |
| AiLedger.TornInsideCharacter | registry/src/aipow.rs:427-430 | For every target and every readable file: a run with a two-octet character in its hardware name, cut inside it, and the file can no longer be loaded. |
| AiLedger.CleanMeansEnded | registry/src/aipow.rs:469-475 | The survivors' last line is clean exactly when the file is empty or its last octet is a line break. |
| AiLedger.SurvivorsPersist | registry/src/aipow.rs:469-475 | What a log is certain to keep, no later append can take away or reorder. |
| AiStore.Store.Load | registry/src/aipow.rs:419-467 | The replay loop rebuilds the ledger specified by `AiLedger.Replay` and fails exactly when the file is not a string. |
| AiStore.Store.RecordChallenge | registry/src/aipow.rs:483-504 | The challenge enters memory only when its whole line is in the file; a later mint of the nonce overwrites. Memory and file stay in step. |
| AiStore.Store.ChallengeStatus | registry/src/aipow.rs:508-517 | Succeeds exactly for an unused, pending nonce issued at most 3,600,000 ms ago, in the source's order of refusals. |
| AiStore.Store.CommitRun | registry/src/aipow.rs:522-558 | A rejected or unwritten commit leaves memory unchanged; a stored run has every submitted field as given, the next id, the challenge's issue time and the commit's time, its line is appended, its nonce moves from pending to used, and memory and file stay in step. |
| AiStore.StaysInSync | registry/src/aipow.rs:469-475 | After a whole append to a file that agrees with memory, loading the file would give the updated memory. |
| Events.EventRoundTrip | registry/src/aipow.rs:435-462 | Every event that fits the machine's integers is decoded from its own line, which is one line of valid UTF-8. |
| Events.OldRunIsDense | registry/src/aipow.rs:362-364 | A run line without the statement member, whatever else it holds, is replayed as a dense run. |
| Events.BadTargetIsUntiered | registry/src/aipow.rs:440-446 | A challenge line whose target text does not parse is replayed as an untiered challenge. |
| Events.BlanksAround | registry/src/aipow.rs:431-434 | Spaces, tabs and carriage returns before or after an event's text change nothing. |
| Events.LastMemberCounts | registry/src/aipow.rs:435-452 | Of several members of one name the last is read. |
| Json.ObjectRoundTrip | registry/src/aipow.rs:432-434 | A written object is read back unchanged (section 7 of RFC 8259 for the strings). |
| Json.EscapeLength | registry/src/aipow.rs:469-475 | Quote, backslash and the five named controls are written with a two-octet escape, the other controls with six octets, anything else as it is. |
| Json.PrefixNotDone | registry/src/aipow.rs:432-434 | A proper prefix of something readable is not itself readable. |
| Json.GlueNeverDone | registry/src/aipow.rs:432-434 | After an unfinished object, no beginning of another event's object completes the line. |
| Utf8.CutIsFatal | registry/src/aipow.rs:427-430 | A cut inside a character (section 4 of RFC 3629) followed by ASCII is never valid. |
| Utf8.CutsAt | registry/src/aipow.rs:427-430 | In well-formed text a prefix is well-formed exactly when the octet after it does not continue a character. |
| Scalars.ValidExactly | registry/src/aipow.rs:427-430 | A text is well-formed if and only if it is a concatenation of one- to four-octet encodings of scalar values, surrogates and values above 10FFFF excluded (section 3 of RFC 3629). |
| Utf8.WriteValid | registry/src/aipow.rs:469-475 | Written JSON is valid UTF-8 when its strings are. |
| Utf8.WriteOneLine | registry/src/aipow.rs:469-475 | Written JSON has no raw line break, so an event is one line. |
| Submission.Reachable | registry/src/http.rs:469-665 | Every reachable state of the concurrent track satisfies the invariant: memory, log and handlers are backed by mints and verified wins. |
| Submission.AtMostOneRunPerNonce | registry/src/http.rs:619-658 | In every reachable state, whatever the interleaving of handlers, mints, failed appends and restarts, no nonce has two stored runs, also when it was minted again. |
| Submission.AcceptableExactly | registry/src/http.rs:487-532 | What is accepted before any lock: k wins with pairwise ascending extranonces, 32-bit ones for canonical-MoE, and every length within its stated limit. |
| Outcome.StoredExactlyWhenEarned | registry/src/http.rs:533-658 | From every reachable state, a submission taken through arrival, check, every verification and a whole commit is stored, as sent, if and only if all its wins verify against the target in force and its challenge is open at the check and at the commit. |
| Outcome.UnearnedLeavesNoTrace | registry/src/http.rs:533-658 | In every other case, whichever win fails or whenever the challenge closes, the system ends exactly as it was. |
| Outcome.CutCommitKeepsMemory | registry/src/aipow.rs:550-556 | A commit whose append is cut short changes nothing but the file, which keeps the part. |
| Provenance.StoredRunsWereSent | registry/src/aipow.rs:522-558 | Over every interleaving, failed append and restart, every stored run equals, field by field, a submission that arrived, stamped with the time of a later commit of the handler that took it. |
| Commits.CommitIsDurableExactly | registry/src/aipow.rs:419-475 | An acknowledged run is among the runs of every later boot whose file no later cut has made unreadable if and only if the file before it was valid UTF-8 and was empty or ended with a line break. |
| Commits.CommittedTwiceOnlyAfterFragment | registry/src/aipow.rs:519-558 | Over a whole execution with restarts: if a nonce is committed twice, the earlier commit began on a spoiled line. |
| Commits.WholeCommitsOnce | registry/src/aipow.rs:519-558 | While appends are whole, no nonce is committed twice over the whole execution. |
| Commits.CommitRepeatsExactly | registry/src/aipow.rs:519-558 | For every reachable state and every acknowledged commit from it: some continuation commits the nonce again if and only if the file before that commit was valid UTF-8 and did not end with a line break. |
| Commits.OneIdTwoRuns | registry/src/aipow.rs:537-556 | For any two good submissions: after a torn mint, the first is acknowledged and, after a restart, the second is acknowledged under the same id 1. |
| Commits.BootRefused | registry/src/aipow.rs:427-430 | From every reachable state, for any good submission whose hardware name leaves ASCII, its commit can be cut so that the process never boots again, whatever follows. |
| Commits.IdsAreUnique | registry/src/aipow.rs:537-556 | In every reachable state the ids of the stored runs ascend in order of storing, hence are unique, and the next id is above them. |
| Submission.StoredRunsAreVerified | registry/src/http.rs:501-507 | Every stored run has k strictly ascending extranonces, each verified against exactly the stored target, and submitted minus issued is within the window. |
| Submission.StoredTargetIsIssued | registry/src/http.rs:535-561 | When every mint of the nonce had one tier the stored target is the issued one; minted once, the window runs from that issue. |
| Submission.UntieredTargetIsConfigured | registry/src/http.rs:558-561 | When no mint of the nonce was tiered, a stored dense run has the dense target and a canonical-MoE run the MoE target of a configuration that was booted; of the one configuration, when there was one. |
| Submission.RemintedTargetDiffers | registry/src/http.rs:535-561 | For any boot, any two mints of a nonce and any acceptable submission that verifies against the first: minted again between check and commit, it is stored with the first target and the second issue time. |
| Submission.TargetKeptExactly | registry/src/http.rs:535-561 | Given some acceptable submission that verifies against the first mint's target: the runs of a nonce minted as two given mints, tiered or not, keep target and issue time together in every run of the system if and only if the two mints agree in one of them. |
| Submission.RestartIsInvisible | registry/src/aipow.rs:419-467 | While appends are whole, a restart at any moment changes nothing but the handlers and the configuration. |
| Submission.HonestRunIsStored | registry/src/http.rs:469-658 | From any reachable state, a good submission against an open challenge ends as the last stored run, every field as submitted, with the next id, the issue time, the commit time and the issued or configured target; its line is appended, its nonce moves from pending to used, and nothing else changes. |
| Credit.CreditIsVerifiedTarget | registry/src/http.rs:689-700 | Every stored run is credited by the very target its wins were verified against, read back from the row. |
| Credit.CreditIsGrantedTier | registry/src/http.rs:236-250 | A run of a tiered challenge, under the statement it was issued for, is credited exactly the granted attempts per win. |
| Credit.CreditIsConfigured | registry/src/http.rs:558-561 | A run of an untiered challenge is credited the dense score of the configured dense target or the MoE score of the configured MoE target. |
| Credit.CreditFollowsThreshold | registry/src/http.rs:549-557 | For any target T, a canonical-MoE run of T is credited what a dense run of T * 2^16 is, and one attempt, the least there is, when T * 2^16 does not fit 256 bits. |
| Credit.CreditOfBit | registry/src/http.rs:549-557 | A run of the one-bit target 2^b, b from 53 on, is credited 2^(256-b) under the dense statement and 2^(240-b) under the scaled one, or one from bit 240 on. |
| Credit.FallbackUnderstates | registry/src/http.rs:691-693 | The all-ones stand-in for an unreadable target never scores more than the target it replaces. |
| Credit.UnreadableUnderstates | registry/src/http.rs:689-700 | A row whose target cannot be read is never credited more than by any target. |
| HexCodec.ParseHex32 | tock/src/aipow.rs:144-155 | The in-place parser returns the specified result: length, prefix and pairs as in the source, an abort on a slice inside a character. |
| HexCodec.AcceptsExactly | tock/src/aipow.rs:144-155 | Accepted: exactly 64 octets, or 66 after `0x`, whose pairs are two hexadecimal digits or a plus sign and one. |
| HexCodec.HexRoundTrip | tock/src/aipow.rs:144-159 | Parsing a printed target gives it back; printing never triggers the prefix strip. |
| HexCodec.PrefixedHex | tock/src/aipow.rs:144-145 | A printed target after `0x` is parsed to the same target. |
| HexCodec.AbortsExactly | tock/src/aipow.rs:150-152 | On well-formed text the parser aborts exactly when, before any refused pair, it slices where a prefix of the text is not well-formed. |
| HexCodec.HexOfParse | tock/src/aipow.rs:144-159 | Printing a parsed text gives its lower-case form exactly when it was pure hexadecimal. |
| HexCodec.PlusIsAccepted | tock/src/aipow.rs:144-159 | `+f` followed by zeros is accepted, read as 15, and printed as something else. |
| Float64.RoundMono | tock/src/aipow.rs:282-288 | Binary64 rounding is monotone. |
| Float64.RoundError | tock/src/aipow.rs:279-281 | Rounding moves a value by at most one part in 2^53. |
| Float64.TiesToEven | tock/src/aipow.rs:282-288 | A value midway between two neighbours is rounded to the even one. |
| Float64.Absorb | tock/src/aipow.rs:294-297 | What is below half a unit in the last place is absorbed. |
| Score.ExpectedAttemptsPerWin | tock/src/aipow.rs:282-288 | The byte loop computes the specified score. |
| Score.ExpectedAttemptsPerMoeWin | tock/src/aipow_moe.rs:230-237 | The same over the scaled threshold; no score exactly when T * 2^16 does not fit 256 bits. |
| Score.HornerForm | tock/src/aipow.rs:282-288 | The loop is exact below 2^53, rounds once on reaching it and absorbs every later byte. |
| Score.ScoreError | tock/src/aipow.rs:279-288 | For every 32-byte target the score is within relative error 2^-50 of 2^256 / (T + 1). |
| Score.ScoreAntitone | tock/src/aipow.rs:282-288 | An easier target never scores more attempts, despite rounding at each step. |
| Score.ScoreAtLeastOne | registry/src/aipow.rs:137-143 | No target scores less than one attempt per win. |
| Score.MoeScoreAntitone | tock/src/aipow_moe.rs:230-237 | The order carries over to the scaled rule for every pair of targets. |
| Score.MoeScoreError | tock/src/aipow_moe.rs:230-237 | The error bound for the scaled rule, wherever the target scales. |
| Score.CrossStatement | tock/src/aipow_moe.rs:159-161 | The MoE score of T is the dense score of T * 2^16; a target that does not scale scores one, the least. |
| Tiers.GrantInRange | tock/src/aipow.rs:303-317 | Every request is granted a power of two between 2^12 and 2^30. |
| Tiers.GrantFixedPoints | tock/src/aipow.rs:303-317 | Granting is idempotent and leaves exactly the tiers alone. |
| Tiers.GrantMono | tock/src/aipow.rs:303-317 | A larger request is never granted a smaller tier. |
| Tiers.GrantNearest | tock/src/aipow.rs:310-316 | No tier is nearer to the clamped request on a logarithmic scale. |
| Tiers.GrantNeverTies | tock/src/aipow.rs:310-316 | A request is never exactly midway, since the square root of two is irrational. |
| Tiers.NoTie | tock/src/aipow.rs:310-316 | n^2 is never 2 m^2. |
| Tiers.BitScore | tock/src/aipow.rs:294-297 | A one-bit target 2^b scores exactly 2^(256-b) for every b from 53 to 255. |
| Tiers.ScanForTarget | tock/src/aipow.rs:345-361 | The scan over 256 one-bit targets returns the specified first hit, and nothing for a request that is not a tier. |
| Tiers.ScoreHit | registry/src/aipow.rs:134-145 | Under each statement a one-bit target scores tier 2^a at exactly one bit; low bits and overflowing targets never match. |
| Tiers.TierRoundTrip | tock/src/aipow.rs:345-361 | For every tier 2^a the scan finds 2^(256-a) (dense) or 2^(240-a) (MoE), and that target scores the tier exactly. |
| Tiers.TargetExistsExactlyForTiers | registry/src/aipow.rs:147-161 | A target exists exactly for the tiers and scores what was asked. |
| Tiers.MintCannotFail | registry/src/http.rs:231-250 | Whatever is requested, the granted tier has a target, so minting never fails on it. |
| Rates.UniformRecovery | tock/src/aipow.rs:234-250 | The uncast tier recovers exactly R/(R+1) of a machine's true rate, whatever its rate, prove time, k and statement. |
| Rates.RecoversShare | tock/src/aipow.rs:234-250 | For any tier the ranked figure is the true rate times tier / (tier + attempts in one prove time); k cancels. |
| Rates.HarderRanksHigher | registry/src/aipow.rs:307-316 | The ranked figure strictly increases with the tier and stays below the true rate. |
| Rates.GrantBand | tock/src/aipow.rs:303-317 | An unclamped request and its tier are within a factor of the square root of two. |
| Rates.TierForMono | tock/src/aipow.rs:373-382 | A machine that grinds more in its prove time never asks for a smaller tier, and past 2^30 is granted 2^30, the cast's saturation included. |
| Rates.GrantedRecovery | tock/src/aipow.rs:373-382 | With the tier actually granted, an unclamped machine recovers between 58% and 74% of its true rate. |
| Rates.StampsClose | registry/src/aipow.rs:253-258 | Millisecond stamps move a window by less than a millisecond either way. |
| Rates.Signif4Error | registry/src/aipow.rs:281-287 | With exact powers of ten, four significant digits are off by at most one part in 2000. |
| Rates.Signif4Digits | registry/src/aipow.rs:281-287 | With exact powers of ten, the shown figure is an integer from 1000 to 10000 shifted by a power of ten. |
| Rates.Signif4Mono | registry/src/aipow.rs:281-287 | With exact powers of ten, display rounding never reverses the order of two figures, across decades too. |
| Rates.PublishedBelowTrue | registry/src/aipow.rs:326-346 | The published figure of a run that took its expected time or longer, stamped and rounded, is below the true rate but for those two roundings. |
| Search.GrindSequential | tock/src/aipow_moe.rs:340-396 | Returns the first k winning ordinals in order with attempts through the last, or exhaustion exactly when fewer win below the last ordinal. The dense loop is the same with a wider ordinal. |
| Search.GrindBatched | tock/src/aipow_gpu.rs:253-319 | The same specification for every batch size of at least one, over the whole ordinal space; it terminates in the ordinals left. |
| Search.FoundIsUnique | tock/src/aipow_gpu.rs:241-247 | Two completed grinds return the same wins and attempts, whatever their bounds. |
| Search.BatchedEqualsSequential | tock/src/aipow_gpu.rs:241-247 | The two grinds agree if and only if the k-th win is not the last u32 ordinal. |
| Search.LastOrdinalDiffers | tock/src/aipow_moe.rs:384-386 | A predicate for which they differ. |
| Kernel.LedgerAlways | hoon/registry.hoon:52-83 | After any pokes: ids are n-1 down to 0, every run is inside its hour with elapsed time inside its window, and runs plus open challenge of a nonce never exceed its mints. |
| Kernel.OneMintOneRun | hoon/registry.hoon:62-83 | A nonce minted once backs at most one run; ids are unique. |
| Kernel.FirstSubmissionDecides | hoon/registry.hoon:57-83 | After a mint the first submission is recorded exactly when in time and inside its window, as submitted; the nonce then backs no second run. |
| Kernel.ToldNonceIsOpened | hoon/registry.hoon:57-60 | The nonce told to the client is the one opened at that instant, and no other challenge changes. |
| Kernel.RefusalsExact | hoon/registry.hoon:62-74 | Over any pokes: refused as unknown exactly when never minted, as used exactly when closed, which a recorded run then shows, and as stale, crashing or too long by the times alone. |
| Kernel.RefusalsChangeNothing | hoon/registry.hoon:52-83 | Every poke that neither mints nor records leaves the state alone; undecodable ones are refused as such. |
| Kernel.WindowReadsBack | registry/src/kernel.rs:148-152 | On every recorded run the reader's conversion gives the kernel's own window, without saturating. |
| Kernel.OutOfRangeReads | registry/src/kernel.rs:148-152 | Stamps out of order read as a window of zero, differences too wide for 128 bits as the longest window. |
| ZkGate.BoundIff | registry/src/binding.rs:59-76 | A proof is bound exactly when its first puzzle is the one for this challenge, index and length. |
| ZkGate.BoundElsewhere | registry/src/binding.rs:59-76 | A proof bound at one index is bound at another exactly when their derived nonces coincide. |
| ZkGate.BindingErrors | registry/src/binding.rs:59-76 | The error is that no object is a puzzle, or the first thing wrong with the first puzzle: length, then nonce, then header. |
| ZkGate.GarbledExactly | registry/src/binding.rs:53-57 | Bytes that are no proof, and only those, are refused as undecodable. |
| ZkGate.SeedsDiffer | registry/src/binding.rs:59 | The seeds of two challenge strings and indices are equal only for equal pairs. |
| ZkGate.ClaimFitsExactly | tock/src/main.rs:376-378 | A claim of d seconds, the binary64 product by 1000 rounded up, fits a window of w seconds, rounded down, exactly when that product is at most the whole milliseconds of w and there is at least one; within the hour a millisecond of slack suffices. |
| ZkGate.WholeWindowClaim | tock/src/main.rs:376-378 | Work that takes all of its window of any whole number of milliseconds plus a fraction: recorded without a fraction, refused for exceeding the window with a fraction of 1/1024 or more, and in general exactly as the binary64 product decides. |
| ZkGate.BoundNameIsCanonical | registry/src/http.rs:373-391 | The bound string is the canonical name of the recorded nonce exactly when it has no plus sign and no superfluous zero. |
| ZkGate.NamesOf | registry/src/http.rs:373 | What parses as n below 2^64 is its decimal behind any number of zeros and perhaps a plus sign, and nothing else. |
| ZkGate.AnswersExact | registry/src/http.rs:373-430 | A bad request exactly when a field is out of its limits or a proof fails, an abort exactly on numbers of 2^63 or more that pass. |
| ZkGate.OneNonceManyNames | registry/src/http.rs:373-391 | 7, 07 and +7 are one nonce. |
| ZkGate.ProveStripe | tock/src/main.rs:311-330 | One thread proves exactly its residue class of indices, in order. |
| ZkGate.Collect | tock/src/main.rs:332-335 | Whatever the completion order, exactly the indices of the finished threads are collected, each once. |
| ZkGate.BundleInPlace | tock/src/main.rs:306-337 | For every k, thread count and completion order the sorted bundle holds proof i at place i and nothing else. |
| ZkGate.HonestBundleBinds | tock/src/main.rs:372-375 | An honest bundle passes the binding check at every index. |
| ZkGate.HonestClientIsRecorded | registry/src/http.rs:354-430 | From mint through striping, sorting and the gate to the ledger: an honest first submission of d seconds of work is recorded with the next id if and only if it comes within the hour and its claim, the binary64 product rounded up, fits the window. |
| ZkGate.Round4Mono | registry/src/http.rs:42-44 | Four-decimal rounding in binary64 is monotone. |
| ZkGate.GatedRuns | registry/src/http.rs:378-380 | Every run recorded past the gate has elapsed time of at least a millisecond. |
| ZkGate.RankedNeverExceedsReported | registry/src/http.rs:46-50 | On every recorded run the ranked rate never exceeds the self-reported one, in binary64, and the floor of one millisecond never applies. |
| Figures.Round4Error | registry/src/http.rs:42-44 | Rounding to four decimals gives the double nearest to a number of four decimals that is within half a unit of the argument, up to three parts in 2^53. |
| Figures.RateError | registry/src/http.rs:49 | The computed rate is within 8 parts in 2^53 of 1000 k / ms. |
| Figures.RankedFigure | registry/src/http.rs:46-50 | On every recorded run the ranked figure is 1000 k over the whole milliseconds of the kernel's window, and the self-reported one 1000 k over the claimed time, to four decimals up to 20 parts in 2^53. |
| Tracks.OneMintOneRunPerTrack | registry/src/aipow.rs:39-43 | Over both tracks interleaved, a nonce has at most as many ZK runs as mints, at most one AI run, and none if never minted. |
| Tracks.MintOpensBoth | registry/src/http.rs:254-308 | One mint whose line is written whole opens the same nonce on both tracks: in the kernel at its instant, in the AI store with the issue time and target given. |
| RateLimiter.Limiter.Hit | registry/src/ratelimit.rs:29-61 | One hit prunes, clears and counts as specified and answers the specified verdict, under the key as sent if it has at most 45 octets and under its first 45 characters otherwise. |
| RateLimiter.TableAlwaysBounded | registry/src/ratelimit.rs:32-42 | Over every history the table holds at most 10,001 keys. |
| RateLimiter.ClearsOnlyWhenFull | registry/src/ratelimit.rs:36-42 | The table is not cleared before more than 10,000 different keys were hit. |
| ClientKeys.ByteLenIsUtf8 | registry/src/ratelimit.rs:43-49 | The length that decides about cutting a key is that of its UTF-8 encoding. |
| ClientKeys.ServedAs | registry/src/ratelimit.rs:43-49 | A history of raw keys is served as the history of what they count as, so every result about histories holds of it. |
| ClientKeys.OthersDoNotCount | registry/src/ratelimit.rs:72-79 | A key of at most 45 octets that was not hit is accepted whatever other keys of at most 45 octets did. |
| ClientKeys.FreshKeyAccepted | registry/src/ratelimit.rs:43-61 | The same after any raw keys none of which counts as it. |
| ClientKeys.KeysAreIndependent | registry/src/ratelimit.rs:72-79 | Unless the table is cleared, a hit is accepted after a history if and only if it is accepted after the hits of its own key alone. |
| RateLimiter.PruningIsInvisible | registry/src/ratelimit.rs:32-35 | Over every history every verdict is that of a counter table which is never pruned and only loses entries to clears. |
| RateLimiter.WindowBound | registry/src/ratelimit.rs:36-42 | In any half-open interval of one window a key without an entry at its beginning is accepted at most (1 + clears) * max times, a key with one fewer than (2 + clears) * max times. |
| RateLimiter.ClearsMultiply | registry/src/ratelimit.rs:36-42 | For every c there is a history within a single instant with exactly c clears in which one key is accepted exactly (1 + c) * max times. |
| RateLimiter.OldEntryMultiplies | registry/src/ratelimit.rs:36-42 | For every c there is a history in which a key with an entry is accepted exactly (2 + c) * max - 1 times in one window with c clears. |
| RateLimiter.DoublesExactly | registry/src/ratelimit.rs:36-39 | Clearing at most doubles a key's allowance per window in every history with c clears in that window if and only if c is at most one. |
| RateLimiter.WaitingSuffices | registry/src/ratelimit.rs:26-28 | A blocked key that waits one second longer than told is accepted, whatever other keys do (Retry-After, section 10.2.3 of RFC 9110). |
| RateLimiter.WaitingAsTold | registry/src/ratelimit.rs:58-59 | For every table: waiting exactly as told leaves a key blocked exactly when more of its window was left than the whole seconds given and the table is not cleared then. |
| RateLimiter.WaitedAsTold | registry/src/ratelimit.rs:58-59 | For every allowance and window: a key that spent its allowance at 0 and was refused at 1 is refused again after exactly the told seconds if and only if more than a second and no whole number of seconds was left. |
| Belts.ComputeBelts | tock/src/nonce.rs:18-33 | The in-place loops over the octets and the five slots fill the array the rule specifies. |
| GoldenBelts.GoldenVector | tock/src/nonce.rs:67-81 | The five belts of "nockmark-m0-test-1" in the domain "nonce" are the known values. |
| Belts.FnvBijective | tock/src/nonce.rs:21-22 | Each FNV-1a step is a bijection of the state. |
| Belts.MixBijective | tock/src/nonce.rs:27-30 | The splitmix64 finalizer is a bijection on 64-bit words: its inverse undoes it and is undone by it. |
| Belts.OneOctetSeparates | tock/src/nonce.rs:18-33 | Equal-length seeds that differ in one octet have different raw outputs at every place of their streams. |
| Belts.FnvSplitmixLossless | tock/src/nonce.rs:18-33 | The rule in use meets the conditions of that result. |
| Belts.OutputsDistinct | tock/src/nonce.rs:25-31 | The five raw outputs of one call are pairwise distinct. |
| Belts.BeltCollision | tock/src/nonce.rs:30 | Two belts coincide exactly when their raw outputs are equal or differ by the field prime. |
| Belts.FnvSplitmixCollides | tock/src/nonce.rs:18-33 | For the rule in use, two equal-length seeds that differ in one octet share belt j exactly when their raw outputs at j are the field prime apart. |
| History.Thin | registry/src/economics.rs:134-161 | A longer series becomes `cap` points of it at the computed positions with the last point at the end; they are strictly increasing with first and last included if and only if the last computed position stays before the last point. |
| History.LastKeptTwice | registry/src/economics.rs:152-161 | With cap 2^28 + 1 and one point more, the last computed position is the last point itself. |
| History.SmallCapKeepsOnce | registry/src/economics.rs:152-161 | For every cap up to 2^25 the last point is kept once. |
| History.ExactAscends | registry/src/economics.rs:156-158 | The same in exact arithmetic for every series longer than `cap`. |
| History.KeptNearExact | registry/src/economics.rs:156-158 | Up to 2^51 points the computed position is within one of the exact one. |

## Left out

- STARK proving and verification, compact certificates, CUDA, hashes and matrices: foreign crates; a win, a jackpot and a verified proof are uninterpreted predicates.
- The scalar-oracle recheck of wins: an abort on disagreement between two implementations of the same foreign function.
- The upstream batch scheduler: its code is not part of this model; it is modelled by the behaviour written at `tock/src/aipow_gpu.rs:241-247` and in the unit test at `408-436`.
- Noun decoding, HTTP, routing, HTML, printing, hardware detection, environment parsing, difficulty fetching, calibration loops, verifier-context files: input and output or library calls.
- The final sort of the leaderboard and the attached economics figures: library sort, one-line formulas.
- Poisson statistics (`sigma_frac`): expected attempts are a number here, not a distribution.
- The nonce encoders (eight little-endian bytes) and `challenge32`: an encoding and a hash.
- Machine-width overflow of the run id and of the limiter's u32 counter: both are unbounded here, so a ledger of 2^64 runs or 2^32 hits of one key in one window is not modelled.
- Events.EventRoundTrip: the reader is a subset of a full JSON parser (no floats, literals or non-ASCII `\u` escapes) and object keys are written in sorted order; what the store itself writes is covered, hand-edited logs are not.
- HexCodec.ParseHex32: the abort inside a multi-octet character is kept as a result, and a hand-edited log line that provokes it counts as having no target.
- Float64.RoundError: subnormals, infinities and NaN do not arise in the modelled computations and are not modelled.
- Rates.UniformRecovery: this and the other results of `Rates` are over the reals; the binary64 evaluation of `rates` is not modelled.
- Rates.Signif4Error: powers of ten are exact; the library's log10 and powf, whose rounding is not specified, are not modelled.
- Rates.Signif4Mono: the same idealization, so the order of two figures after the library's log10 and powf is not shown.
- Rates.PublishedBelowTrue: a run luckier than its expected time can publish more than the true rate, which is the Poisson noise left out above.
- Submission.TargetKeptExactly: presupposes a submission that verifies against the first mint, without which no run of it is ever stored.
- ZkGate.HonestClientIsRecorded: the measured time d is any non-negative real; how a clock reading becomes a binary64 number of seconds is not modelled.
- ZkGate.BundleInPlace: the library sort is any arrangement of the results in order of index.
- History.Thin: series of up to 2^52 points, 2^56 octets of memory; reading and filtering the lines is not modelled.
- Search.GrindSequential: elapsed time and rate of the grind are not modelled.
- RateLimiter.Limiter.Hit: the lock is not modelled; instants are parameters and need not increase except where a theorem says so.
