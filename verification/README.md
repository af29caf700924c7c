# rag-rat: verified models

This project models the parts of rag-rat whose correctness is an argument rather than a formula, and proves that argument:

- **Single flight** (`SingleFlight*`, `Flight*`): processes that coalesce their triggers through a marker file, a marker lock and a flight lock. Every interleaving of calls, passes and crashes is a run of a state machine; `drain` itself is also given as the loop it is.
- **Canonical JSON** (`Bytes`, `Cbor`, `CanonicalJson`, `CanonicalForm`): the canonical CBOR encoder, against a decoder written from RFC 8949.
- **Locks** (`LockOrder`, `LockDir`, `LockKeyStability`, `WriteLock`): the global acquisition order, the directory that keys a lock on a file tree with symbolic links, and the reentrant write lock over all its threads.
- **Repository identity** (`RepoIdentity`): the id derived from a commit graph.
- **Clone fingerprints** (`Normalize`, `AlphaEquivalence`, `TokenBag`, `BagBlob`, `Fingerprint`): the normalizer decides alpha-equivalence, and what is stored of its result.
- **Sync driver** (`FirstSeen`, `Routes`, `RoutePipeline`, `Advertisement`, `AdvertisementRuns`, `SessionLimiter`): which routes are dialed, the persisted announcement, and the session limiter.
- **Recipe harness** (`RecipeHarness`, `PollBudget`): one teardown for one rented box, and the provisioning budget.

`Options`, `Numbers` and `Sequences` hold what several of them share. `dafny verify dfyconfig.toml` checks everything.

What lies outside a model is a parameter of it: NFC normalization, SHA-256 (with the injectivity a theorem needs as its precondition), string trimming and node-id parsing, the commit walk, the syntax tree, seals, clocks, and what the other side of an exchange answers. Rust strings whose byte order matters are byte sequences (`Text`).

Where the code and its documentation disagree, the model follows the code:

- `runRecipe` documents exactly one teardown whenever a signal arrives. A box that exists at the provider and has not been reported yet is not torn down: `UnreportedBoxLeaks` is such a run, and `OneBoxTornDownIff` and `TornDownIffReportedInTime` say exactly when the promise holds.
- The session limiter's map is documented as bounded by `RESIDENT_SESSION_MAX`. It can have one more entry while a connection is being turned away (`NineEntries`); `DocumentedBoundIff` says exactly when the documented bound holds.
- `lock_dir` is documented as giving one key before and after the directories are created. A missing tail with `..` moves the key (`KeyMovesWithUp`); `KeyStableIffNoUps` and `KeyDirStableIffNoUps` have the exact condition.
- Two spellings of one directory are documented to share one key. They do not where only one of them runs out of links to follow (`AliasesPartAtTheLimit`); `AliasesShareKeyIff` has the exact condition.
- A write lock dropped out of order can leave a registered depth without the lock (`OuterFirstUnlocks`); `DropSafeIff` says exactly which drops are safe.
- `encode_token_bag` writes the count as a `u32`; `DecodeEncode` has the exact condition for the round trip.
- Deleting a comment is documented to leave the normalized stream alone. It does not when a node thereby loses its last child and reads differently as a leaf (`LosingTheLastChildShows`: a file that holds only a comment); `StrippingKeepsTokens` is the exact condition.
- `payload_encoding_error` names colliding keys as the only failure; non-integer numbers fail as well.

## Model

| member | source | states |
|---|---|---|
| `SingleFlightInvariants.LocksKept` | crates/rag-rat-base/src/single_flight.rs:138-157 | every step keeps each lock owned by exactly the one call whose position says it holds it |
| `SingleFlightInvariants.ClearedKept` | crates/rag-rat-base/src/single_flight.rs:164-231 | what the holder of the marker lock has seen of the marker stays true until it lets go |
| `SingleFlightInvariants.MoveBalances` | crates/rag-rat-base/src/single_flight.rs:252-269 | a move keeps every trigger: in hand, in the marker or given back |
| `SingleFlightInvariants.ConservedKept` | crates/rag-rat-base/src/single_flight.rs:138-231 | every step, crashes included, keeps the balance of accepted triggers |
| `SingleFlightInvariants.PassesBoundedKept` | crates/rag-rat-base/src/single_flight.rs:164-231 | every step keeps the number of passes of a flight within one plus the merges it has seen |
| `SingleFlightInvariants.RunKeepsInv` | crates/rag-rat-base/src/single_flight.rs:138-231 | every run keeps mutual exclusion, the exit check, conservation and the pass bound |
| `SingleFlightTheorems.Conservation` | crates/rag-rat-base/src/single_flight.rs:12-25 | after any run every accepted trigger is, counted with multiplicity, covered by a pass, lost to a crash, in the marker, in a call's hands or given back |
| `SingleFlightTheorems.OnlyCrashesLose` | crates/rag-rat-base/src/single_flight.rs:24-25 | without a crash no trigger is lost |
| `SingleFlightTheorems.OnePassAtATime` | crates/rag-rat-base/src/single_flight.rs:138-157 | at no time do two calls run a pass |
| `SingleFlightTheorems.ReleasedUnderTheHold` | crates/rag-rat-base/src/single_flight.rs:16-22 | a runner about to leave holds both locks over an empty marker, can always go on, and frees the flight with nobody else inside the marker lock |
| `SingleFlightTheorems.StrandedExactlyBy` | crates/rag-rat-base/src/single_flight.rs:190-228 | a marker without an obligated runner arises exactly by requeueing stops, failed passes, queueing with no runner, abandoned foreground flights and crashes |
| `SingleFlightTheorems.QuietRunHandsOff` | crates/rag-rat-base/src/single_flight.rs:16-22 | every run of the other events keeps the exit handoff |
| `SingleFlightTheorems.NonEmptyMarkerHasARunner` | crates/rag-rat-base/src/single_flight.rs:16-22 | in such runs a non-empty marker always has a flight holder that will take it |
| `SingleFlightTheorems.MarkerHolderNeverWaits` | crates/rag-rat-base/src/single_flight.rs:12-14 | whoever holds the marker lock can move |
| `SingleFlightTheorems.NoDeadlock` | crates/rag-rat-base/src/single_flight.rs:12-14 | while some call is unfinished, some call can act |
| `SingleFlightTheorems.RunsTerminate` | crates/rag-rat-base/src/single_flight.rs:138-231 | every interleaving of finitely many calls ends, within 23 steps per call |
| `SingleFlightTheorems.PassesPerFlight` | crates/rag-rat-base/src/single_flight.rs:164-231 | one flight runs at most one pass plus one for every merge made while it held the lock |
| `SingleFlightTheorems.QuiescentMeansFinished` | crates/rag-rat-base/src/single_flight.rs:138-231 | when nothing can act any more, every call has finished |
| `SingleFlightTheorems.NothingIsLeftBehind` | crates/rag-rat-base/src/single_flight.rs:16-22 | at the end of such a run the marker is empty and every trigger was covered, lost to an earlier crash or given back |
| `SingleFlightTheorems.NextTriggerRevives` | crates/rag-rat-base/src/single_flight.rs:24-25 | after any history without a parking call in progress, whoever was killed and whatever the others are doing, one more `run` drains the marker |
| `SingleFlightStories.EveryCallAnswers` | crates/rag-rat-base/src/single_flight.rs:138-231 | in every run, what a call returned is what happened to it: passes counted, the verdict that ended it, its triggers merged back after a requeue or failure, carried with what was queued after a carry; and each of its passes covered its own payload and what it took from the marker |
| `SingleFlightStories.StartTellsTheCall` | crates/rag-rat-base/src/single_flight.rs:138-157 | the call told of is the one that was started |
| `SingleFlightStories.FreedOverTheRightMarker` | crates/rag-rat-base/src/single_flight.rs:190-231 | a call frees the flight under the marker lock, over an empty marker after a pass that ran or carried, and with its triggers back in the marker after one that was requeued or failed; only an abandoned foreground flight is freed otherwise |
| `SingleFlightStories.MergesAreSeen` | crates/rag-rat-base/src/single_flight.rs:250-258 | the merges that bound the passes of a flight are the changes of the marker to something |
| `FlightPayloads.FoldConcat` | crates/rag-rat-base/src/single_flight.rs:33-46 | merging two payloads is the payload of both their triggers |
| `FlightPayloads.FoldIsOrderFree` | crates/rag-rat-base/src/single_flight.rs:33-46 | for an associative and commutative `merge` the payload depends only on which triggers were merged |
| `FlightDrain.Flight.Merge` | crates/rag-rat-base/src/single_flight.rs:250-258 | the marker afterwards holds the payload merged with what was queued |
| `FlightDrain.Flight.Take` | crates/rag-rat-base/src/single_flight.rs:260-268 | returns what was queued and leaves nothing |
| `FlightDrain.Flight.Run` | crates/rag-rat-base/src/single_flight.rs:138-157 | coalesces exactly when the flight is held, and otherwise drains and releases it |
| `FlightDrain.Flight.Drain` | crates/rag-rat-base/src/single_flight.rs:164-231 | the first pass covers the payload and the marker, every later one exactly what arrived during the one before; how each verdict ends it, what it reports, and that the lock is released |
| `Cbor.HeadRoundTrip` | crates/rag-rat-base/src/canonical.rs:106-173 | a shortest head reads back as its major type and argument |
| `Cbor.HeadShortest` | crates/rag-rat-base/src/canonical.rs:106-173 | no bytes that read as a head of that major type and argument are shorter |
| `Cbor.HeadSpelled` | crates/rag-rat-base/src/canonical.rs:106-173 | the bytes of heads with an argument below 2^16 |
| `Cbor.HeadMonotone` | crates/rag-rat-base/src/canonical.rs:143-154 | shortest heads are ordered as their arguments, decided inside the head |
| `Cbor.TextItemOrder` | crates/rag-rat-base/src/canonical.rs:186-190 | encoded text sorts by length and then by content |
| `Bytes.NeighboursFindDuplicates` | crates/rag-rat-base/src/canonical.rs:159-164 | on a sorted sequence the neighbour test finds every duplicate |
| `Bytes.LessAtDifference` | crates/rag-rat-base/src/canonical.rs:143-154 | byte strings compare by the first byte in which they differ |
| `Bytes.LessOfPrefix` | crates/rag-rat-base/src/canonical.rs:143-154 | and by length where one begins the other |
| `CanonicalJson.WindowTestIsExact` | crates/rag-rat-base/src/canonical.rs:143-164 | the window test passes exactly when no two keys of the object have one NFC form |
| `CanonicalJson.SortedIsCanonical` | crates/rag-rat-base/src/canonical.rs:143-170 | sorting the encoded keys first and encoding values afterwards emits the canonical object |
| `CanonicalJson.EncodeCanonicalJson` | crates/rag-rat-base/src/canonical.rs:106-173 | succeeds exactly when no nested number is fractional and no object has colliding keys, and then appends the canonical encoding |
| `CanonicalJson.RejectedExactlyBy` | crates/rag-rat-base/src/canonical.rs:106-173 | a value is rejected if and only if some value within it is a fractional number or an object with two keys of one NFC form |
| `CanonicalJson.EncodeObject` | crates/rag-rat-base/src/canonical.rs:140-171 | the same for one object |
| `CanonicalForm.EncodeRoundTrip` | crates/rag-rat-base/src/canonical.rs:106-173 | an RFC 8949 decoder reads the canonical value back from the encoding and stops where it ends |
| `CanonicalForm.EncodeShortest` | crates/rag-rat-base/src/canonical.rs:106-173 | no bytes that decode to the canonical value are shorter than its encoding |
| `CanonicalForm.AppendixExamples` | crates/rag-rat-base/src/canonical.rs:106-173 | encodings listed in appendix A of RFC 8949 |
| `CanonicalForm.PrefixFree` | crates/rag-rat-base/src/canonical.rs:106-173 | no encoding is a proper prefix of another |
| `CanonicalForm.KeysStrictlyIncrease` | crates/rag-rat-base/src/canonical.rs:143-170 | emitted keys strictly increase bytewise |
| `CanonicalForm.KeysIncreaseByLengthThenContent` | crates/rag-rat-base/src/canonical.rs:143-170 | which is by length first and by content second |
| `CanonicalForm.SameEncodingIffAgree` | crates/rag-rat-base/src/canonical.rs:106-173 | two values encode alike if and only if they agree up to NFC and key order |
| `CanonicalForm.CanonicalIsFixed` | crates/rag-rat-base/src/canonical.rs:106-173 | canonicalizing twice changes nothing, given that NFC is idempotent |
| `RepoIdentity.DeriveRepoId` | crates/rag-rat-base/src/repo_identity.rs:232-294 | for every walk order the id is the least parentless ancestor of HEAD; the local-only id of a cut shallow clone; and every error case |
| `RepoIdentity.LeastRootUnique` | crates/rag-rat-base/src/repo_identity.rs:262-294 | there is at most one such ancestor |
| `RepoIdentity.LocalOnlyId` | crates/rag-rat-base/src/repo_identity.rs:308-315 | the prefixed hash of the boundary, one hash a line |
| `RepoIdentity.LinesOfMaterial` | crates/rag-rat-base/src/repo_identity.rs:308-315 | the hashed material reads back, line by line, as the boundary |
| `RepoIdentity.MaterialInjective` | crates/rag-rat-base/src/repo_identity.rs:308-315 | different boundaries give different material to hash |
| `RepoIdentity.BoundaryReachableFromHead` | crates/rag-rat-base/src/repo_identity.rs:329-348 | true exactly when the boundary is non-empty and all of it is reachable from HEAD |
| `RepoIdentity.CoveringShallowCloneSameId` | crates/rag-rat-base/src/repo_identity.rs:232-294 | a shallow clone that covers all ancestors has the id of the full repository |
| `RepoIdentity.IdKeptIffNoSmallerNewRoot` | crates/rag-rat-base/src/repo_identity.rs:232-294 | as history grows the id stays if and only if no smaller root comes within reach |
| `RepoIdentity.BoundaryStaysReachable` | crates/rag-rat-base/src/repo_identity.rs:317-348 | a boundary that was reachable stays so under deepening and advancing |
| `LockOrder.BelowIsStrictOrder` | crates/rag-rat-base/src/locks.rs:13-27 | per-repository lock files by discriminator, any two of them comparable, then the global ones, is a strict order |
| `LockOrder.DiscriminatorOf` | crates/rag-rat-base/src/locks.rs:171-180 | a discriminator is exactly the first twelve ASCII alphanumerics of the id in their order, or `repo` if it has none |
| `LockOrder.CanonicalOrderAscends` | crates/rag-rat-base/src/locks.rs:372-380 | the canonical order keeps both ids, does not depend on their roles, ascends unless they share a lock file, and then leaves them as given |
| `LockOrder.CycleHasBoundedWaiter` | crates/rag-rat-base/src/locks.rs:13-27 | every wait cycle of threads that keep the rule contains a bounded waiter |
| `LockOrder.AcquireTimeout` | crates/rag-rat-base/src/locks.rs:143-155 | the polling loop returns what `Result` says, and promptly |
| `LockOrder.ResultIsPrompt` | crates/rag-rat-base/src/locks.rs:143-155 | a bounded acquire succeeds at the first attempt that finds the lock free, gives up no earlier than its timeout and within one pause (50 ms, or the timeout if that is less, but at least 1) and its last attempt of it, in a bounded number of attempts |
| `LockOrder.CyclesBreak` | crates/rag-rat-base/src/locks.rs:20-27 | a wait cycle that stands throughout some time contains a bounded waiter whose timeout, poll interval and last attempt outlast that time |
| `LockOrder.ContendedGivesUp` | crates/rag-rat-base/src/locks.rs:143-155 | a bounded waiter whose lock stays held returns without it, within that time |
| `LockDir.ResolveInParts` | crates/rag-rat-base/src/locks.rs:207-231 | resolving a path is resolving its first part and going on from there, links and hop limit included |
| `LockDir.ResolveKept` | crates/rag-rat-base/src/locks.rs:207-231 | adding directories never changes what already resolved |
| `LockDir.LockDirOf` | crates/rag-rat-base/src/locks.rs:207-231 | the walk finds the longest prefix that resolves and puts the missing rest back in order |
| `LockKeyStability.GrowingCreates` | crates/rag-rat-base/src/locks.rs:110-121 | creating a path whose tail is missing adds exactly the missing directories |
| `LockKeyStability.KeyStable` | crates/rag-rat-base/src/locks.rs:190-231 | for every tree and every path whose missing tail has no `..`, the key is the same before and after the parent is created |
| `LockKeyStability.KeyStableIffNoUps` | crates/rag-rat-base/src/locks.rs:190-231 | once creation has succeeded, the key is stable if and only if the tail has no `..` |
| `LockKeyStability.KeyDirStable` | crates/rag-rat-base/src/locks.rs:110-121 | and before and after the key directory is created, as opening a lock file does, also where the link limit makes that another directory |
| `LockKeyStability.KeyDirStableIffNoUps` | crates/rag-rat-base/src/locks.rs:110-121 | once that has succeeded, the key is stable if and only if the tail has no `..` |
| `LockKeyStability.KeyLeadsToDirectory` | crates/rag-rat-base/src/locks.rs:190-231 | the key taken before the directories existed is the canonical path of the directory that is then created |
| `LockKeyStability.SameKeyIffSamePlace` | crates/rag-rat-base/src/locks.rs:190-231 | existing directories share a key if and only if they are one |
| `LockKeyStability.KeyMovesWithUp` | crates/rag-rat-base/src/locks.rs:207-231 | a concrete tree and path whose key moves |
| `LockKeyStability.AliasesShareKey` | crates/rag-rat-base/src/locks.rs:190-231 | two spellings of one directory give one key for whatever lies below it, existing, linked or missing, while neither runs out of links |
| `LockKeyStability.AliasesShareKeyIff` | crates/rag-rat-base/src/locks.rs:190-231 | and in general if and only if as much of it resolves below both |
| `LockKeyStability.AliasesPartAtTheLimit` | crates/rag-rat-base/src/locks.rs:207-231 | a tree where one spelling runs out of links and the keys differ |
| `WriteLock.HeldWriteLocks.IsHeld` | crates/rag-rat-base/src/locks.rs:434-436 | true exactly for a path with positive depth |
| `WriteLock.HeldWriteLocks.Register` | crates/rag-rat-base/src/locks.rs:438-440 | the path's depth grows by one and nothing else changes |
| `WriteLock.HeldWriteLocks.Release` | crates/rag-rat-base/src/locks.rs:442-451 | the depth shrinks by one and an entry at zero goes |
| `WriteLock.RegistryCounts` | crates/rag-rat-base/src/locks.rs:434-451 | registering and releasing count, path by path, and entries stay positive |
| `WriteLock.InvKept` | crates/rag-rat-base/src/locks.rs:529-563 | acquiring and dropping by all threads, outermost guards last, keep registry, guards and owner in agreement |
| `WriteLock.ScopesDropOutermostLast` | crates/rag-rat-base/src/locks.rs:557-563 | drops that are last in, first out drop every outermost guard last |
| `WriteLock.DepthMeansHeld` | crates/rag-rat-base/src/locks.rs:529-563 | over every run that drops each outermost guard last, as scopes do and in no particular order otherwise, depth equals live guards, exactly one of them owns the lock, a thread owns the lock if and only if its depth is positive or it is between the two halves of an operation, no two threads have it, and a nested acquire never waits |
| `WriteLock.DepthIsTakenLessGiven` | crates/rag-rat-base/src/locks.rs:529-563 | in every such run a thread between operations has, for every file, the depth of its acquisitions less its drops |
| `WriteLock.DropSafeIff` | crates/rag-rat-base/src/locks.rs:557-563 | a drop leaves the registry right if and only if it is not the owning guard dropping before the others |
| `WriteLock.OuterFirstUnlocks` | crates/rag-rat-base/src/locks.rs:557-563 | a run whose outer guard drops first and leaves depth one without the lock |
| `Normalize.Walker.Leaf` | crates/rag-rat-clones/src/normalize.rs:290-325 | a leaf's token and the numbering it leaves |
| `Normalize.Walker.Walk` | crates/rag-rat-clones/src/normalize.rs:272-342 | the recursive walk appends exactly the numbered symbols and spans of the subtree |
| `Normalize.NormalizeBaselineSpanned` | crates/rag-rat-clones/src/normalize.rs:237-247 | a token and a span for every node the walk stops at, parents first: a name becomes `ID` and the number of names that occur before it does, booleans and literals their class, inner nodes their kind, other leaves their text; the span is that node's |
| `Normalize.NameAt` | crates/rag-rat-clones/src/normalize.rs:299-309 | a name is numbered by how many other names occur before its first occurrence |
| `Normalize.ContainsIff` | crates/rag-rat-clones/src/normalize.rs:293-295 | the comment test finds the word wherever it occurs |
| `Normalize.UppercaseAlphabet` | crates/rag-rat-clones/src/normalize.rs:317 | uppercasing, letter by letter |
| `Normalize.NumberedInParts` | crates/rag-rat-clones/src/normalize.rs:272-342 | numbering by first occurrence composes over consecutive parts |
| `AlphaEquivalence.RenamedNumberAlike` | crates/rag-rat-clones/src/normalize.rs:272-342 | streams that an injective renaming relates are numbered alike |
| `AlphaEquivalence.AlphaEqualNormalizeAlike` | crates/rag-rat-clones/src/normalize.rs:237-247 | alpha-equal trees have the same normalized stream, whatever their literal values and wherever their comments are |
| `AlphaEquivalence.NormalizerDecidesAlphaEquality` | crates/rag-rat-clones/src/normalize.rs:237-342 | trees of one shape have the same stream if and only if some injective renaming makes them equal |
| `AlphaEquivalence.AlikeIffSymbolsRename` | crates/rag-rat-clones/src/normalize.rs:294-325 | two nodes of one kind get corresponding tokens if and only if they are alike: names up to renaming, literals whatever their value, the rest as spelled |
| `AlphaEquivalence.NestingCollides` | crates/rag-rat-clones/src/normalize.rs:327-342 | for all leaves, a pair of trees that nest them differently has one stream and no common shape, so shape cannot be dropped |
| `AlphaEquivalence.UnbaredKeepsTokens` | crates/rag-rat-clones/src/normalize.rs:272-290 | deleting comments and extras keeps the stream of any tree in which no node that loses its last child reads differently |
| `AlphaEquivalence.StrippingKeepsTokens` | crates/rag-rat-clones/src/normalize.rs:272-290 | and, no kind looking like a numbered identifier, if and only if no node that loses its last child reads differently as a leaf |
| `AlphaEquivalence.LosingTheLastChildShows` | crates/rag-rat-clones/src/normalize.rs:272-342 | a concrete tree where it does |
| `TokenBag.Fnv1a` | crates/rag-rat-clones/src/tokens.rs:9-16 | the loop is the FNV-1a fold with 64-bit wrap-around |
| `TokenBag.FnvReference` | crates/rag-rat-clones/src/tokens.rs:6-16 | published FNV-1a values |
| `TokenBag.FnvInParts` | crates/rag-rat-clones/src/tokens.rs:9-16 | the hash of a text goes on from the hash of its beginning |
| `TokenBag.TokenBagOf` | crates/rag-rat-clones/src/tokens.rs:26-35 | strictly ascending, one pair for every hash that occurs, with its number of occurrences |
| `TokenBag.BagIsPermutationInvariant` | crates/rag-rat-clones/src/tokens.rs:26-35 | permuting the tokens does not change the bag |
| `TokenBag.BagIsUnique` | crates/rag-rat-clones/src/tokens.rs:26-35 | one multiset of hashes has one bag |
| `TokenBag.FrequenciesSumToLength` | crates/rag-rat-clones/src/tokens.rs:26-35 | the frequencies sum to the number of tokens |
| `BagBlob.EncodeTokenBag` | crates/rag-rat-clones/src/bag_blob.rs:26-37 | the loop writes the little-endian layout, count truncated to 32 bits |
| `BagBlob.HeaderLayout` | crates/rag-rat-clones/src/bag_blob.rs:7-8 | every byte of the header: version 1 and the count, little-endian |
| `BagBlob.BlobLayout` | crates/rag-rat-clones/src/bag_blob.rs:7-8 | every byte after the header: hash and frequency of each pair, little-endian and in two's complement, where the format puts them |
| `BagBlob.DecodeTokenBag` | crates/rag-rat-clones/src/bag_blob.rs:44-66 | the loop reads it, and rejects exactly short, foreign-version and wrong-length blobs |
| `BagBlob.DecodeEncode` | crates/rag-rat-clones/src/bag_blob.rs:26-66 | decoding an encoded bag returns it if and only if its size fits the header |
| `BagBlob.EncodeDecode` | crates/rag-rat-clones/src/bag_blob.rs:26-66 | any blob that decodes re-encodes to itself |
| `BagBlob.DecodesIffEncoded` | crates/rag-rat-clones/src/bag_blob.rs:44-66 | exactly the encodings of bags that fit the count decode |
| `BagBlob.TokenLenFromBlob` | crates/rag-rat-clones/src/bag_blob.rs:26-66 | the token count is recoverable from the stored blob |
| `Fingerprint.SplitJoin` | crates/rag-rat-clones/src/tokens.rs:19-21 | the tokens can be read back from the joined stream when none holds the separator |
| `Fingerprint.Utf8CharReads` | crates/rag-rat-clones/src/tokens.rs:19-21 | the bytes of a character read back as its code point, with the length its first byte announces |
| `Fingerprint.SeparatorsCollide` | crates/rag-rat-clones/src/tokens.rs:19-21 | two streams that join alike when one does |
| `Fingerprint.StructHashDecidesTokens` | crates/rag-rat-clones/src/tokens.rs:19-21 | struct hashes are equal if and only if the streams are, given that the hash tells the two apart |
| `Fingerprint.FingerprintSymbol` | crates/rag-rat-clones/src/lib.rs:117-131 | nothing exactly below 20 tokens, and otherwise the stream's fingerprint |
| `Fingerprint.FingerprintUnique` | crates/rag-rat-clones/src/lib.rs:117-131 | a stream has one fingerprint |
| `Fingerprint.FingerprintDecidesAlphaEquality` | crates/rag-rat-clones/src/lib.rs:117-131 | symbols of one shape have one fingerprint if and only if they are alpha-equal, and the struct hash alone tells |
| `Fingerprint.StoredBagHoldsTokenLen` | crates/rag-rat-clones/src/lib.rs:104-111 | the stored blob of a fingerprint gives back its bag and its token length |
| `Fingerprint.FingerprintSymbols` | crates/rag-rat-clones/src/lib.rs:181-202 | exactly the located, function-shaped, non-trivial symbols, in order, each with its own fingerprint |
| `FirstSeen.KeepsOneMore` | crates/rag-rat-core/src/sync_driver.rs:1046-1078 | keeping an element of a new key keeps exactly the first element of every key, in order |
| `Routes.ForeignPullPeers` | crates/rag-rat-core/src/sync_driver.rs:1046-1066 | exactly the first offered route of every pair of node and trimmed relay, in order; and a pair is among them if and only if it is a configured peer with the configured relay, a subscribed peer with its own relay, or a subscribed peer that has none, or a blank one, with the configured relay |
| `Routes.DistinctPeers` | crates/rag-rat-core/src/sync_driver.rs:1070-1078 | exactly the first spelling of every node, in order |
| `Routes.Meta.OrderedPullPeers` | crates/rag-rat-core/src/sync_driver.rs:1140-1157 | the memo first while it names a peer, else cleared, then the other peers in order |
| `Routes.RouteAddrs` | crates/rag-rat-core/src/sync_driver.rs:1088-1109 | for every peer in order all relays of its routes, or the fallback |
| `RoutePipeline.PipelineIsLossless` | crates/rag-rat-core/src/sync_driver.rs:1046-1157 | a pair of node and relay is dialed if and only if it is on offer |
| `RoutePipeline.PipelineAscends` | crates/rag-rat-core/src/sync_driver.rs:1046-1157 | dials strictly ascend: memoised node, then nodes as first offered, and for one node its relays as first offered |
| `RoutePipeline.DialSpelled` | crates/rag-rat-core/src/sync_driver.rs:1088-1157 | a dial spells its node as remembered or else as first offered, and its relay as first offered with that node |
| `RoutePipeline.EachPairOnce` | crates/rag-rat-core/src/sync_driver.rs:1046-1157 | no pair is dialed twice |
| `RoutePipeline.GroupedByNode` | crates/rag-rat-core/src/sync_driver.rs:1088-1109 | dials are grouped by node |
| `RoutePipeline.MemoFirstIffOffered` | crates/rag-rat-core/src/sync_driver.rs:1140-1157 | the memoised node is dialed first if it is on offer and not at all otherwise |
| `RoutePipeline.HonoredIffOffered` | crates/rag-rat-core/src/sync_driver.rs:1140-1157 | the memo is kept if and only if its node is on offer |
| `RoutePipeline.FallbackUnused` | crates/rag-rat-core/src/sync_driver.rs:1088-1109 | the fallback relay makes no difference |
| `RoutePipeline.PullOrder` | crates/rag-rat-core/src/sync_driver.rs:1192-1227 | the steps as one pull composes them have all of this; what is dialed, in terms of the configuration and the subscriptions alone; and what becomes of the memo row |
| `Advertisement.Database.PrepareAdvertisement` | crates/rag-rat-core/src/sync_driver.rs:541-591 | which record is worked from and stored: the one found for this identity and roster, else a new seal that more than its sender can open, without an envelope over 2048 bytes; and a publication of exactly its bytes if and only if it has an envelope and no attempt was recorded within half its lifetime |
| `Advertisement.Database.RecordAdvertisementLiveness` | crates/rag-rat-core/src/sync_driver.rs:614-634 | the record is marked published, at the time of the attempt and for its lifetime, exactly when it is still the one published, under the current roster |
| `AdvertisementRuns.SealedAndJudgedOnce` | crates/rag-rat-core/src/sync_driver.rs:541-591 | while identity and roster stand, at most one new seal and one size verdict over any run of ticks, outcomes and restarts |
| `AdvertisementRuns.SameBytes` | crates/rag-rat-core/src/sync_driver.rs:541-591 | all publications of such a run carry the same bytes, and they fit |
| `AdvertisementRuns.OversizeIsFinal` | crates/rag-rat-core/src/sync_driver.rs:571-583 | a run that judges an envelope too large hands nothing out, before or after |
| `AdvertisementRuns.NoneWhileLive` | crates/rag-rat-core/src/sync_driver.rs:301-313 | a tick changes and hands out nothing while the record is live |
| `AdvertisementRuns.TickHandsOut` | crates/rag-rat-core/src/sync_driver.rs:541-591 | every tick of a run keeps the record and hands out a publication by that rule |
| `AdvertisementRuns.NoSecretNoHandout` | crates/rag-rat-core/src/sync_driver.rs:541-591 | a host without a secret hands nothing out and stores nothing |
| `AdvertisementRuns.FreshSealHandedOut` | crates/rag-rat-core/src/sync_driver.rs:541-591 | a fresh seal that fits is handed out at the tick that makes it |
| `AdvertisementRuns.RenewedAfterHalfLife` | crates/rag-rat-core/src/sync_driver.rs:301-313 | while identity and roster stand, every tick at least half a lifetime after the recorded attempt hands the same bytes out again |
| `AdvertisementRuns.RefusedWaitsAnEighth` | crates/rag-rat-core/src/sync_driver.rs:322-347 | after a refusal the same bytes are tried again if and only if an eighth of their lifetime has passed, and other bytes at once |
| `AdvertisementRuns.RestartTriesAgain` | crates/rag-rat-core/src/sync_driver.rs:322-347 | a restart forgets what was in flight and what was refused, and what is handed out next is tried |
| `AdvertisementRuns.TickFollowsTheMove` | crates/rag-rat-core/src/sync_driver.rs:541-591 | a tick works for the identity and the roster of the last move, and hands nothing out if that left no secret |
| `AdvertisementRuns.RenewedOnlyAfterHalfLife` | crates/rag-rat-core/src/sync_driver.rs:301-313 | after an attempt that may have gone through, the next publication waits at least half the lifetime |
| `AdvertisementRuns.InFlightAlwaysStored` | crates/rag-rat-core/src/sync_driver.rs:456-533 | in every run what is in flight is what is stored, under the roster it was prepared for |
| `AdvertisementRuns.MovedRosterNeverLive` | crates/rag-rat-core/src/sync_driver.rs:614-634 | an outcome marks the record published if and only if it may have gone through and the roster stands as it did at the tick |
| `SessionLimiter.PerPeerSessionLimiter.TryAcquire` | crates/rag-rat-core/src/sync_driver.rs:687-694 | a slot exactly below the cap, counted |
| `SessionLimiter.PerPeerSessionLimiter.Release` | crates/rag-rat-core/src/sync_driver.rs:703-715 | one slot back, the entry gone at zero |
| `SessionLimiter.InvKept` | crates/rag-rat-core/src/sync_driver.rs:755-774 | every accept, verdict and drop keeps map, slots and permits in agreement |
| `SessionLimiter.LimiterIsExactAndBounded` | crates/rag-rat-core/src/sync_driver.rs:679-774 | over every interleaving the map holds exactly the peers with live slots and their counts, each from one to the cap; slots exceed permits by at most the one being decided; so the map is bounded |
| `SessionLimiter.SlotIffBelowCap` | crates/rag-rat-core/src/sync_driver.rs:755-774 | in every run a connection gets a slot if and only if its peer holds fewer than four |
| `SessionLimiter.SessionIffPermitFree` | crates/rag-rat-core/src/sync_driver.rs:755-774 | and a session if and only if fewer than eight run or are ending; otherwise its slot is given back |
| `SessionLimiter.DocumentedBoundIff` | crates/rag-rat-core/src/sync_driver.rs:671-678 | the map is within `RESIDENT_SESSION_MAX` if and only if it is not the case that that many peers run one session each while another is being accepted |
| `SessionLimiter.IdleIsEmpty` | crates/rag-rat-core/src/sync_driver.rs:703-715 | with no permits in use and nothing being accepted the map is empty |
| `SessionLimiter.DrainsWithoutArrivals` | crates/rag-rat-core/src/sync_driver.rs:679-774 | in every run, without arrivals at most 19 events remain, one is possible until the limiter is idle, and then the map is empty |
| `SessionLimiter.NineEntries` | crates/rag-rat-core/src/sync_driver.rs:755-774 | a run in which the map has nine entries |
| `RecipeHarness.Harness.TearDownOnce` | cookbook/src/contract.ts:812-824 | only the first caller starts a teardown, of the box there is then |
| `RecipeHarness.Harness.OnSignal` | cookbook/src/contract.ts:830-842 | a signal asks for the teardown and waits for it |
| `RecipeHarness.Harness.ReportBox` | cookbook/src/contract.ts:851-853 | the box reported last is the one there is |
| `RecipeHarness.Harness.ProvisionReturned` | cookbook/src/contract.ts:867-876 | the result's box is recorded before `ready` is emitted |
| `RecipeHarness.Harness.ProvisionThrew` | cookbook/src/contract.ts:859-866 | a failure is reported, then asks for the teardown |
| `RecipeHarness.OneTeardownOneVerdict` | cookbook/src/contract.ts:786-885 | for every interleaving: at most one teardown call, no exit while it is pending, exit 0 only after a signal and a fulfilled teardown, at most one of `ready` and `error` |
| `RecipeHarness.ExitStatusIff` | cookbook/src/contract.ts:786-885 | the process exits by bad input, a signal handler or the failure path; with status 0 if and only if a signal handler ends it and no teardown has failed, else with 1 |
| `RecipeHarness.EmittedAre` | cookbook/src/contract.ts:786-885 | `ready` is emitted when provisioning returns, `error` when it throws or the input is bad, and nothing else |
| `RecipeHarness.ReportedBoxIsTornDown` | cookbook/src/contract.ts:806-842 | from the first request on, exactly the box reported by then is torn down |
| `RecipeHarness.ReportThenSignal` | cookbook/src/contract.ts:806-853 | while provisioning, a box that exists can be reported, and a signal that comes then tears it down |
| `RecipeHarness.TornDownIffReportedInTime` | cookbook/src/contract.ts:776-885 | a process that has exited tore down the box reported last before the first request, and no other |
| `RecipeHarness.OneBoxTornDownIff` | cookbook/src/contract.ts:776-885 | the one box a recipe created is torn down if and only if it was reported before the first request |
| `RecipeHarness.NoBoxExitsAtOnce` | cookbook/src/contract.ts:812-842 | a first request that finds no box calls no teardown, and the exit is the next event |
| `RecipeHarness.SettledCanExit` | cookbook/src/contract.ts:830-866 | once the teardown has settled the process can exit |
| `RecipeHarness.UnreportedBoxLeaks` | cookbook/src/contract.ts:806-842 | a run that creates a box, is signalled and exits 0 with the box up |
| `PollBudget.PollLoop` | cookbook/src/contract.ts:504-554 | the loop, with its clamped timeouts, floor and skipped last sleep |
| `PollBudget.PollUntil` | cookbook/src/contract.ts:504-554 | for every interval, zero included: ready if and only if some attempt that was due and had at least 250 ms was, and gives up only without time for another; ends by the deadline after at most as many attempts as fit the budget, each a sleep and the least attempt time after the one before, rounded up; with its documented defaults |
| `PollBudget.WaitForServerListening` | cookbook/src/contract.ts:565-592 | the same with its own defaults of 1000 and 5000 ms |
| `PollBudget.ReadyIffLastTryReady` | cookbook/src/contract.ts:504-554 | succeeds exactly when the last attempt was ready; every attempt begins and times out within the deadline, one sleep after the one before |
| `PollBudget.ReadyWasDue` | cookbook/src/contract.ts:504-554 | a ready answer is that of an attempt that was due then |
| `PollBudget.DueIsNotMissed` | cookbook/src/contract.ts:504-554 | if an attempt that is due would be ready, polling is ready, no later |
| `PollBudget.GivesUpOutOfTime` | cookbook/src/contract.ts:504-554 | polling gives up only when no further attempt fits |
| `PollBudget.SharedDeadlineHolds` | cookbook/src/contract.ts:391-454 | any sequence of steps that each get what remains of one deadline ends by it |
| `PollBudget.PollingStepPollsWell` | cookbook/src/contract.ts:391-454 | polling as one of several steps is polling with what remains of the deadline |
| `PollBudget.WorkSucceedsIffInTime` | cookbook/src/contract.ts:391-454 | a sequence of steps under one deadline succeeds if and only if every step, begun after those before it, has the time it needs |

## Left out

- Marker file input and output: a merge or take is one step under the marker lock; a failing or torn write, and a marker that does not decode, are not modelled.
- `drain` after a failed attempt to lock the marker on the error path: the flight is then released outside the hold.
- `FlightDrain.Flight.Run`: what other processes do is a script of arrivals per pass; all interleavings are in `SingleFlight`.
- `parse_rejecting_duplicate_keys` and the NFC tables of `canonical.rs`; NFC is a function on texts.
- The override and reserved-id branches of `resolve_repo_identity`, which only choose between given strings.
- `locks.rs`: flock and fork behaviour, socket paths, file name formats.
- `WriteLock.DepthMeansHeld`: an outermost guard is dropped last; `DropSafeIff` covers the other drops one at a time. A bounded acquire that times out changes nothing and is no event.
- `LockOrder.AcquireTimeout`: a sleep takes exactly the poll interval.
- `LockKeyStability.KeyStable`: only this process changes the tree, and permissions and I/O errors are not modelled.
- `Normalize.NormalizeBaselineSpanned`: the syntax tree is given; `annotation_type_span` and the refinement of clone classes are not part of this model.
- `Fingerprint.FingerprintSymbol`: streams of 2^63 tokens and more, whose counts would overflow.
- `RoutePipeline.PullOrder`: parsing a relay into an address and the pull itself; dials are pairs of peer and relay.
- `Advertisement.Database.PrepareAdvertisement`: database errors, malformed records and the back-off after a failed preparation (that after a refusal is modelled); two processes advertising from one database.
- `SessionLimiter.LimiterIsExactAndBounded`: the accept-rate and egress limits in front of and behind it.
- `RecipeHarness.OneTeardownOneVerdict`: a SIGKILL of the process, recipes that report boxes after they returned or threw, and what a recipe itself sweeps at the provider; the input checks before provisioning are one step.
- `PollBudget.PollUntil`: attempts settle within their timeout, and a sleep takes exactly the interval or, as Node's timers do, one millisecond if that is longer.
- Network reconciliation, endpoint keys, the op-log, the CLI, the index and the evaluation code.
