# Fangorn, verified in Dafny

Fangorn is a witness-gated threshold-decryption network. An owner encrypts a file, states as
*intents* what has to be shown to open it, and registers both. Somebody who wants the file
posts a request with *witnesses* to a pool contract. Every node watches the pool, checks the
witnesses against the registered intents, and answers with its share of the decryption.

This project models that network and proves what it is for. Every method of a class here is
proved equal to a function on values, and the properties are proved about those functions and
about the machines built from them.

| module | what it models |
|---|---|
| `Basics` | options, outcomes (value, error, panic), bytes, little-endian numbers |
| `Scale`, `Utf8`, `Hex` | the SCALE codec (section A.2.2 of the Polkadot Protocol Specification), UTF-8 (section 3 of RFC 3629), lower-case Base 16 (section 8 of RFC 4648) |
| `Text`, `Decimal` | `trim`, `split`, decimal numerals |
| `Intents`, `Gadgets` | the intent language, its parser and printer, the gadget registry, conjunction verification, the password and token gadgets |
| `RequestPool`, `PredicateRegistry` | the two contracts |
| `Watcher` | the polling watcher |
| `Wire`, `Stores` | every encoding that crosses the wire, and the stores built on the contracts and the document |
| `Publishing` | encrypting clients, interleaved |
| `KeySync`, `ConfigSync` | node state, the system-key updater, the shared document |
| `Worker`, `Network` | one decryption request, and the whole network step by step |
| `Conjunction` | a file locked with a token balance, a signature and a password at once |
| `EndToEnd` | a file locked with passwords, from the owner's command line to the partial decryption |

## Main results

1. **End to end** (`EndToEnd.OwnerLocks`, `LockStays`, `NodeAnswers`, `HonestAnswer`), with
   nothing held still: an owner's three steps lock a name, whatever other clients do in between,
   exactly when the name is free as they register; it stays locked until it is removed; and a
   node that has taken a request for it, among any steps of the rest of the network, sends the
   one answer if the words typed are the passwords, and nothing if they are not. Typing the
   passwords with commas between them works exactly when each is free of commas and of white
   space at its ends.
2. **Release safety** (`Network.ReleaseSafety`): over every run of the network, every message
   sent answers a request that was in the pool, opened by one registry read, with every intent
   accepted, between that read and the sending, by the gadget the node has for its type, and
   carries the share of the ciphertext then stored under that CID. So messages for a file locked with passwords answer
   requests that carry them (`EndToEnd.ReleasedToKnower`), and carry a share of the owner's own
   ciphertext (`EndToEnd.OwnersCiphertext`).
3. **Exactly-once delivery** (`Network.ExactlyOnce`, `Watcher.WatchExact`), and within a bound:
   `Network.ReachesChannel`, `ReachesHands`.
4. **The threshold** (`RequestPool.Reachable`, `FulfilledFromThreshold`, `Permanent`), for every
   threshold T from 1 to 2^32 - 1 and every worker list; and what the order of submissions
   decides (`FirstWin`, `OrderIndependent`, `OrderIndependentRuns`): the first submissions of
   fresh workers get through as long as there is room, everything else changes nothing, and two
   orders end the same exactly when the same submissions get through.
5. **The intent language** (`Intents.ParsePrintIff`, `ParseStable`, `ParseFailsIff`).
6. **Keys and configuration** (`KeySync.UpdaterSafe`, `KeySync.CatchesUp`,
   `KeySync.PublishedOnceIff`, `ConfigSync.ConfigAgreement`): what is published are the keys of
   a growing front of the hints, and of all of them once hints stop arriving.
7. **Encrypting** (`Publishing.NoDanglingRegistration`, `EncryptDoneIff`, `EncryptLeaves`): when
   a call succeeds, what it leaves behind, and that no interleaving leaves a name dangling.
8. **Three gadgets at once** (`Conjunction.DemandEndToEnd`), down to which contract is asked for
   whose balance.

## Findings

Properties one might expect that the code does not have, each with the exact condition or a
concrete input:

- The pool contract hashes the three fields of a request run together, so different requests
  can exclude each other (`RequestPool.DifferentRequestsCollide`); a request is taken in
  exactly when no stored one has the same run-together bytes (`RequestPool.AddOkIff`).
- The requester's witness string is trimmed and cut at commas, the owner's intent data is not:
  passwords with a comma or outer white space can be locked with but never typed
  (`EndToEnd.Untypable`; the password `a,b` in `EndToEnd.CommaPasswordLocksForGood`; exactly
  when, in `Wire.SplitWitnessesIff`).
- A worker listed twice contributes its partial twice, so a fulfilled value is made of exactly
  T partials exactly when no attester is listed twice (`RequestPool.FulfilledFromThreshold`; a
  run with a doubled value in `RequestPool.ListedTwiceCountsTwice`).
- Where more workers submit than a request still takes, the order decides its value
  (`RequestPool.RaceIsDecidedByOrder`; exactly when, in `OrderIndependentRuns`).
- Anybody's request with a malformed witness, or for a name without a usable entry, kills every
  worker that opens it (exactly when, in `Network.BadRequestKills`), for good
  (`Network.DeadIsSilent`), and the next new request ends its watcher
  (`Network.DeadEndsWatcher`).
- The watcher's set of seen ids holds one id that was never sent, exactly when a send failed
  (`Watcher.WatchExact`).
- The updater can publish the same keys again. A turn does exactly when it counts more hints
  than its stored count, can write, and finds as many hints as were last published
  (`KeySync.RepeatsIff`, and over whole runs `KeySync.PublishedOnceIff`). The count starts at
  zero although keys have been published before, so two hints at the start are published again
  at once (`KeySync.PublishedTwiceAtStart`); a hint that arrives between the updater's two locks
  is published twice (`KeySync.HintInBetweenPublishedTwice`); and so are keys whose write is
  reported as failed although it went through (`KeySync.ReportedFailurePublishedTwice`).
- Bytes behind the encoded witness list are ignored (`Gadgets.TrailingBytesIgnored`).
- `read_all` is documented as unordered; it keeps the order of arrival
  (`RequestPool.ReadAllFaithful`).

Foreign code (SHA-256, Blake2, address decoding, signatures, the pairing cryptography, reads of
other contracts) appears as function parameters. SHA-256 is assumed free of collisions only
where a statement says so, and only on the values at hand; the same goes for the spelling of CIDs.

## Model

| member | source | states |
|---|---|---|
| EndToEnd.TypedAnswer | fangorn/src/node/service.rs:576-602 | in every state interleaved clients can reach, the worker's procedure run without interruption answers a typed request for a file locked with passwords iff the typed text, cut at commas and trimmed, is those passwords; the answer decodes to filename, index and the node's share of the stored ciphertext |
| EndToEnd.NodeAnswers | fangorn/src/node/service.rs:539-614 | among any steps of the network that neither remove the name nor overwrite CID keys otherwise than by adding: a request a node has taken is in hand and unanswered, or dealt with once, by the one answer iff the words are the passwords and by nothing if not; and it is dealt with after as many turns as there are words, plus two |
| EndToEnd.HonestAnswer | fangorn/src/crypto/cipher.rs:72 | typing the passwords joined by commas is answered iff every password is comma-free and trimmed |
| EndToEnd.Untypable | fangorn/src/crypto/cipher.rs:72 | a password that is not can be typed in no way at all |
| EndToEnd.PasswordsParse | fangorn/src/gadget/password.rs:23-28 | printed passwords parse to one intent each, in order, stating the hash of that password |
| EndToEnd.PasswordsAccepted | fangorn/src/gadget/password.rs:16-19 | the conjunction accepts the right passwords in the right order and nothing else |
| EndToEnd.RequestTravels | fangorn/src/pool/contract_pool.rs:26-67 | a request accepted by the pool is in every later successful read, as it was sent |
| EndToEnd.OwnerLocks | fangorn/src/crypto/encrypt.rs:61-93 | with any steps of others before, between and after, an owner who comes to register locks the name with its own passwords and ciphertext iff the call can be encoded and the name is free at that step, and else changes nothing |
| EndToEnd.LockStays | contract/predicate-registry/lib.rs:68-85 | a locked name stays locked with the same passwords and ciphertext until it is removed |
| EndToEnd.PasswordsRegistrable | fangorn/src/storage/contract_store.rs:25-36 | passwords of any length can be encoded for registration, up to a number of them |
| EndToEnd.CommaPasswordLocksForGood | fangorn/src/crypto/cipher.rs:72 | an owner can lock a file with the password `a,b`, and no typed text ever gives the words it asks for |
| EndToEnd.ReleasedToKnower | fangorn/src/node/service.rs:576-602 | over every run, a message for a file whose registry read gave the intents of passwords answers a request carrying exactly those passwords, given no collision on its witnesses |
| EndToEnd.OwnersCiphertext | fangorn/src/node/service.rs:578-602 | over every run whose registry and document are those of interleaved clients, each message for a name carries the share of exactly the ciphertext stored by the owner the name had when the registry was read |
| Conjunction.SetUpGadgets | fangorn/src/node/service.rs:106-110 | a node's registry finds each of the three gadgets under its own type name, and no other |
| Conjunction.DemandParses | fangorn/src/gadget/mod.rs:75-97 | a printed token, signature and password demand parses to its three intents, iff its minimum is a u128 |
| Conjunction.DemandAccepted | fangorn/src/gadget/psp22.rs:27-80 | the three gadgets accept together iff the contract in the statement reports, at the height of the check, at least the minimum for the account the witness spells (32 zero bytes if it spells none), the signature checks, and the word is the password; a failed or unreadable query accepts nobody |
| Conjunction.DemandEndToEnd | fangorn/src/storage/contract_store.rs:25-90 | the demand parses, its contract being the one the owner named, is registered under a free name, reads back, and its encoded witnesses verify iff all three hold |
| EndToEnd.LockedReads | fangorn/src/storage/contract_store.rs:52-90 | a name locked with passwords reads back as their intents and as the CID its ciphertext is fetched under |
| EndToEnd.Answered | fangorn/src/node/service.rs:576-602 | with these intents and words, the worker answers iff the words are the passwords |
| Network.ReleaseSafety | fangorn/src/node/service.rs:563-614 | every message sent over any run is justified: request in the pool, one registry read, and for each intent the node has a gadget registered for its type, which accepted the witness at a height the chain had in between; the ciphertext is the one stored under that CID |
| Network.AllJustified | fangorn/src/node/service.rs:584-614 | the invariant behind it, for jobs in progress and messages sent |
| Network.ExactlyOnce | fangorn/src/node/service.rs:517-561 | on every run each channel is the front of the pool list, equals the last snapshot between reads, and no node answers a request twice, given collision-free SHA-256 on the pool's requests |
| Network.HashTells | fangorn/src/pool/pool.rs:42-46 | request ids differ for different requests of any list that can be sent, from SCALE injectivity |
| Network.AllOk | fangorn/src/node/service.rs:531-556 | watcher, channel, worker and sent messages agree in every reachable state |
| Network.RunFromPool | fangorn/src/pool/watcher.rs:54-64 | nothing a node has in hand comes from outside the pool |
| Network.PoolReachable | contract/pool/lib.rs:99-197 | the pool's invariant holds on every run of the network |
| Network.OwnMessagesOnly | fangorn/src/node/service.rs:517-561 | on every run the pool and the registry are where their own messages alone lead, a document key holds what was last written to it, and the height counts the blocks |
| Network.StepsAreProcess | fangorn/src/node/service.rs:563-648 | the machine's small steps, uninterrupted, do what the worker's procedure does: send, skip, or die |
| Network.RunInHand | fangorn/src/node/service.rs:563-614 | over any run, as long as reads find the same: the request taken is in hand and unanswered, or answered once iff each intent accepted its witness at the height of the worker's own turn for it; each turn of the worker brings it closer |
| Network.DeadIff | fangorn/src/node/service.rs:539-556 | over every run, a worker is dead iff a step of its own killed it: a request that cannot be opened or does not fit, a gadget that panics, an answer that cannot be made, or a delivery that cannot be reported |
| Network.DeadIsSilent | fangorn/src/node/service.rs:539-556 | a dead worker stays dead and sends nothing more |
| Network.BadRequestKills | fangorn/src/node/service.rs:576-582 | opening kills the worker iff the witness does not decode, the registry has nothing usable for the name, or the lengths differ |
| Network.DeadEndsWatcher | fangorn/src/pool/watcher.rs:60-64 | with the worker dead, offering a request ends the watcher iff the request is new |
| Network.WatcherEndsIff | fangorn/src/pool/watcher.rs:54-68 | a watcher ends iff a read fails, the list is too long to be read, or a new request is offered to a dead worker |
| Network.ReachesChannel | fangorn/src/pool/watcher.rs:54-68 | while a node is live, request j of the pool is in its channel, at position j, after at most 2 j + 3 turns of its watcher, whatever else happens |
| Network.ReachesHands | fangorn/src/node/service.rs:539-541 | the worker takes the pool's requests in order: after as many takes as lie before it and one more, request j has been in its hands |
| Network.VerifyRunAgrees | fangorn/src/gadget/mod.rs:114-121 | verifying step by step ends as the verification loop does |
| Worker.DecryptionWorker.OpenRequest | fangorn/src/node/service.rs:575-582 | what is opened is the entry registered under the filename, its bytes beginning with the encoded intents, and the bytes the witness spells in hexadecimal; every failure is a panic |
| Worker.DecryptionWorker.SendShare | fangorn/src/node/service.rs:587-610 | a message is released only if it decodes to the filename, the index and the share of the ciphertext fetched under the CID; nothing happens iff there is no entry |
| Worker.FinishExact | fangorn/src/node/service.rs:587-610 | a message is made iff there is a ciphertext, its share can be made and encoded, the index fits a byte and the location parses; nothing is done iff there is no ciphertext; all else panics |
| Worker.DecryptionWorker.ProcessDecryptionRequest | fangorn/src/node/service.rs:573-610 | the procedure up to the message equals its specification, panics included |
| Worker.ReleasedMessage | fangorn/src/node/service.rs:596-602 | a released message decodes to the filename, the index and the share of the ciphertext under that CID |
| RequestPool.RequestPoolContract.constructor | contract/pool/lib.rs:84-95 | an empty pool with the given workers |
| RequestPool.RequestPoolContract.AddRequest | contract/pool/lib.rs:99-131 | the new storage and reply of `add` |
| RequestPool.RequestPoolContract.SubmitPartialAttestation | contract/pool/lib.rs:150-197 | the new storage and reply, checks in the contract's order, finalising at the threshold |
| RequestPool.RequestPoolContract.FinalizeRequest | contract/pool/lib.rs:200-221 | the fulfilled value is the concatenation of the stored partials in worker-list order, nothing else changes |
| RequestPool.RequestPoolContract.Requests | contract/pool/lib.rs:135-140 | in every reachable state, exactly the stored requests, each once, in the order of their ids |
| RequestPool.Reachable | contract/pool/lib.rs:84-221 | in every reachable state ids are repeat-free and exactly the stored requests' hashes, `count` is their saturated number, each stored count is the number of distinct authorised workers with a partial, is at most T, and is T iff fulfilled |
| RequestPool.StepKeeps | contract/pool/lib.rs:99-197 | every message from any caller keeps that |
| RequestPool.Permanent | contract/pool/lib.rs:99-221 | no run of messages undoes or changes a stored request, partial or result, and a fulfilled request collects no more |
| RequestPool.ErrIffUnchanged | contract/pool/lib.rs:99-197 | a message answers with an error iff the storage is unchanged |
| RequestPool.SubmitOkIff | contract/pool/lib.rs:150-197 | a partial is taken in iff it comes from an authorised worker that has not attested this known request while fewer than T have; then exactly that attester is new, and the request is fulfilled iff it was the T-th |
| RequestPool.SubmitRefused | contract/pool/lib.rs:158-176 | each error reply of a submission by its exact condition, in the order of the checks |
| RequestPool.SubmitLocal | contract/pool/lib.rs:150-221 | a submission leaves the attesters and result of every other request alone |
| RequestPool.ReadAllFaithful | contract/pool/lib.rs:135-140 | `read_all` drops nothing, keeps arrival order, repeats nothing |
| RequestPool.ReadAllGrows | contract/pool/lib.rs:135-140 | later reads extend earlier ones |
| RequestPool.AddedStays | contract/pool/lib.rs:105-123 | a request taken in is in every later read |
| RequestPool.AddOkIff | contract/pool/lib.rs:105-115 | a request is taken in iff no stored one has the same three fields run together, and is then the one new request, last in every read; otherwise the storage is unchanged and the reply says that it exists |
| RequestPool.LocationsApart | contract/pool/lib.rs:105-123 | requests for the same file with the same witness from different locations are both taken in, given that the hash tells their bytes apart |
| RequestPool.DifferentRequestsCollide | contract/pool/lib.rs:105-115 | whatever the hash and the pool, a request shuts out every other that differs from it only in where one field ends and the next begins |
| RequestPool.CollectedSize | contract/pool/lib.rs:202-209 | the number of partials collected, against the distinct attesters |
| RequestPool.ValueInListOrder | contract/pool/lib.rs:202-212 | the value made of a worker list is that of its front, then one worker's own partial if stored, then that of its rest |
| RequestPool.FulfilledFromThreshold | contract/pool/lib.rs:192-214 | a fulfilled value is made of exactly T partials iff no attester is listed twice, else of more |
| RequestPool.ListedTwiceCountsTwice | contract/pool/lib.rs:200-214 | a run in which one worker, listed twice, fulfils a request with its partial doubled |
| RequestPool.OrderIndependent | contract/pool/lib.rs:150-221 | any two lists of submissions to a request, refused ones included, lead to the same storage iff the same submissions win: as many first submissions of fresh authorised workers as there is room for |
| RequestPool.OrderIndependentRuns | contract/pool/lib.rs:99-221 | over runs from any state in which the request is known, among any other messages: its partials, count and fulfilled value end the same iff the same submissions win |
| RequestPool.OwnSubmissionsOnly | contract/pool/lib.rs:99-221 | after any run a known request stands as if its own submissions had been the only messages |
| RequestPool.SubmitStands | contract/pool/lib.rs:150-221 | a submission depends on, and changes, its own request's standing alone |
| RequestPool.FirstWin | contract/pool/lib.rs:150-221 | any submissions whatever come to exactly what the winners among them come to |
| RequestPool.RaceIsDecidedByOrder | contract/pool/lib.rs:192-214 | with a threshold of one, two runs that differ in the order of two submissions fulfil a request with different values |
| PredicateRegistry.RegistryContract.constructor | contract/predicate-registry/lib.rs:54-60 | an empty registry |
| PredicateRegistry.RegistryContract.RegisterPredicate | contract/predicate-registry/lib.rs:68-85 | the new storage and reply |
| PredicateRegistry.ReadIsLastRegistered | contract/predicate-registry/lib.rs:68-120 | after any messages, reading a name gives an entry iff the last accepted message about it registered that entry |
| PredicateRegistry.RegistryContract.RemovePredicate | contract/predicate-registry/lib.rs:109-120 | the new storage and reply, list shortened by `swap_remove` |
| PredicateRegistry.RefinesMap | contract/predicate-registry/lib.rs:54-120 | any run gives the replies and entries of a plain map, and the list enumerates its keys without repeats |
| PredicateRegistry.SwapRemoveElements | contract/predicate-registry/lib.rs:115-117 | `swap_remove` takes out exactly one element of a repeat-free list, the last one taking its place and the others staying where they are |
| PredicateRegistry.RemoveUndoesRegister | contract/predicate-registry/lib.rs:68-120 | removing what was just registered restores the storage, list order included |
| Watcher.PollingWatcher.constructor | fangorn/src/pool/watcher.rs:37-44 | nothing seen, nothing sent |
| Watcher.PollingWatcher.PollOnce | fangorn/src/pool/watcher.rs:58-65 | one snapshot: new ids are recorded and sent, a failed send ends the loop |
| Watcher.PollingWatcher.WatchPool | fangorn/src/pool/watcher.rs:51-71 | the loop over all snapshots, ended by a failed read or send |
| Watcher.AnsweredExact | fangorn/src/pool/watcher.rs:54-56 | what is polled are the snapshots before the first failed read, and nothing after it |
| Watcher.WatchExact | fangorn/src/pool/watcher.rs:54-68 | for any snapshots: the channel is their first-occurrence list by id, cut where the receiver left; the seen ids are those sent, plus one iff a send failed |
| Watcher.PollFrom | fangorn/src/pool/watcher.rs:60-64 | the same from any earlier state |
| Watcher.GrowingPolls | fangorn/src/pool/watcher.rs:54-68 | snapshots that only grow at the end: the channel is the last one, item for item |
| Watcher.OfferDelivers | fangorn/src/pool/watcher.rs:61-63 | offering the next item of a snapshot keeps the channel its front |
| Intents.ScanClose | fangorn/src/gadget/mod.rs:176-189 | the depth-counter loop finds the data up to the first balancing parenthesis, or nothing |
| Intents.ParseIntentString | fangorn/src/gadget/mod.rs:164-195 | the parser's loop equals the specification, refusal included |
| Intents.ParsePrint | fangorn/src/gadget/mod.rs:160-195 | parsing inverts printing on every non-empty list of expressible clauses |
| Intents.ParsePrintIff | fangorn/src/gadget/mod.rs:160-195 | and on no other list |
| Intents.ParseNormal | fangorn/src/gadget/mod.rs:164-195 | whatever parses is non-empty and expressible |
| Intents.ParseStable | fangorn/src/gadget/mod.rs:164-195 | printing what was parsed and parsing again changes nothing |
| Intents.ParseFailsIff | fangorn/src/gadget/mod.rs:173-174 | parsing fails iff some part has no opening parenthesis |
| Intents.EnclosedBalanced | fangorn/src/gadget/mod.rs:176-192 | what is cut out is balanced |
| Intents.BalancedEnclosed | fangorn/src/gadget/mod.rs:176-192 | balanced data is recovered exactly, whatever follows |
| Intents.UnclosedParses | fangorn/src/gadget/mod.rs:176-192 | a part whose parenthesis is never closed parses to its type and empty data |
| Intents.ClauseRoundTrip | fangorn/src/gadget/mod.rs:173-193 | one printed clause with white space around it parses to itself |
| Gadgets.GadgetRegistry.constructor | fangorn/src/gadget/mod.rs:56-61 | no gadgets |
| Gadgets.GadgetRegistry.Register | fangorn/src/gadget/mod.rs:64-67 | the gadget is stored under its type id, replacing an earlier one |
| Gadgets.GadgetRegistry.ParseIntents | fangorn/src/gadget/mod.rs:75-97 | the loop equals the specification, the first failing clause deciding |
| Gadgets.GadgetRegistry.VerifyIntents | fangorn/src/gadget/mod.rs:99-122 | the loop equals the specification, panics and early exits included |
| Gadgets.IntentsOfDone | fangorn/src/gadget/mod.rs:75-97 | parsing succeeds with a list iff each clause's type is registered and the intent there carries that type, the statement its gadget makes of the data, and that gadget |
| Gadgets.IntentsOfFails | fangorn/src/gadget/mod.rs:75-97 | any other result is a parse error of the string or that of the first clause whose type is unknown or whose gadget refuses the data, all before it being fine |
| Gadgets.VerifyExact | fangorn/src/gadget/mod.rs:99-134 | `Ok(true)` iff the witness list decodes, has as many items as intents, and for each intent the gadget it carries, or else the one registered for its type, accepts its own witness; never `Ok(false)`; a list that does not decode or fit panics |
| Gadgets.TrailingBytesIgnored | fangorn/src/gadget/mod.rs:106 | bytes behind the witness list change no verdict |
| Gadgets.FirstRefusal | fangorn/src/gadget/mod.rs:114-119 | any other answer on a fitting list is that of the first intent that does not accept: an unknown type, a refusal under its type name, or the gadget's own error or panic |
| Gadgets.SkippedFieldNeutral | fangorn/src/gadget/mod.rs:125-145 | intents whose gadget field was skipped verify as the freshly parsed ones do |
| Gadgets.Psp22Exact | fangorn/src/gadget/psp22.rs:27-111 | for every n in decimal: refused iff n is no u128, else 48 bytes that begin with the contract spelled before the comma; a witness is then judged by that contract's answer for the account it spells: accepted iff the first 16 bytes behind the status byte are at least n, an error if the query fails or the reply is short; text that spells no address stands for 32 zero bytes |
| Gadgets.BalanceAsked | fangorn/src/gadget/psp22.rs:27-80 | the same for every 48-byte statement: which contract is asked about which account, and what its answer decides |
| Gadgets.Psp22StatementIff | fangorn/src/gadget/psp22.rs:84-111 | data is accepted iff it has one comma followed by a trimmed u128 numeral, anything else being a parse error; the statement holds the address spelled before the comma and the number |
| Decimal.ParseShow | fangorn/src/gadget/psp22.rs:101-104 | a decimal numeral parses to its number iff that is a u128 |
| Decimal.ShowInjective | fangorn/src/node/service.rs:343 | different indices have different document keys |
| Text.SplitJoin | fangorn/src/gadget/mod.rs:168 | splitting inverts joining on separable parts |
| Text.JoinSplit | fangorn/src/gadget/mod.rs:168 | joining inverts splitting, and the parts are separable |
| Text.TrimShape | fangorn/src/gadget/mod.rs:173 | trimming removes white space at the two ends and nothing else |
| Scale.CompactRoundTrip | fangorn/src/storage/contract_store.rs:33-36 | lengths decode in all four modes, whatever follows |
| Scale.CompactLayout | fangorn/src/storage/contract_store.rs:33-36 | the mode is in the two low bits and the length above them, in one, two or four bytes, or behind a byte 3 |
| Scale.CompactExact | fangorn/src/storage/contract_store.rs:82-85 | only the shortest mode is accepted |
| Scale.PairLawful | fangorn/src/pool/pool.rs:32-40 | fields in sequence round-trip and decode only from their encodings |
| Scale.OptLawful | fangorn/src/storage/contract_store.rs:82 | the same for options |
| Scale.VecLawful | fangorn/src/gadget/mod.rs:106 | the same for vectors, trailing bytes untouched |
| Scale.BlobLawful | fangorn/src/storage/contract_store.rs:34-36 | the same for byte vectors |
| Scale.PrefixFree | fangorn/src/pool/pool.rs:32-40 | no encoding is a proper prefix of another, so encoding is injective |
| Hex.RoundTrip | fangorn/src/crypto/decrypt.rs:120 | decoding inverts encoding |
| Hex.EncodeAt | fangorn/src/crypto/decrypt.rs:120 | each byte is written as its high and its low digit, in lower case |
| Hex.DecodesIff | fangorn/src/node/service.rs:576 | exactly the case variants of an encoding decode to what was encoded |
| Utf8.RoundTrip | fangorn/src/crypto/decrypt.rs:119 | a string's bytes decode to it |
| Utf8.DecodeExact | fangorn/src/gadget/psp22.rs:30-31 | only the encoding of a string decodes to it |
| Wire.RequestsLawful | fangorn/src/pool/pool.rs:32-49 | requests and lists of them round-trip, trailing bytes untouched |
| Wire.IntentListRoundTrip | fangorn/src/gadget/mod.rs:138-145 | an intent list reads back with its gadget fields gone, trailing bytes untouched |
| Wire.EntriesLawful | contract/predicate-registry/lib.rs:23-26 | registry replies round-trip |
| Wire.AnnouncementsLawful | fangorn/src/types.rs:29-42 | announcements round-trip |
| Wire.PartialDecryptionsLawful | fangorn/src/pool/pool.rs:12-18 | partial decryptions round-trip |
| Wire.WitnessesRoundTrip | fangorn/src/crypto/decrypt.rs:118-121 | witnesses survive SCALE and hex, item for item |
| Wire.SplitWitnessesIff | fangorn/src/crypto/cipher.rs:72 | cutting the comma-joined words gives them back iff they are comma-free and trimmed |
| Wire.PiecesAreCommaWords | fangorn/src/crypto/cipher.rs:72 | every piece is comma-free and trimmed, whatever was typed |
| Stores.ContractIntentStore.WriteRegister | fangorn/src/backend/substrate.rs:159-189 | a call is decoded and run, and rolled back when it fails |
| Stores.ContractIntentStore.Register | fangorn/src/storage/contract_store.rs:25-50 | the contract's new storage and the outcome |
| Stores.ContractIntentStore.ArgumentBuffer | fangorn/src/storage/contract_store.rs:33-36 | the contract reads the three arguments back from the buffer, nothing left over |
| Stores.ContractIntentStore.ReadReply | fangorn/src/backend/substrate.rs:122-157 | behind its status byte, a reply decodes to the entry under the name the call encodes |
| Stores.ContractIntentStore.Get | fangorn/src/storage/contract_store.rs:52-90 | the outcome of reading, errors and panics included |
| Stores.ContractIntentStore.DecodeReply | fangorn/src/storage/contract_store.rs:76-89 | an answer is read only from a reply that encodes no entry, or one with that CID whose bytes begin with the encoded intents |
| Stores.ContractIntentStore.WriteRemove | fangorn/src/backend/substrate.rs:159-189 | as for registering |
| Stores.ContractIntentStore.Remove | fangorn/src/storage/contract_store.rs:92-109 | the contract's new storage and the outcome |
| Stores.RegisterArrives | fangorn/src/storage/contract_store.rs:29-47 | the contract receives exactly the filename, CID and encoded intents sent |
| Stores.RegisterOutcome | fangorn/src/storage/contract_store.rs:25-50 | registration succeeds iff it can be encoded and the name is free, and else changes nothing |
| Stores.RegisterThenGet | fangorn/src/storage/contract_store.rs:25-90 | what was registered reads back, gadget fields gone |
| Stores.GetOutcome | fangorn/src/storage/contract_store.rs:52-90 | how a read ends for every registry and name: nothing, an error, a panic, or the CID and the intents the entry's bytes decode to |
| Stores.RemoveUndoesIntent | fangorn/src/storage/contract_store.rs:92-109 | removing an intent just registered restores the registry |
| Stores.RemoveOutcome | fangorn/src/storage/contract_store.rs:92-109 | removal succeeds iff the name can be encoded and has an entry, and takes just that; else the registry is unchanged |
| Stores.GetIntentExact | fangorn/src/storage/contract_store.rs:52-90 | an answer comes from the entry under that very name |
| Stores.InkContractPool.WriteAdd | fangorn/src/backend/substrate.rs:159-189 | a call is decoded and run |
| Stores.InkContractPool.Add | fangorn/src/pool/contract_pool.rs:26-43 | the contract's new storage and the outcome |
| Stores.InkContractPool.ReadAllRequests | fangorn/src/pool/contract_pool.rs:46-67 | status byte removed, list decoded |
| Stores.AddArrives | fangorn/src/pool/contract_pool.rs:26-43 | a request arrives as it was sent |
| Stores.SubmitOutcome | fangorn/src/pool/contract_pool.rs:26-43 | a request is submitted iff it can be encoded and the pool takes it, else the pool is unchanged |
| Stores.FetchFaithful | fangorn/src/pool/contract_pool.rs:46-67 | a read returns the pool's list, and fails iff the list is too long to encode |
| Stores.IrohDocStore.Add | fangorn/src/storage/iroh_docstore.rs:43-55 | the new document and the CID |
| Stores.IrohDocStore.FetchData | fangorn/src/storage/iroh_docstore.rs:57-64 | nothing iff the key is free, and data only from an entry that announces that very data |
| Stores.FetchIff | fangorn/src/storage/iroh_docstore.rs:57-64 | exactly the entries that begin with an announcement's encoding yield its data, a free key yields nothing, any other entry is an error |
| Stores.AddThenFetch | fangorn/src/storage/iroh_docstore.rs:43-64 | what was added is fetched under the CID returned |
| Publishing.EncryptionClient.EncryptFile | fangorn/src/crypto/encrypt.rs:61-93 | parse, encrypt, add, register, in that order, each failure ending it |
| Publishing.EncryptDoneIff | fangorn/src/crypto/encrypt.rs:61-93 | a call succeeds iff the intents parse, there is a ciphertext, both it and the registry call can be encoded, and the name is free |
| Publishing.EncryptLeaves | fangorn/src/crypto/encrypt.rs:74-90 | after a success the document yields the ciphertext under its own CID, and the registry yields under the name, free before, that CID and the intents of the string; every other key and name is unchanged |
| Publishing.FailedEncrypt | fangorn/src/crypto/encrypt.rs:61-93 | a call that fails registers nothing, and changes the document only by the ciphertext it had already added; a refused string and a failed encryption are reported as such, all else panics |
| Publishing.EncryptIsThreeSteps | fangorn/src/crypto/encrypt.rs:61-93 | from any shared state, a client's three steps with nothing in between do to document and registry exactly what the call does |
| Publishing.NoDanglingRegistration | fangorn/src/crypto/encrypt.rs:61-93 | under any interleaving every registered name reads back as its owner's intents and a CID yielding exactly its owner's ciphertext |
| Publishing.OwnStepsRegister | fangorn/src/crypto/encrypt.rs:67-92 | with any steps of others before, between and after, a client registers its name with its own ciphertext and string iff its call can be encoded and the name is free at that step |
| Publishing.Reachable | fangorn/src/crypto/encrypt.rs:61-93 | the invariant behind it, given collision-free CIDs |
| KeySync.NodeState.constructor | fangorn/src/types.rs:96-102 | an empty state |
| KeySync.NodeState.Apply | fangorn/src/types.rs:104-128 | `State::update`: config replaced, hint appended, other tags ignored, bad bytes kill the task |
| KeySync.NodeState.Drain | fangorn/src/node/node.rs:144-152 | the queue is applied in order |
| KeySync.SystemKeysPublisher.PublishKeys | fangorn/src/node/service.rs:455-515 | what is announced and written, and the result, for every place it can fail; whatever is written are the keys of the configuration and all hints found, and the node ignores the announcement |
| KeySync.PublishExact | fangorn/src/node/service.rs:455-515 | the bytes announced and written are the keys of the configuration and all hints, and when: two hints or more, a live applying task, no fault before |
| KeySync.SystemKeysPublisher.RunUpdater | fangorn/src/node/service.rs:419-452 | the loop with its two locks equals the machine |
| KeySync.UpdaterSafe | fangorn/src/node/service.rs:425-449 | under any interleaving and faults the count never exceeds the hints and bounds the successes; publications are the keys of two hints or more, extend each other and are part of the hints |
| KeySync.Converges | fangorn/src/node/service.rs:436-446 | once hints stop, a turn settles the updater iff it succeeds |
| KeySync.StaysSettled | fangorn/src/node/service.rs:436-446 | a settled updater publishes nothing more, its own announcements included |
| KeySync.CatchesUp | fangorn/src/node/service.rs:425-449 | after any past, one hint-free success leaves the keys of all hints in the system-key entry, and no publication after it; under the configuration at the spawn, if no other arrived |
| KeySync.RepeatsIff | fangorn/src/node/service.rs:431-446 | a turn publishes the last published hints again iff it counts more hints than the stored count, has a configuration, can announce and write, and finds as many hints as were last published |
| KeySync.PublishedOnceIff | fangorn/src/node/service.rs:425-449 | over every run of the updater, each publication has more hints than the one before iff no turn does that |
| KeySync.PublishedTwiceAtStart | fangorn/src/node/service.rs:426-446 | from the state the updater is spawned in with two hints, the first turn publishes them again |
| KeySync.HintInBetweenPublishedTwice | fangorn/src/node/service.rs:431-445 | from the state the updater is spawned in, a run in which a hint between the two locks is published twice |
| KeySync.ReportedFailurePublishedTwice | fangorn/src/node/service.rs:442-446 | from the state the updater is spawned in, a run in which keys written but reported as failed are published again |
| ConfigSync.ConfigAgreement | fangorn/src/node/service.rs:191-515 | however nodes join, load, receive and publish, every config is absent or the bootstrap's, every hint entry is its node's key under it, the system-key entry holds the keys under it of the first two or more of the bootstrap's hints, and an entry under a CID announces data with that CID |
| ConfigSync.StartsUp | fangorn/src/node/service.rs:261-309 | in every reachable state, a newcomer that loads the configuration and the hints of the nodes before it and applies them holds the bootstrap's configuration and those nodes' keys under it, in order |
| ConfigSync.TwoNodesComeUp | fangorn/src/node/service.rs:191-515 | the bootstrap and any second node, brought up, leave the configuration, both hints and the keys of the two hints in the document |
| ConfigSync.Reachable | fangorn/src/node/service.rs:191-515 | the invariant behind it, over all steps |
| ConfigSync.KeysApart | fangorn/src/types.rs:16-18 | no document key of one kind is a key of another, given that CID strings begin with `b` |

## Left out

- Threshold cryptography, hashes, SS58, sr25519: foreign code, function parameters here; the Sr25519 gadget is an opaque verdict on witness and statement.
- `encrypt_inner` and the aggregation of partial decryptions after the witness split: cryptography, hard-coded to threshold 1.
- Delivery of attestations to the contract: the client calls `submit_partial_decryption`, which the contract does not have, with an id the contract does not use, so nothing is claimed. The unwrap of that call is the `survives` flag of a sending step.
- EndToEnd.TypedAnswer: one state serves the registry read, the verification and the fetch; with other steps in between it is EndToEnd.NodeAnswers.
- EndToEnd.NodeAnswers: followed until the node takes its next request, and with the requester reachable; what the node sends over whole runs is Network.ReleaseSafety.
- Worker.DecryptionWorker.ProcessDecryptionRequest: the connection, the acknowledgement and the attestation call after the message are the two flags of the machine's sending step.
- Network.ExactlyOnce: bounds how often a node answers; that a node is ever scheduled is not claimed.
- Worker.DecryptionWorker.SendShare: the connection itself is not modelled; `Release` means the message is ready and the location parses, and the machine's step says whether it was sent.
- Gadgets.Psp22Exact: a gadget is a value holding functions, so its statement and call buffers are expressions, not buffers updated in place.
- The parser's `i32` depth counter: unbounded here, so inputs with 2^31 nested parentheses are not modelled; positions count characters, not bytes.
- One entry per document key: iroh keeps one per author and the code takes the first; here the last write wins, and stale entries may still be delivered.
- Contract events, timestamps, gas and storage deposits; `count`, `get_attestation` and `get_attestation_count`, which return one stored field; the registry's `read_all` and its unused request queue.
- `State.system_keys`, which nothing writes, the RPC key prefix, and the file copy of the system keys.
- Errors of the chain connection other than a rejected call; the text inside error values.
- Iroh transport, tokio scheduling beyond interleaved steps, sleeps, CLI, key vaults, the psp22 contract, the UI crates and scripts.
- The decoder's refusal of lengths written in a longer mode than needed is that of the parity-scale-codec crate, whose source is not part of this model.
