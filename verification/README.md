# HATLS continuity: a Dafny model

HATLS keeps an attested identity on one enrolled machine. A guest's TEE signs a chain of links, one
per attestation; the *mandate* at the relying party accepts a step only if it continues the chain of
that TLS connection, comes from the instance the identity is enrolled on, and is not refused by the
ledger; every decision becomes a leaf of an append-only Merkle log with receipts. This project models
that logic and proves what it promises, for all inputs and over all runs.

| file | models |
|---|---|
| `Octets.dfy`, `Primitives.dfy` | bytes, number encodings, collisions; the signed and hashed messages, and the library calls as function values |
| `MerkleTree.dfy`, `MerkleTheorems.dfy`, `MerkleLevels.dfy` | the log's roots and proofs (recursion) and the two verifiers (loops over shifted indices), that both forms agree for every size, and the root computed from the bottom |
| `Receipts.dfy`, `Federation.dfy` | receipts, extension, equivocation, divergence, bundles of several mandates' heads |
| `Hkdf.dfy`, `Wire.dfy` | the expansion loops and label encoding, link derivation, reassembly of handshake messages |
| `Ledger.dfy`, `Mandate.dfy` | the mandate's decisions and state changes as functions, and the class whose methods update its fields and are proved against them |
| `Verdicts.dfy`, `Changes.dfy`, `Journal.dfy` | exactly when each answer is given, what each operation changes, and what the log and its receipts say of it, over fields and hashed bytes |
| `Chain.dfy` | the link chain and the attester class |
| `Runs.dfy`, `Identities.dfy`, `Continuity.dfy`, `Recovery.dfy` | any finite sequence of operations: the log, the ledger of one identity, what refusals cannot do, why honest runs go through, how an identity moves off a dead machine |
| `World.dfy`, `Order.dfy`, `Origin.dfy` | mandate, attesters and an adversary: the order theorem, and where enrolments come from |
| `Scenario.dfy`, `Reach.dfy` | runs that exist: honest sessions of every length, and the runs that meet the two limits of transfers |

## How it is stated

- **Hashes are not assumed injective.** SHA-2 and HMAC are arbitrary functions of fixed output
  length. A soundness theorem ends in "or `Collides(h, S)`", where `S` is the finite set of inputs that
  this very verification, log or run hashed. (That *some* collision exists is true of every hash and
  would say nothing.) Lengths of proof elements are not constrained, as in the code.
- **The two forms of the Merkle code meet in a list of turns.** `Turns` follows the recursive split;
  `TurnsHalve` and `PrefixTurnsHalve` show that halving the indices consumes it from the other end,
  which is what the loops do. Uniqueness is then an induction over the recursive form.
- **The mandate is a class with the source's fields.** Each method is proved to take the state to a
  function of the old state (`AfterPresent`, `AfterEnrol`, `AfterMove`, ...), and theorems over runs
  are about those functions. An operation's arguments are arbitrary, so a run contains whatever an
  adversary sends. `Restart` is one of the operations: it keeps the ledger (and key and policy), and
  drops connections, challenges and the log, as a new `Mandate` on the same store does.
- **The adversary** of `World.dfy` serves any message to the mandate. Evidence that verifies and
  names an honest instance verifies only over report data which that instance's TEE signed; honest
  instances sign the calls of their attesters and requests for enrolment longer than 83 bytes (every
  PKCS#10 request is), and other instances sign anything. `Reach.HonestRunsExist` shows that these
  conditions leave room for honest sessions of every length.
- **Each decision is also stated exactly**, apart from the functions that compute it: `Verdicts.dfy` and
  `Identities.MoveExactly` give the condition of every answer, `Changes.dfy` the fields every operation
  changes, `Journal.dfy` the fields of every log entry.
- **Parameters:** the clock (one reading per operation), challenge nonces, the exporter and context of
  a TLS session, signature verification, evidence verification, CSR parsing, canonical JSON.

## What turned out false of the code, exactly

- `verify_consistency` refuses an older log of size 0, so an honest mandate's own first, empty head is
  reported as equivocation or divergence, whatever it offers: `Receipts.EmptyHeadIsFlagged`. For all
  pairs of logs, heads are cleared exactly if `Showable` holds: `a` is a prefix of `b`, and `a` is
  empty only if `b` is.
- The branch for a second instance is dead under `require_enrolment` (`Identities.NoContention`), and
  under any policy for an identity once enrolled and settled (`Identities.StaysSettled`). Otherwise it
  is taken exactly as `Identities.SecondInstanceExactly` says, and it is reached
  (`Identities.SecondInstanceReached`). Enrolment does not reset the instance observed before it, so it
  settles the record exactly if no other instance was observed (`Identities.EnrolmentSettles`);
  otherwise the identity's own enrolled instance meets this branch until a transfer
  (`Identities.EarlyAcceptanceLocksOut`, `Identities.LockedOutMeetsTheBranch`,
  `Identities.LockedOutUntilMoved`).
- `first_handshake_message` does not skip records of other types inside the first message: for all
  lists of records it returns the message exactly if no such record stands after its first byte and
  before its last (`Wire.FirstMessageExactly`). `Wire.InterleavedHelloIsLost` is a ClientHello that it
  does not find and `plaintext_handshake_messages` does.
- A grant is not single use for ever, but for as long as its nonce is among the 256 latest of its
  identity: `Identities.GrantSingleUse` says exactly when a transfer is accepted and when it is refused
  as a replay, `Identities.GrantOutlivesItsWindow` exactly when a grant once accepted is accepted again,
  and `Scenario.GrantIsAcceptedTwice` is a run in which that happens.
- Refusals are harmless to `present`, not to `accept_transfer`: the list of witnessed instances keeps its
  last 32. A grant for a witnessed instance is accepted exactly if fewer than 32 other instances were
  witnessed since (`Recovery.RecoveryWorks`); `Scenario.RefusalsEvict` is a run in which 32 refusals
  cost a transfer.
- A restart forgets the log, and the signing key may stay: heads from before and after it are flagged,
  unless one log happens to be a prefix of the other (`Runs.RestartIsSeen`).

## Model

| member | source | states |
|---|---|---|
| MerkleTree.LargestPow2Below | hatls/log.py:29-33 | the doubling loop ends at a power of two below n with no power of two between it and n |
| MerkleTree.Pow2Test | hatls/log.py:88 | `m & (m - 1) == 0` holds exactly for the powers of two |
| MerkleTree.TurnsHalve | hatls/log.py:43-66 | the path the recursive split takes to leaf m of n starts, seen from the leaf, with the parity turn of (m, n) and goes on as the path of (m/2, ceil(n/2)) |
| MerkleTree.PrefixTurnsHalve | hatls/log.py:75-92 | the same for the path of an even prefix size, so that shifting both indices loses no turn |
| MerkleTree.PrefixTurnsOdd | hatls/log.py:75-92 | at an odd prefix size the consistency path is the inclusion path of the last leaf of the prefix |
| MerkleTree.SkipLoneLevels | hatls/log.py:61-62 | the inner shift loop terminates at an odd index and skips exactly levels without a sibling |
| MerkleTree.SkipOddLevels | hatls/log.py:90-92 | the first shift loop terminates where the remaining turns are those of the whole consistency path |
| MerkleTree.VerifyInclusion | hatls/log.py:52-66 | the loop accepts exactly the proofs that have one element per turn of the recursive split and fold to the expected root |
| MerkleTree.VerifyConsistency | hatls/log.py:83-103 | the loop accepts exactly the proofs from which both the older and the newer root fold along the recursive split |
| MerkleTheorems.RootInjective | hatls/log.py:35-41 | two logs with one root are equal, whatever their sizes, unless the inputs hashed for the two roots collide |
| MerkleLevels.RootByLevels | hatls/log.py:26-41 | for every log, the recursive root is what hashing neighbours in pairs, left before right, level by level from the tagged leaf hashes, comes to |
| MerkleTheorems.InclusionAcceptsHonest | hatls/log.py:43-66 | for every log and every leaf, the recursive audit path is accepted by the loop |
| MerkleTheorems.InclusionUnique | hatls/log.py:43-66 | a node and siblings that fold to the root of a log are that leaf's hash and its audit path |
| MerkleTheorems.InclusionAcceptsOnlyHonest | hatls/log.py:43-66 | whatever is accepted against a log's root is the entry at that index with exactly its audit path, or hashed inputs collide; another length is never accepted |
| MerkleTheorems.ConsistencyComplete | hatls/log.py:68-103 | from the base subtree and the siblings on the way, both the older and the newer root are rebuilt |
| MerkleTheorems.ConsistencyAcceptsHonest | hatls/log.py:68-103 | for every log and every prefix but an empty one of a longer log, the recursive proof is accepted by the loop, at powers of two and at equal sizes too |
| MerkleTheorems.ConsistencyUnique | hatls/log.py:75-103 | if one start and one sibling list rebuild both roots, the smaller log is a prefix of the larger and start and siblings are the honest ones |
| MerkleTheorems.ConsistencyAcceptsOnlyHonest | hatls/log.py:83-103 | acceptance of any proof between the roots of two logs means the first is a prefix of the second and the proof is the honest one, or hashed inputs collide |
| MerkleTheorems.ProofLengths | hatls/log.py:43-81 | an audit path has at most ceil(log2 n) hashes, a consistency proof at most one more |
| MandateService.MerkleLog.constructor | hatls/log.py:107 | a new log holds the entries it is given |
| MandateService.MerkleLog.Append | hatls/log.py:110-113 | appending adds exactly one entry at the end and returns its index and the new root |
| MandateService.MerkleLog.ProveInclusion | hatls/log.py:43-50 | a path is given exactly for an index in range, and the verifier accepts it |
| MandateService.MerkleLog.ProveConsistency | hatls/log.py:68-73 | a proof is given exactly for a non-empty prefix size in range, and the verifier accepts it |
| Receipts.HonestReceiptVerifies | hatls/receipt.py:69-83 | the receipt issued for any leaf verifies under the head of that log |
| Receipts.ReceiptIsBinding | hatls/receipt.py:69-83 | a receipt that verifies under a head of a log names the entry really logged at that index, or hashed inputs collide |
| Receipts.ReceiptExactly | hatls/receipt.py:69-83 | a receipt is refused as unsigned exactly if the key does not verify the signature over its head, then as not included exactly if its proof fails |
| Receipts.VerifyingReceiptBinds | hatls/receipt.py:69-83 | if the key signs nothing but sizes and roots of this log, every receipt that verifies names the entry logged at its index, or hashed inputs collide |
| Receipts.ExtensionIsExact | hatls/receipt.py:85-90 | between heads of two logs exactly the honest proof is accepted, exactly if the first log is a prefix of the second (and not the empty one of a longer log), up to collision |
| Receipts.DivergenceClearsHonest | hatls/federation.py:81-105 | a peer whose log grew from the witnessed head is cleared by the proof it can give |
| Receipts.DivergenceClearsOnlyHonest | hatls/federation.py:81-105 | no offer at all clears a head from which the later log did not grow, up to collision |
| Receipts.EquivocationClearsHonest | hatls/receipt.py:92-111 | two heads of one growing log are cleared by its own proof, in either order |
| Receipts.EquivocationClearsOnlyHonest | hatls/receipt.py:92-111 | two heads of which neither log is a prefix of the other are flagged whatever proofs are offered, up to collision |
| Receipts.EquivocationExactly | hatls/receipt.py:92-111 | the condition of every answer; an accusation needs two heads the key signed |
| Receipts.DivergenceExactly | hatls/federation.py:81-105 | the condition of every answer; an accusation needs a later head the key signed |
| Receipts.ExtensionNeedsSignatures | hatls/receipt.py:85-90 | an answer is given exactly if the key signed both heads |
| Receipts.EmptyHeadIsFlagged | hatls/log.py:86 | an honest log is flagged against its own empty head, whatever proof is offered |
| Federation.SortSorted | hatls/federation.py:37-40 | the canonical entry list is a sorted permutation of the entries given |
| Federation.SortedUnique | hatls/federation.py:37-40 | there is only one sorted list of a given collection of entries |
| Federation.BundleIsCanonical | hatls/federation.py:37-52 | any ordering of the same heads gives the same entries and the same commitment, or the same refusal |
| Federation.MakeBundleExactly | hatls/federation.py:33-52 | a bundle is made exactly if every head is signed; its entries are name, size and root of each head, ordered by name, size and root, and its commitment is the hash of all of them |
| Federation.EntryForLeast | hatls/federation.py:57-59 | the entry found is the one of least size under that mandate's name, and none is found exactly if no entry bears it |
| Federation.EveryMandateIsNamed | hatls/federation.py:46-59 | whoever's signed head went into a bundle is named in it, with a head signed by a key of that name, and the bundle verifies |
| Hkdf.Expand | hatls/transcript.py:35-39 | the loop ends with n bytes that are a prefix of T(1), T(2), ... of section 2.3 of RFC 5869, for every n up to 255 blocks |
| Hkdf.ExpansionIsBlocks | hatls/transcript.py:35-39 | whatever sequence meets the equations of section 2.3 of RFC 5869, its concatenation is what the loop produces |
| Hkdf.HkdfExpandLabel | hatls/protocol.py:50-56 | for every length up to 255 blocks the protocol's own loop ends with the first n bytes of the blocks for its label, and for one block with the form the links are defined by |
| Hkdf.Tls13HkdfExpandLabel | hatls/transcript.py:29-33 | the same for the TLS 1.3 labels and the hash of the cipher suite |
| Hkdf.LabelInfoInjective | hatls/transcript.py:29-33 | the info string determines the output length, the label and the context |
| Hkdf.LabelSpaces | hatls/protocol.py:44-52 | no info string belongs both to this protocol's labels and to those of TLS 1.3; within each, different inputs give different info strings |
| Hkdf.LinkCollision | hatls/protocol.py:58-65 | two different link derivations with one result exhibit a collision of HMAC-SHA-384 or of SHA-384 on the keys |
| Hkdf.LinksSpelledOut | hatls/protocol.py:44-65 | each link is HMAC-SHA-384 over the very bytes of length, label, context and block number |
| Wire.FirstHandshakeMessage | hatls/transcript.py:47-63 | the incremental reader returns what one would read from all the handshake bytes gathered first |
| Wire.PlaintextHandshakeMessages | examples/hrr_binder.py:80-92 | the two loops return the complete messages at the front of the gathered handshake bytes |
| Wire.SplitMessages | examples/hrr_binder.py:88-91 | the second loop peels off every complete message and nothing else |
| Wire.MessageExactly | hatls/transcript.py:60-62 | a message is a type, the length of its body in three big-endian bytes, and its body |
| Wire.RecordSpelledOut | hatls/transcript.py:53-54 | a record is a type, a version, the length of its body in two big-endian bytes, and its body |
| Wire.ReadTruncated | hatls/transcript.py:53-58 | a record cut short by the end of the stream is read as far as it goes |
| Wire.FirstMessageExactly | hatls/transcript.py:47-63 | for every list of records whose handshake bytes begin with a message, and any bytes after it: the message is returned exactly if its type is wanted and no record of another type stands inside it |
| Wire.FragmentationFirst | hatls/transcript.py:47-63 | for every cutting into handshake records, after any other records and before any bytes, exactly the first message is returned if its type is the wanted one, otherwise none |
| Wire.InterleavingStopsFirst | hatls/transcript.py:55-57 | a record of another type inside the first message makes the reader return nothing, whatever stands in front and follows |
| Wire.InterleavedHelloIsLost | hatls/transcript.py:55-57 | a ClientHello cut by a ChangeCipherSpec record is not found by the one reader and is found by the other |
| Wire.FragmentationAll | examples/hrr_binder.py:80-92 | for every cutting, with ChangeCipherSpec records anywhere, exactly the list of messages sent is returned |
| Wire.HellosFound | hatls/transcript.py:65-74 | for every cutting of both streams the two Hello messages are found, and a HelloRetryRequest is refused |
| Wire.RetryExactly | hatls/transcript.py:72 | a ServerHello is a retry exactly by the 32 bytes after header and version |
| Chain.LinkCommits | hatls/protocol.py:58-65 | two chains that reach one link have the same context, the same identity key and the same exporters in the same order, unless links really derived collide |
| Chain.ChainStep | hatls/protocol.py:64-65 | extending a chain by an exporter derives its link from the previous one at the next counter |
| Chain.Attester.constructor | hatls/protocol.py:108-110 | a new attester stands at the start of its chain |
| Chain.Attester.Attest | hatls/protocol.py:112-123 | every call signs the next link of the one chain whose context the first call fixed, over every exporter so far |
| MandateService.Mandate.constructor | hatls/protocol.py:150-178 | a new mandate has the ledger it is given, an empty log, no sessions and no challenges, and knows the head of the empty log |
| MandateService.Mandate.SignedHead | hatls/protocol.py:270-272 | the signed head is the size and root of the present log |
| MandateService.Mandate.ProveExtension | hatls/protocol.py:274-276 | a proof is given exactly for a non-empty earlier size, and the verifier accepts it between the two roots |
| MandateService.Mandate.IssueReceipt | hatls/protocol.py:278-282 | the receipt holds the entry, its audit path and the present head, and verifies under the mandate's key |
| MandateService.Mandate.LogDecision | hatls/protocol.py:284-290 | one decision appends one entry numbered by its index, remembers the new head, and leaves a receipt for it that verifies (`Journal.OperationTells` says what the entry holds) |
| MandateService.Mandate.Challenge | hatls/protocol.py:300-306 | expired nonces are dropped, the new one expires after the time to live, nothing else changes |
| MandateService.Mandate.EnrollInner | hatls/protocol.py:308-370 | the outcome is the first failing check in order; state changes only on success (nonce spent, record set) or on an expired nonce (dropped) |
| MandateService.Mandate.Enroll | hatls/protocol.py:372-379 | as above, and one decision is logged with the enrolled instance only on success |
| MandateService.Mandate.Revoke | hatls/protocol.py:381-388 | only the revocation mark and its reason change in the record, and one decision is logged |
| MandateService.Mandate.AcceptTransfer | hatls/protocol.py:390-480 | on success the record moves, the windows slide and exactly this identity's chains end; on refusal only the log grows |
| MandateService.Mandate.NoteRefusal | hatls/protocol.py:552-587 | which refusals leave a dispute or a witness in the record, and that nothing else changes |
| MandateService.Mandate.Advance | hatls/protocol.py:589-617 | a step is accepted exactly if its counter and link continue this connection's chain; only then does the chain move |
| MandateService.Mandate.Appraise | hatls/protocol.py:482-617 | verdict, instance for the log and new state, over all branches in order |
| MandateService.Mandate.Present | hatls/protocol.py:619-632 | appraisal plus exactly one logged decision |
| Verdicts.PresentExactly | hatls/protocol.py:482-617 | a step is accepted exactly if the identity is not revoked, the head passes, the evidence is genuine over this link and head and names an instance if it must, enrolled and observed instance and place agree, and counter and link continue the chain kept under key and context |
| Verdicts.PresentReasons | hatls/protocol.py:482-617 | the exact condition of each of the sixteen answers |
| Verdicts.HeadReasons | hatls/protocol.py:504-521 | the exact condition of each refusal of a head or bundle |
| Verdicts.LedgerReasons | hatls/protocol.py:537-587 | the exact condition of each refusal by the ledger |
| Verdicts.EnrolExactly | hatls/protocol.py:308-370 | an enrolment succeeds exactly if its nonce is open, the authority (if any) permits it, the identity is new, the request carries the key, and the evidence is genuine over both with an instance (and a place if required) |
| Verdicts.EnrolReasons | hatls/protocol.py:308-370 | the exact condition of each refusal, the defects of an authorisation taken together |
| Verdicts.EnrolReportsTheDefect | hatls/protocol.py:328-337 | which of those defects is reported |
| Verdicts.AuthorisationReasons | hatls/transfer.py:104-121 | an authorisation is valid exactly if kind, key, challenge, window and signature are right, and the exact condition of each defect |
| Changes.PresentChanges | hatls/protocol.py:552-617 | what a presentation changes: a dispute, a witness, the observed instance and place, the connection's chain, by answer, and nothing else |
| Changes.EnrolChanges | hatls/protocol.py:324-367 | a success spends the nonce and sets instance, place and authority; an expired nonce is forgotten; nothing else changes |
| Changes.RevokeChanges | hatls/protocol.py:381-385 | only mark and reason change |
| Changes.MoveChanges | hatls/protocol.py:462-474 | a transfer sets instance and place of the first fresh witness, forgets what was observed, slides both windows and ends exactly this identity's chains |
| Changes.ChallengeChanges | hatls/protocol.py:300-306 | a challenge drops exactly what has expired; a restart keeps the ledger only |
| Changes.OpenExactly | hatls/protocol.py:300-327 | over every run, a nonce is open with this expiry exactly if some challenge issued it and no later operation closed it |
| Changes.ContentionExactly | hatls/protocol.py:292-297 | over every run, the disputes on record are the last 64 that the answers of the run left |
| Runs.LogInvariant | hatls/protocol.py:265-290 | over every run: the log is the list of decisions taken since the last restart, each numbered by its index, and a head is known exactly if it is the root of some prefix of the log |
| Runs.LogOnlyGrows | hatls/protocol.py:284-290 | the log at any earlier moment since the last restart is a prefix of the log now, shorter by one entry per later operation other than a challenge |
| Journal.OperationTells | hatls/receipt.py:35-49 | every operation but a challenge or restart adds one entry, whose kind, number, second, identity, answer, acceptance and instance are those of this operation |
| Journal.EveryEntryTells | hatls/protocol.py:284-290 | every entry of a run's log tells the decision of one of its operations in the state it met |
| Journal.ReceiptNamesDecision | hatls/receipt.py:69-83 | a receipt that verifies under any head this run's log had is for an entry that tells a decision of the run, at its number, or hashed inputs collide |
| Journal.VerifiedReceiptNamesDecision | hatls/receipt.py:69-83 | the same of every receipt that verifies, if the key signs nothing but heads of this log |
| Journal.ReceiptOfAcceptance | hatls/protocol.py:619-632 | the entry of an accepted step says that it was accepted |
| Runs.LeavesAreDistinct | hatls/receipt.py:35-49 | no two leaves of a run's log are equal, unless the encoding of two logged decisions collides |
| Runs.HonestHistoryIsCleared | hatls/federation.py:81-105 | any head signed after the first decision is cleared against any later head of the same run |
| Runs.RestartIsSeen | hatls/receipt.py:92-111 | heads of one key from before and after a restart are cleared if the shorter log is a (non-empty) prefix of the longer, and otherwise flagged whatever is offered, up to collision; different first decisions suffice |
| Identities.GrantWindows | hatls/protocol.py:467-471 | over every run, `transfers` and `consumed_grants` are the last 64 transfers and the last 256 nonces accepted, the latter without repetition |
| Identities.TransfersAreSpent | hatls/protocol.py:467-471 | the nonces of the retained transfers are a suffix of the consumed grants |
| Identities.MoveExactly | hatls/protocol.py:409-480 | the exact condition of each of the fourteen answers to a transfer |
| Identities.GrantSingleUse | hatls/protocol.py:434-435 | over every run, a transfer is accepted exactly if the grant stands, fits, leads to a freshly witnessed instance, and its nonce is not among the last 256 accepted; it is refused as a replay exactly if the grant stands and its nonce is |
| Identities.GrantOutlivesItsWindow | hatls/protocol.py:434-471 | a grant once accepted, if it fits again, is accepted again exactly if every use of its nonce since then lies more than 256 transfers back |
| Scenario.GrantIsAcceptedTwice | hatls/protocol.py:434-471 | a run for every number of transfers: the first grant is accepted, refused as a replay after up to 255 further transfers, and accepted again after any more |
| Identities.InstanceIsOnPath | hatls/protocol.py:462-471 | over every run, the accepted transfers form an unbroken path from the instance first enrolled to the one enrolled now |
| Identities.OnlyEnrolmentAndTransferMove | hatls/protocol.py:339-370 | the enrolled instance changes only by the one accepted enrolment, then only by accepted transfers; the authority is the one that enrolment names, none before and no other after |
| Identities.WitnessesWereVerified | hatls/protocol.py:220-230 | every witness on record goes back to a presentation of this identity with genuine evidence of that instance and place at that second |
| Identities.MoveIsAuthorised | hatls/protocol.py:415-460 | an accepted transfer is signed by the identity's authority, in its window, leaves the present instance (or any, if the grant says so), and enrols one whose genuine evidence this mandate saw within the witness time, at the place that evidence showed |
| Identities.RevokedForever | hatls/protocol.py:381-388 | through every run after a revocation, every presentation and transfer of the identity is refused |
| Identities.NoContention | hatls/protocol.py:576-587 | with enrolment required, the observed instance is always none or the enrolled one and the second-instance branch is never taken |
| Identities.SecondInstanceExactly | hatls/protocol.py:537-587 | exactly when a presentation is refused as a second instance |
| Identities.SecondInstanceReached | hatls/protocol.py:576-587 | without the requirement, evidence from a second instance after an accepted first one takes the branch |
| Identities.StaysSettled | hatls/protocol.py:576-614 | under any policy, an enrolled identity with no other instance observed stays so in every run and never meets the branch |
| Identities.EnrolmentSettles | hatls/protocol.py:363-367 | enrolment settles the record exactly if no other instance was observed before it |
| Identities.EarlyAcceptanceLocksOut | hatls/protocol.py:610-614 | accepted unenrolled from one instance, then enrolled on another: observed and enrolled instance differ |
| Identities.LockedOutMeetsTheBranch | hatls/protocol.py:576-587 | such an identity's own enrolled instance is refused as a second instance |
| Identities.LockedOutUntilMoved | hatls/protocol.py:545-587 | from then on no evidence that names an instance is accepted until a transfer, in any run |
| Identities.NoncesAreConserved | hatls/protocol.py:300-327 | with fresh nonces, each backs at most one successful enrolment, and open nonces were issued, unspent, and expire on time |
| Identities.EnrolmentsNeedChallenges | hatls/protocol.py:300-370 | successful enrolments never outnumber challenges issued |
| Identities.EnrolmentIsGrounded | hatls/protocol.py:320-370 | a success rests on an issued, unspent, unexpired nonce, a request carrying that very key, genuine evidence over both, and, where an enrolment authority is set, its signature over this identity and challenge inside its validity window |
| Continuity.RefusalsAreHarmless | hatls/protocol.py:482-617 | a step that would be accepted is still accepted after any number of refused operations by anyone |
| Continuity.NoReplayWhileAlive | hatls/protocol.py:597-601 | after an acceptance at counter n, nothing at n or below is accepted on that session in any run without an accepted transfer of the identity or a restart |
| Continuity.HonestRunsNeverBreak | hatls/protocol.py:107-123 | every step of an attester on the enrolled instance, delivered in order, is accepted for every length, interleaved with anything short of a restart, a revocation or transfer of this identity, or another step accepted on this session |
| Continuity.HeadExactly | hatls/protocol.py:504-521 | over every run, a head is let through exactly if there is none, or it is the root of some prefix of the log, or it commits to a bundle whose first entry under this mandate's name shows such a root |
| Continuity.AcceptedBundleBinds | hatls/protocol.py:505-525 | a step accepted with a bundle means the mandate's own entry in it is the root of some prefix of its log, and report data equal to the one verified is over exactly this link and this commitment, or exhibits a collision of SHA-512 |
| Continuity.ReportInputInjective | hatls/protocol.py:67-81 | the bytes behind the report data determine the link and the head, with and without a head |
| Recovery.WitnessLasts | hatls/protocol.py:220-230 | through any operations that neither move nor revoke the identity, a fresh witness is on record exactly until 32 other instances have been witnessed after it |
| Recovery.RecoveryWorks | hatls/transfer.py:18-22 | a new instance that attests is refused, and then the owner's grant for it is accepted within the witness time, whatever was served meanwhile short of a transfer or revocation, exactly if fewer than 32 other instances were witnessed since; otherwise it is refused as unwitnessed |
| Scenario.RefusalsEvict | hatls/protocol.py:220-230 | a run in which a grant would be accepted, 32 presentations are refused, and the same grant is then refused as unwitnessed |
| Scenario.SomeSettingWorks | hatls/protocol.py:30-32 | around every choice of hashes there are evidence, signatures and requests for which these runs and those of Reach exist |
| Recovery.TransferHandsOver | hatls/protocol.py:462-480 | after any accepted transfer no chain of the identity is left, an attester on the new instance can start one, and evidence of any other instance is refused |
| World.NextKeeps | hatls/protocol.py:107-123 | every action of guests, adversary or mandate keeps the invariant: a live session stands at the end of its accepted chain, and honest signatures are guests' calls or enrolment requests |
| World.HonestStepMayBeServed | hatls/protocol.py:112-123 | evidence an attester has just produced may be served to the mandate at once |
| Reach.HonestRunsExist | formal/hatls-chain.pv:123 | for every session and list of exporters there is a run in which a guest of an honest enrolled instance makes all its calls in order and the mandate accepts each |
| Origin.SignedOrigin | hatls/protocol.py:107-123 | over every run, all an honest instance has signed is requests it was given and links of its guests |
| Origin.EnrolmentWasRequested | hatls/protocol.py:339-356 | an accepted enrolment that names an honest instance was preceded by that instance being asked to sign this challenge and this request, or SHA-512 inputs really used collide, or the challenge begins like a link |
| Order.AcceptedWasAttested | formal/hatls-chain.pv:114-118 | in every run, honest evidence accepted at counter n was attested before by a guest of that instance and identity at counter n, and at 0, 1, ..., n - 1 before that in order, for the verifier's own exporters and context; or inputs really used collide |
| Order.OnlyTheEnrolledInstance | formal/hatls-chain.pv:120-121 | with an anchor required, accepted evidence names the enrolled instance |
| Order.OrderedChain | hatls/protocol.py:589-617 | with an anchor required and an honest enrolled instance, every acceptance was attested in order by that instance |
| Order.MandateRuns | hatls/protocol.py:129-178 | the mandate among guests and adversary is always the mandate after the operations it has served, so every theorem over runs holds there |
| Order.CountersGrow | hatls/protocol.py:597-601 | accepted counters of one session strictly grow while its chain is alive (until a transfer or a restart) |
| Order.NoAttestationBacksTwo | formal/hatls-chain.pv:117-118 | two acceptances that the same guest attested rest on different calls of it, the later on a later one, while the chain is alive |
| Order.NoLinkAcceptedTwice | hatls/protocol.py:603-610 | honest or not, no link is accepted twice while the chain is alive, or inputs really used collide |

## Left out

- Sockets, TLS contexts, `BioConnection`, the client, threads and JSON framing: input and output; the exporter and session context are inputs here.
- Evidence appraisal, X.509 chains, CSR parsing, ECDSA, `json.dumps`, SHA-2 and HMAC internals: function values, so the theorems hold for every choice of them. Signing is a deterministic function.
- Malformed arguments on which the source raises (a counter of 2^64 or more, a session context of more than 255 bytes, a grant without its fields, hex that does not decode in a message): the types exclude them. Malformed hex in a consistency proof and in a grant's destination is modelled, because the source handles it.
- Hex strings are modelled as the bytes they stand for, so upper-case hex in a grant or bundle is not told apart from lower-case.
- One operation reads the clock once; the source may read it several times.
- The event tuples of `Mandate.log`, `observe`, `cross_witness` and `_peers`: records that decide nothing.
- `FileStore`: the ledger is a map; the file layout and its atomicity rest on the operating system.
- `make_grant`, `make_enrolment_authorisation`: the issuer's side; the mandate's checks are for any grant, honest or not.
- `draft_binder`, `suite_hash`, `binder_report_data` and the readings of `examples/hrr_binder.py`: single expressions over the expansion and the transcript modelled here.
- Receipts, federation and the mandate's head checks use the predicates `InclusionAccepts` and `ConsistencyAccepts`, which the two verifier methods are proved to decide; pure code cannot call a method.
- `Present`, `EnrollInner`, `AcceptTransfer` and the verifiers are split into several methods (`Screen`, `Admit`, `CheckChain`, `CheckEnrolment`, `CheckGrant`, `SkipLoneLevels`, ...) where the source has one body; the order of the checks is kept.
- RevokedForever: says nothing of `enroll`, which does not look at the revocation mark.
- RefusalsAreHarmless: about presentations only; for transfers it is false, and `Recovery.RecoveryWorks` is exact.
- A restart under another policy, or with an ephemeral signing key: `Restart` keeps both.
- AcceptedWasAttested: an honest guest is one that runs the attester code on an honest instance; guests that misuse their own TEE count as other instances.
- The repository's README says in one place that the mandate keeps no append-only log; the code has one, and the code is followed.
