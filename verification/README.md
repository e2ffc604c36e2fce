# A verified model of Remote Network Node

The repository is a peer-to-peer node that runs workflows of jobs on several
machines, moves their data, and lets its users chat. This project models the four
parts of it that carry state or arithmetic with real invariants, and proves what
they keep. `dafny verify dfyconfig.toml` checks the whole project.

**Chat encryption.** `Keys.dfy` makes every key derivation a free constructor, with
Diffie-Hellman as an unordered pair. `DoubleRatchet.dfy` is the mutable ratchet and its
specification as functions on values; `KeyExchange.dfy` creates two of them.
`RatchetSession.dfy` puts a network between them that reorders, drops and repeats
messages and injects, under the current DH key, everything that either side sent or
that the receiver rejects; with cleanups in between it proves what still opens after
every run. `RatchetAlternation.dfy` proves the DH ratchet in turns and says where turns
can begin, `SenderKeys.dfy` the one-to-many chains of a group, and
`GroupKeyStore.dfy` the loading of stored group keys.

**Workflows.** `JobTables.dfy`, `WorkflowIds.dfy` and `WorkflowPhases.dfy` follow an
interface peer from the workflow definition to the row that an executor stores;
`TransferPaths.dfy` shows where sender and receiver then meet and `Packages.dfy` what
a job sends to other peers. `Executor.dfy` breaks the
executor into its single reads and writes and interleaves them freely;
`ExecutorRaces.dfy` shows which interleavings run a job twice, and `JobManager.dfy` is
the object whose atomic handlers are proved to be runs of that machine.
`Finalisation.dfy` is the poller that ends an execution.

**Key conversion.** `Modular.dfy`, `Bytes.dfy` and `Curve.dfy` hold congruences, byte
order and the map from Ed25519 to X25519 keys (sections 4.1 and 5 of RFC 7748).

**Data transfer and payment.** `Streaming.dfy` is the chunked encryption and its
decoder, `PackageTransfer.dfy` the 1 MB chunks with retry and their reassembly, and
`Wallets.dfy` the choice of the advertised wallet.

## What the proofs brought to light

Each point is a lemma that gives the exact condition, a failing run, or both.

- The key exchange leaves both sides on one root. If one of them is then handed a
  message under any other usable DH key, at any time, it takes a ratchet step, and the
  next message it sends does not open at the peer (`ExchangeIsNoHeadStart`,
  `ExchangeStepSplitsIff`). Two steps in a row meet exactly if the party that answers was
  one root derivation ahead (`StepsMeetIff`), and after a completed exchange neither
  side ever is (`NeverLeads`). Turns can begin before the answer to an offer arrives,
  when the responder leads (`OfferedExchange`); from there they work for ever
  (`AlternationTheorem`). Traffic under the key of the exchange takes no step
  (`DeliveryTheorem`).
- Decrypt stores the key of a message, or ratchets, before it opens it. A rejected
  message costs nothing under the current key; under any other, unusable keys included,
  no message of the epoch opens any more (`RejectionCostIff`, `RejectionLasts`).
- Both directions of a chat start on one chain, so a side that is handed back its own
  message accepts it as the peer's message of that number, and then refuses that one
  (`SentOpensIff`, `OwnMessageAccepted`, `ReflectedRun`).
- In a group a rejected message moves the receiver's counter, and every post below its
  number is lost (`RejectionCost`, `GroupDelivery`).
- Stored group keys load the same in every order exactly if our own row is among them
  or there is at most one row (`LoadOrderIndependentIff`).
- All outputs for one remote peer travel in one package addressed by the first of them.
  Everything a job sends to other peers arrives exactly if each output goes to the
  execution of the first one for its peer, each output for the user comes with a first
  one for the user, and the directories fit (`AllArriveIff`, `OneTargetIff`,
  `SecondReceiverIsMissed`).
- A local transfer picks its directory by the peer path, a package by the sender's
  interface, and the receiver looks by its own. A local MOUNT whose path reads as the
  input directory never sees its file (`SamePathMeetsIff`, `MountWithoutPathMissed`), and a
  remote MOUNT with a directory of its own sees no file of another name
  (`RemoteDirectoriesMeetIff`, `RemoteMountMissed`); the comment at
  internal/workers/data_worker.go:1298 expects entries below that directory.
- The comment at internal/core/job_manager.go:2900-2905 calls the row update on a
  transfer request critical and its key the sender's workflow job. The code passes the
  receiver's, and the update never changes a row (`UpdateOnTransfer`).
- A job can be executed twice if a start handler's second status write, a ticker's list
  or a cancellation is overtaken by other work. Dispatch before the interfaces exist
  never happens (`DispatchSafety`). `RaceFree` is sufficient for at most one execution
  (`AtMostOnce`) and for one payment outcome, which the row found at the end decides
  (`PaymentOutcome`); without any one of its clauses there is a run with two, in
  `ExecutorRaces.dfy`. With atomic handlers and one start per job it always holds
  (`JobManagers.JobManager.AtMostOncePerJob`).
- An execution that is polled before its first row exists is finalised as COMPLETED,
  and one whose RUNNING write comes after that keeps RUNNING for ever
  (`EmptyIsComplete`, `VerdictKeptIff`, `LeftRunning`).
- The sender cuts packages into chunks of 1 MB; the receiver writes them at multiples of
  its own `job_data_chunk_size`. With full reads a package of two or more chunks arrives
  intact exactly if that setting is 1 MB (`ReassembledIff`); with any reads, exactly if
  they are as many as announced and all but the last of the receiver's size
  (`ReadsReassembledIff`).
- The streaming decoder recovers a file exactly if its own reads end where those of the
  sender ended, which `os.File.Read` does not promise on either side (`RoundTripIff`);
  with full reads at the receiver, exactly if every read of the sender but the last
  filled the buffer (`FullReceiverIff`).
- The advertised wallet depends on the random order of the wallet list exactly if the
  default is on another network and the oldest creation time there is shared
  (`OrderIndependentIff`).

## Model

| member | source | states |
|---|---|---|
| Keys.KeyAtInjective | internal/crypto/key_derivation.go:50-84 | message keys of one chain are different for different numbers |
| DoubleRatchets.DoubleRatchet.constructor | internal/crypto/double_ratchet.go:36-80 | both constructors: given root and DH pair, unset chains, counters at zero, no skipped keys |
| DoubleRatchets.DoubleRatchet.Encrypt | internal/crypto/double_ratchet.go:85-111 | seals under the key of the current number and moves only the send chain and its counter |
| DoubleRatchets.DoubleRatchet.Decrypt | internal/crypto/double_ratchet.go:115-169 | new state and result, on success and on each error path, are those of the pure `Decrypted` |
| DoubleRatchets.DoubleRatchet.SkipAhead | internal/crypto/double_ratchet.go:138-147 | the skip loop keeps under its number the key of exactly each message it passes |
| DoubleRatchets.SkipOneMore | internal/crypto/double_ratchet.go:138-147 | skipping one further stores that message's key and advances the chain once |
| DoubleRatchets.DoubleRatchet.PerformDHRatchet | internal/crypto/double_ratchet.go:172-221 | fails exactly on a low-order key, which it stores all the same; otherwise both chains and the root are those of `Stepped` |
| DoubleRatchets.DoubleRatchet.InitializeChains | internal/crypto/double_ratchet.go:234-304 | fails exactly on a low-order key; both roles derive root and chains the same way |
| DoubleRatchets.DoubleRatchet.CleanupOldSkippedKeys | internal/crypto/double_ratchet.go:308-323 | removes exactly the keys below the threshold, only when there are too many |
| RatchetSession.SkipKeepsReceiver | internal/crypto/double_ratchet.go:138-147 | skipping keeps the receiver holding, of the passed numbers, the keys of exactly the pending ones |
| RatchetSession.PendingOpens | internal/crypto/double_ratchet.go:123-169 | whatever is sealed under the key of a pending number opens and uses up that number only |
| RatchetSession.FirstDelivery | internal/crypto/double_ratchet.go:115-169 | a pending message opens to its own text, ahead or behind the counter |
| RatchetSession.Redelivery | internal/crypto/double_ratchet.go:123-136 | a message whose number is used up or trimmed is refused with the state unchanged |
| RatchetSession.OpensIff | internal/crypto/double_ratchet.go:123-169 | under the current key a message is accepted if and only if it is sealed under the key of the pending number and the nonce it is announced with |
| RatchetSession.SentOpensIff | internal/crypto/double_ratchet.go:123-169 | of all ciphertexts sent, the ones accepted under number n are the peer's message n and one's own message n |
| RatchetSession.OwnMessageAccepted | internal/crypto/double_ratchet.go:234-304 | one's own message handed back is accepted, and the peer's message of that number is then refused |
| RatchetSession.RejectionLosesNothing | internal/crypto/double_ratchet.go:123-169 | after a message rejected under the current key, any number and ciphertext, every pending message still opens |
| RatchetSession.RejectionCostIff | internal/crypto/double_ratchet.go:115-169 | after any rejected message a pending message opens if and only if the rejected one came under the current key |
| RatchetSession.RejectionAfterRun | internal/crypto/double_ratchet.go:115-169 | the same after every run since the exchange |
| RatchetSession.UnusableKeyCostsAll | internal/crypto/double_ratchet.go:115-121 | an empty message under an unusable key is rejected and the next pending message does not open |
| RatchetSession.RejectionLasts | internal/crypto/double_ratchet.go:115-169 | after a message rejected under another key no message of the epoch opens, whatever further ones arrive in whatever order |
| RatchetSession.CleanupBound | internal/crypto/double_ratchet.go:308-323 | at most maxSkip keys are left, and those are unchanged, for every ratchet whose skipped numbers are below the counter |
| RatchetSession.CleanupKeepsRecent | internal/crypto/double_ratchet.go:308-323 | for every ratchet, a message that opens still opens after cleaning if and only if nothing was trimmed, it has not been passed, or it is among the last maxSkip numbers |
| RatchetSession.CleanKeepsReceiver | internal/crypto/double_ratchet.go:308-323 | cleaning, repeated at any time, keeps the invariant with exactly the trimmed numbers added to the lost ones |
| RatchetSession.StepKeepsSession | internal/crypto/double_ratchet.go:85-169 | every send, delivery, injection and cleanup keeps the session, stays in the epoch, and uses up or trims exactly the numbers it says |
| RatchetSession.RunKeepsSession | internal/crypto/double_ratchet.go:85-169 | the same over runs of any length |
| RatchetSession.RunDelivers | internal/crypto/double_ratchet.go:115-169 | only a message under a number uses it up, and a delivered number is used up or had been trimmed |
| RatchetSession.ExchangeStartsSession | internal/crypto/chat_crypto_manager.go:95-189 | the state after the exchange meets the invariant |
| RatchetSession.DeliveryTheorem | internal/crypto/double_ratchet.go:85-169 | after any run of traffic, injections and cleanups: no number twice, every text sent under its number; a message opens to its own text if and only if its number is neither used up nor trimmed, and is else refused without effect; no DH step has happened |
| RatchetSession.PlainDelivery | internal/crypto/double_ratchet.go:85-169 | if nothing injected opens and no cleanup trims anything, a side holds exactly what was delivered, each text as the peer sent it |
| RatchetSession.ReflectedRun | internal/crypto/double_ratchet.go:234-304 | a run in which the initiator accepts a text while the responder has sent nothing |
| RatchetAlternation.AnsweringStep | internal/crypto/double_ratchet.go:172-221 | answering the leader's key gives its send chain as receive chain, its root as intermediate root, and swaps the roles |
| RatchetAlternation.StepsMeetIff | internal/crypto/double_ratchet.go:172-221 | two consecutive steps derive one chain if and only if the second party was one root derivation ahead |
| RatchetAlternation.ExchangeIsNoHeadStart | internal/crypto/double_ratchet.go:172-221 | two sides on one root never meet, whichever usable key the first step was taken against |
| RatchetAlternation.ExchangeStepSplitsIff | internal/crypto/double_ratchet.go:115-221 | after any run since the exchange, whatever x is handed, its next message opens at y if and only if that came under the key of the exchange or an unusable one and y has not used up the number |
| RatchetAlternation.SettledHoldsNone | internal/crypto/double_ratchet.go:172-221 | no key stored before a step belongs to the chain the step opens |
| RatchetAlternation.StepThenReceive | internal/crypto/double_ratchet.go:115-121 | the first arrival takes the DH step and is then received on the new chain |
| RatchetAlternation.ReceiveAllKeeps | internal/crypto/double_ratchet.go:115-169 | any sequence of arrivals, with repeats, leaves exactly the arrived messages as they were sent |
| RatchetAlternation.OneTurn | internal/crypto/double_ratchet.go:115-221 | one turn with any messages arriving in any order and any number of times: exactly those are held, the others still open, the repeated ones are refused, and the lead is handed over |
| RatchetAlternation.AlternationTheorem | internal/crypto/double_ratchet.go:115-221 | the same in every one of any number of turns |
| RatchetAlternation.ActKeepsParity | internal/crypto/double_ratchet.go:85-221 | a ratchet step derives two roots, and nothing else derives any |
| RatchetAlternation.NeverLeads | internal/crypto/double_ratchet.go:85-221 | from roots of equal parity, as a completed exchange leaves them, no sequence of sends, receipts of anything and cleanups makes either side lead |
| KeyExchange.ChatCryptoManager.InitiateKeyExchange | internal/crypto/chat_crypto_manager.go:51-92 | fails exactly on an unusable identity key; otherwise one new ratchet with the shared identity secret, other conversations untouched |
| KeyExchange.ChatCryptoManager.AcceptKeyExchange | internal/crypto/chat_crypto_manager.go:128-189 | accepts exactly a usable offer whose key the remote node itself signed, and stores a ratchet on the offered key; anyone else's signature is refused without effect |
| KeyExchange.ChatCryptoManager.CompleteKeyExchange | internal/crypto/chat_crypto_manager.go:95-125 | accepts exactly a usable answer, signed by the remote node itself, to a known conversation and derives the chains from its key; a signed but unusable key is stored, other failures change nothing |
| KeyExchange.ChatCryptoManager.Encrypt1on1Message | internal/crypto/chat_crypto_manager.go:192-217 | fails exactly for an unknown conversation; the number reported is the one the message was sealed under |
| KeyExchange.ChatCryptoManager.Decrypt1on1Message | internal/crypto/chat_crypto_manager.go:220-242 | fails without effect for an unknown conversation, else is the ratchet's Decrypt |
| KeyExchange.HonestExchange | internal/crypto/chat_crypto_manager.go:51-189 | an honest exchange ends in the state from which the delivery theorem starts, with its root derived from that of its chain, whatever either side held before |
| KeyExchange.OfferedExchange | internal/crypto/chat_crypto_manager.go:51-189 | before the answer arrives the responder leads the initiator, so the alternation theorem starts there |
| SenderKeys.GroupSenderKeys.constructor | internal/crypto/sender_keys.go:29-62 | a new group holds our own random chain at number zero |
| SenderKeys.GroupSenderKeys.WithExistingKey | internal/crypto/sender_keys.go:65-81 | a group restored from one stored key |
| SenderKeys.GroupSenderKeys.EncryptGroupMessage | internal/crypto/sender_keys.go:85-124 | seals under the current number and advances our chain by one, with a signature of 64 bytes; fails exactly without our key |
| SenderKeys.GroupSenderKeys.DecryptGroupMessage | internal/crypto/sender_keys.go:127-181 | refuses without effect any signature length but 64 and any unknown sender; otherwise new sender key and result are those of the pure `GroupDecrypted`, other senders untouched |
| SenderKeys.Relayed | internal/crypto/sender_keys.go:85-181 | what an author encrypts, a member in step with it reads as written, signature included, and both stay in step |
| SenderKeys.GroupSenderKeys.AddSenderKey | internal/crypto/sender_keys.go:185-194 | replaces one sender's state and no other |
| SenderKeys.GroupSenderKeys.GetOurSenderKeyState | internal/crypto/sender_keys.go:206-213 | hands out our chain and number as they stand |
| SenderKeys.AcceptsIff | internal/crypto/sender_keys.go:127-181 | a member on the chain accepts exactly a box sealed under the key of a number at or past its counter, and stays on the chain either way |
| SenderKeys.ReadIff | internal/crypto/sender_keys.go:127-181 | a post is read if and only if its number is at least the counter, with the posted text, and otherwise nothing changes |
| SenderKeys.ReplayIsPost | internal/crypto/sender_keys.go:127-181 | a posted ciphertext that opens is the post itself |
| SenderKeys.StepKeepsGroup | internal/crypto/sender_keys.go:85-213 | posts, joins, deliveries and injected messages keep author and members on the author's chain |
| SenderKeys.RunKeepsGroup | internal/crypto/sender_keys.go:85-213 | the same over runs of any length |
| SenderKeys.GroupDelivery | internal/crypto/sender_keys.go:85-213 | after any run a member has read posts of increasing number as written, none from before it joined, and reads post k if and only if k is past all of them and not below any number it rejected |
| SenderKeys.LateJoinerReadsSuffix | internal/crypto/sender_keys.go:127-213 | handed the posts in order, a member at counter n reads exactly those from n on |
| SenderKeys.RejectionCost | internal/crypto/sender_keys.go:146-168 | after a rejected message a post is readable if and only if it was before and its number is not below the rejected one; the member stays on the chain |
| GroupKeyStore.GroupStore.LoadGroupSenderKey | internal/crypto/chat_crypto_manager.go:494-530 | one stored row is added; our own row sets our peer and signing key |
| GroupKeyStore.LoadAllHolds | internal/crypto/chat_crypto_manager.go:494-530 | the loaded group holds exactly the rows, each as stored |
| GroupKeyStore.LoadOrderIndependentIff | internal/crypto/chat_crypto_manager.go:494-530 | loading is independent of the order if and only if our row is among them or there is at most one |
| JobTables.Tables.CreateJobInterface | internal/database/job_executions.go:477-497 | a successful INSERT appends one row with a new id |
| JobTables.Tables.CreateJobInterfacePeer | internal/database/job_executions.go:500-530 | a successful INSERT appends one peer row |
| JobTables.Tables.UpdateJobInterfacePeerJobExecutionID | internal/database/job_executions.go:623-645 | changes the execution id of exactly the rows that match job, peer, workflow job and OUTPUT |
| JobTables.InterfacesOfMember | internal/database/job_executions.go:477-530 | every stored peer row shows up in the interfaces of its job |
| WorkflowIds.ParseInterfaces | internal/core/workflow_manager.go:725-756 | interfaces and peers in order, an empty peer id replaced by the local one, node id, path, file name, mount function and acknowledgement copied, no execution yet |
| WorkflowIds.ParseWorkflowDefinition | internal/core/workflow_manager.go:653-763 | the same for every job of the definition |
| WorkflowIds.BuildCompleteInterfaces | internal/core/workflow_manager.go:603-646 | the workflow job of a peer replaced where its node is known, its execution filled in where that is known, everything else and every unknown id as it was |
| WorkflowIds.RebuildMaps | internal/core/job_manager.go:2587-2604 | the two maps of a start request: identity on exactly the workflow jobs it names, and for each the execution of the last peer that names it with one |
| WorkflowIds.CreateJobInterfaces | internal/core/job_manager.go:2259-2314 | the rows stored for the job, in order, are the request translated through the maps, less exactly what failing INSERTs skip |
| WorkflowIds.KeptAt | internal/core/job_manager.go:2276-2312 | of the peers of an interface exactly those whose INSERT succeeded are left, each behind as many as succeeded before it |
| WorkflowIds.WrittenAt | internal/core/job_manager.go:2262-2275 | the same for interfaces, a failed one taking its peers with it |
| WorkflowIds.RekeyedIsStarted | internal/core/job_manager.go:2587-2613 | through rebuilt maps the second translation changes nothing but execution ids |
| WorkflowIds.HandleJobStart | internal/core/job_manager.go:2564-2613 | an unknown job is refused without effect; otherwise the stored interfaces are those of the request that could be written |
| WorkflowIds.PeerExact | internal/core/job_manager.go:2587-2604 | a peer whose node has a row is stored with exactly its workflow job and execution, and its peer, path, file name, mount function and acknowledgement as defined, whatever the others are |
| WorkflowIds.TranslationExactIff | internal/core/workflow_manager.go:603-646 | parse, complete, rebuild and store compose to the exact translation, every field of every peer, if and only if every node named has a row |
| WorkflowIds.StoredExactIff | internal/core/job_manager.go:2259-2314 | with failing INSERTs: the stored rows are the exact translation if and only if every INSERT succeeds and every node named has a row |
| WorkflowPhases.CreateWorkflowJobs | internal/core/workflow_manager.go:304-329 | one row per definition whose INSERT succeeded |
| WorkflowPhases.NodeToWorkflowJob | internal/core/workflow_manager.go:334-338 | the map holds each definition's workflow job and nothing else, in any iteration order |
| WorkflowPhases.OfferJobs | internal/core/workflow_manager.go:340-407 | exactly the accepted jobs know their execution afterwards |
| WorkflowPhases.NodeToExecution | internal/core/workflow_manager.go:417-435 | the map holds each accepted definition's execution and nothing else |
| WorkflowPhases.BuildIdMaps | internal/core/workflow_manager.go:292-435 | exactly the created definitions map to their workflow job, exactly the accepted ones of them to their execution; the maps meet the hypotheses of the translation theorem |
| TransferPaths.RowIsExact | internal/core/job_manager.go:2259-2314 | the row at a position is the exact translation of the definition there |
| TransferPaths.JoinLaws | internal/utils/path_builder.go:79-109 | joining goes element by element: a plain name is appended, the empty one and `.` change nothing, `..` takes one off |
| TransferPaths.SplitGlued | internal/utils/path_builder.go:86-107 | the elements of a path hold no slash and glue back to the path |
| TransferPaths.LocalPathsMeetIff | internal/core/job_manager.go:1205-1285 | for every edge on one peer the file lies below the directory of the same orchestrator, jobs and executions, and the receiver sees it if and only if its interface directory lies on the way to where the peer path leads |
| TransferPaths.SamePathMeetsIff | internal/core/job_manager.go:1273-1283 | with one path on both ends a MOUNT sees its file if and only if the path does not read as the input directory, a STDIN if and only if it leads there |
| TransferPaths.MountWithoutPathMissed | internal/database/workflows.go:420-467 | a MOUNT left without a path, which both ends then call "input/", never sees its file |
| TransferPaths.RemotePathsMeetIff | internal/core/job_manager.go:3268-3317 | for every edge between two peers a file in a package addressed by some output is seen if and only if that output goes to the same execution and the directories fit |
| TransferPaths.RemoteDirectoriesMeetIff | internal/utils/transfer_package.go:292-330 | a STDIN sees exactly what comes from a STDOUT, STDERR or LOGS; a MOUNT only a file placed at the top directory its path leads to, or the file its path names |
| TransferPaths.RemoteMountMissed | internal/core/job_manager.go:961-985 | a MOUNT at a directory of its own never sees a remote file of another name |
| TransferPaths.UserPathsAgree | internal/core/job_manager.go:1217-1249 | a local transfer to the user and a package addressed to the user end in one directory |
| Packages.CollectOutputs | internal/core/job_manager.go:808-1103 | the loops collect, in order, the files that `CollectedIff` characterises |
| Packages.CollectedIff | internal/core/job_manager.go:808-1103 | an output is collected if and only if it is a file of an interface other than STDIN for one of its peers with mount function INPUT, or an additional file for such a peer of the first STDOUT interface |
| Packages.AddressPackages | internal/core/job_manager.go:1106-1166 | one package per remote peer, addressed by the first output collected for it |
| Packages.AddressedBy | internal/core/job_manager.go:808-1166 | the package for a peer is addressed by the first such peer entry of the first interface with a file for it |
| Packages.JobSeesIff | internal/core/job_manager.go:1152-1166 | a file for a job is seen if and only if the first output for its peer goes to the same execution and the directories fit |
| Packages.UserGetsIff | internal/core/job_manager.go:2776-2870 | a file for the user arrives if and only if the first output for the orchestrator is for the user |
| Packages.AllArriveIff | internal/core/job_manager.go:774-1166 | everything a job sends to other peers, jobs or the user, arrives if and only if these conditions hold of every collected file |
| Packages.OneTargetIff | internal/core/job_manager.go:774-1166 | where every output has its receiving end, everything arrives if and only if what is collected for each remote peer has one target and the directories fit |
| Packages.SecondReceiverIsMissed | internal/core/job_manager.go:1152-1166 | a definition whose second receiver on a peer never finds its input |
| TransferPaths.UpdateOnTransfer | internal/core/job_manager.go:2900-2920 | the row update on a transfer request changes no row, so the paths still meet |
| Executor.StepDispatchSafe | internal/core/job_manager.go:2564-2662 | every single read or write keeps: dispatched, or about to be released, only with interfaces |
| Executor.DispatchSafety | internal/core/job_manager.go:221-297 | the same over every interleaving of handlers, tickers, workers, cancellations and transfers |
| Executor.DispatchedHasInterfaces | internal/core/job_manager.go:3374-3452 | from the empty executor: a job that is READY, RUNNING, COMPLETED, ERRORED or in the pool has had its interface pass |
| Executor.StepOnceEach | internal/core/job_manager.go:300-426 | every step that acts on unchanged reads keeps the accounting of runs and payments |
| Executor.RunOnceEach | internal/core/job_manager.go:221-426 | the same over runs |
| Executor.AtMostOnce | internal/core/job_manager.go:256-360 | over every race-free run a job runs at most once and is settled or refunded at most once, settled only after a COMPLETED write; cancels and a pool faster than the marking included |
| Executor.PaymentOutcome | internal/core/job_manager.go:309-360 | over every race-free run a job that is done has been settled, once, if and only if its deferred block found it paid with a COMPLETED row, and refunded, once, if and only if it found it paid with an ERRORED or CANCELLED one |
| ExecutorRaces.LateStartWrite | internal/core/job_manager.go:2617-2649 | a start handler's second status write after the job ran makes it run twice |
| ExecutorRaces.LateIdleWrite | internal/core/job_manager.go:3374-3452 | so does an idle tick that works from an old list |
| ExecutorRaces.StaleQueueList | internal/core/job_manager.go:225-295 | so does a queue tick that works from an old list after a cancellation |
| ExecutorRaces.LateCancel | internal/core/job_manager.go:2372-2389 | so does a cancellation that unmarks a job released meanwhile |
| ExecutorRaces.RepeatedStart | internal/core/job_manager.go:2316-2369 | so does a second start command |
| JobManagers.JobManager.HandleJobRequest | internal/core/job_manager.go:2521-2550 | a new row is IDLE and not started, with its payment; still a race-free run |
| JobManagers.JobManager.HandleJobStart | internal/core/job_manager.go:2564-2662 | the row ends READY, or IDLE while its inputs are missing; a run of the machine, race-free if it is the job's first start |
| JobManagers.JobManager.CheckIdleJobsForReadiness | internal/core/job_manager.go:3374-3452 | exactly the started IDLE rows whose checks succeed become READY; a race-free run |
| JobManagers.JobManager.ProcessJobQueue | internal/core/job_manager.go:221-297 | exactly the local READY rows not running whose inputs are there are queued once and marked; a race-free run |
| JobManagers.JobManager.BeginJob | internal/core/job_manager.go:385-398 | a queued task becomes a running one; a race-free run |
| JobManagers.JobManager.FinishJob | internal/core/job_manager.go:429-456 | the outcome is written; a race-free run |
| JobManagers.JobManager.DeferredBlock | internal/core/job_manager.go:301-360 | unmarks the job; a paid COMPLETED one is settled once more, a paid ERRORED or CANCELLED one refunded once more, any other neither; a race-free run |
| JobManagers.JobManager.CancelJob | internal/core/job_manager.go:2372-2389 | CANCELLED is written and the job unmarked, in any status; a race-free run |
| JobManagers.JobManager.FinalizeTransfer | internal/workers/data_worker.go:1410-1424 | completes exactly a RUNNING job; a race-free run |
| JobManagers.JobManager.AtMostOncePerJob | internal/core/job_manager.go:256-360 | with atomic handlers and one start per job, at all times: one execution at most, one payment outcome at most, settled only if completed, executed only with interfaces |
| Finalisation.CountRows | internal/core/workflow_manager.go:1160-1191 | the counting loop finalises if and only if every row is terminal, and says FAILED if and only if some row is not COMPLETED, with their number |
| Finalisation.FailedRowsAre | internal/core/workflow_manager.go:1160-1176 | the number of failed rows is that of the rows ERRORED, CANCELLED or FAILED |
| Finalisation.FinalisedAtMostOnce | internal/core/workflow_manager.go:1064-1089 | over any run each execution is finalised at most once, exactly when it was registered and is no longer active |
| Finalisation.VerdictKeptIff | internal/core/workflow_manager.go:255-263 | the verdict stays for ever unless the execution's own RUNNING write was still to come, and then RUNNING stays |
| Finalisation.EmptyIsComplete | internal/core/workflow_manager.go:1160-1188 | an execution without rows is finalised as COMPLETED |
| Finalisation.LeftRunning | internal/core/workflow_manager.go:255-271 | a run that leaves an execution RUNNING with nobody polling it |
| Finalisation.WorkflowManager.UpdateActiveWorkflowStatuses | internal/core/workflow_manager.go:1064-1089 | one poll removes exactly the executions whose rows are all terminal and gives each its verdict |
| Modular.ModInverse | internal/crypto/chat_crypto_manager.go:593-598 | an inverse below the modulus if and only if one exists |
| Bytes.ReverseBytes | internal/crypto/chat_crypto_manager.go:639-645 | the loop returns the bytes in reverse |
| Bytes.BigOfReversed | internal/crypto/chat_crypto_manager.go:578-579 | reversed bytes read big-endian are the bytes read little-endian |
| Bytes.DecodeEncode | internal/crypto/chat_crypto_manager.go:603-608 | pad, reverse and decode gives every number that fits back |
| Bytes.EncodeDecode | internal/crypto/chat_crypto_manager.go:603-608 | decode and encode gives every byte string back |
| Curve.MontgomeryUnique | internal/crypto/chat_crypto_manager.go:580-601 | the field equation has at most one solution u, for every odd modulus |
| Curve.MontgomeryInjective | internal/crypto/chat_crypto_manager.go:580-601 | different y have different u, from (1+u)(1-y) = 2 and the modulus being odd alone |
| Curve.SameKeyIff | internal/crypto/chat_crypto_manager.go:535-611 | two keys convert to the same key if and only if their y are congruent |
| Curve.YOfIs | internal/crypto/chat_crypto_manager.go:545-548 | the y-coordinate is the key read little-endian without its highest bit |
| Curve.SignBitIgnored | internal/crypto/chat_crypto_manager.go:545-548 | the sign bit does not reach the result |
| Curve.Ed25519PublicKeyToCurve25519 | internal/crypto/chat_crypto_manager.go:535-611 | succeeds if and only if some u solves u(1-y) = 1+y, and then returns its only 32-byte encoding below p |
| Curve.OneHasNoImage | internal/crypto/chat_crypto_manager.go:593-598 | a y congruent to 1 has no u, in any encoding |
| Curve.ClampedRange | internal/crypto/chat_crypto_manager.go:630-633 | the scalar is a multiple of 8 in [2^254, 2^255) for every hash |
| Curve.ClampedTwice | internal/crypto/chat_crypto_manager.go:630-633 | clamping is idempotent |
| Curve.Ed25519PrivateKeyToCurve25519 | internal/crypto/chat_crypto_manager.go:615-636 | fails exactly on a wrong length; otherwise the clamped first half of the hash, in range |
| Streaming.XorCounter | internal/core/job_manager.go:1409-1414 | the inner loop gives the nonce with the counter bytes folded into its first eight |
| Streaming.XorLaws | internal/core/job_manager.go:1412-1414 | the folding is exclusive-or: it can be undone, zero does nothing, the order does not matter, lowest bits add modulo two |
| Streaming.CounterBytesAre | internal/core/job_manager.go:1413 | the bytes folded in are the counter, lowest first |
| Streaming.NoncesDistinct | internal/core/job_manager.go:1409-1414 | no two counters below 2^64 share a nonce |
| Streaming.EncryptFileStreaming | internal/core/job_manager.go:1384-1428 | the nonce, then each read sealed under its own nonce, for any sequence of reads |
| Streaming.ChunkInOutput | internal/core/job_manager.go:1384-1428 | chunk k lies behind the nonce and the earlier chunks with their 16-byte tags, sealed under the nonce of counter k, for files of at most 2^64 reads |
| Streaming.OutputNoncesDistinct | internal/core/job_manager.go:1409-1424 | no two chunks of one output are sealed under the same nonce |
| Streaming.DecryptFileStreaming | internal/workers/data_worker.go:1532-1608 | opens each block as read, for any sequence of reads, and fails at the first that does not open |
| Streaming.RoundTripIff | internal/workers/data_worker.go:1562-1605 | for any reads on both sides the file comes back if and only if the receiver's reads end where the sender's ended; otherwise an error, never other contents |
| Streaming.FullReceiverIff | internal/workers/data_worker.go:1562-1605 | with full reads at the receiver, if and only if every read of the sender but the last was full |
| Streaming.FullReadsRoundTrip | internal/core/job_manager.go:1395-1425 | with full reads every file comes back and the output is 12 + n + 16*ceil(n/65536) long |
| Streaming.WrongKey | internal/workers/data_worker.go:1590-1594 | under another key no non-empty file comes back, however it is read |
| PackageTransfer.ChunksAreTheFile | internal/core/job_manager.go:1485-1486 | the chunks joined are the file, there is at least one, and exactly the final one is last |
| PackageTransfer.SendWithRetry | internal/core/job_manager.go:1594-1612 | a chunk goes through if and only if one of three attempts does |
| PackageTransfer.TransferPackageRemotely | internal/core/job_manager.go:1566-1619 | for any reads: succeeds if and only if every chunk goes through; what was sent are the first reads in order with their numbers, all of them on success |
| PackageTransfer.AsAnnouncedIff | internal/core/job_manager.go:1566-1592 | what is sent are the announced chunks, each in its place, if and only if every read but the last filled the buffer |
| PackageTransfer.IncomingTransfer.HandleDataChunk | internal/workers/data_worker.go:1026-1189 | the announced total is taken over; a repeated chunk changes nothing else, a new one is written at its index times the receiver's chunk size; true exactly for the new chunk that makes as many as announced |
| PackageTransfer.CompleteIff | internal/workers/data_worker.go:1101-1102 | with as many reads as announced, complete if and only if every chunk has arrived; with more reads, some chunk is missing when it is complete |
| PackageTransfer.ReassembledIff | internal/workers/data_worker.go:1077-1094 | with full reads at the sender, for every file, the complete file is the sender's if and only if the receiver's chunk size is 1 MB or there is one chunk |
| PackageTransfer.ReadsReassembledIff | internal/workers/data_worker.go:1077-1102 | for any reads, the complete file is the sender's if and only if the reads are as many as announced and all but the last of the receiver's chunk size |
| PackageTransfer.EndToEnd | internal/workers/data_worker.go:1192-1259 | for any reads of an encrypted package and any deliveries, what completes is the package sent under exactly that condition, and it then decrypts to the file |
| Wallets.ChosenStep | internal/core/peer.go:2148-2177 | the loop's comparison keeps the choice right when one wallet is added |
| Wallets.PopulateWalletCapabilities | internal/core/peer.go:2145-2184 | for every network with a wallet the default if it is there, else the earliest created, first on ties; panics exactly if a wallet selected at some time has an address shorter than 8 |
| Wallets.OrderIndependentIff | internal/core/peer.go:2145-2184 | with distinct ids the choice is the same in every list order if and only if the default is on the network or one wallet is strictly oldest |

## Left out

- X25519, HKDF, secretbox, AES-GCM, SHA-512 and Ed25519 signatures are symbolic: equal inputs give equal results, different derivations different ones, and only the right key and nonce open a box. Failures of the random source do not occur.
- Group signatures are a length check only, as the placeholder functions of internal/crypto/sender_keys.go:215-238 are.
- Messages from an earlier DH epoch, and messages carrying another DH key, in the runs of the delivery theorem: Decrypt ratchets before it opens, so the theorem is about one epoch, and `RejectionCostIff` says what such a message costs.
- Ciphertexts that an outsider seals under a key of the current chain: the network of `RatchetSession` can inject what was sent and what is rejected.
- Traffic before CompleteKeyExchange and a second answer to one exchange.
- Counters of the ratchet, of ids and of files are unbounded integers; the 64-bit counter of the streaming nonce is modelled with its wrap-around.
- Storage of ratchets and sender keys under the master key (internal/crypto/chat_crypto_manager.go:266-352, 462-491).
- Executor.RunOnceEach: assumes that database writes succeed and that a job does not panic, because a failed RUNNING write ends the job without an outcome and the recover block refunds a second time.
- Executor.AtMostOnce: `RaceFree` is sufficient, not necessary; `ExecutorRaces` shows for each clause a run with a second execution, and some racing steps are harmless.
- The legacy path that sends a READY remote job to its executor (internal/core/job_manager.go:3075-3180): the queue tick of the model skips such jobs.
- SubmitJob with interfaces in one step, which no caller uses (internal/core/job_manager.go:2041-2199); the pending-transfer test, which filters on a direction that is never stored.
- recoverRunningWorkflows, the write-backs of requestJobStatus and CancelWorkflow.
- TransferPaths.LocalPathsMeetIff: paths below the directory of one transfer are compared after filepath.Clean; a path that climbs out of that directory with `..` is kept as it is and not resolved against it. The content that the package archive itself is, while it is being received, is not modelled.
- Packages.SecondReceiverIsMissed: one concrete definition; the general condition is AllArriveIff.
- Transfers of DATA services and of standalone jobs, which take paths of their own.
- WorkflowIds.ParseWorkflowDefinition: starts from the decoded definition, because JSON errors and the service fields play no part in the translation.
- JobTables.Tables.CreateJobInterface: the INSERT that succeeds; one that fails is skipped by the caller, as `WorkflowIds.CreateJobInterfaces` says.
- JobTables.Tables.CreateJobInterfacePeer: likewise.
- Finalisation.WorkflowManager.UpdateActiveWorkflowStatuses: without the status requests of the same loop, which write job_executions and not the rows that are counted.
- Panics of `[:8]` slices of short peer ids in log lines; those of wallet addresses are modelled.
- Modular.ModInverse: the library's algorithm is replaced by the extended Euclidean one with the same contract.
- Curve.Ed25519PrivateKeyToCurve25519: the hash of the seed is a parameter, because SHA-512 is not part of this model; the bit masks are written as arithmetic on bytes.
- PackageTransfer.ReadsReassembledIff: of files in which a gap shows, as it does in every encrypted package, because a gap that happens to hold zeros where the file does cannot be told from the file; a repeat after completion is not modelled.
- The comparison of the package hash at the receiver: `EndToEnd` says when the contents agree, so when it can succeed.
- Payment amounts, prices, wall-clock times, back-off delays, tickers and logging.
- REST and WebSocket handlers, the command line, TLS, Docker and standalone execution, archives and SQL: only input and output.
