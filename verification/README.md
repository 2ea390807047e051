# tie-core in Dafny

A model of the parts of tie-core that carry its safety: the PVBFT consensus node, the state journal and
block executor, the transaction pool and block building, fork choice and chain sync, and the arithmetic and
codecs under them. Each part is written in the form of the Go code (objects with fields and loops where the Go
code has them, functions where it only computes) and proved against a plain definition of what it is for.

`dafny verify dfyconfig.toml` checks the whole project.

| files | what they model |
|---|---|
| Pvbft, Rounds, Runs, MsgQueue, Ibft | one consensus node as a transition function, how it changes rounds, runs that show where its properties need their hypotheses, and its state loops and queues as objects that refine it |
| Quorum, Proposals, Network, NoFaults, NetRuns, Agreement | quorums of seals, what a node proposes, N nodes as one transition system, agreement between them with F = 0, runs of the network, and the exact condition for agreement |
| Journal, Txn, Refund | the overlay over a committed state with snapshots and shared log lists, on values and as objects, and the storage refund counter |
| Calls, Host, Executor | calls, creations and transfers as functions and as methods on the journal; transactions, receipts and blocks |
| Accounts, TxPool, BlockBuilder, Heap | nonce queues, the pool with its price queue and slot gauge, the block-building pass, and the binary heap all queues share |
| Chain, Syncer | the header tree, head choice, the canonical index; the search for a common ancestor |
| Lucas, Primes, Decompress, Rlp, Extra | the Lucas ladder, square roots and point decompression, RLP and the header's extra data |
| Modular, Words, Sums, Types | congruences, 64-bit words, sums over maps |

Hash functions, signature recovery, the interpreter, the validator verdict on a proposal, peers, the database
below the maps, random numbers and time are parameters, and the theorems hold for all of them.

## Where the code falls short of a stated property

In each case the model keeps the behaviour of the code, a lemma gives the input, and the exact condition is
proved.

- A node seals one header per height on all runs exactly when block writes never fail after the unlock and a
  proposal is only accepted at the height of the view, whatever the proposer draw (`Runs.SealsOnceExactly`).
  The code rules out neither.
- Two commit quorums share an honest validator exactly when N = 3F + 1 (`Quorum.QuorumsMeetExactly`).
- Committed headers agree on all runs of the network exactly when F = 0, whatever the proposer draw. For F > 0
  and every N one faulty proposer is enough to have any two headers of one height sealed by all honest validators:
  seals are not checked when they are tallied, so a bad one in its commit message makes every write fail after
  the unlock (`NetRuns.FailedWritesFork`). Over the runs in which no honest insertion fails after the unlock and
  accepted proposals have the height of the view, agreement holds exactly when F = 0 or N = 3F + 1; with either of
  the two left open it needs F = 0 (`Agreement.AgreementExactly`, `Agreement.Agreement`).
- Within a height the round can go back to 0, when a block that a node is locked on since the height before is
  inserted (`Pvbft.RoundNeverDecreases`, `Runs.RoundCanDecrease`).
- A revert restores accounts and refund always. It restores the logs on all runs exactly when no revert in between
  went further back, or append never leaves room to spare: the log list is a slice that snapshots share, and a
  log may be written over one that a later snapshot still shows (`Journal.RestoresExactly`, `Journal.LateRevert`).
- With F = 0 no round is entered on the round change messages of validators, because NumValid is 0; a message of
  somebody else enters one (`Rounds.RoundsWithoutFaults`). The votes that make a node catch up with a higher round
  are forgotten when it moves there (`Rounds.RoundAfterMessages`).
- maxRound never finds a round: the tallies are cleared before it is asked (`Pvbft.MaxRoundNeverFound`).
- For even k the Lucas ladder returns a multiple of the modulus in place of U(k) (`Lucas.FastLucasSequence`).
- For p = 1 mod 4 the root 0 is not found (`Decompress.CurveSqrt`).
- An extra with an empty committed seal does not decode (`Extra.ExtraRoundTrip`).
- The refund counter can go below zero exactly when a transaction starts with slots that an earlier transaction
  of the block zeroed and the counter does not cover them (`Refund.NeverWrapsExactly`).
- Gas is not conserved exactly for creations whose input contains the fixed reward method and whose gas limit is
  below the intrinsic cost (`Executor.GasAddsUpExactly`), and then the sum of all balances is kept exactly when the
  gas price is 0 or the address of the contract is taken (`Executor.ConservesExactly`); a transaction rejected
  after its gas was taken from the pool does not give it back (`Executor.Transition.Write`).
- A nonce enqueued twice breaks the gap-free order, and nothing else does (`Accounts.Account.Enqueue`).
- A header that is heavier than the head and whose number does not continue its parent makes the walks of
  handleReorg end at one header exactly when its number is above the head's and its parent is not below the
  head (`Chain.Blockchain.Meet`, `Chain.Blockchain.Branches`).
- The price queue compares the low 64 bits of gas prices: the transaction it gives is the dearest as long as all
  prices fit in 64 bits (`TxPools.BestIsDearest`), and need not be otherwise (`TxPools.WrappedPriceLoses`).
- Pop takes the sender's head and frees the slots of the transaction it is given: the gauge stays right exactly when
  both need as many (`TxPools.TxPool.Pop`).
- The canonical index keeps entries of the old branch exactly when a reorganisation goes deeper than the parent
  of the old head or to a lower block (`Chain.ReorgIndexExact`).
- The common-ancestor search never asks for block 1 for certain bounds, and does not notice a different genesis
  (`Syncer.FindCommonAncestor`, `Syncer.MissesOneExactly`).

## Model

| member | source | states |
|---|---|---|
| Pvbft.InvRun | consensus/pvbft/ibft.go:734-1132 | every run of a node keeps its invariant: a block is present whenever the node is locked or validates, tallies hold only validators' messages of the current view while it counts, more than 2F prepare messages mean a lock, a commit means a seal sent |
| Pvbft.CommitQuorum | consensus/pvbft/ibft.go:907-941 | on every run from the start, CommitState is reached only with commit messages of exactly the current view from more than 2F distinct validators |
| Pvbft.MaxRoundNeverFound | consensus/pvbft/state.go:118-132 | on every run, when runRoundChangeState asks for it, maxRound finds nothing |
| Pvbft.RoundNeverDecreases | consensus/pvbft/ibft.go:1045-1132 | within a sequence no event lowers the round, except leaving SyncState or inserting a block locked since the height before |
| Pvbft.HeadRises | consensus/pvbft/ibft.go:984-1036 | on every run the head stays or gives way to a higher one, whatever is inserted or synced |
| Rounds.TalliesAreLastVotes | consensus/pvbft/state.go:195-214 | whatever messages of a sequence are tallied, the tallies hold for each validator its last prepare and commit message of the view and its last round change message of each round |
| Rounds.RoundAfterMessages | consensus/pvbft/ibft.go:1099-1132 | whatever messages a node reads that has begun to change rounds: it enters a round that 2F validators asked for, or else it is in the greatest round above its first that F + 1 asked for, with its own message for it sent, or in its first round if there is none, which then fewer than 2F asked for |
| Rounds.RoundsWithoutFaults | consensus/pvbft/ibft.go:1118-1122 | with F = 0 the messages of validators never make it enter a round; a message of another sender does, exactly for a round that nobody asked for |
| Rounds.RoundChangeBegins | consensus/pvbft/ibft.go:795-963 | a node begins to change rounds exactly on another block than the locked one, a block that fails verification, a failed insertion, a timeout, a proposal without a block or a block that was not built, and carries the error flag exactly in the first three cases; in the others the lock stays, and no block is held if none was built |
| Rounds.AsksForNextRound | consensus/pvbft/ibft.go:1045-1098 | on every run a node that begins to change rounds then asks for the next round, except that without an error and with a peer ahead it goes to sync |
| Rounds.ValidationBegins | consensus/pvbft/ibft.go:795-884 | a node validates a block exactly when it proposes it, locked on it or having built it, or reads it from the drawn proposer and is locked on it or has verified it; in the locked case it seals at once, otherwise it sends a prepare message |
| Rounds.SyncBegins | consensus/pvbft/ibft.go:744-766 | a node goes to sync exactly for a wrong height, a missing snapshot, not being a validator, or a peer that is ahead in a round change without an error |
| Runs.RoundCanDecrease | consensus/pvbft/ibft.go:944-962 | for every proposer draw and every valid block there is a run of one of four validators on which the insertion of such a block lowers the round |
| Pvbft.LockDiscipline | consensus/pvbft/ibft.go:786-884 | over every run without an insertion all seals emitted are for one block, the one the node is locked on at the end |
| Pvbft.ReachableSealsOnce | consensus/pvbft/ibft.go:893-962 | on every run whose writes succeed and whose accepted proposals have the view's height, a node seals at most one header per height, whatever proposers it draws |
| Runs.FailedWriteSealsTwice | consensus/pvbft/ibft.go:946-1000 | if a write may fail after the unlock, then for every proposer draw one of four validators can be brought, by one bad seal among the tallied ones, to seal two headers of one height |
| Runs.UncheckedHeightSealsTwice | consensus/pvbft/ibft.go:1220-1276 | if a proposal's height is not compared with the view, then for every proposer draw one of four validators can be brought to seal two headers of one height, though its writes succeed |
| Runs.SealsOnceExactly | consensus/pvbft/ibft.go:891-963 | all reachable nodes seal once per height if and only if neither of the two can happen, given that some block of height 1 is valid |
| Proposals.OnlyProposersPropose | consensus/pvbft/pos.go:50-68 | a proposal is sent only by the validator drawn from the head's seed, for the height above the head, and carries the block the node then holds |
| Proposals.ProposalInvStep | consensus/pvbft/ibft.go:795-941 | with F = 0 every step without a failed write keeps: one block proposed for each height, valid and held on to until the chain has a block of that height, seals only of blocks of the height of the view, and no lock outside the validate and commit states |
| Network.HonestRun | consensus/pvbft/ibft.go:403-447 | in every run of the network each honest validator is in a state that the node reaches on its own, under one proposer draw for all, and with writes that fail exactly when the block is not valid or a tallied seal does not cover its header |
| NoFaults.NetInvRun | consensus/pvbft/ibft.go:795-948 | with F = 0 every run of the network keeps: each sealed header was proposed for its height by the validator drawn on its parent, and sealed headers and chain heads of one height are equal |
| NoFaults.NoFailedWrite | consensus/pvbft/ibft.go:966-1000 | with F = 0 no write fails, in any state that the network keeps to: the block is valid and all tallied seals cover its header |
| NoFaults.NoFaultAgreement | consensus/pvbft/sign.go:172-219 | with F = 0, where one seal commits a header, two committed headers of one height are the same, on all runs and without a hypothesis on writes or heights |
| NetRuns.CommitPossible | consensus/pvbft/ibft.go:795-962 | for every proposer draw that falls on an honest validator and at most F faulty ones, all silent, the network has a run that commits any valid block of the first height, by seals of honest validators alone |
| NetRuns.FailedWritesFork | consensus/pvbft/ibft.go:944-1000 | if F > 0 and writes fail as in the code, then for every N, every proposer draw and any two headers of the first height the network has a run with one faulty validator, the drawn proposer, on which all honest validators seal both |
| NetRuns.UncheckedHeightsFork | consensus/pvbft/ibft.go:1220-1276 | if F > 0 and heights are not compared, then for every N, every proposer draw and every valid block of the first height the network has a run with one faulty validator on which all honest ones insert it and then seal any other header |
| NetRuns.QuorumsFork | consensus/pvbft/snapshot.go:300-313 | two quorums whose common members, the drawn proposer among them, are faulty can be brought to seal a header each, without an insertion |
| Agreement.Agreement | consensus/pvbft/sign.go:172-219 | with N = 3F + 1, at most F faulty validators, honest nodes on any runs and with any draws, no honest insertion that fails after the unlock and accepted proposals of the view's height, two headers of one height whose seals pass the check are the same header |
| Agreement.Disagreement | consensus/pvbft/ibft.go:891-1000 | if F > 0, and N is not 3F + 1 or writes may fail or heights are not compared, then for every proposer draw the network has a run with at most F faulty validators that commits two headers of one height |
| Agreement.AgreementExactly | consensus/pvbft/sign.go:172-219 | agreement holds on all runs of the network if and only if F = 0, or N = 3F + 1 and the runs have neither a failing write nor an accepted proposal of another height than the view's; for every proposer draw, given that some block of the first height is valid |
| Quorum.Index | consensus/pvbft/validator.go:157-164 | the first position of an address, or -1 exactly when it is not there |
| Quorum.QuorumIntersection | consensus/pvbft/snapshot.go:300-313 | with N = 3F + 1 two quorums of more than 2F members share a member outside any F faulty ones |
| Quorum.QuorumsNeedNotMeet | consensus/pvbft/validator.go:172-185 | for other N there are two quorums whose common members may all be faulty, any given validator among them if F > 0 |
| Quorum.QuorumsMeetExactly | consensus/pvbft/validator.go:172-185 | quorums always share an honest member if and only if N = 0 or N = 3F + 1 |
| Quorum.VerifyCommitedFields | consensus/pvbft/sign.go:172-219 | accepts exactly the lists of more than 2F valid seals of distinct validators, and otherwise names the fault of the first bad seal |
| Quorum.CommittedIsQuorum | consensus/pvbft/sign.go:172-219 | the signers of an accepted seal list are a quorum of the validators |
| MsgQueues.LessIsOrder | consensus/pvbft/msg_queue.go:178-190 | the message order is a strict weak order, as the heap needs |
| MsgQueues.DeliverableView | consensus/pvbft/msg_queue.go:35-76 | a delivered message has exactly the current view, or in RoundChangeState the current sequence and a round not below the current one |
| MsgQueues.ReadFrom | consensus/pvbft/msg_queue.go:42-75 | a least deliverable message if there is one, stale ones discarded, all others kept; no prepare message while a commit message of the view is queued, and the lowest round first in a round change |
| MsgQueues.MsgQueue.PushMessage | consensus/pvbft/msg_queue.go:25-32 | the message joins the queue of its state, and the other queues stay |
| MsgQueues.MsgQueue.ReadMessage | consensus/pvbft/msg_queue.go:35-76 | reads the queue of the state as ReadFrom does, and the other queues stay |
| MsgQueues.DueIsKept | consensus/pvbft/msg_queue.go:35-76 | a message that could be handed out and was not is still queued |
| Heap.Push | consensus/pvbft/msg_queue.go:25-32 | sifting up keeps the heap order and adds exactly the new element |
| Heap.Pop | txpool/queue.go:91-102 | removes exactly the root, which nothing comes before, and restores the heap order |
| Heap.RootIsLeast | txpool/queue.go:82-88 | no element of a heap comes before its root |
| Ibft.CurrentState.MaxRoundMessages | consensus/pvbft/state.go:118-132 | the loop over the round tallies finds the greatest round with more than F messages, in any order of the map |
| Ibft.CurrentState.DoAddMessage | consensus/pvbft/state.go:195-214 | tallies only validators' messages, one for each sender |
| Ibft.CurrentState.AddRoundMessage | consensus/pvbft/state.go:166-174 | tallies a round change message and returns how many its round has |
| Ibft.Ibft.Gossip | consensus/pvbft/ibft.go:1152-1192 | exactly one copy of our own message joins the queue of its state, except for a proposal, and a commit message seals the current block |
| Ibft.Ibft.GetNextMessage | consensus/pvbft/ibft.go:1324-1349 | what it returns is deliverable now, whatever arrives while it waits; if it returns nothing then nothing that is queued is; what was due and is not returned is still queued |
| Ibft.Ibft.NextVote | consensus/pvbft/ibft.go:907-919 | a validating node times out only after it has counted a vote of its own, and its own commit message if it has sealed |
| Ibft.Ibft.BeginAcceptState | consensus/pvbft/ibft.go:734-822 | entering AcceptState is the transition BeginAccept of the node |
| Ibft.Ibft.RunAcceptState | consensus/pvbft/ibft.go:734-886 | the whole state loop is an allowed run of the transition function that starts with entering the state and takes one message or timeout for each wait, until the state is left or the node closed |
| Ibft.Ibft.RunValidateState | consensus/pvbft/ibft.go:891-1000 | the whole state loop is such a run, followed by the insertion with all tallied commit messages if the node reaches CommitState |
| Ibft.Ibft.RunRoundChangeState | consensus/pvbft/ibft.go:1045-1132 | the whole state loop is such a run |
| Ibft.Ibft.RunSyncState | consensus/pvbft/ibft.go:476-553 | the whole state loop is a run of the transition function; it ends in AcceptState exactly when some turn finds the node in the validator set, with the view at round 0 of the next height |
| Ibft.Ibft.RunCycle | consensus/pvbft/ibft.go:425-447 | one turn of the machine, in whatever state, leads from a reachable node to a reachable node |
| Ibft.Ibft.Start | consensus/pvbft/ibft.go:403-421 | from its construction on, whatever it is answered, the object stands for a reachable node; so it seals one header per height if writes succeed and heights are checked |
| Journal.OverlayRefinesWorld | state/txn.go:96-246 | every operation on the overlay does to the fully written out state what the plain operation does |
| Journal.SettersRead | state/txn.go:325-404 | what is set is read back and nothing else of the account changes |
| Journal.MoneyLaws | state/txn.go:158-201 | adding and subtracting are setting the sum and the difference, too large a difference changes nothing, a reward to a suicided account starts it anew |
| Journal.LifeLaws | state/txn.go:441-555 | a created account keeps its balance and nothing else, a suicided one loses it, a touched one reads as before |
| Journal.LogLaws | state/txn.go:467-495 | logs are taken in the order they were emitted, and taking them leaves none; the refund counter adds and subtracts |
| Journal.EmitKeepsExactly | state/txn.go:213-246 | an emitted log leaves a snapshot as it was if and only if it does not go in place over another log of it |
| Journal.RevertRestores | state/txn.go:65-84 | reverting to a snapshot restores accounts and refund whatever operations, snapshots and reverts came in between, and the logs as well if none of the reverts went further back |
| Journal.LateRevert | state/txn.go:213-246 | with room for one more log: log A, a snapshot, a revert further back, log B, and the revert to the snapshot brings back B |
| Journal.RestoresExactly | state/txn.go:65-246 | reverts always restore everything if and only if none in between goes further back or append never leaves room to spare |
| Journal.RunRefinesPlain | state/txn.go:65-156 | on every run of operations, snapshots and reverts accounts and refund of the current state and of all snapshots are those of the same run on plain states, panics included |
| Journal.NestedRefinesPlain | state/txn.go:65-246 | on every run with nested reverts the whole current state is that of the run on plain states, logs included, and there is no panic |
| Journal.CommitReads | state/txn.go:593-643 | the base after a commit reads as the overlay did, less touched accounts that are suicided or, on request, empty |
| Txns.StateObject.Copy | state/state.go:152-190 | a fresh object with the same value |
| Txns.Txn.GetStateObject | state/txn.go:96-135 | a fresh copy of the account's object, from the overlay or the base, and none for a deleted one |
| Txns.Txn.GetBalance | state/txn.go:204-211 | the balance of the written out state, 0 for an absent account |
| Txns.Txn.GetNonce | state/txn.go:386-393 | the nonce of the written out state, 0 for an absent account |
| Txns.Txn.GetCodeHash | state/txn.go:431-438 | the code hash of the written out state, the zero hash for an absent account |
| Txns.Txn.GetState | state/txn.go:344-367 | the slot of the written out state: the last value written, else the committed one |
| Txns.Txn.GetCommittedState | state/txn.go:498-505 | the slot as committed, whatever was written since |
| Txns.Txn.AddBalance | state/txn.go:170-174 | the journal operation on the current tree, with every snapshot left as it was |
| Txns.Txn.AddSealingReward | state/txn.go:158-167 | as AddBalance, with a suicided account started anew |
| Txns.Txn.SubBalance | state/txn.go:177-193 | succeeds exactly when the balance is enough, and otherwise changes nothing |
| Txns.Txn.SetState | state/txn.go:325-341 | the journal operation on the current tree, with every snapshot left as it was |
| Txns.Txn.Suicide | state/txn.go:441-457 | true exactly when the account existed and was not suicided; its balance is gone in either case |
| Txns.Txn.CreateAccount | state/txn.go:539-555 | a new account that keeps only the balance |
| Txns.Txn.EmitLog | state/txn.go:213-231 | the log is appended in place if the list's buffer has room, where snapshots see it, and else to a copy |
| Txns.Txn.Logs | state/txn.go:477-486 | the logs of the current tree, which leave it |
| Txns.Txn.Snapshot | state/txn.go:65-74 | the snapshot action, with the next free number |
| Txns.Txn.RevertToSnapshot | state/txn.go:77-84 | the revert action: the current state is the one the snapshot was taken of |
| Txns.Txn.SetStorage | state/txn.go:252-322 | writes the slot, counts the refund and returns the status as the rules say for the slot's original, current and new value |
| Txns.Txn.CleanDeleteObjects | state/txn.go:557-591 | marks exactly the suicided and, on request, empty objects, and clears the refund |
| Txns.Txn.Commit | state/txn.go:593-643 | the base it returns is the one CommitReads is about |
| Txns.CommitSlots | state/trie/trie.go:145-176 | the written slots applied one by one: zero deletes, the rest is inserted |
| Txns.CommitObjects | state/trie/trie.go:121-202 | the objects applied one by one: deleted ones go, the rest replaces its account |
| Refund.WriteKeepsCovered | state/txn.go:252-322 | a storage write keeps the counter at 15000 or more for each slot that was nonzero when committed and reads zero |
| Refund.NeverWrapsExactly | state/txn.go:252-322 | over all runs of a transaction no write takes back more than the counter holds, if and only if it covers those slots at the start or the legacy rules apply |
| Refund.NetCost | state/txn.go:250-325 | whatever is written to whatever slots: what is charged less what the refund counter gains is a fixed price for each write plus the change of the slots' worth, a function of their values before the transaction and now |
| Refund.OneSlotCosts | tievm/evm/execute/instructions.go:501-535 | by the net rules (EIP-1283 and EIP-2200) the writes of one slot cost 200 or 800 each, and beyond that nothing if the value ends as before the transaction, 20000 less that to fill the slot, 5000 less that to change it, and 15000 back to empty it |
| Refund.OneSlotCostsLegacy | tievm/evm/execute/instructions.go:501-535 | by the rules before, each write costs 5000, and 15000 more or less if the slot ends filled or emptied |
| Refund.StatusTells | state/txn.go:270-296 | the status of a write tells what the counter gains: 15000 for a deleted slot and nothing for an added or modified one |
| Txns.TxnNeverWrapsExactly | state/txn.go:252-322 | for every journal with a counter that is not negative: no write of a transaction takes back more than the counter holds, if and only if it covers the slots zeroed before or the legacy rules apply |
| Calls.TransferConserves | state/executor.go:593-608 | a transfer that succeeds keeps the sum of all balances |
| Calls.TransferMoves | state/executor.go:593-608 | a transfer succeeds exactly if the balance covers the amount, and moves exactly that |
| Calls.PlainCall | state/executor.go:610-641 | a call of an account without code only moves the amount |
| Calls.FailedCreate | state/executor.go:659-730 | from Homestead on a creation that fails changes no account but the creator and the new one |
| Calls.CallFailsExactly | state/executor.go:610-641 | a call fails exactly if it is too deep, the funds are missing or its code fails, with the gas that is left in each case |
| Calls.CallRuns | state/executor.go:610-641 | the code of a call runs on a world in which nothing has changed but that the amount of a call proper has moved; nothing runs for an account without code |
| Calls.CallOutStores | tievm/evm/execute/instructions.go:1276-1290 | the code of a call works on the storage of the callee, that of a delegate call or call code on the storage of the caller |
| Calls.OwnLogs | state/executor.go:749-751 | code that calls nobody adds its own logs, in order and with its own address |
| Calls.CreateRuns | state/executor.go:659-697 | when a creation is refused and what gas it then leaves; otherwise its code runs on a world in which the creator's nonce has risen, the amount has moved and under EIP-158 the new account has nonce 1 and no storage |
| Calls.RefusedCreate | state/executor.go:662-695 | a refused creation changes nothing if it is too deep, and otherwise only raises the creator's nonce, and under EIP-158 leaves the new account with nonce 1 if only the funds were missing |
| Calls.CreateExactly | state/executor.go:697-730 | a creation that is not refused succeeds exactly if its code does not fail, is not too long and is paid for; then the account has the code, and the gas left is stated for every ending |
| Calls.CreatedOnce | state/executor.go:669-678 | under EIP-158 a second creation at the address of one that succeeded fails and leaves no gas, whatever ran in between |
| Calls.DestroyConserves | state/executor.go:785-792 | a selfdestruct keeps the sum up to the balance it burns when it names itself |
| Calls.DestroyMoves | state/executor.go:785-792 | a selfdestruct moves the whole balance to the beneficiary, and 24000 gas are credited the first time only |
| Calls.CallConserves | state/executor.go:610-641 | a call with whatever its code does, at any depth, keeps balances plus burnt and returns no more gas than it got |
| Calls.CreateConserves | state/executor.go:659-730 | the same for a creation in every way it can end |
| Calls.CallKeepsUser | state/executor.go:610-641 | no call changes the nonce of an account in use without code or gives it code |
| Calls.CreateKeepsUser | state/executor.go:659-730 | no creation does either, but for the creator's own increment |
| Host.DoTransfer | state/executor.go:593-608 | a transfer on the journal reads as the transfer on the written out state, and otherwise changes nothing |
| Host.DoDestroy | state/executor.go:785-792 | a selfdestruct on the journal reads as the one on the written out state |
| Host.DoRevert | state/txn.go:77-84 | a revert by number to a snapshot kept since brings back the tree it was taken of, and keeps the snapshots before it |
| Host.DoApplyCall | state/executor.go:610-641 | a call on the journal, with snapshots and reverts by number at any depth, reads as ApplyCall; a failed one changes nothing that can be read |
| Host.DoApplyCreate | state/executor.go:659-730 | a creation on the journal reads as ApplyCreate in every way it can end |
| Executor.TransactionGasCost | state/executor.go:802-843 | the base cost plus the cost of every byte, or none exactly when it exceeds 64 bits |
| Executor.GasAddsUp | tievm/evm/evm.go:87-98 | gas left and gas used add up to the limit, and what is given back is the refund, or half of what was used if that is less |
| Executor.GasAddsUpExactly | state/executor.go:449-456 | they add up whatever the interpreter leaves, if and only if the limit covers the intrinsic cost |
| Executor.AppliedConserves | state/executor.go:417-506 | an accepted transaction whose gas is guarded keeps the sum of all balances up to what it burnt |
| Executor.GasPaidFor | state/executor.go:449-506 | an accepted transaction pays for the gas of its run, not less than the intrinsic cost, less the refund its code gathered, or for half of it if the refund is more |
| Executor.PayloadByKind | state/executor.go:802-843 | 4 gas for a zero byte and 68 for another, or 16 from Istanbul on |
| Executor.AppliedRaisesNonce | state/executor.go:417-506 | it raises the nonce of a sender without code by exactly one |
| Executor.UnguardedGrows | state/executor.go:449-456 | for an unguarded creation that fails without using gas the sum grows by 2^64 times the gas price |
| Executor.ConservesExactly | state/executor.go:449-506 | an accepted transaction keeps the sum of all balances whatever its code does, if and only if its gas is guarded, its gas price is 0 or the address of its contract is taken |
| Executor.RefundStartsAtZero | state/executor.go:88-108 | every transaction of a block starts with an empty refund counter |
| Executor.PaymentBalances | state/executor.go:417-506 | a payment costs the sender the value and the price of the gas used, the recipient gets the value, the fee pool that price, and no other balance changes |
| Executor.PayoutBalances | state/executor.go:535-579 | a withdrawal takes no more than the sender's reward from the fee pool, a fixed reward comes from the named account; the value goes to the sender, who pays for all the gas, and no other balance changes |
| Executor.EndShows | state/executor.go:266-283 | the end of a transaction changes nothing that is read of an account unless it was suicided, or empty with storage |
| Executor.BlockStepExactly | state/executor.go:99-110 | a transaction stops a block exactly if its sender is unknown, or it is within the limit and not acceptable; one over the limit changes no account and not the pool |
| Executor.EndConserves | state/executor.go:266-283 | the end of a transaction takes exactly the balances of the suicided accounts |
| Executor.Transition.ApplyMessage | state/executor.go:417-506 | accepts exactly the acceptable transactions, and says what the journal then reads as, the gas used and the pool |
| Executor.Transition.ApplyOrRevert | state/executor.go:335-346 | a rejected transaction is undone by the revert to the snapshot taken before it; an accepted one has the outcome Applied |
| Executor.Transition.Apply | state/executor.go:335-346 | a rejected transaction leaves the current tree as it was; an accepted one conserves balances, takes from the pool what it used and raises the nonce by one |
| Executor.Transition.EndJournal | state/executor.go:266-283 | the journal is cleaned, or committed and begun anew on the new base, and reads as EndOfTx says; the status is success or failure, or before Byzantium the committed state |
| Executor.Transition.WriteFailedReceipt | state/executor.go:207-235 | one failed receipt that uses no gas and carries the logs and the contract address, or nothing if the sender is unknown |
| Executor.Transition.Write | state/executor.go:238-299 | pool, gas used and gas lost to rejected transactions add up to the limit; an accepted transaction gets one receipt with its gas, the running sum, its logs, the contract address, and its status or the state it leaves |
| Executor.Transition.Commit | state/executor.go:302-306 | the base it returns reads as the journal less the dropped accounts, and the balances are conserved up to what suicided accounts still held |
| Executor.ProcessBlock | state/executor.go:88-123 | a block goes through exactly when each transaction does in turn, and the base it commits reads as the outcome of all of them; then one receipt per transaction, pool plus gas used equal to the limit and the balances conserved up to what was burnt |
| Accounts.Prune | txpool/queue.go:50-63 | removes exactly the transactions with a lower nonce |
| Accounts.Account.Enqueue | txpool/account.go:166-179 | rejects exactly the nonces below the next one; the nonces stay gap-free if and only if this one was not enqueued yet |
| Accounts.Account.Promote | txpool/account.go:186-232 | moves the run of consecutive nonces at the head of the queue; promoted nonces stay below the next one and gap-free |
| Accounts.Account.PopPromoted | txpool/queue.go:91-102 | takes the lowest promoted nonce, and the rest stays gap-free |
| Accounts.Account.Reset | txpool/txpool.go:682-723 | prunes what is below the nonce of the state and follows it if it is ahead; the rest stays gap-free |
| Accounts.PruneInterval | txpool/queue.go:50-63 | an interval of nonces pruned from below is an interval |
| Words.ComplementSubtracts | txpool/slot_gauge.go:26-28 | adding the complement of slots - 1 modulo 2^64 subtracts slots, for every value |
| TxPools.SlotsRequired | txpool/slot_gauge.go:31-38 | the slots of all the transactions, as a 64-bit word |
| TxPools.SlotsHold | txpool/slot_gauge.go:31-38 | the slots of a transaction hold it, and one less would not |
| TxPools.SlotGauge.Increase | txpool/slot_gauge.go:21-23 | the gauge shows the new sum |
| TxPools.SlotGauge.Decrease | txpool/slot_gauge.go:26-28 | the gauge shows the new sum |
| TxPools.TxPool.CreateAccountOnce | txpool/account.go:18-35 | a new sender gets empty queues at the nonce of the state, a known one stays |
| TxPools.TxPool.HandleEnqueueRequest | txpool/txpool.go:599-627 | the gauge shows the slots of everything queued; the sender is due exactly when the nonce is the next one |
| TxPools.TxPool.HandlePromoteRequest | txpool/txpool.go:632-643 | promotes one sender, keeps the others and the gauge |
| TxPools.TxPool.ResetAccount | txpool/txpool.go:682-723 | prunes one sender with the gauge and the index, and says whether it is due |
| TxPools.TxPool.GetPrimaries | txpool/account.go:46-67 | exactly the head of every nonempty promoted queue, each once |
| TxPools.TxPool.Prepare | txpool/txpool.go:287-300 | the price queue holds exactly those heads |
| TxPools.TxPool.Peek | txpool/txpool.go:304-312 | takes a transaction of the highest 64-bit price off the price queue, or none exactly when it is empty; during a pass that is a head, or none exactly when nothing is promoted |
| TxPools.BestIsDearest | txpool/queue.go:217-219 | the best head offers the highest gas price if all prices fit in 64 bits |
| TxPools.WrappedPriceLoses | txpool/queue.go:217-219 | a head with the price 2^64 loses against one with any lower price above 0 |
| TxPools.TxPool.Pop | txpool/txpool.go:318-338 | takes the sender's lowest promoted nonce, frees the slots of the given transaction and queues the next head; the gauge stays right if and only if the two need as many slots; during a pass the price queue holds the heads again |
| TxPools.TxPool.Drop | txpool/txpool.go:342-387 | empties the sender, rolls its nonce back, frees all its slots and forgets its transactions; during a pass the price queue holds the heads again |
| BlockBuilder.Pick | consensus/pvbft/ibft.go:649-687 | picks a head of the highest price, pops it or drops its sender; the promoted count goes down |
| BlockBuilder.WriteTransactions | consensus/pvbft/ibft.go:639-697 | the pass ends with nothing promoted or a full block; every pick had the highest price when it was made; the block is exactly the accepted picks in nonce order per sender, then the reward transaction; every sender is accounted for |
| BlockBuilder.SenderKept | consensus/pvbft/ibft.go:683-686 | in every pass, as long as a sender's picks fit the block and are accepted, exactly they leave its promoted queue and nothing else changes |
| BlockBuilder.SenderDropped | consensus/pvbft/ibft.go:654-681 | in every pass, the first pick of a sender that does not fit or is refused is its last, and its queues are emptied at that nonce |
| Chain.TotalDifficultyIsPathSum | core/blockchain.go:812-823 | a stored total difficulty is the sum of the difficulties along the parent path |
| Chain.ReorgIndexExact | core/blockchain.go:874-953 | after a reorganisation the index is the new head's path if and only if the new head is not lower and the chains split right below the old head or above |
| Chain.ReorgGoesOneUp | consensus/pvbft/ibft.go:1238-1241 | with the difficulty equal to the number a reorganisation goes exactly one block up, and the index is right if and only if the grandparent is the old head's parent |
| Chain.DeepReorgExample | core/blockchain.go:905-917 | a switch to a branch two blocks deep keeps the old hash at the lower height |
| Chain.HeadIsNotBelow | core/blockchain.go:827-832 | a header has none below it that is at least as heavy, so the old head is below a heavier header only as its parent |
| Chain.Blockchain.constructor | core/blockchain.go:284-307 | the genesis alone satisfies all the invariants |
| Chain.Blockchain.ReadHeader | core/blockchain.go:406-430 | the stored header, whatever the cache has evicted |
| Chain.Blockchain.ReadTotalDifficulty | core/blockchain.go:445-468 | the stored total difficulty, whatever the cache has evicted |
| Chain.Blockchain.AdvanceHead | core/blockchain.go:350-388 | the head in the store and in the index is the header, always; with the parent's difficulty known also in memory, with its total difficulty, and else an error |
| Chain.Blockchain.Meet | core/blockchain.go:907-919 | two headers walked down together meet at their fork if and only if they start at one height, and else the walk ends below the genesis |
| Chain.Blockchain.Branches | core/blockchain.go:890-921 | the walks end at one header if the new header continues its parent, and else exactly in the case named; the removed headers are the old chain above the fork, so the slice is never taken of an empty list |
| Chain.Blockchain.HandleReorg | core/blockchain.go:874-953 | the index takes over the new chain from the old head's height up and nothing below, and the head moves; if the walks do not meet nothing moves |
| Chain.Blockchain.WriteCanonicalHeader | core/blockchain.go:329-347 | a header on top of the head joins the tree and becomes the head |
| Chain.Blockchain.WriteHeaderImpl | core/blockchain.go:785-844 | a header that fits keeps the head heaviest and the caches right, and the head follows it exactly when it is heavier; for one with a number or difficulty that does not fit, what is stored and when the head follows |
| Chain.Blockchain.WriteBlock | core/blockchain.go:530-627 | which blocks are taken into the tree; the head's number never goes down and a block is adopted exactly when it is one higher; when the index stays right |
| Syncer.SameBelow | syncer/syncer.go:543-546 | two linked chains that agree at a height agree below |
| Syncer.MissesOneExactly | syncer/syncer.go:514-527 | block 1 is missed exactly for bounds from 3 * 2^k - 2 to 4 * 2^k - 3 |
| Syncer.Search | syncer/syncer.go:512-553 | the loop ends with a shared header; for linked chains at the greatest common height but for the missed block 1 |
| Syncer.FindCommonAncestor | syncer/syncer.go:500-571 | for every peer an ancestor is shared and its fork is the peer's next header, and what each error means; for linked chains which height it is |
| Lucas.Norm | common/crypto/decompress.go:28-110 | the quadratic form of consecutive terms that gives the doubling rules |
| Lucas.Doubling | common/crypto/decompress.go:39-97 | the terms at 2n and 2n + 1 from those at n and n + 1 |
| Lucas.LowestSetBit | common/crypto/decompress.go:12-17 | the lowest set bit |
| Lucas.ReadPrefix | common/crypto/decompress.go:39-75 | the first loop keeps the ladder invariant for every prefix of the bits |
| Lucas.TrailingZeros | common/crypto/decompress.go:96-108 | the last loop doubles once for each trailing zero |
| Lucas.FastLucasSequence | common/crypto/decompress.go:28-110 | for every modulus, parameters and k > 0 the V returned is V(k) modulo p, and the U returned is U(k) if and only if k is odd or p divides U(k) |
| Lucas.EvenIndexExample | common/crypto/decompress.go:96-108 | an even index at which no U that can be returned is right |
| Primes.Fermat | common/crypto/decompress.go:131-141 | Fermat's little theorem |
| Primes.Frobenius | common/crypto/decompress.go:143-191 | the p-th power of P + sqrt D modulo an odd prime p |
| Primes.LucasRoot | common/crypto/decompress.go:143-191 | if P * P - 4Q is a non-residue and Q a residue, V at (p + 1) / 2 is twice a root of Q |
| Decompress.DrawSucceeds | common/crypto/decompress.go:143-191 | for a prime modulus and a residue an accepted draw always gives a root |
| Decompress.CurveSqrt | common/crypto/decompress.go:113-191 | for every odd modulus what it returns is a root; for a prime one it returns one if and only if there is one and it is not the missed 0 |
| Decompress.TwoRoots | common/crypto/decompress.go:215-225 | modulo a prime a square has no other roots than y and p - y |
| Decompress.DeCompress | common/crypto/decompress.go:194-231 | a point returned is on the curve with the asked parity; for a prime modulus it is the only such point and is found |
| Rlp.RoundTrip | consensus/pvbft/extra.go:91-93 | decoding an encoding gives the value and what follows it |
| Rlp.EncodeInjective | consensus/pvbft/header_hash.go:11-45 | different values have different encodings |
| Rlp.StringForms | consensus/pvbft/extra.go:91-142 | strings are encoded in the forms of the RLP standard |
| Rlp.ListForms | consensus/pvbft/extra.go:91-142 | lists are encoded in the forms of the RLP standard |
| Extra.MarshalRLPWith | consensus/pvbft/extra.go:96-142 | the loops build the value of ToValue, with a null on the outer array for each empty committed seal |
| Extra.UnmarshalRLPFrom | consensus/pvbft/extra.go:150-210 | accepts exactly the five-element lists of the right shape and reads them |
| Extra.ExtraRoundTrip | consensus/pvbft/extra.go:96-210 | an extra decodes back to itself if and only if no committed seal is empty, and otherwise not at all |
| Extra.PutThenGet | consensus/pvbft/extra.go:43-83 | what is put into a header is read back under the same condition |
| Extra.WriteSealKeepsHash | consensus/pvbft/sign.go:65-90 | sealing leaves the hash, whatever the seal and the VRF fields, if and only if no committed seal was empty |
| Extra.CommittedSealsKeepHash | consensus/pvbft/sign.go:96-119 | inserting the committed seals leaves the hash, and they are read back |
| Extra.HashInputExact | consensus/pvbft/sign.go:121-155 | two headers hash the same input if and only if they differ at most in their seals and VRF fields |
| Extra.HashInputDecodes | consensus/pvbft/sign.go:121-155 | what is hashed decodes to the fields of the header in their places, with an extra that holds the vanity and the validators and nothing else |
| Extra.SigningHash | consensus/pvbft/sign.go:121-155 | the array built element by element and hashed is CalculateHeaderHash |
| Extra.IstanbulHeaderHash | consensus/pvbft/header_hash.go:11-45 | the block hash is the same, and the zero hash if the extra does not decode |
| Extra.CommittedSealsWritten | consensus/pvbft/sign.go:96-119 | committed seals are written exactly if there are some, each has 65 bytes and the extra decodes |
| Extra.SealWritten | consensus/pvbft/sign.go:65-90 | a header is sealed exactly if its extra decodes and the VRF was evaluated, and the seal is read back |
| Extra.SignaturesExist | consensus/pvbft/sign.go:26-60 | there are functions that sign with 65 bytes and recover every address of 20 bytes, for every message |
| Extra.InsertedSealsVerify | consensus/pvbft/sign.go:96-219 | seals of more than 2F validators whose signatures recover to them, once inserted, pass the check for the header they are in |
| Extra.SealerRecovered | consensus/pvbft/sign.go:26-90 | the signer recovered from a sealed header is the one that sealed it, also with the committed seals in |

## Left out

- Networking, gRPC, JSON-RPC, the command line, metrics and secrets: plumbing.
- Keccak, ECDSA and VRF: parameters; the signatures at hand are assumed to recover to their signers, and the VRF value of a header to be determined by it.
- The interpreter and precompiles: any program of host operations; only that it returns no more gas than it got and does nothing for an account without code.
- LevelDB, file persistence and the eviction order of caches: maps, and caches that may lose any entry at any time.
- The inside of the state trie: a map from slots to words.
- The strictness of the RLP library on non-canonical input: the decoder here accepts longer length prefixes than needed, so rejections by the library are not modelled.
- GetCode and its cache by address, which lies outside the journal; only code hashes are modelled.
- Changes of the validator set and the snapshot store: the set is fixed for a run, and a snapshot, if found, agrees with it.
- Computing the seed of the proposer draw from the VRF value and the state root of the parent: any function of the parent header.
- Errors of the database below WriteBlock: in the network a write fails exactly when the block is not valid or a tallied seal does not cover its header.
- What makes a block valid, and that its parent is stored: any predicate of the header, which the blocks of honest proposers satisfy.
- A commit message that carries the seal of another validator: it counts as one without a seal.
- Restarting a node, which forgets its lock: runs start in SyncState without one, in the network from one common header.
- Wall-clock timeouts, goroutines and mutexes: a timeout may come whenever no message is due, and pool operations are single steps.
- Wrap-around of 64-bit rounds, heights and nonces, and of the refund counter upwards.
- Rounding of the floating-point midpoint in the ancestor search above 2^53.
- Termination of the random retry loop in curveSqrt: the draws are a list that may run out.
- WriteHeadersWithBodies, which writes headers without the checks of WriteBlock; the forks list; bloom filters; gas price averages.
- validateTx and addTx: the entry checks of the pool; re-adding transactions of abandoned blocks.
- How the reward transaction is made and whether its write succeeds: WriteTransactions is given what comes of it.
- The balances of the fee pool singleton and the reward lock: what they say is an input of a transaction; distributing rewards by rate.
- The search of the input for the two special methods: whether it contains them is an input of a transaction.
- Executor.Transition.Write: the receipt's bloom and transaction hash are not modelled; the state root of a receipt is the committed base itself.
- Txns.Txn.EmitLog: the arrays behind the log lists are numbered buffers in a field of Txn, not heap objects; the list that Logs returns is a copy.
- Chain.Blockchain.Branches: where a walk leads below the genesis the source dereferences the header it did not find; the model reports failure.
- Ibft.Ibft.RunSyncState: what the syncer writes is an input, the new head after each step.
- Heap.Push: the heap is a sequence that is replaced, not a slice that is swapped in place.
