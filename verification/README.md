# A model of Redis 7.4.0 in Dafny

The project models the parts of the Redis server whose correctness spans many functions, and proves
what they are for. Every claim is a `lemma` or an `ensures` clause over all inputs, all runs or all
reachable states.

- **Cluster** (`ClusterNode`, `ClusterEpochs`, `ClusterProtocol`, `ClusterElection`,
  `ClusterSplitVote`, `ClusterLoudReset`, `ClusterRoles`, `ClusterVotes`, `ClusterPromotion`,
  `ClusterRecords`, `SlotClaims`, `ClusterState`): the handlers of a node as functions, the network as a machine over their steps,
  epochs and elections over whole runs, convergence of slot claims, and the slot table in place.
- **Append-only file** (`AofLifecycle`, `AofMeaning`, `AofDisorder`, `AofServer`, `AofLog`, `AofLoad`, `AofFeed`, `AofFile`,
  `AofRewrite`): manifest and rewrite lifecycle, the log format with cuts at every byte, the loading
  loop, and the chunked rewriter.
- **ACL command rules** (`AclRules`, `AclMeaning`, `AclText`, `AclEdit`, `AclSelector`, `AclIds`).
- **Bit operations** (`Bits`, `BitCount`, `BitPos`, `BitRange`, `BitOp`, `BitField`,
  `BitMeaning`).
- **Blocked clients** (`Blocked`, `BlockedClients`, `BlockedMeaning`), **background jobs** (`Bio`), **request routing**
  (`Routing`) and the **doubly linked list** (`AdList`).

Code that the source writes as updates in place is a class or a loop here, proved against a function
or a sequence; protocols and threads are machines over their steps. `dafny verify dfyconfig.toml`
covers the whole project.

## Where the code does not do what one would expect

Each of these has a lemma that shows the failure and one that says when the property holds.

- An election ACK that arrives after the vote count was reset and before the new epoch was started is
  counted for the new epoch: `ClusterSplitVote.SplitVote`; safety holds without such ACKs
  (`ClusterElection.ElectionSafety`), and they are the only way to lose it
  (`ClusterElection.SplitNeedsStale`).
- CLUSTER RESET HARD keeps a pending election.  If an answer was counted, the node can end with a
  configEpoch above currentEpoch, and otherwise it cannot (`ClusterLoudReset.ResetIsSafeIffQuiet`).
- A rewrite started after an incomplete flush replays commands twice (`AofDisorder.DoubleCount`), and
  enabling the AOF during a rewrite forked with it off loses data if a temporary INCR file is left
  behind (`AofDisorder.LateEnable`); `AofDisorder.OrderlyIsExact` gives the exact condition.
- A log cut inside a command of an open transaction is repaired to one that still ends inside the
  transaction, so later writes are lost on the next load (`AofFeed.WritesAfterRepairAreLost`, exact
  condition in `AofLoad.Repair`).
- A log cut inside a timestamp outside a transaction is not repaired.  The next load fails if
  timestamps were switched off meanwhile, and only then (`AofFeed.AnnotationHazard`).
- A first argument with blanks falls into pieces when an ACL selector is described, which works only
  if the later pieces are accepted operations that grant nothing (`AclText.BlankIsExact`).
- A replica that does not know its master reads through a null pointer when an unassigned slot is
  claimed (`ClusterState.ClaimWithoutMaster`).  No run leads to such a node
  (`ClusterRoles.RolesAreExact`); it comes from a nodes.conf whose own line has `slave` and `-`.
- A replica to which CLUSTER ADDSLOTS added a slot fails the assertion of clusterSetMaster when it
  has to follow another master (`ClusterState.ClaimWithSlots`); no other step leads to that
  (`ClusterRoles.RolesAreExact`).
- BITFIELD SET with saturation stores the wrong bound for numbers far below the range, and the maximum
  for negative numbers in unsigned fields (`BitField.SaturatesUpwards`, `BitField.SignedSetSaturation`,
  `BitField.UnsignedSetSaturation`).

## Model

| member | source | states |
|---|---|---|
| ClusterEpochs.ReceiveEpochs | library_server/redis-7.4.0/src/cluster_legacy.c:2779-2790 | any message that covers its own epochs leaves a node with currentEpoch at least every configEpoch it stores and at least lastVoteEpoch, neither counter decreases, and every reply covers its epochs too |
| ClusterEpochs.CollisionEpochs | library_server/redis-7.4.0/src/cluster_legacy.c:1742-1757 | resolving a configEpoch collision keeps the epochs ordered, lowers none and leaves votes and elections alone |
| ClusterEpochs.CollisionResolves | library_server/redis-7.4.0/src/cluster_legacy.c:1742-1757 | two masters with one configEpoch that hear of each other: exactly the one with the smaller name moves, to an epoch above the other's and above all it knew |
| ClusterEpochs.TickEpochs | library_server/redis-7.4.0/src/cluster_legacy.c:4176-4345 | one pass of the replica's failover logic keeps the epochs ordered, lowers none and casts no vote; starting an election takes a new, greater currentEpoch as failover_auth_epoch |
| ClusterProtocol.HardResetEpochs | library_server/redis-7.4.0/src/cluster_legacy.c:1050-1112 | CLUSTER RESET HARD keeps the inductive form of the epoch invariant if and only if no answered vote request is open: failover_auth_sent, count and epoch survive the reset |
| ClusterProtocol.StepEpochs | library_server/redis-7.4.0/src/cluster_legacy.c:2679-3243 | every step of the distributed machine (message, duplicate, loss, failover tick, administrator command) keeps the epoch invariant of all nodes and all messages in flight exactly when it is not a hard reset with an answered vote request open, and no epoch decreases apart from a hard reset |
| ClusterProtocol.RunEpochs | library_server/redis-7.4.0/src/cluster_legacy.c:3477-3539 | in every reachable state each node's currentEpoch bounds every configEpoch it stores and its lastVoteEpoch, and every message in flight carries a currentEpoch at least as large as the configEpochs in it |
| ClusterProtocol.RunMonotone | library_server/redis-7.4.0/src/cluster_legacy.c:3929-4030 | along every run without hard resets currentEpoch and lastVoteEpoch of every node never decrease |
| ClusterElection.CountedAckIsAVote | library_server/redis-7.4.0/src/cluster_legacy.c:3175-3187 | without any assumption on timing: an ACK that a replica counts is a vote that its sender cast for this replica in the replica's failover_auth_epoch, and it is counted once |
| ClusterElection.GrantStep | library_server/redis-7.4.0/src/cluster_legacy.c:3929-4030 | granting a vote keeps the election invariant: one vote per master and epoch |
| ClusterElection.RunElection | library_server/redis-7.4.0/src/cluster_legacy.c:4248-4341 | the election invariant holds in every reachable state: votes, requests, ACKs and tallies agree |
| ClusterElection.RunStale | library_server/redis-7.4.0/src/cluster_legacy.c:4248-4341 | in runs where no ACK arrives between the reset of the vote count and the start of the new epoch no stale vote is ever counted |
| ClusterElection.UniqueWinner | library_server/redis-7.4.0/src/cluster_legacy.c:4313-4341 | two winners of one epoch are the same replica, since two majorities of one electorate share a master and it voted once |
| ClusterElection.ElectionSafety | library_server/redis-7.4.0/src/cluster_legacy.c:3929-4030 | election safety over whole runs: no duplicated messages, no hard reset, punctual ACKs and an agreed electorate per epoch; two different replicas never both win an epoch |
| ClusterElection.SplitNeedsStale | library_server/redis-7.4.0/src/cluster_legacy.c:4248-4341 | without the assumption on timing: if two replicas win one epoch, one of them counted an ACK between the reset of its vote count and the start of the epoch |
| ClusterElection.RunAgreed | library_server/redis-7.4.0/src/cluster_legacy.c:3929-4030 | the agreement on the electorate of each epoch follows from what servers see: voters the masters that serve slots when they vote, winners their number when they win |
| ClusterElection.FixedViewsAgree | library_server/redis-7.4.0/src/cluster_legacy.c:3929-4030 | in particular when all servers see one fixed set of masters |
| ClusterSplitVote.SplitVote | library_server/redis-7.4.0/src/cluster_legacy.c:4248-4341 | the punctuality assumption is needed: a concrete run in which a late ACK is counted for the new epoch and two replicas win epoch 2 |
| ClusterLoudReset.LoudBreaks | library_server/redis-7.4.0/src/cluster_legacy.c:1086-1112 | for every system, every node just reset with an answered vote request open and every time after the start of that election there is a run of five commands and a tick that ends with a configEpoch above currentEpoch |
| ClusterLoudReset.ResetIsSafeIffQuiet | library_server/redis-7.4.0/src/cluster_legacy.c:1086-1112 | the exact condition: all states that can follow a hard reset have the epoch property if and only if the node had no answered vote request open |
| SlotClaims.ClaimSettles | library_server/redis-7.4.0/src/cluster_legacy.c:2298-2433 | one announced claim binds every slot to the announcer with the greatest configEpoch among those heard so far |
| SlotClaims.HearAll | library_server/redis-7.4.0/src/cluster_legacy.c:3052-3119 | after any sequence of announcements every slot is owned by the greatest announced configEpoch that claims it |
| SlotClaims.Converges | library_server/redis-7.4.0/src/cluster_legacy.c:2298-2433 | from an empty table, any announcements of one configuration, in any order and with repetitions, end in the table of greatest claims of the announcers |
| SlotClaims.OrderIndependent | library_server/redis-7.4.0/src/cluster_legacy.c:2298-2433 | two nodes that heard the same announcers, in whatever order, have the same slot table |
| ClusterState.ClusterState.constructor | library_server/redis-7.4.0/src/cluster_legacy.c:4896-4928 | a new cluster state with empty tables is valid: slot table, per-node bitmaps and slot counts agree |
| ClusterState.ClusterState.DelSlot | library_server/redis-7.4.0/src/cluster_legacy.c:4949-4962 | unbinds a slot in place; all three views keep agreeing, the mark of an owner that stopped claiming is cleared, and the result says whether it was bound |
| ClusterState.ClusterState.AddSlot | library_server/redis-7.4.0/src/cluster_legacy.c:4939-4944 | binds a free slot in place and refuses an owned one; the three views keep agreeing |
| ClusterState.ClusterState.MoveNodeSlots | library_server/redis-7.4.0/src/cluster_legacy.c:4967-4978 | moves exactly the slots of one node to another and returns how many there were |
| ClusterState.ClusterState.DelNodeSlots | library_server/redis-7.4.0/src/cluster_legacy.c:4982-4992 | clears exactly the slots of a node and returns how many there were |
| ClusterState.ClusterState.DelNode | library_server/redis-7.4.0/src/cluster_legacy.c:1522-1552 | deletes a node; no slot, importing or migrating entry and no replica refers to it afterwards |
| ClusterState.ClusterState.SetMaster | library_server/redis-7.4.0/src/cluster_legacy.c:5200-5218 | makes this node a replica of another and resets the manual failover state; the assertion that it owns no slots fails exactly if it does |
| ClusterState.ClusterState.ClaimAllSlots | library_server/redis-7.4.0/src/cluster_legacy.c:2327-2380 | the loop over all slots rebinds exactly the slots that the claim wins and counts the sender's slots and those taken from the old master, also when there is none |
| ClusterState.ClusterState.UpdateSlotsConfigWith | library_server/redis-7.4.0/src/cluster_legacy.c:2298-2433 | the in-place update equals the value-level claim, including following the new owner when the last slot of the old master is lost; a replica without a known master reaches the read of its slot count exactly if an unassigned slot is claimed, and the assertion of clusterSetMaster fails exactly if slots are left |
| ClusterState.ProperRoleReturns | library_server/redis-7.4.0/src/cluster_legacy.c:2298-2433 | neither of the two happens to a master that replicates nobody or to a replica that knows its master and owns no slots |
| ClusterState.ClaimWithoutMaster | library_server/redis-7.4.0/src/cluster_legacy.c:2320-2391 | an input: a replica without a known master, and a claim of an unassigned slot |
| ClusterState.ClaimWithSlots | library_server/redis-7.4.0/src/cluster_legacy.c:5202-5204 | an input: a replica to which a slot was added, and a claim of the last slot of its master |
| ClusterRoles.ReceiveRole | library_server/redis-7.4.0/src/cluster_legacy.c:2679-3243 | no message makes a master replicate somebody or gives a replica slots or no master |
| ClusterRoles.ApplyRole | library_server/redis-7.4.0/src/cluster_legacy.c:5991-6030 | of the commands, CLUSTER ADDSLOTS of a free slot on a replica breaks the role of a node, and nothing else does |
| ClusterRoles.RolesAreExact | library_server/redis-7.4.0/src/cluster_legacy.c:5991-6030 | over whole runs: all nodes keep proper roles in every state if and only if no slot is ever added to a replica |
| ClusterVotes.VoteIsExact | library_server/redis-7.4.0/src/cluster_legacy.c:3929-4030 | an ACK leaves if and only if a master that serves slots is asked in an epoch not behind its own, in which it has not voted, by a replica whose master it holds for failed or in a forced request, not within two timeouts of a vote for that master, and with no claimed slot owned under a greater configEpoch; the vote is on record before it leaves |
| ClusterVotes.StepVotes | library_server/redis-7.4.0/src/cluster_legacy.c:3929-4030 | a step of the machine records a vote exactly if it casts one for these reasons, and then the ACK is in flight |
| ClusterVotes.VotesAreEarned | library_server/redis-7.4.0/src/cluster_legacy.c:3929-4030 | every vote of a run was cast in some step by a master that had all these reasons |
| ClusterVotes.WinnerWasNeeded | library_server/redis-7.4.0/src/cluster_legacy.c:3962-3970 | a replica that wins without a manual failover was counted by a majority, each of which served slots and held its master for failed when it voted |
| ClusterPromotion.DecideMeans | library_server/redis-7.4.0/src/cluster_legacy.c:4176-4345 | when a replica asks for votes, when it wins and when it starts a new attempt, in terms of its records, the clock and its rank |
| ClusterPromotion.TickIsExact | library_server/redis-7.4.0/src/cluster_legacy.c:4248-4326 | what asking and starting anew do to the election, and that any other tick changes only when the attempt begins |
| ClusterPromotion.AskSends | library_server/redis-7.4.0/src/cluster_legacy.c:4313-4326 | a replica that asks sends every node it knows a request in the new epoch that announces its master and the slots of its master |
| ClusterPromotion.WinIsExact | library_server/redis-7.4.0/src/cluster_legacy.c:4328-4341 | a replica becomes a master in a tick if and only if it is eligible, in time and has more than half of the votes; then slot by slot it has what its master had, and at least the epoch of the election |
| ClusterPromotion.PromotionTakesSlots | library_server/redis-7.4.0/src/cluster_legacy.c:4138-4166 | slot by slot: what the old master owned is owned by the new one, nobody doubts it, and everything else is as it was |
| ClusterPromotion.VictoriesAreEarned | library_server/redis-7.4.0/src/cluster_legacy.c:4328-4341 | every victory of a run was won in a step by an eligible replica with more than half of the votes |
| ClusterPromotion.WinnerTakesOver | library_server/redis-7.4.0/src/cluster_legacy.c:4138-4166 | over whole runs: the winner announces exactly the slots of its former master, which owns nothing any more |
| ClusterPromotion.TakeoverMeans | library_server/redis-7.4.0/src/cluster_legacy.c:6309-6316 | a takeover promotes the replica under a new epoch, unless it has the greatest already |
| ClusterPromotion.BuildAnnounces | library_server/redis-7.4.0/src/cluster_legacy.c:3477-3539 | the header of a message: the epoch and slots of this node, or of its master if it is a replica |
| ClusterRecords.ClaimedSlots | library_server/redis-7.4.0/src/cluster_legacy.c:2327-2380 | slot by slot: who owns a slot after a claim, and whose slots are in doubt |
| ClusterRecords.NextMasterMeans | library_server/redis-7.4.0/src/cluster_legacy.c:2388-2433 | whom a node follows after a claim: the claimant if it took the last slots of the node or its master, and without replica migration nothing else, or its master's master |
| ClusterRecords.ReplicaAnnounced | library_server/redis-7.4.0/src/cluster_legacy.c:2972-3030 | a master that announces itself as a replica hands its slots and its epoch to a known node of its shard, and otherwise leaves its slots unassigned |
| ClusterRecords.UpdateMeans | library_server/redis-7.4.0/src/cluster_legacy.c:3208-3229 | an UPDATE with a greater epoch makes its node a master with that epoch and applies its claim; any other changes nothing |
| ClusterRecords.AckMeans | library_server/redis-7.4.0/src/cluster_legacy.c:3175-3187 | an ACK counts exactly if it comes from a known master that serves slots and is not older than the election |
| ClusterRecords.OldClaimIsCorrected | library_server/redis-7.4.0/src/cluster_legacy.c:3083-3108 | a claim of a slot that another node owns under a greater epoch is answered by an UPDATE with a greater epoch |
| ClusterRecords.CorrectionMeans | library_server/redis-7.4.0/src/cluster_legacy.c:3083-3108 | the UPDATE is about the owner of such a slot and names exactly the slots it owns for certain |
| ClusterRecords.PingResolvesCollision | library_server/redis-7.4.0/src/cluster_legacy.c:3110-3119 | a master that hears of another with its configEpoch and a greater name, and stays a master, takes a new epoch above all it knew |
| ClusterRecords.SetSlotNodeMeans | library_server/redis-7.4.0/src/cluster_legacy.c:6111-6178 | CLUSTER SETSLOT NODE: who owns each slot, when this node follows the new owner, and when it takes a new epoch |
| ClusterRecords.SlotCommandMeans | library_server/redis-7.4.0/src/cluster_legacy.c:5991-6110 | the slot tables, entry by entry, after adding, deleting, importing and migrating a slot |
| ClusterRecords.PingIsAnswered | library_server/redis-7.4.0/src/cluster_legacy.c:2815-2862 | a PING that wants an answer gets one with the epochs, slots and master of this node, also from a stranger |
| ClusterRecords.MasterAnnounced | library_server/redis-7.4.0/src/cluster_legacy.c:2950-2972 | a node that announces itself as a master is one on record, and nothing else changes |
| ClusterRecords.DeletedNode | library_server/redis-7.4.0/src/cluster_legacy.c:1522-1552 | entry by entry: no table and no replica refers to a deleted node, and everything else is as it was |
| ClusterRecords.SetMasterMeans | library_server/redis-7.4.0/src/cluster_legacy.c:5200-5218 | becoming a replica: role, shard, and a former master has no open slots |
| ClusterRecords.BumpMeans | library_server/redis-7.4.0/src/cluster_legacy.c:1677-1694 | a new configEpoch is taken exactly if this node does not have the greatest of all it knows |
| ClusterRecords.ResetMeans | library_server/redis-7.4.0/src/cluster_legacy.c:1050-1112 | after a reset a node is a master alone without slots; a hard one also takes its epochs and its name, and neither touches a pending election |
| ClusterRecords.OtherCommandsMean | library_server/redis-7.4.0/src/cluster_legacy.c:6328-6365 | meeting and flagging a node, counting the masters that serve slots, and setting the epoch of a node that is alone and has none |
| ClusterState.ClusterState.GenNodesSlotsInfo | library_server/redis-7.4.0/src/cluster_legacy.c:5375-5404 | the ranges produced for every unfiltered node expand to exactly its slot set and are at most numslots, so at most 2*numslots numbers are written |
| ClusterState.ClusterState.GetMaxEpoch | library_server/redis-7.4.0/src/cluster_legacy.c:1633-1646 | the greatest of currentEpoch and all configEpochs: an upper bound that is reached |
| ClusterState.ClusterState.BumpConfigEpochWithoutConsensus | library_server/redis-7.4.0/src/cluster_legacy.c:1677-1694 | takes a new configEpoch above all known ones exactly if this node does not already have the greatest one |
| ClusterState.ClusterState.SendFailoverAuthIfNeeded | library_server/redis-7.4.0/src/cluster_legacy.c:3929-4030 | the voting rule in place: after the header of a request was processed, the vote is granted exactly for the reasons of ClusterVotes.VoteIsExact, and recorded before the answer |
| ClusterState.ClusterState.FailoverReplaceYourMaster | library_server/redis-7.4.0/src/cluster_legacy.c:4138-4166 | slot by slot, in place: exactly the old master's slots become this node's, nobody doubts them, and everything else is as it was |
| AofLifecycle.BootInv | library_server/redis-7.4.0/src/aof.c:694-749 | starting with an empty manifest establishes the lifecycle invariant |
| AofLifecycle.FlushInv | library_server/redis-7.4.0/src/aof.c:1045-1254 | a complete flush keeps the invariant: what was written is in the last incremental file |
| AofLifecycle.OpenInv | library_server/redis-7.4.0/src/aof.c:771-834 | opening a new incremental file keeps the invariant whether or not persisting the manifest succeeds, with anything in the buffer |
| AofLifecycle.StartInv | library_server/redis-7.4.0/src/aof.c:2437-2505 | starting a rewrite keeps the invariant, also when opening the file or forking fails, if replaying what the flush left in the buffer changes nothing |
| AofLifecycle.StartsIsExact | library_server/redis-7.4.0/src/aof.c:2437-2505 | a rewrite starts if and only if there is none yet and opening, persisting and forking succeed, as far as the mode needs them |
| AofLifecycle.FlushedIsReplayable | library_server/redis-7.4.0/src/aof.c:2437-2505 | a complete flush is enough for starting a rewrite safely |
| AofLifecycle.SuccessInv | library_server/redis-7.4.0/src/aof.c:2594-2722 | a successful rewrite installs the new base and renamed incremental file so that they replay to the dataset |
| AofLifecycle.FailureInv | library_server/redis-7.4.0/src/aof.c:2594-2754 | a failed child, rename or manifest write leaves files that replay to the dataset |
| AofLifecycle.NextInv | library_server/redis-7.4.0/src/aof.c:408-503 | every orderly event keeps the invariant; an event is orderly unless it starts a rewrite with a buffer whose replay matters, or enables the AOF during a rewrite forked with it off while a temporary INCR file that does not complete it exists |
| AofLifecycle.NeverLosesTheDataset | library_server/redis-7.4.0/src/aof.c:2594-2754 | after every orderly run, every file named by the manifest on disk exists and with the AOF on a complete flush empties the buffer and makes BASE and then the INCR files in order replay to the dataset |
| AofLifecycle.UnlinksOnlyDeadFiles | library_server/redis-7.4.0/src/aof.c:649-673 | whatever the event, a file that the manifest on disk names is removed only by history deletion after a rewrite whose manifest, no longer naming it, was persisted |
| AofMeaning.FilesHoldAllWrites | library_server/redis-7.4.0/src/aof.c:2594-2754 | the dataset is that of all write events so far, and after an orderly run with the AOF on it is what the flushed files give |
| AofMeaning.RewriteReplaces | library_server/redis-7.4.0/src/aof.c:2624-2722 | after a successful rewrite the manifest names the new base, with the output of the child, and the file being written to; with garbage collection nothing else that it named remains |
| AofMeaning.FailureChangesNothing | library_server/redis-7.4.0/src/aof.c:2594-2754 | a failed rewrite changes neither manifest nor any file they name |
| AofMeaning.FailureTidiesUp | library_server/redis-7.4.0/src/aof.c:2625-2754 | a failed rewrite leaves no file of its own behind, and what was logged for a first one is dropped |
| AofMeaning.StartForks | library_server/redis-7.4.0/src/aof.c:2437-2505 | a started rewrite forks for the present dataset and opens the next INCR file, or the temporary one |
| AofMeaning.StopMeans | library_server/redis-7.4.0/src/aof.c:932-953 | switching off closes, stops the child and empties the buffer; with a complete flush the files hold the dataset |
| AofMeaning.EnableMeans | library_server/redis-7.4.0/src/aof.c:957-998 | enabling the AOF and a successful rewrite switch it on with files that hold the dataset |
| AofMeaning.EnableLaterMeans | library_server/redis-7.4.0/src/aof.c:957-998 | enabling later only says so, and a rewrite that cannot start leaves the AOF off |
| AofDisorder.DoubleCount | library_server/redis-7.4.0/src/aof.c:2437-2505 | a history in which an event is not orderly: a rewrite started after an incomplete flush replays a command twice |
| AofDisorder.LeavesTemporary | library_server/redis-7.4.0/src/aof.c:957-998 | a concrete history that leaves a temporary incremental file behind |
| AofDisorder.LateEnable | library_server/redis-7.4.0/src/aof.c:957-998 | a history in which an event is not orderly: enabling the AOF while a rewrite started in the off state is running, with a temporary file left behind, ends with files that do not hold the dataset |
| AofDisorder.RewriteLoses | library_server/redis-7.4.0/src/aof.c:2437-2505 | for every server and semantics: if replaying the rest of the buffer on the rewritten dataset changes it, some history after the rewrite loses the dataset |
| AofDisorder.EnableLoses | library_server/redis-7.4.0/src/aof.c:957-998 | for every server: late enabling with a temporary INCR file that does not complete the rewrite leads to a history that loses the dataset or can write nothing any more |
| AofDisorder.OrderlyIsExact | library_server/redis-7.4.0/src/aof.c:2594-2754 | the exact condition: from a good state, all orderly histories after an event are lossless if and only if the event is orderly |
| AofServer.AofManifest.NewBaseFileNameAndMarkPreAsHistory | library_server/redis-7.4.0/src/aof.c:408-427 | in place: the old base becomes history and a new base gets the next number |
| AofServer.AofManifest.NewIncrAofName | library_server/redis-7.4.0/src/aof.c:436-445 | in place: a new incremental file with the next number is appended |
| AofServer.AofManifest.MarkRewrittenIncrAofAsHistory | library_server/redis-7.4.0/src/aof.c:473-503 | in place: all incremental files, or all but the last while the AOF is on, become history, newest first |
| AofServer.AofServer.OpenOnServerStart | library_server/redis-7.4.0/src/aof.c:694-749 | a started server has the state the lifecycle starts from |
| AofServer.AofServer.FlushAppendOnlyFile | library_server/redis-7.4.0/src/aof.c:1045-1254 | the flush writes the whole buffer to the open file, or keeps it when the write fails; keeps the lifecycle invariant |
| AofServer.AofServer.PersistAofManifest | library_server/redis-7.4.0/src/aof.c:579-589 | the manifest on disk becomes the one in memory if it is dirty and the write succeeds, and is unchanged otherwise |
| AofServer.AofServer.OpenNewIncrAofForAppend | library_server/redis-7.4.0/src/aof.c:771-834 | the method equals the lifecycle step, with its error path; keeps the lifecycle invariant |
| AofServer.AofServer.RewriteAppendOnlyFileBackground | library_server/redis-7.4.0/src/aof.c:2437-2505 | the method equals the lifecycle step, with the paths where opening or forking fails; keeps the lifecycle invariant |
| AofServer.AofServer.AofDelHistoryFiles | library_server/redis-7.4.0/src/aof.c:649-673 | removes exactly the files of the history list and empties it |
| AofServer.AofServer.BackgroundRewriteDoneHandler | library_server/redis-7.4.0/src/aof.c:2594-2754 | the handler equals the lifecycle step on success, on child failure and on every failing rename or manifest write; keeps the lifecycle invariant |
| AofServer.AofServer.StopAppendOnly | library_server/redis-7.4.0/src/aof.c:932-953 | switching off flushes and closes; the manifest stays; keeps the lifecycle invariant |
| AofServer.AofServer.StartAppendOnly | library_server/redis-7.4.0/src/aof.c:957-998 | switching on waits for a rewrite, or fails and stays off; keeps the lifecycle invariant |
| AofLog.EntryRead | library_server/redis-7.4.0/src/aof.c:1480-1523 | every written entry is read back, whatever follows it |
| AofLog.EntryCut | library_server/redis-7.4.0/src/aof.c:1480-1523 | a command cut anywhere inside is an unexpected end; an annotation cut inside still reads as a line |
| AofLog.TransactionsAreAtomic | library_server/redis-7.4.0/src/aof.c:1536-1550 | the loader's client has executed exactly the commands before the transaction still open, and queues the rest |
| AofLog.SameNameMeans | library_server/redis-7.4.0/src/aof.c:1525-1550 | MULTI, EXEC and SELECT are recognised in any case |
| AofLoad.LoadAll | library_server/redis-7.4.0/src/aof.c:1457-1612 | a complete log is executed to its end |
| AofLoad.CutLog | library_server/redis-7.4.0/src/aof.c:1457-1612 | for every cut position: the loader executes exactly the whole entries before it and takes the truncation or the clean-end path accordingly |
| AofLoad.StatusIsExact | library_server/redis-7.4.0/src/aof.c:1589-1615 | for every cut and both settings of aof-load-truncated: AOF_OK exactly if the cut is not inside a command and no MULTI without EXEC is before it, otherwise AOF_TRUNCATED if allowed and AOF_FAILED if not; executed are the commands before the cut or the open MULTI |
| AofLoad.MalformedIsRefused | library_server/redis-7.4.0/src/aof.c:1480-1486 | a line that is neither an annotation nor a command with arguments is refused in both settings, after the entries before it |
| AofLoad.ValidIsBoundary | library_server/redis-7.4.0/src/aof.c:1561-1561 | the offset up to which the log is valid is the end of the last complete command |
| AofLoad.BeforeMultiIsBoundary | library_server/redis-7.4.0/src/aof.c:1536-1575 | the offset to go back to for an open transaction is the end of the last command before its MULTI |
| AofLoad.Repair | library_server/redis-7.4.0/src/aof.c:1574-1612 | truncating as the loader does keeps the executed commands; the truncated log then loads cleanly if and only if the cut was not inside a command of an open transaction |
| AofFeed.RoundTrip | library_server/redis-7.4.0/src/aof.c:1308-1347 | feeding any commands, with database switches and annotations, and loading the file executes the same commands in the same databases |
| AofFeed.WritesAfterRepairAreLost | library_server/redis-7.4.0/src/aof.c:1574-1612 | after a cut inside a command of an open transaction, commands appended later are not executed by the next load |
| AofFeed.AnnotationHazard | library_server/redis-7.4.0/src/aof.c:1289-1347 | a log cut inside a timestamp loads without complaint and is not truncated, unless a transaction is open; after anything was fed to it, the next load rejects the file if and only if it was not truncated and the first command fed has no timestamp of its own, and otherwise nothing more is lost |
| AofFile.CatAppendOnlyGenericCommand | library_server/redis-7.4.0/src/aof.c:1256-1279 | the loop writes the count and every argument with its length |
| AofFile.AofBuffer.FeedAppendOnlyFile | library_server/redis-7.4.0/src/aof.c:1308-1347 | the buffer grows by the encoding of the annotation, the SELECT if the database changed, and the command |
| AofFile.LoadOneEntry | library_server/redis-7.4.0/src/aof.c:1457-1523 | the parsing loop reads one entry exactly as the grammar does: entry, clean end, unexpected end or format error |
| AofFile.LoadSingleAppendOnlyFile | library_server/redis-7.4.0/src/aof.c:1457-1612 | the whole loading loop, with valid_up_to and the offset before MULTI, equals the recursive loader; the status and the effect of every cut log are as in AofLoad.StatusIsExact |
| AofRewrite.RewriteItems | library_server/redis-7.4.0/src/aof.c:1782-1853 | for every number of items and every chunk limit the loop writes the encoding of the chunk commands, each announcing the arguments that follow it |
| AofRewrite.ChunksCover | library_server/redis-7.4.0/src/aof.c:1782-1853 | the chunks are the items in order, each of 1 to limit items |
| AofRewrite.RewriteLoads | library_server/redis-7.4.0/src/aof.c:1480-1523 | the rewritten log loads completely and exactly the chunk commands are executed |
| AofRewrite.RewriteRebuildsList | library_server/redis-7.4.0/src/aof.c:1782-1820 | loading the rewritten list gives the list back, elements and order |
| AofRewrite.RewriteRebuildsSet | library_server/redis-7.4.0/src/aof.c:1824-1853 | loading the rewritten set gives the set back, whatever the iteration order |
| AofRewrite.RewriteListObject | library_server/redis-7.4.0/src/aof.c:1782-1820 | RPUSH commands of at most 64 items |
| AofRewrite.RewriteSetObject | library_server/redis-7.4.0/src/aof.c:1824-1853 | SADD commands of at most 64 items |
| AclRules.MatchAbsorbs | library_server/redis-7.4.0/src/acl.c:565-607 | a rule removed because a new rule matches it decides nothing that the new rule does not decide |
| AclRules.UpdateReplays | library_server/redis-7.4.0/src/acl.c:611-619 | dropping the matched rules and appending the new one replays to the permissions with the new rule applied |
| AclRules.SetSelectorKeeps | library_server/redis-7.4.0/src/acl.c:1025-1195 | every successful operation on commands, categories, keys and channels keeps rules and permissions in agreement |
| AclRules.RulesAndBitsAgree | library_server/redis-7.4.0/src/acl.c:1112-1189 | after any sequence of successful operations, replaying the rules from the base named by the reserved bit gives exactly the bitmap and the first-argument sets |
| AclRules.LastRuleWins | library_server/redis-7.4.0/src/acl.c:623-657 | a command's bit is what the last rule about it says, and the base if there is none |
| AclRules.FlagIsOnlyFaster | library_server/redis-7.4.0/src/acl.c:1673-1698 | the ALLCOMMANDS shortcut never decides differently from the bitmap |
| AclMeaning.CategoryMeans | library_server/redis-7.4.0/src/acl.c:644-657 | an accepted +@category or -@category sets the bits of exactly the commands that carry it, their subcommands and the subcommands that carry it, and forgets the first arguments of those that carry it |
| AclMeaning.CommandMeans | library_server/redis-7.4.0/src/acl.c:1112-1121 | a whole command: its bit and those of its subcommands get the sign, and its first arguments are forgotten |
| AclMeaning.PartMeans | library_server/redis-7.4.0/src/acl.c:1122-1175 | a command with a part: the bit of the subcommand gets the sign, or the first argument is allowed and no bit changes |
| AclMeaning.RefusalMeans | library_server/redis-7.4.0/src/acl.c:1112-1190 | which error a refused rule gives, and why |
| AclMeaning.UpdateRecords | library_server/redis-7.4.0/src/acl.c:565-619 | the recorded rules: the new one last, and exactly the older ones that it does not make pointless |
| AclMeaning.FirstArgumentMeans | library_server/redis-7.4.0/src/acl.c:1673-1698 | allowing a first argument allows the command with it, in any case, and changes no other check |
| AclMeaning.PatternMeans | library_server/redis-7.4.0/src/acl.c:1063-1111 | a pattern of keys or channels is refused while all are allowed, and with blanks |
| AclMeaning.ScopeMeans | library_server/redis-7.4.0/src/acl.c:1025-1042 | allkeys, resetkeys, allchannels and resetchannels switch their flag and nothing else |
| AclMeaning.AllMeans | library_server/redis-7.4.0/src/acl.c:1042-1062 | +@all and -@all: every bit, no first argument and no rule |
| AclMeaning.CaseMeans | library_server/redis-7.4.0/src/acl.c:1026-1062 | names are equal up to case exactly if they are letter by letter |
| AclText.SplitRender | library_server/redis-7.4.0/src/acl.c:769-778 | splitting the rule text gives the rules back |
| AclText.DescriptionReproduces | library_server/redis-7.4.0/src/acl.c:748-801 | the description of a selector sets up the same bitmap, first arguments and rules |
| AclText.DescribeNeverPanics | library_server/redis-7.4.0/src/acl.c:748-801 | whatever operations without blanks and quotes were accepted, on commands, keys or channels, all operations of the description succeed, the bitmaps are equal, and every check is decided alike |
| AclText.BlankIsExact | library_server/redis-7.4.0/src/acl.c:748-801 | a first argument with blanks is accepted; describing the selector works if and only if the argument does not begin with a blank and the pieces after the first are accepted operations that together grant nothing; words like allkeys and resetchannels are accepted, patterns are not |
| AclText.PatternsAreRefused | library_server/redis-7.4.0/src/acl.c:1063-1111 | a description passes -1 for the length of a word, so that the search for blanks in a pattern of keys or channels runs into the terminator and every such pattern is refused |
| AclEdit.RemoveCommandRule | library_server/redis-7.4.0/src/acl.c:565-607 | the in-place edit of any text removes exactly the pieces that the new rule matches; on the text of rules without blanks that is filtering the list of rules |
| AclSelector.AclSelector.SetCommandBit | library_server/redis-7.4.0/src/acl.c:551-560 | sets one bit, ignores ids outside the bitmap, and clears the ALLCOMMANDS flag with a zero |
| AclSelector.AclSelector.AddAllowedFirstArg | library_server/redis-7.4.0/src/acl.c:933-959 | adds a first argument unless it is there up to case |
| AclSelector.AclSelector.ChangePerm | library_server/redis-7.4.0/src/acl.c:623-636 | sets the bits of a command and its subcommands and forgets its first arguments |
| AclSelector.AclSelector.SetBitsForCategory | library_server/redis-7.4.0/src/acl.c:644-657 | the recursion over the command table sets the bits of exactly the commands of the category and the subcommands of such commands, and forgets the first arguments of those that carry it |
| AclSelector.AclSelector.CheckCommand | library_server/redis-7.4.0/src/acl.c:1673-1698 | a command may run if and only if all are allowed, its bit is set, or some stored first argument is the given one up to case |
| AclSelector.AclSelector.UpdateCommandRules | library_server/redis-7.4.0/src/acl.c:611-619 | the text after a rule is recorded, for any text and rule; it stays the rendering of the updated rules if the rule has no blank |
| AclSelector.AclSelector.SetSelector | library_server/redis-7.4.0/src/acl.c:1025-1195 | the in-place operation equals the value-level one, with its five errors, and the text changes as stated; a failed one changes nothing |
| AclSelector.AclSelector.Describe | library_server/redis-7.4.0/src/acl.c:748-801 | replaying the description on a fake selector panics exactly if an operation is refused or the bitmaps differ, and never for rules without blanks and quotes |
| AclIds.IdsAreDistinct | library_server/redis-7.4.0/src/acl.c:1517-1542 | ids are distinct for names that differ in more than case and never the reserved bit, and below it for up to 1023 names |
| AclIds.CommandIds.GetCommandID | library_server/redis-7.4.0/src/acl.c:1517-1542 | the same name gets the same id again, a new name the next free one |
| BitCount.SumHolds | library_server/redis-7.4.0/src/bitops.c:30-66 | adding up to seven words never carries from one byte into the next: every byte holds the sum of its own counts |
| BitCount.WordCounts | library_server/redis-7.4.0/src/bitops.c:45-60 | after three steps each byte of a word holds the number of bits set in it |
| BitCount.Multiply | library_server/redis-7.4.0/src/bitops.c:59-66 | the multiplication and shift add up the four bytes |
| BitCount.RedisPopcount | library_server/redis-7.4.0/src/bitops.c:19-71 | for every string and alignment the count is the number of bits set, bit by bit |
| BitPos.LoadedBit | library_server/redis-7.4.0/src/bitops.c:123-139 | each bit of the loaded word is the bit of the string at its place, zero after the end |
| BitPos.RedisBitpos | library_server/redis-7.4.0/src/bitops.c:80-165 | for every string and alignment the result is that of a linear search, and the final panic is unreachable |
| BitRange.MaskedSubtraction | library_server/redis-7.4.0/src/bitops.c:851-861 | the bytes of a range minus the masked edge bits are the bits of the range |
| BitRange.BitcountCommand | library_server/redis-7.4.0/src/bitops.c:804-862 | BITCOUNT counts exactly the set bits of the normalised range, in bytes and in bits |
| BitRange.SearchRange | library_server/redis-7.4.0/src/bitops.c:957-988 | first byte, whole bytes and last byte together find the least match of the range |
| BitRange.BitposCommand | library_server/redis-7.4.0/src/bitops.c:908-1003 | BITPOS gives the least matching position of the range, or -1, or the position after the string when looking for a clear bit without an end; a missing key is a row of zeroes |
| BitMeaning.BitcountMeans | library_server/redis-7.4.0/src/bitops.c:804-862 | BITCOUNT is the number of positions between the two indexes, counted from either end, that hold a one |
| BitMeaning.BitposMeans | library_server/redis-7.4.0/src/bitops.c:908-1003 | BITPOS is the least position between the two indexes with the bit, or the stated reply |
| BitOp.CombineBytes | library_server/redis-7.4.0/src/bitops.c:667-722 | combining words combines their bytes |
| BitOp.FastStep | library_server/redis-7.4.0/src/bitops.c:667-722 | 32 bytes of all sources combined word by word are the bytewise fold |
| BitOp.SlowByte | library_server/redis-7.4.0/src/bitops.c:725-750 | leaving the loop over the sources early does not change the byte |
| BitOp.BitopCommand | library_server/redis-7.4.0/src/bitops.c:622-753 | fast path and byte loop give the zero-padded fold of all sources, as long as the longest |
| BitMeaning.BitopMeans | library_server/redis-7.4.0/src/bitops.c:622-753 | each bit of the result is set if it is set in all sources, in some, in an odd number of them, or not set in the one; the result is as long as the longest source |
| BitField.ReadBack | library_server/redis-7.4.0/src/bitops.c:188-220 | a number written and read back is the number modulo its width |
| BitField.SetUnsignedBitfield | library_server/redis-7.4.0/src/bitops.c:188-201 | in place: the bits of the field are those of the number and no other bit changes |
| BitField.GetUnsignedBitfield | library_server/redis-7.4.0/src/bitops.c:208-220 | the loop computes the number in the field without losing a bit |
| BitField.GetSignedBitfield | library_server/redis-7.4.0/src/bitops.c:222-242 | sign extension is reading the field as two's complement |
| BitField.UnsignedIsExact | library_server/redis-7.4.0/src/bitops.c:267-302 | INCRBY on u1 to u63: the check is nonzero exactly when the sum leaves the range, and gives the wrapped or saturated sum |
| BitField.SignedIsExact | library_server/redis-7.4.0/src/bitops.c:304-357 | INCRBY on i1 to i64: the check is nonzero exactly when the sum leaves the range, and gives the wrapped or saturated sum |
| BitField.SignedSetSaturation | library_server/redis-7.4.0/src/bitops.c:304-357 | SET with saturation stores the nearest bound if and only if the distance of the number to the upper bound fits 63 bits |
| BitField.UnsignedSetSaturation | library_server/redis-7.4.0/src/bitops.c:267-302 | SET with saturation stores the maximum for every number outside the range, also a negative one |
| BitField.SaturatesUpwards | library_server/redis-7.4.0/src/bitops.c:267-357 | inputs: the least 64-bit number in an i8 field and -1 in a u8 field are stored as the maximum |
| BitField.IncrBy | library_server/redis-7.4.0/src/bitops.c:1142-1218 | stores and returns the exact sum, wrapped or saturated, or writes nothing; every other bit is unchanged |
| BitField.SetField | library_server/redis-7.4.0/src/bitops.c:1142-1218 | stores the number, adjusted, and returns the previous one, or writes nothing; every other bit is unchanged |
| BitField.GetField | library_server/redis-7.4.0/src/bitops.c:1219-1252 | reading through the nine-byte buffer is reading the string followed by zeroes |
| BitMeaning.OutcomeMeans | library_server/redis-7.4.0/src/bitops.c:267-357 | the stored sum: itself in the range, outside it the number with the same low bits, the nearest number of the range, or nothing |
| BitMeaning.FieldMeans | library_server/redis-7.4.0/src/bitops.c:208-220 | bit by bit, the most significant first |
| Blocked.LinkAdd | library_server/redis-7.4.0/src/blocked.c:359-410 | adding a waiter at the tail keeps the two sides of the relation in agreement |
| Blocked.LinkRemove | library_server/redis-7.4.0/src/blocked.c:507-540 | removing a waiter, and an empty list with it, keeps the two sides in agreement |
| Blocked.NoKeyRemove | library_server/redis-7.4.0/src/blocked.c:507-540 | the deletion counts stay the numbers of such waiters, absent when zero |
| BlockedClients.BlockedClients.InitClientBlockingState | library_server/redis-7.4.0/src/blocked.c:54-62 | a new client waits for nothing and everything stays in agreement |
| BlockedClients.BlockedClients.BlockClient | library_server/redis-7.4.0/src/blocked.c:67-79 | the counters by type and of regular clients stay exact |
| BlockedClients.BlockedClients.BlockForKeys | library_server/redis-7.4.0/src/blocked.c:359-410 | the client is appended once to the list of each distinct key and everything stays in agreement |
| BlockedClients.BlockedClients.ReleaseBlockedEntry | library_server/redis-7.4.0/src/blocked.c:507-540 | the waiter leaves the list, an empty list disappears, the deletion count follows |
| BlockedClients.BlockedClients.UnblockClientWaitingData | library_server/redis-7.4.0/src/blocked.c:414-428 | the client leaves the lists of all its keys |
| BlockedClients.BlockedClients.UnblockClient | library_server/redis-7.4.0/src/blocked.c:164-206 | the client leaves every list and counter; all other waiters keep their order |
| BlockedClients.BlockedClients.UnblockClientOnKey | library_server/redis-7.4.0/src/blocked.c:631-645 | releasing the key first and unblocking then leaves the same state as unblocking |
| BlockedClients.BlockedClients.SignalKeyAsReady | library_server/redis-7.4.0/src/blocked.c:447-494 | a key is appended exactly if somebody may wait for it and it is not queued yet, and ready_keys stays exactly the queued keys |
| BlockedClients.BlockedClients.HandleClientsBlockedOnKey | library_server/redis-7.4.0/src/blocked.c:553-589 | visits exactly the waiters present at entry, once each, in arrival order; afterwards those that were not served come first in their old order, then those that blocked on the key again in the order of the visits, and no other client changed; if visits that leave their client waiting signal nothing, new keys are queued only if fewer clients can be served than before |
| BlockedClients.BlockedClients.HandleClientsBlockedOnKeys | library_server/redis-7.4.0/src/blocked.c:306-350 | ends, for any endless sequence of visits, as long as a visit that leaves its client waiting signals nothing; then no key is queued, and all keys queued at entry were handled first and in their order; ready_keys holds exactly the keys still queued at every visit |
| BlockedClients.BlockedClients.EndlessVisit | library_server/redis-7.4.0/src/blocked.c:675-693 | the assumption is needed: a callback that does not serve its client and signals the key again brings back the state before the visit with the key queued |
| BlockedMeaning.SignalMeans | library_server/redis-7.4.0/src/blocked.c:447-494 | a key is worth queueing exactly if an object of its type can wake somebody, somebody is blocked for such objects or by a module, and somebody waits for the key, or for its deletion |
| BlockedMeaning.NobodyIsMissed | library_server/redis-7.4.0/src/blocked.c:447-494 | a key that a client waits for is queued when an object of the awaited type comes |
| BlockedMeaning.VisitMeans | library_server/redis-7.4.0/src/blocked.c:572-587 | a visit runs the command of a client exactly if the key holds a list, sorted set or stream as awaited, or the client wants to know that the key is gone |
| Bio.StepInv | library_server/redis-7.4.0/src/bio.c:253-363 | every step of a worker, a submitter or a drain call keeps the invariant of the worker |
| Bio.RunInv | library_server/redis-7.4.0/src/bio.c:253-363 | in every interleaving of the three workers, submitters, drain calls and the main thread the invariant holds |
| Bio.CountersAreExact | library_server/redis-7.4.0/src/bio.c:366-374 | whenever a worker's lock is free the counter of each type is the number of its jobs in the queue |
| Bio.FinishedInOrder | library_server/redis-7.4.0/src/bio.c:276-363 | each worker finishes jobs in the order of submission |
| Bio.ResponseAfterEarlierJobs | library_server/redis-7.4.0/src/bio.c:336-352 | a completion response exists only after its request and every job submitted to the worker before it were processed |
| Bio.DrainedMeansDone | library_server/redis-7.4.0/src/bio.c:377-385 | bioDrainWorker returns only when all jobs submitted before the call are finished |
| Bio.SyncedBeforeClosed | library_server/redis-7.4.0/src/bio.c:58-67 | syncing and closing AOF files are jobs of one worker, and a request for a completion goes to the worker of the jobs it is about, so they are done in order |
| Bio.ResponseForEveryRequest | library_server/redis-7.4.0/src/bio.c:336-352 | every processed request for a completion has its response, and no other job has one |
| Routing.OneSlot | library_server/redis-7.4.0/src/cluster.c:999-1087 | if a node is returned for a keyed request, all keys of all queued commands share one slot |
| Routing.MigratingSlot | library_server/redis-7.4.0/src/cluster.c:1123-1136 | on a slot being migrated away: served here iff all keys are present, ASK iff none is, TRYAGAIN iff some are |
| Routing.ServedWhileMigrating | library_server/redis-7.4.0/src/cluster.c:1123-1136 | served here on a slot being migrated away, in any cluster state: every key is present |
| Routing.ServedThroughAsking | library_server/redis-7.4.0/src/cluster.c:1138-1152 | served here through ASKING on a slot that is imported and not migrated away: every key is present unless the request names a single key |
| Routing.RouteIsExact | library_server/redis-7.4.0/src/cluster.c:1087-1169 | each of the ten answers (served here, MOVED, ASK, TRYAGAIN, CROSSSLOT and the down states) is given exactly when its reason, in terms of the request and the records, holds |
| Routing.GetNodeByQuery | library_server/redis-7.4.0/src/cluster.c:956-1170 | the nested loops and the branch cascade give each answer exactly for its reason: in particular MOVED to the owner when it is another node, unless this is a read from its replica; whenever a node is returned all keys share one slot, and whenever this node serves an open slot the keys are present |
| AdList.List.LinkNodeHead | library_server/redis-7.4.0/src/adlist.c:84-95 | the node becomes the first of the sequence; pointers, head, tail and length follow |
| AdList.List.LinkNodeTail | library_server/redis-7.4.0/src/adlist.c:117-128 | the node becomes the last of the sequence |
| AdList.List.InsertNode | library_server/redis-7.4.0/src/adlist.c:130-157 | a new node directly before or after a given one |
| AdList.List.UnlinkNode | library_server/redis-7.4.0/src/adlist.c:173-187 | exactly this node leaves the sequence and its pointers are cleared |
| AdList.List.RotateTailToHead | library_server/redis-7.4.0/src/adlist.c:342-354 | the last node becomes the first |
| AdList.List.RotateHeadToTail | library_server/redis-7.4.0/src/adlist.c:357-369 | the first node becomes the last |
| AdList.List.Join | library_server/redis-7.4.0/src/adlist.c:373-389 | the nodes of the other list follow; the other list is empty and valid |
| AdList.List.IterateFromHead | library_server/redis-7.4.0/src/adlist.c:212-247 | iteration that deletes any of the returned nodes returns every original node once, from the head on, and leaves the others |
| AdList.List.IterateFromTail | library_server/redis-7.4.0/src/adlist.c:217-247 | the same from the tail |
| AdList.List.Dup | library_server/redis-7.4.0/src/adlist.c:257-291 | a fresh list with the duplicated values in order, or none if a value cannot be duplicated |

## Left out

- Cluster bus: handshakes, gossip sections, failure detection, link handling and timing are free steps of the machine; senders found by name are past the handshake.
- Epochs and offsets are unbounded numbers; wrap-around at 64 bits is not modelled.
- Slot bitmaps and the ACL bitmap are sets or sequences of bits; their packing into words is modelled only in the bit commands.
- Deletion of keys in slots that are lost, and the random shard ID of a hard reset, are not modelled.
- The distributed machine lets a node go on where the source would stop: a replica without a known master is handed no new master, and a node that still owns slots may become a replica.
- Manual failover offsets and pauses are a free administrator step.
- AOF: partial writes beyond an incomplete flush, fsync timing, the RDB preamble, unknown commands during loading, negative lengths and a failed directory fsync are outside the model; bytes are characters.
- AofServer.AofServer.FlushAppendOnlyFile: does not model a short write that cannot be taken back and keeps the rest of the buffer.
- AofLoad.Repair: stated for logs without MULTI inside MULTI, because the server never writes those.
- AofRewrite.RewriteItems: sorted sets, hashes and streams are rewritten by similar loops with two arguments per item and are not modelled.
- ACL: of keys and channels only the flags and which operations are accepted are modelled, not the stored patterns; passwords, users and the ACL log are not modelled; strings are C strings, without NUL characters.
- AclText.DescribeNeverPanics: requires operations without blanks and quotes and command ids below the reserved bit; blanks in a first argument are the subject of AclText.BlankIsExact, quotes in a description are not modelled.
- AclSelector.AclSelector.Describe: requires a text without quotes.
- BitCount.RedisPopcount: the 256-entry table is replaced by the number of bits of a byte, which is what its entries are.
- BitOp.BitopCommand: the result buffer is a sequence that is reassigned; writing through pointers into it is not modelled.
- BitField: parsing of types, offsets and the OVERFLOW argument is not modelled.
- BlockedClients: list nodes are identified with the client they hold, replies, timeouts and statistics are not modelled, and a module client that its callback served stays in the lists, marked as answered.
- BlockedClients.BlockedClients.HandleClientsBlockedOnKey: a visited command may signal keys or block its own client again but does not unblock another client.
- BlockedClients.BlockedClients.HandleClientsBlockedOnKeys: a command that blocks again and a callback that does not serve its client signal nothing; the end of the loop is proved under this assumption only.
- Bio: condition variables may wake at any time, so lost wake-ups (liveness) are not modelled; the work of a job is one step.
- Routing: key extraction and the hash function are parameters.
- AdList: values do not change, memory exhaustion is not modelled, and search and indexing are left out as easy members.
- Everything else in the server (replication, scripting, modules, sentinel, data types, networking).
