# Redis Cluster, the append only file and the bit kernels, verified

A Dafny model of the hardest parts of the vendored Redis 3.0.3 and of the consistent hash ring beside
it, with proofs of what they are for. Code that changes state in place is modelled as classes, arrays
and loops; each method is proved against a function of its old state, and the results about whole runs
are proved about those functions.

`dafny verify dfyconfig.toml` checks everything.

## What is modelled

Redis Cluster (`cluster.c`)

- `ClusterEpochs` holds the epoch and election fields of one node and what each handler does to them,
  whatever the nodes are called.
  `ClusterElection` puts any number of such nodes and a bag of messages together: deliveries in any
  order, losses, elections, unilateral bumps and role changes interleave freely. Its main result is
  election safety. `ClusterStaleAck` builds the runs that show its condition to be exact, and `ClusterTiming`
  derives safety from a bound on the delay of answers. `ClusterHistory` looks back along a run: who may have
  voted, what a winner has recorded, and what may move a node's own configEpoch.
- `ClusterCollision` proves that the resolution of equal configEpochs terminates, after how many moves at worst,
  and when it has done so.
- `ClusterClaims` proves that the owners of slots do not depend on the order in which claims arrive, and
  from a table in use exactly when they do.
- `ClusterTable`, `ClusterCommands` and `ClusterFailover` are the code: owner array, per-node bitmaps with
  counters, migrations, epochs. Every method keeps the two forms of the slot table in agreement and
  refines the functions above. Assertions of the source are assertions or preconditions here.
- `NodesConf` is the slot part of nodes.conf, printed and read back, in the same process and in another one.

The append only file (`aof.c`)

- `AofFormat` has the encoder and the loader, `AofRecovery` what the loader recovers from a file that was
  cut at an arbitrary byte.
- `AofRewrite` has the parent's block buffer and the pipe, `AofProtocol` every interleaving of parent and
  child, and the proof that the methods on buffer and pipe take steps of that protocol.
- `AofLog` is the server: feeding, flushing, forking, finishing a rewrite, switching the log on and off.
  Its invariant says that file and buffer together rebuild the dataset, and a whole rewrite, from the
  fork to the new file, is composed from the methods.

Bit kernels (`bitops.c`, `crc16.c`, `crc64.c`)

- `BitCount`, `BitPos`, `BitOp` and `BitCommands` prove the word-at-a-time loops and the range arithmetic
  against one-bit-at-a-time definitions.
- `Crc` proves both table-driven checksums, every entry of both tables included, to be remainders of
  polynomial division, which `PolynomialDivision` defines and shows to be unique.

Keyspace and containers (`db.c`, `adlist.c`, `hashring/consistent.h`)

- `KeyHash` and `Db` keep dictionary, expires and the sorted slot index in agreement.
- `AdList` is the doubly linked list on the heap, with its iterators.
- `Consistent` is the hash ring and the bounds on which keys move when a node joins or leaves.

## Where code and documentation disagree

The model follows the code.

- `clusterDelNodeSlots` returns 16384 whatever it deleted (cluster.c:3373-3376); its comment promises the
  number deleted.
- An acknowledgement of a previous election that arrives after the next one was scheduled and before it
  was started is counted for the next one: the counter is reset when scheduling (cluster.c:2764), the
  election epoch only moves when asking (cluster.c:2825). The code relies on its retry time.
  `ClusterStaleAck.SafeExactlyBelow` says exactly how many such acknowledgements election safety bears,
  `ClusterFailover.HandleSlaveFailover` how long the code waits, and `ClusterTiming.SafetyByTiming` that
  this is enough when answers take no longer.
- BITCOUNT takes an end before the first byte for the first byte (bitops.c:492), so that a range that
  lies wholly before the string still counts one byte, and BITPOS does the same (bitops.c:567-569).
  `BitCommands.BitcountMeaning` and `BitCommands.BitposMeaning` say exactly when the answer is that of
  the range.
- With aof-load-truncated an append only file that leaves a MULTI open is reported as truncated at
  its end (aof.c:700, 721): nothing is cut, and the MULTI stays. `AofRecovery.OpenMultiIsNotCut`.
- A slot that is both migrating and importing is printed as migrating only (cluster.c:3675-3683), so
  nodes.conf loses the other half. `NodesConf.ConfigRestored` is an if-and-only-if for that reason.
- The comment above crc64 gives an initial value of all ones; the code starts from what the caller
  passes, zero for a new checksum.
- `JoinThenLeave` of the hash ring restores the ring only when no point of the node was taken before:
  AddNode overwrites another node's point and RemoveNode erases it (consistent.h:80-100).
- The comment on the election time-out speaks of the smaller of two values (cluster.c:2705); the code takes
  the greater (cluster.c:2708-2709).

## Model

| member | source | states |
|---|---|---|
| `ClusterElection.ElectionSafety` | redis-3.0.3/src/cluster.c:2455-2555 | Safety over all runs: two nodes that won the same epoch are one node as long as the acknowledgements of earlier elections that they counted, together, are fewer than the members that any two quorums share (one for an odd number of masters, two for an even one) |
| `ClusterStaleAck.TwoWinners` | redis-3.0.3/src/cluster.c:2760-2765 | The threshold is tight for every number of masters: whenever the stale counts reach it, a run exists in which two nodes win one epoch, because the counter is reset when scheduling and the election epoch moves only when asking |
| `ClusterStaleAck.SafeExactlyBelow` | redis-3.0.3/src/cluster.c:1917-1929 | Both halves together: an epoch can have two winners with given stale counts if and only if these reach the threshold |
| `ClusterTiming.NeverStale` | redis-3.0.3/src/cluster.c:2708-2710 | In every run in which nobody reschedules before the time-out of its latest request and answers take no longer than that, no stale acknowledgement is ever counted |
| `ClusterTiming.SafetyByTiming` | redis-3.0.3/src/cluster.c:2708-2710 | Election safety and exact counters from the clock alone, with no condition on what was counted |
| `ClusterElection.CountIsDistinctVoters` | redis-3.0.3/src/cluster.c:1917-1929 | In every reachable state failover_auth_count is the number of distinct masters that voted for this node in its election epoch exactly when no stale acknowledgement was counted |
| `ClusterElection.OneVotePerEpoch` | redis-3.0.3/src/cluster.c:2473-2489 | In every run a master votes at most once in an epoch, whatever requests arrive and in whatever order |
| `ClusterHistory.NewVote` | redis-3.0.3/src/cluster.c:2467-2489 | Every vote that a step adds answers a request of its epoch, and the voter is a master with slots whose currentEpoch is not ahead of it and which has not voted in it |
| `ClusterHistory.VotersAreMasters` | redis-3.0.3/src/cluster.c:2455-2555 | So in every reachable state each vote was given at an earlier step by a node that was then a master with slots |
| `ClusterHistory.WinnersHoldTheEpoch` | redis-3.0.3/src/cluster.c:2838-2848 | In every reachable state whoever won an election holds a configEpoch of at least the election epoch, and asked for votes in that epoch when it was above everything it knew |
| `ClusterHistory.WinnersClaimBeats` | redis-3.0.3/src/cluster.c:1471-1477 | So its claim takes every slot from whoever held it in the view that it had when it asked |
| `ClusterHistory.OwnEpochMoves` | redis-3.0.3/src/cluster.c:1038-1053 | A node's own configEpoch moves only by winning with a greater election epoch, by a bump, by an UPDATE about the node with a greater epoch, or by a PING of a master with a greater name and the same configEpoch (messages a node sends to itself aside) |
| `ClusterElection.StepKeepsInv` | redis-3.0.3/src/cluster.c:1536-1980 | Every delivery, loss, cron step, bump and role change keeps the network invariant: epochs recorded and in flight are bounded by the current epoch of their holder, an acknowledgement in flight stands for one vote that was not counted yet |
| `ClusterElection.ReachableInv` | redis-3.0.3/src/cluster.c:1590-1602 | The same for every state that any run reaches |
| `ClusterElection.EpochsNeverDecrease` | redis-3.0.3/src/cluster.c:1590-1602 | Along every run no node ever lowers its current epoch, its last vote or a configEpoch it recorded |
| `ClusterElection.BumpGoesAbove` | redis-3.0.3/src/cluster.c:973-990 | In every reachable state a unilateral bump that takes effect ends strictly above every configEpoch the node knew, and one that does nothing was not below any |
| `ClusterCollision.CollisionsTerminate` | redis-3.0.3/src/cluster.c:1038-1053 | In every run, with PINGs delayed and repeated at will and slaves reporting any configEpoch, a node moves its configEpoch at most once for each node of greater name |
| `ClusterCollision.BoundIsReached` | redis-3.0.3/src/cluster.c:1038-1053 | The bound is exact: for any number of masters that start with one configEpoch a run exists in which each moves once for every node of greater name |
| `ClusterCollision.GreatestNeverMoves` | redis-3.0.3/src/cluster.c:1038-1053 | The node with the greatest name keeps its configEpoch through every run |
| `ClusterCollision.ActsExactly` | redis-3.0.3/src/cluster.c:1038-1053 | A PING moves a configEpoch if and only if sender and receiver are masters, the sender has the greater name and reports the receiver's configEpoch, and the receiver does not know it to be further |
| `ClusterCollision.SettledIffDistinct` | redis-3.0.3/src/cluster.c:1863-1868 | After any run among masters no PING makes anybody act if and only if all configEpochs differ |
| `ClusterCollision.StepKeepsInv` | redis-3.0.3/src/cluster.c:1038-1053 | The invariant behind it: every configEpoch a node has left is one that a greater node had, and the node has acted at most once for each of those that it has passed |
| `ClusterClaims.ReceiveAllOwners` | redis-3.0.3/src/cluster.c:1460-1497 | From an empty table, after any sequence of claims each slot belongs to the claimant with the greatest epoch, and is unassigned exactly when nobody claimed it |
| `ClusterClaims.SameClaimsSameOwners` | redis-3.0.3/src/cluster.c:1460-1497 | Two nodes that heard the same claims in any orders, with any repetitions, agree on every owner |
| `ClusterClaims.PermutedClaimsSameOwners` | redis-3.0.3/src/cluster.c:1460-1497 | In particular for any permutation of the claims |
| `ClusterClaims.OrderMattersExactlyWhenContested` | redis-3.0.3/src/cluster.c:1460-1497 | From any table, and with claims whose epochs are not behind the recorded ones, two orders of the same claims can disagree about a slot if and only if it is contested: its owner raises its epoch without claiming it, and the newest claim on it lies between the two epochs of the owner |
| `ClusterClaims.LaterClaimsSameOwners` | redis-3.0.3/src/cluster.c:1460-1497 | So from a table that earlier claims produced the order of later ones makes no difference, as long as no master that raised its epoch since gave up a slot |
| `ClusterClaims.RaiseWhileGivingUp` | redis-3.0.3/src/cluster.c:1471-1477 | A run of two claims in both orders in which a master raises its epoch while giving up a slot: the outcomes differ |
| `ClusterClaims.UnchangedBitmapChangesNothing` | redis-3.0.3/src/cluster.c:1805-1818 | Skipping the rebinding when the claimed bitmap is the known one loses nothing |
| `ClusterTable.BitmapTestBit` | redis-3.0.3/src/cluster.c:3304-3308 | The bit read is membership in the set of positions the bitmap stands for |
| `ClusterTable.BitmapSetBit` | redis-3.0.3/src/cluster.c:3311-3315 | Adds exactly that position to the set |
| `ClusterTable.BitmapClearBit` | redis-3.0.3/src/cluster.c:3318-3322 | Removes exactly that position |
| `ClusterTable.BitOrder` | redis-3.0.3/src/cluster.c:3304-3308 | Slot j is bit j % 8, from the least significant, of byte j / 8 |
| `ClusterTable.ClusterNode.SetSlotBit` | redis-3.0.3/src/cluster.c:3325-3330 | Keeps numslots equal to the population count of the bitmap, also when the bit was already set |
| `ClusterTable.ClusterNode.ClearSlotBit` | redis-3.0.3/src/cluster.c:3333-3338 | The same for clearing, also when the bit was already clear |
| `ClusterTable.ClusterState.constructor` | redis-3.0.3/src/cluster.c:398-420 | A fresh node satisfies the table invariant with no slot assigned |
| `ClusterTable.AddSlot` | redis-3.0.3/src/cluster.c:3349-3354 | Keeps owner array, bitmaps and counters in agreement; fails exactly on an assigned slot and then changes nothing |
| `ClusterTable.DelSlot` | redis-3.0.3/src/cluster.c:3359-3366 | The same for unassigning; the assertion of the source that the owner had the bit holds in every valid state |
| `ClusterTable.MoveSlot` | redis-3.0.3/src/cluster.c:1490-1491 | The delete-then-add pair gives the slot to the node, whoever had it, and touches no other slot |
| `ClusterTable.AddNode` | redis-3.0.3/src/cluster.c:847-853 | A node that was just created becomes known with no slot, and the table of everybody else is untouched |
| `ClusterTable.DelNodeSlots` | redis-3.0.3/src/cluster.c:3370-3378 | Unassigns exactly the slots of the node and returns 16384 whatever the number deleted |
| `ClusterTable.DelNode` | redis-3.0.3/src/cluster.c:866-893 | The same, with the node removed and the table valid for those that remain |
| `ClusterTable.SetMaster` | redis-3.0.3/src/cluster.c:3569-3585 | This node is a slave of the given one; a former master has no import or migration left |
| `ClusterTable.ClaimSlot` | redis-3.0.3/src/cluster.c:1460-1497 | One round of the loop: the slot moves exactly when it is claimed, not being imported, and unassigned or held under an older epoch |
| `ClusterTable.RebindSlots` | redis-3.0.3/src/cluster.c:1460-1497 | The loop moves exactly the slots whose claim is newer, reports exactly whether the own master lost one, and lists exactly the lost slots that held keys |
| `ClusterTable.UpdateSlotsConfigWith` | redis-3.0.3/src/cluster.c:1437-1525 | Slot by slot: a claimed slot goes to the sender exactly when it is not being imported and is unassigned or held under an older configEpoch, and no other slot moves; demotion exactly when the own master was emptied, migrations dropped by a demoted master only, keys dropped of exactly the lost slots otherwise; valid tables stay valid |
| `ClusterTable.RebindByTakes` | redis-3.0.3/src/cluster.c:1460-1497 | The array code is the claim semantics of ClusterClaims, so the order-independence results apply to it |
| `ClusterTable.ApplyConfig` | redis-3.0.3/src/cluster.c:1437-1525 | The same, and the change of the table is the rebinding of ClusterClaims |
| `ClusterTable.ReceiveClaim` | redis-3.0.3/src/cluster.c:1805-1818 | A PING or PONG of a master, with the check for an unchanged bitmap, is one claim of ClusterClaims, with the same consequences for role, migrations and keys |
| `ClusterCommands.SumOfNodes` | redis-3.0.3/src/cluster.c:3325-3338 | For any set of nodes the counters add up to the number of slots these nodes own |
| `ClusterCommands.SumIsAssigned` | redis-3.0.3/src/cluster.c:3325-3338 | The counters of all nodes add up to the number of assigned slots |
| `ClusterCommands.CheckSlots` | redis-3.0.3/src/cluster.c:3856-3881 | The first bad argument decides the reply: not a slot, already busy (ADDSLOTS), already unassigned (DELSLOTS) or given twice; without one the marks are exactly the slots given |
| `ClusterCommands.ApplyMarks` | redis-3.0.3/src/cluster.c:3882-3898 | The second pass edits exactly the marked slots; its assertion that every single change succeeds never fires |
| `ClusterCommands.EditSlots` | redis-3.0.3/src/cluster.c:3852-3900 | ADDSLOTS and DELSLOTS change all of the slots or none: all exactly when they are distinct slots in range that are all unassigned (ADDSLOTS) or all assigned (DELSLOTS), and otherwise the reply names the first bad argument |
| `ClusterCommands.SetNodeAsMaster` | redis-3.0.3/src/cluster.c:1413-1424 | A slave becomes a master without a master of its own; a master is left alone |
| `ClusterCommands.FailoverReplaceYourMaster` | redis-3.0.3/src/cluster.c:2653-2681 | The new master owns exactly what it owned and what its old master owned, and the table stays valid; without a master to replace slots, role and master pointer stay as they are |
| `ClusterEpochs.PingsUnderNames` | redis-3.0.3/src/cluster.c:1590-1602 | What a header and the collision check do to one node commutes with any names that tell the nodes apart and keep their order, so what is proved of numbered nodes holds for node objects |
| `ClusterEpochs.BumpsUnderNames` | redis-3.0.3/src/cluster.c:973-990 | The same for the unilateral bump, which looks at the epochs of all nodes |
| `ClusterEpochs.UpdatesUnderNames` | redis-3.0.3/src/cluster.c:1942-1968 | The same for an UPDATE report |
| `ClusterEpochs.ElectionsUnderNames` | redis-3.0.3/src/cluster.c:2455-2555 | The same for casting a vote, counting one, scheduling, asking and being elected |
| `ClusterFailover.SeeHeader` | redis-3.0.3/src/cluster.c:1590-1602 | currentEpoch and the sender's configEpoch are raised to those of the header, exactly as the network model assumes |
| `ClusterFailover.BuildMessageHdr` | redis-3.0.3/src/cluster.c:2105-2142 | A slave sends the configEpoch and the slots of its master, a master its own |
| `ClusterFailover.HandleConfigEpochCollision` | redis-3.0.3/src/cluster.c:1038-1053 | When this node and the sender are both masters with the same configEpoch and the sender has the greater name, this node takes the next epoch as its currentEpoch and configEpoch; in every other case neither changes |
| `ClusterFailover.ReceivePing` | redis-3.0.3/src/cluster.c:1590-1868 | currentEpoch and the sender's configEpoch are raised to the header's; a PING of a slave or of a smaller name, or to a slave, never moves this node's configEpoch, and a collision moves it to one more than everything seen |
| `ClusterFailover.GetMaxEpoch` | redis-3.0.3/src/cluster.c:929-942 | The greatest of the current epoch and all configEpochs: an upper bound that is attained |
| `ClusterFailover.BumpConfigEpochWithoutConsensus` | redis-3.0.3/src/cluster.c:973-990 | Refines the bump of the network model and reports exactly whether it took effect |
| `ClusterFailover.ClaimsAreNewest` | redis-3.0.3/src/cluster.c:2527-2547 | Accepts exactly when no claimed slot is held under a newer configEpoch |
| `ClusterFailover.SendFailoverAuthIfNeeded` | redis-3.0.3/src/cluster.c:2455-2555 | A vote is given if and only if this node is a master with slots, the request is of an epoch that is not behind its own and in which it has not voted, the requester is a slave of a known master that failed (or the failover is forced), twice the node time-out has passed since the last vote on that master, and no claimed slot is held under a newer epoch; the vote and the time are recorded, and nothing changes otherwise |
| `ClusterFailover.ReceiveAck` | redis-3.0.3/src/cluster.c:1917-1929 | Counts exactly the acknowledgements the network model counts |
| `ClusterFailover.UpdateSize` | redis-3.0.3/src/cluster.c:3436-3456 | The size is the number of masters with at least one slot, the voter set of the election results |
| `ClusterFailover.ScheduleElection` | redis-3.0.3/src/cluster.c:2756-2785 | Refines the scheduling step: the count is zeroed and the election epoch is not touched; the start is 500 ms ahead plus the random part and a second per rank, or now for a manual failover |
| `ClusterFailover.UpdateRank` | redis-3.0.3/src/cluster.c:2795-2806 | Delays the start by exactly a second for every rank lost, and not at all once votes were asked for or in a manual failover |
| `ClusterFailover.AskForVotes` | redis-3.0.3/src/cluster.c:2822-2833 | The current epoch goes up by one and is the election epoch, the request is marked as sent and no other epoch moves |
| `ClusterFailover.TakeOver` | redis-3.0.3/src/cluster.c:2836-2852 | The winner is a master without a master, its configEpoch is the greater of its own and the election epoch, exactly the slots of its old master move to it, and this is the win of the network model |
| `ClusterFailover.AskOrTakeOver` | redis-3.0.3/src/cluster.c:2822-2855 | In its time window an attempt asks once, with the next epoch, and then wins exactly when the count is more than half of the size, with at least the election epoch |
| `ClusterFailover.RunElection` | redis-3.0.3/src/cluster.c:2746-2855 | The outcome is decided by the clock, the delays and the count, in both directions, and is the corresponding step of the network model |
| `ClusterFailover.HandleSlaveFailover` | redis-3.0.3/src/cluster.c:2691-2856 | When each outcome happens, in both directions; and a new election is never scheduled before the time-out has passed since the last request, which is what ClusterTiming needs |
| `ClusterFailover.ElectionTimes` | redis-3.0.3/src/cluster.c:2703-2853 | The times in numbers: rescheduled after four, expired after two node time-outs, but not before 4 and 2 seconds; a second more for each rank lost; won exactly with more than half of the votes once asked |
| `ClusterFailover.ReceiveUpdate` | redis-3.0.3/src/cluster.c:1942-1968 | A newer report is one claim of ClusterClaims with all its consequences, after a slave it is about became a master; an older one changes nothing at all |
| `ClusterFailover.CloseMigration` | redis-3.0.3/src/cluster.c:3956-3985 | A finished import ends with the bump and the flag cleared, a finished migration with the flag cleared, and no other epoch or flag changes |
| `ClusterFailover.SetSlotNode` | redis-3.0.3/src/cluster.c:3940-3988 | Hands over exactly one slot and refuses exactly when this node still holds keys of it |
| `NodesConf.SlotsParse` | redis-3.0.3/src/cluster.c:235-257 | Any printed slot or range parses back to its bounds |
| `NodesConf.MoveParses` | redis-3.0.3/src/cluster.c:229-253 | Any printed migration parses back to slot, direction and 40-byte name |
| `NodesConf.RunsAreRuns` | redis-3.0.3/src/cluster.c:3653-3672 | The printed ranges are ascending, disjoint, separated by gaps and cover exactly the set |
| `NodesConf.RunsAreUnique` | redis-3.0.3/src/cluster.c:3653-3672 | Only one such list exists, so the printed ranges are the maximal ones |
| `NodesConf.DescribeSlots` | redis-3.0.3/src/cluster.c:3653-3672 | The printing loop, with its extra step at slot 16383, prints exactly those ranges of the bitmap |
| `NodesConf.DescribeMigrations` | redis-3.0.3/src/cluster.c:3674-3687 | The second loop prints every slot on the move once, in order |
| `NodesConf.LookupOrCreate` | redis-3.0.3/src/cluster.c:238-242 | A name keeps its node; a new one gets a fresh node of that name which owns no slot; no two names share one |
| `NodesConf.LoadSlots` | redis-3.0.3/src/cluster.c:222-257 | The fields of a line change owners, bitmaps, counters and migrations exactly as their parse says, nodes being created when first mentioned |
| `NodesConf.GenNodeDescription` | redis-3.0.3/src/cluster.c:3626-3688 | A line holds the ranges the node owns in the table and, for this node only, its migrations |
| `NodesConf.GenNodesDescription` | redis-3.0.3/src/cluster.c:3702-3719 | So do all lines |
| `NodesConf.LoadConfig` | redis-3.0.3/src/cluster.c:118-260 | So do all lines, whatever nodes they mention and in whatever order, with owners, bitmaps and counters in agreement |
| `NodesConf.OwnersRestored` | redis-3.0.3/src/cluster.c:3702-3719 | Whatever the order of the nodes, every slot gets its owner back and no other |
| `NodesConf.RestartRestores` | redis-3.0.3/src/cluster.c:3626-3719 | The text that one process prints, read by another that knows only the names, gives the same table with the nodes of the same names in it, under the same if-and-only-if |
| `NodesConf.SaveAndRestart` | redis-3.0.3/src/cluster.c:90-283 | The two methods in turn do that, creating the nodes on the way |
| `NodesConf.ConfigRestored` | redis-3.0.3/src/cluster.c:3626-3719 | The round trip of the file: owners and outgoing migrations are always restored, and the whole table is restored if and only if no slot is both migrating and importing |
| `NodesConf.PrintedFields` | redis-3.0.3/src/cluster.c:3664-3683 | The literal text of a slot, a range and a migration in either direction |
| `NodesConf.NameOrder` | redis-3.0.3/src/cluster.c:1045 | Names are ordered by the first byte in which they differ |
| `Basics.DecimalCut` | redis-3.0.3/src/aof.c:625-696 | A printed number cut anywhere is again a printed number, and positive if the whole was |
| `Basics.NumbersRead` | redis-3.0.3/src/aof.c:644-661 | White space and one sign in front of a number are accepted and it ends at the first other byte; without digits it is zero |
| `AofFormat.CatAppendOnlyGenericCommand` | redis-3.0.3/src/aof.c:435-458 | Appends exactly the encoding of the command that the recovery results are about |
| `AofFormat.EncodedExample` | redis-3.0.3/src/aof.c:435-458 | The literal bytes of one argument and of one command |
| `AofFormat.BadCommand` | redis-3.0.3/src/aof.c:642-645 | A command that does not begin with *, or announces less than one argument, is a format error; a lone * is a read error |
| `AofFormat.BadArgument` | redis-3.0.3/src/aof.c:654-664 | An argument that is missing is a read error, one that does not begin with $ a format error, one of negative length fails to allocate |
| `AofFormat.TwoBytesSkipped` | redis-3.0.3/src/aof.c:664-673 | An argument is the announced number of bytes, and the two behind it are skipped whatever they are |
| `AofFormat.LoadCommand` | redis-3.0.3/src/aof.c:637-675 | The same for one command: format error, read error and end of file are told apart |
| `AofFormat.LoadAppendOnlyFile` | redis-3.0.3/src/aof.c:599-748 | The whole loader agrees with it on every byte string |
| `AofRecovery.CommandFull` | redis-3.0.3/src/aof.c:625-672 | A whole command reads back as itself, whatever bytes follow |
| `AofRecovery.CommandCut` | redis-3.0.3/src/aof.c:625-672 | A command cut at any byte reads as the end of the file, never as a format error or another command |
| `AofRecovery.WholeIsGreatest` | redis-3.0.3/src/aof.c:711-740 | The commands counted as whole are the longest list whose encoding fits into the prefix |
| `AofRecovery.CrashRecovery` | redis-3.0.3/src/aof.c:599-748 | For every list of binary-safe commands and every byte prefix of its encoding the loader executes exactly the longest list of commands that lies wholly inside, reports no format error, and ends cleanly exactly when the cut is at a command boundary outside a MULTI; otherwise it truncates behind the last whole command or, with truncation off, refuses the file |
| `AofRecovery.RoundTrip` | redis-3.0.3/src/aof.c:435-748 | An undamaged log loads back to the commands that were written, with a clean end unless they leave a MULTI open |
| `AofRecovery.OpenMultiIsNotCut` | redis-3.0.3/src/aof.c:698-700 | A whole log that leaves a MULTI open is reported as truncated at its own end, and only such a log: nothing is cut and the next load finds the same |
| `AofRecovery.TruncatedFileIsALog` | redis-3.0.3/src/aof.c:711-728 | What the truncation leaves is the encoding of the executed commands |
| `AofRewrite.Block.Fill` | redis-3.0.3/src/aof.c:131-138 | Copies as much as fits behind what is there; used plus free stays within the block |
| `AofRewrite.Block.Drop` | redis-3.0.3/src/aof.c:115-116 | Keeps exactly what was not sent |
| `AofRewrite.RewriteBuffer.Append` | redis-3.0.3/src/aof.c:123-167 | The contents grow by exactly the bytes, however many blocks that takes |
| `AofRewrite.RewriteBuffer.ChildWriteDiffData` | redis-3.0.3/src/aof.c:94-120 | The same for the whole loop, under every outcome of every write; it ends only when sending was stopped, nothing is left, or the pipe took nothing, and nothing moves once sending was stopped |
| `AofRewrite.RewriteBuffer.ChildPipeReadable` | redis-3.0.3/src/aof.c:1186-1207 | Sending stops exactly on a '!' from the child; an answer goes out only then and the contents stay |
| `AofRewrite.RewriteBuffer.BufferWrite` | redis-3.0.3/src/aof.c:172-192 | A count that is not negative means that exactly the contents were appended to the file; -1 is returned exactly when a write fell short, and then the file ends with a prefix of them |
| `AofRewrite.ReadDiffFromParent` | redis-3.0.3/src/aof.c:1002-1012 | The child appends exactly what was in the pipe and leaves it empty |
| `AofProtocol.StepKeepsInv` | redis-3.0.3/src/aof.c:94-192 | Every step of parent or child keeps: read + in the pipe + buffered = fed since the fork |
| `AofProtocol.DiffIsConserved` | redis-3.0.3/src/aof.c:94-192 | At every moment of every interleaving no byte of the difference is lost, repeated or reordered |
| `AofProtocol.RewriteIsComplete` | redis-3.0.3/src/aof.c:1112-1154 | A child that finished, plus the parent's remainder, gives the snapshot followed by everything fed, in order |
| `AofProtocol.StoppedForGood` | redis-3.0.3/src/aof.c:1192-1203 | Once the parent has answered, no more bytes reach the pipe, in any continuation |
| `AofProtocol.FinishesExactlyUnless` | redis-3.0.3/src/aof.c:1112-1154 | From every reachable state the child can still finish, however much was fed meanwhile, if and only if it has not given up and does not wait for an answer that was lost |
| `AofProtocol.ParentFeeds` | redis-3.0.3/src/aof.c:123-167 | The append method is the feeding step of the protocol |
| `AofProtocol.ParentSends` | redis-3.0.3/src/aof.c:94-120 | The sending method, whatever the writes return, is a sending step of the protocol or none |
| `AofProtocol.ChildDrains` | redis-3.0.3/src/aof.c:1002-1012 | The draining method is a reading step of the protocol |
| `AofProtocol.ParentHandles` | redis-3.0.3/src/aof.c:1186-1207 | The handler of the request is the answering step of the protocol, in every state the protocol reaches |
| `AofLog.EmittedReplays` | redis-3.0.3/src/aof.c:497-513 | What is fed for a command replays to that command on its database, with or without the SELECT |
| `AofLog.AppliedInOrder` | redis-3.0.3/src/aof.c:497-545 | What happens is applied to the dataset in order, each command on its own database |
| `AofLog.AofServer.constructor` | redis-3.0.3/src/aof.c:50-67 | A server that never logged satisfies the invariant |
| `AofLog.AofServer.Loaded` | redis-3.0.3/src/aof.c:599-748 | A server that loaded a log satisfies it, with the replayed dataset |
| `AofLog.AofServer.FeedText` | redis-3.0.3/src/aof.c:497-533 | The text is the encoding of SELECT with the decimal number of the database, exactly when that is not the selected one, and of the command |
| `AofLog.AofServer.Feed` | redis-3.0.3/src/aof.c:497-545 | The text goes to the buffer when the log is on and to the blocks when a child runs, and nothing else changes |
| `AofLog.AofServer.Propagate` | redis-3.0.3/src/aof.c:497-545 | Executing and feeding a command keeps: file + buffer rebuild the dataset, and so does snapshot + difference while a child runs, whose snapshot and bytes sent stay |
| `AofLog.AofServer.Truncate` | redis-3.0.3/src/aof.c:352-360 | Cuts the file back to what the server believes it holds |
| `AofLog.AofServer.FlushAppendOnlyFile` | redis-3.0.3/src/aof.c:273-432 | Kept by a full write, a short write undone or not, and an error, each of which moves exactly its bytes from the buffer to the file; an empty buffer afterwards means that the file is the whole log, and the process exits exactly when a write falls short under appendfsync always |
| `AofLog.AofServer.RewriteAppendOnlyFileBackground` | redis-3.0.3/src/aof.c:1269-1321 | Kept by the fork, which forgets the selected database; a failed fork changes nothing |
| `AofLog.AofServer.SendDiff` | redis-3.0.3/src/aof.c:94-120 | Kept when bytes move into the pipe, exactly the first ones and in order |
| `AofLog.AofServer.BackgroundRewriteDoneHandler` | redis-3.0.3/src/aof.c:1364-1505 | Kept by success and by every kind of failure; on success the new file alone is the whole log, on failure nothing is lost |
| `AofLog.AofServer.StartAppendOnly` | redis-3.0.3/src/aof.c:235-252 | Kept when the log is switched on, which takes effect only with a successful rewrite |
| `AofLog.AofServer.StopAppendOnly` | redis-3.0.3/src/aof.c:206-231 | What is left on disk when the log is switched off is a prefix of the log; the process exits exactly when the last write falls short under appendfsync always |
| `AofLog.Happen` | redis-3.0.3/src/aof.c:497-545 | Whatever happens while the child runs, its file so far is its snapshot and exactly the bytes sent |
| `AofLog.AfterFork` | redis-3.0.3/src/aof.c:1269-1505 | From the fork to the end, over any sequence of commands, sends and flushes with any write results: the new file is the whole log, starts with the snapshot, and rebuilds the dataset that the commands alone give; the run ends early exactly when a flush under appendfsync always falls short |
| `AofLog.RewriteWhileOn` | redis-3.0.3/src/aof.c:1269-1505 | So for a rewrite while the log is on |
| `AofLog.SwitchOn` | redis-3.0.3/src/aof.c:235-252 | So for switching the log on |
| `AofLog.FileRebuilds` | redis-3.0.3/src/aof.c:599-748 | In every reachable state loading the file executes a prefix of the logged commands, and all of them, rebuilding the dataset, when nothing waits in the buffer |
| `AofLog.ChildFileIsComplete` | redis-3.0.3/src/aof.c:1112-1154 | What the completion handler assumes of the child's file follows from the protocol: snapshot and exactly the bytes sent |
| `BitCount.BitsInByte` | redis-3.0.3/src/bitops.c:65 | Every entry of the 256-entry table is the number of bits set in its index |
| `BitCount.LanesCount` | redis-3.0.3/src/bitops.c:87-107 | The masks and shifts leave in every byte of a word the number of bits of that byte |
| `BitCount.TopIsSum` | redis-3.0.3/src/bitops.c:101-107 | With bytes of at most 56 the 32-bit multiplication and shift loses nothing |
| `BitCount.SevenWords` | redis-3.0.3/src/bitops.c:87-107 | Seven words at a time give the bit count of their 28 bytes |
| `BitCount.PopcountWords` | redis-3.0.3/src/bitops.c:75-108 | The unrolled body of the main loop computes it |
| `BitCount.RedisPopcount` | redis-3.0.3/src/bitops.c:61-113 | For every length and alignment the result is the number of bits set |
| `BitPos.WordBits` | redis-3.0.3/src/bitops.c:186-194 | Bits of a word counted from the top are the bits of its bytes in order |
| `BitPos.BitOrder` | redis-3.0.3/src/bitops.c:186-194 | Bit 0 is the most significant of the first byte |
| `BitPos.MaskLasts` | redis-3.0.3/src/bitops.c:190-194 | The mask is non-zero for exactly 64 rounds |
| `BitPos.LoadLastWord` | redis-3.0.3/src/bitops.c:165-173 | The loading loop yields the next eight bytes, zero-padded |
| `BitPos.ScanWord` | redis-3.0.3/src/bitops.c:186-199 | The scan finds the least position; the panic behind it is never reached |
| `BitPos.RedisBitpos` | redis-3.0.3/src/bitops.c:122-200 | For every length and alignment the least position holding the bit in the string followed by zeros, or -1 exactly when a one is sought and there is none |
| `BitCommands.Clamp` | redis-3.0.3/src/bitops.c:482-500 | The in-place conversion of the indexes yields the two ends of the range, whose meaning InRangeIsBetween, CountsFromTheEnd and PlainRange state |
| `BitCommands.InRangeIsBetween` | redis-3.0.3/src/bitops.c:488-493 | A byte lies between the clamped ends exactly when it is not before the start and not behind the end, negative indexes counted from the end of the string |
| `BitCommands.CountsFromTheEnd` | redis-3.0.3/src/bitops.c:489-490 | A negative index that reaches into the string is the same as that index plus the length, as start and as end, for BITCOUNT and BITPOS |
| `BitCommands.PlainRange` | redis-3.0.3/src/bitops.c:508-511 | Between two positions i <= j of the string BITCOUNT gives the number of bits of bytes i to j |
| `BitCommands.WholeRange` | redis-3.0.3/src/bitops.c:477-487 | 0 and -1, like no range at all, count the whole string |
| `BitCommands.CountIsNumberOfBits` | redis-3.0.3/src/bitops.c:61-113 | The count of a string is the number of its bit positions that hold a one |
| `BitCommands.BitcountCommand` | redis-3.0.3/src/bitops.c:462-513 | The number of bits set in the bytes of the range, counted byte by byte from the indexes as given, negative ones from the end of the string |
| `BitCommands.BitcountMeaning` | redis-3.0.3/src/bitops.c:488-493 | BITCOUNT counts exactly the bytes from start to end, each counted from its own side of the string, if and only if not (the end lies before the string, the start not behind its first byte, and that byte is not zero) |
| `BitCommands.BitposMeaning` | redis-3.0.3/src/bitops.c:562-569 | With an explicit end, finding nothing agrees with no such bit from start to end if and only if not (the end lies before the string, the start not behind its first byte, and that byte holds the bit) |
| `BitCommands.BitposCommand` | redis-3.0.3/src/bitops.c:516-600 | The least position in the range that holds the bit, whenever there is one; otherwise -1 for a one, with an explicit end, and for an empty range, and the position just behind the string for a zero without end; a missing key is zeros without end |
| `BitOp.FoldedBits` | redis-3.0.3/src/bitops.c:424-437 | A bit of the result is set when it is set in all sources, in some, in an odd number, or not in the only one |
| `BitOp.ResultBits` | redis-3.0.3/src/bitops.c:424-437 | Bit by bit the stored string is the conjunction or disjunction over all sources, the difference of two and the complement of one |
| `BitOp.WordOpIsBytewise` | redis-3.0.3/src/bitops.c:371-421 | A word operation is the byte operation on each of its eight bytes |
| `BitOp.CombineBlock` | redis-3.0.3/src/bitops.c:372-410 | A block of four words combined with every further source is the bytewise fold |
| `BitOp.FastPath` | redis-3.0.3/src/bitops.c:359-422 | It goes as far as whole blocks of four words reach, and up to there every byte is the bytewise fold of all sources |
| `BitOp.SlowPath` | redis-3.0.3/src/bitops.c:424-437 | From there on too, with zeros for missing bytes |
| `BitOp.Lengths` | redis-3.0.3/src/bitops.c:320-351 | The greatest length over all keys, and a lower bound that every source reaches |
| `BitOp.BitopCommand` | redis-3.0.3/src/bitops.c:288-459 | For any number of keys, present or missing, the stored string is the bytewise operation on all of them padded with zeros, and nothing is stored when all are empty |
| `PolynomialDivision.RegisterDivides` | redis-3.0.3/src/crc64.c:1-11 | A shift register with feedback leaves the remainder of the division of what entered it |
| `PolynomialDivision.DivisionIsUnique` | redis-3.0.3/src/crc64.c:1-11 | A monic divisor has one quotient and one remainder |
| `Crc.Divisor16` | redis-3.0.3/src/crc16.c:34-45 | The constant behind crc16tab is x^16 + x^12 + x^5 + 1 without its leading term |
| `Crc.Crc16Tab` | redis-3.0.3/src/crc16.c:47-80 | Each of the 256 entries is what eight bit steps make of its index |
| `Crc.TableStep16` | redis-3.0.3/src/crc16.c:86 | The table step is eight bit steps, for every register and byte |
| `Crc.Checksum16Divides` | redis-3.0.3/src/crc16.c:34-88 | The checksum of any message is the remainder of its polynomial, times x^16, by that divisor |
| `Crc.Crc16` | redis-3.0.3/src/crc16.c:82-88 | The table-driven loop computes that checksum |
| `Crc.Divisor64` | redis-3.0.3/src/crc64.c:1-11 | The reflected constant is x^64 plus the bits of 0xad93d23594c935a9 |
| `Crc.Crc64Tab` | redis-3.0.3/src/crc64.c:42-171 | Each of the 256 entries is what eight reflected bit steps make of its index |
| `Crc.TableStep64` | redis-3.0.3/src/crc64.c:178 | The table step is eight bit steps, for every register and byte |
| `Crc.Checksum64Divides` | redis-3.0.3/src/crc64.c:173-181 | From zero the checksum is the remainder of the message with reflected bytes, times x^64 |
| `Crc.Checksum64Continues` | redis-3.0.3/src/debug.c:764-768 | The checksum of a concatenation is that of the second part continued from the first |
| `Crc.Crc64` | redis-3.0.3/src/crc64.c:173-181 | The table-driven loop computes that checksum from any starting value |
| `KeyHash.KeyHashSlot` | redis-3.0.3/src/cluster.c:620-639 | The two scanning loops compute the slot that WholeKeySlot and TaggedKeysShareSlot describe for every key |
| `KeyHash.WholeKeySlot` | redis-3.0.3/src/cluster.c:626-634 | A key without {, without } behind its first {, or with } directly behind it, has the checksum of the whole key modulo 16384 as its slot |
| `KeyHash.SlotIsRemainder` | redis-3.0.3/src/cluster.c:627-638 | Masking the checksum with 0x3FFF is taking it modulo 16384 |
| `KeyHash.TaggedKeysShareSlot` | redis-3.0.3/src/cluster.c:620-639 | With a non-empty tag between the first { and the first } behind it the slot is the checksum of the tag modulo 16384, whatever stands around the braces |
| `Db.LessIsLexicographic` | redis-3.0.3/src/object.c:499-504 | The order of keys is decided by the first byte in which they differ, and a prefix comes first |
| `Db.InsertSorted` | redis-3.0.3/src/t_zset.c:110-160 | Inserting where the search stops keeps the index sorted |
| `Db.WindowCount` | redis-3.0.3/src/db.c:1191-1218 | The distance between the first and the last entry of a slot is its number of keys |
| `Db.RedisDb.SlotToKeyAdd` | redis-3.0.3/src/db.c:1135-1140 | Restores the agreement of index and dictionary after a key was added |
| `Db.RedisDb.SlotToKeyDel` | redis-3.0.3/src/db.c:1142-1146 | Restores it after a key was removed, by removing exactly its entry |
| `Db.RedisDb.DbAdd` | redis-3.0.3/src/db.c:93-100 | Keeps index and expires in agreement with the dictionary |
| `Db.RedisDb.DbOverwrite` | redis-3.0.3/src/db.c:107-112 | A new value leaves the index and the expire alone |
| `Db.RedisDb.DbDelete` | redis-3.0.3/src/db.c:162-172 | Key, expire and index entry go together, and the result says whether there was one |
| `Db.RedisDb.ExpireIfNeeded` | redis-3.0.3/src/db.c:826-860 | A master deletes exactly an expired key, a slave only reports it, and nothing expires while loading |
| `Db.RedisDb.LookupKeyWrite` | redis-3.0.3/src/db.c:72-75 | Nothing but an expired key disappears by looking it up |
| `Db.RedisDb.RemoveExpire` | redis-3.0.3/src/db.c:770-775 | Only the expire goes, and the result says whether there was one |
| `Db.RedisDb.SetExpire` | redis-3.0.3/src/db.c:777-785 | expires stays a subset of the dictionary |
| `Db.RedisDb.SetKey` | redis-3.0.3/src/db.c:120-129 | The key has the value and no expire whatever it had before, expired or not |
| `Db.RedisDb.Rename` | redis-3.0.3/src/db.c:667-703 | Value and expire move together and replace whatever the target was; each failure is told apart and changes at most an expired source |
| `Db.RedisDb.EmptyDb` | redis-3.0.3/src/db.c:212-223 | Dictionary, expires and index are empty, and the result is what was removed |
| `Db.RedisDb.FirstInRange` | redis-3.0.3/src/db.c:1153-1167 | The first entry of a slot, or none exactly when the slot has no entry |
| `Db.RedisDb.LastInRange` | redis-3.0.3/src/db.c:1191-1218 | The last one |
| `Db.RedisDb.GetKeysInSlot` | redis-3.0.3/src/db.c:1153-1167 | The first keys of the slot in ascending order, as many as asked for or as there are |
| `Db.RedisDb.CountKeysInSlot` | redis-3.0.3/src/db.c:1191-1218 | The rank arithmetic gives the true number of keys in the slot |
| `Db.RedisDb.DelKeysInSlot` | redis-3.0.3/src/db.c:1171-1189 | Deletes all keys of the slot and nothing else, and returns their number |
| `AdList.List.AddNodeHead` | redis-3.0.3/src/adlist.c:80-98 | prev and next stay mirrored, head, tail and len correct; the sequence gains the value in front |
| `AdList.List.AddNodeTail` | redis-3.0.3/src/adlist.c:106-124 | The same at the end |
| `AdList.List.InsertNode` | redis-3.0.3/src/adlist.c:126-153 | The same before or after any given node |
| `AdList.List.DelNode` | redis-3.0.3/src/adlist.c:159-172 | The sequence loses exactly that node |
| `AdList.List.Index` | redis-3.0.3/src/adlist.c:313-325 | The node at the position, negative positions counting from the tail, null exactly outside |
| `AdList.List.Rotate` | redis-3.0.3/src/adlist.c:328-341 | The last element comes first and the order of the others stays |
| `AdList.List.SearchKey` | redis-3.0.3/src/adlist.c:285-306 | The first match, null exactly when there is none |
| `AdList.List.Dup` | redis-3.0.3/src/adlist.c:242-274 | A fresh list with the copy of the value at every position, or nothing exactly when some copy fails |
| `AdList.ListIter.Next` | redis-3.0.3/src/adlist.c:221-232 | The iterator is past the node it returns |
| `AdList.Sweep` | redis-3.0.3/src/adlist.c:221-232 | A pass that deletes any of the nodes it is given still visits every original node exactly once, in order, and a node is left exactly when it was in the list and was not to be deleted |
| `Consistent.HashRing.AddNode` | hashring/consistent.h:80-90 | Every point of the node, taken or not, leads to it and every other point leads where it did; the result is the last of them |
| `Consistent.HashRing.RemoveNode` | hashring/consistent.h:92-100 | Every point of the node is gone, whoever held it, and every other point stays |
| `Consistent.HashRing.GetNode` | hashring/consistent.h:102-118 | The owner of the first point at or behind the hash, around the ring; an error exactly on the empty ring |
| `Consistent.LowerBound` | hashring/consistent.h:111 | The least point not below the hash, none exactly when all are below |
| `Consistent.SuccessorIsUnique` | hashring/consistent.h:102-118 | A hash has at most one successor point |
| `Consistent.SuccessorExists` | hashring/consistent.h:102-118 | It has one unless the ring is empty |
| `Consistent.JoinMovesKeysToTheNewNode` | hashring/consistent.h:80-90 | When a node joins, a key keeps its owner or passes to the new node, hash collisions or not |
| `Consistent.LeaveMovesOnlyItsOwnKeys` | hashring/consistent.h:92-100 | When a node leaves, a key keeps its point exactly when that was not one of the node's |
| `Consistent.LeaveMovesOnlyOwnedKeys` | hashring/consistent.h:92-100 | Without collisions only keys of the leaving node move |
| `Consistent.JoinThenLeave` | hashring/consistent.h:80-100 | Joining and leaving restores the ring if and only if none of the points was taken before |

## Left out

Results stated under a condition or more weakly than the code's whole behaviour:

- ClusterElection.ElectionSafety: holds for runs with one voter set per epoch on whose size all candidates agree, without restart or RESET HARD (the vote is not saved where it is cast), and for winners whose stale acknowledgements stay below the threshold, which `ClusterStaleAck.SafeExactlyBelow` shows to be exact.
- ClusterStaleAck.TwoWinners: stale counts up to the number of masters, since a master answers an election once; the masters are one voter set.
- ClusterTiming.SafetyByTiming: one clock for all nodes, whose reading at every step is given; what a node does between two steps takes no time.
- ClusterElection.StepKeepsInv: a message is delivered at most once, as over a TCP connection, possibly late or never; only ClusterCollision also allows a PING to arrive again.
- ClusterElection.EpochsNeverDecrease: epochs are unbounded numbers; wrapping around 2^64 is not modelled.
- ClusterCollision.CollisionsTerminate: PINGs are the only traffic; currentEpoch in a PING is arbitrary, bumps and elections in between are not part of these runs.
- ClusterClaims.SameClaimsSameOwners: the receivers import no slot and start with no slot assigned; each master claims under one epoch of its own. What happens from a table in use is `ClusterClaims.OrderMattersExactlyWhenContested`, with the same two restrictions on imports and epochs.
- ClusterTable.AddNode: handshakes, gossip and CLUSTER MEET, which decide when a node becomes known, are not modelled.
- ClusterTable.DelNode: called for neither this node nor its master, which CLUSTER FORGET refuses; the loop that drops failure reports and the freeing of the node are left out.
- ClusterTable.UpdateSlotsConfigWith: a slave of an unknown master and a slave that owns slots are excluded; the source dereferences the former and asserts against the latter when it changes masters. `keys` stands for the number of keys per slot; `Db.RedisDb.DelKeysInSlot` is the deletion itself.
- ClusterFailover.HandleSlaveFailover: clock, random delay, slave rank, data age and manual failover flags are parameters.
- ClusterFailover.SendFailoverAuthIfNeeded: whether the acknowledgement reaches the candidate is up to the network model.
- NodesConf.LoadConfig: lines are already split into fields, and only the fields about slots are read; a slot outside the table or a bracket without a dash, on which the source writes out of bounds or fails its assertion, is excluded.
- AofFormat.LoadAppendOnlyFile: executing a command and being in the middle of a MULTI are abstract functions of the commands; an unknown first argument ends the load. Numbers beyond the C types and a failing truncate() are not modelled. Reading a line follows fgets() with its 128-byte buffer.
- AofRecovery.CrashRecovery: commands have at least one argument and sizes that argc and a string length can hold.
- AofLog.AofServer.Propagate: commands are arbitrary functions on the dataset other than SELECT; the translation of EXPIRE, SETEX and the like to PEXPIREAT is not modelled.
- AofLog.AofServer.FlushAppendOnlyFile: what write() returns and whether ftruncate() works are parameters; fsync is not modelled, so "on disk" means written.
- AofLog.AofServer.BackgroundRewriteDoneHandler: the content of the child's file is an assumption here, which `AofLog.ChildFileIsComplete` derives from the protocol; rename() and fstat() succeed or fail as a whole.
- AofLog.AofServer.StartAppendOnly: the snapshot is any list of commands that rebuilds the dataset; how the child finds it by walking the dictionary is not modelled.
- AofProtocol.RewriteIsComplete: time-outs of the child appear as the step in which it gives up.
- AdList.List.Dup: the values are collected first and copied afterwards, where the source does both in one pass.
- Consistent.HashRing.AddNode: points are numbers without a width.
- Db.RedisDb.Rename: keyspace events, watched keys and reference counts are not modelled.

What the repository does that has no model here:

- Sockets, event loop, fork, signals, logging, latency sampling.
- Handshake, gossip sections, failure detection and reports, slave lists, replica migration, publish/subscribe messages, MIGRATE.
- Replication, scripting, Sentinel, RDB files, the data types and their encodings; skiplist, dict and sds are a sorted sequence, a map and byte sequences.
- Databases other than 0 in `Db`, which is what cluster mode allows.
- Commands that assign slots to a slave, as far as roles are concerned; the slot table keeps its invariant under them.
- The FTP programs, binarytree, bigint, minicrt, lua, ioccc and the other exercises of the repository.
