# Verified models of the 6.5840 lab infrastructure

The labs of MIT's distributed-systems course come with finished code around the parts students
write: a shard allocator, the sequential key/value model that histories are compared with, the
clients and final checks of the key/value tests, a monitor of what Raft servers apply, a call
multiplexer, a simulated network, and a few supporting pieces. This project models that code in
Dafny and proves what it is for. `dafny verify dfyconfig.toml` verifies everything.

Each file has one subject.

- `ShardMoves.dfy`, `Rebalance.dfy`, `ShardConfig.dfy`: the shard configuration. The two loops of
  Rebalance are specified by functions of the shard array and the set of group ids. One invariant
  of both loops (`Frugal`: no group both gains and loses, gainers stay within one of the smallest
  load, losers within one of the largest, no gainer above a loser) yields balance, minimal movement,
  single writes and the exact cost of joining (any number of groups) and leaving. A simple form, one
  greedy step repeated, is shown to end where the two loops do. The number of shards is a parameter
  between 1 and 256 (the code uses 12): 256 is what the sentinel 257 allows. The number of groups
  is not bounded.
- `KvModel.dfy`: the sequential model, and the locality theorem of Herlihy and Wing for it: a
  history may be judged one key at a time.
- `KvClients.dfy`: the append and put clients as state machines over any interleaving, on a store
  that may answer ErrMaybe whether or not a put took effect, and the checks made at the end, for put
  clients on any number of keys and over any number of rounds.
- `RaftMonitor.dfy`, `RaftSnapshots.dfy`, `RaftFeeds.dfy`: the monitor of applied commands, without
  and with snapshots. Raft itself is an arbitrary source of commands, snapshots and restarts, and calls
  to the monitor may be lost; a cluster fed from one global log is a special case.
- `Demux.dfy`: the call table, and the multiplexer as a state machine over client threads, reader,
  server handlers and a connection that may fail at any moment.
- `Network.dfy`: the network's tables, and requests in flight as a state machine over every
  interleaving with changes to those tables.
- `Connectivity.dfy`: which servers of a group can reach each other.
- `TypeGraph.dfy`: the encoder's walk over possibly cyclic types.
- `Framing.dfy`: length-prefixed messages on a byte stream.
- `Choice.dfy`, `Sorting.dfy`, `Wrappers.dfy`: picking elements of sets, which is how map iteration
  in arbitrary order is modelled; sorting what a set holds; values that may be missing.

Random choices, delays and scheduling are nondeterministic steps. Payload encodings are parameters.
Integers are unbounded except where the width matters: group ids are 64-bit, call tags wrap at 2^32,
the model's versions wrap at 2^64, a frame header holds a length modulo 2^32.

Some results say where the code falls short of, or goes beyond, what its text suggests.

- MakePartition is described as splitting the servers in two with the leader in the minority
  (`src/tester1/group.go:293`). For an even number of servers it does so only with leader 0 (or,
  of two servers, leader 1); otherwise server 0 lands in both blocks. `MakePartition` states the
  exact condition.
- The multiplexer relies on a tag not coming round again while its call is outstanding and the table
  open. `NoWrapExact` and `ExecutionExact` show that this condition is exact: where it fails, and only
  there, handing out one more tag can displace a call, which is then never answered
  (`StrandedForever`). `TagsCanWrap` exhibits a whole run.
- The check of the final put count reads the key first, so it fails if no client ever finished a
  put, even when all counts are zero. In reliable mode it also rejects a correct store on which an
  unknown put took effect. `PutsPass` states the exact condition.
- The monitor raises false alarms if calls to it are lost: a lost report is itself an error, and the
  next command then seems to lack its predecessor. `AlarmsExact` says exactly when.
- The test in OnePut stops only if both the id and the version it reads differ
  (`src/kvtest1/kvtest.go:228`). `OwnPutReadBack` shows that neither can.
- The comment on OneClientAppend numbers a client's entries from 1 (`src/kvtest1/kvtest.go:335`);
  the code, and the model, start at 0.

## Model

| member | source | states |
|---|---|---|
| Rebalancing.MinimalMovement | src/shardkv1/shardcfg/shardcfg.go:122-154 | from any shard array and any non-empty set of groups, Rebalance changes no more shards than any other assignment to existing groups with loads at most one apart |
| Rebalancing.NoShardWrittenTwice | src/shardkv1/shardcfg/shardcfg.go:131-153 | the writes of both loops replay to the result, go to pairwise different shards, are as many as the shards that changed, and no group that receives a shard ever gives one |
| Rebalancing.RebalanceOrder | src/shardkv1/shardcfg/shardcfg.go:131-153 | a group loses its lowest-numbered shards first; orphans are dealt out in the order of their numbers, each to the group then least loaded, and stay there |
| Rebalancing.GreedyIsRebalance | src/shardkv1/shardcfg/shardcfg.go:122-154 | repeating one greedy step (lowest orphan, or else lowest shard of the most loaded group, to the least loaded) until shards are assigned and even ends exactly where Rebalance does |
| Rebalancing.GreedyExists | src/shardkv1/shardcfg/shardcfg.go:122-154 | such a run exists from every array |
| Rebalancing.RebalancedIsBalanced | src/shardkv1/shardcfg/shardcfg.go:122-154 | with at least one group, every shard ends in an existing group and no group has two shards more than another; the movement was frugal |
| Rebalancing.RebalancedFixpoint | src/shardkv1/shardcfg/shardcfg.go:122-154 | a valid, balanced array is left as it is, so rebalancing twice is rebalancing once |
| Rebalancing.MoveLowersSquares | src/shardkv1/shardcfg/shardcfg.go:140-153 | each pass of the unbounded move loop lowers the sum of squared loads by at least two: the loop ends |
| Rebalancing.ChoicesUnique | src/shardkv1/shardcfg/shardcfg.go:90-110 | the least and the most loaded group with the lowest id are unique, so the result cannot depend on map iteration order |
| Rebalancing.AssignStep | src/shardkv1/shardcfg/shardcfg.go:131-138 | giving an unassigned shard to the least loaded group keeps the frugality invariant |
| Rebalancing.FrugalMove | src/shardkv1/shardcfg/shardcfg.go:140-153 | a pass of the move loop keeps the frugality invariant and moves a shard that has not moved before |
| Rebalancing.JoinMovesShare | src/shardkv1/shardcfg/shardcfg.go:122-154 | from a balanced array over k groups, m new groups cause exactly m times N/(k+m) (rounded down) moves plus what the remainder exceeds k by, all to newcomers, and no old group grows |
| Rebalancing.OneJoinCost | src/shardkv1/shardcfg/shardcfg.go:122-154 | for one newcomer that number is N/(k+1), rounded down |
| Rebalancing.LeaveMovesOnlyOrphans | src/shardkv1/shardcfg/shardcfg.go:122-154 | from a balanced array, when some but not all groups leave, exactly the leavers' shards are reassigned |
| ShardConfiguration.AfterHealthy | src/shardkv1/shardcfg/shardcfg.go:156-221 | every successful JoinBalance or LeaveBalance keeps: shards assigned and balanced (or all 0 without groups), and no server in two groups |
| ShardConfiguration.RunHealthy | src/shardkv1/shardcfg/shardcfg.go:156-221 | the same after any sequence of successful calls, and Num is the number of calls |
| ShardConfiguration.RunsPassCheckConfig | src/shardkv1/shardcfg/shardcfg.go:156-279 | after any sequence of successful calls all tests of CheckConfig pass for the current groups, server lists are disjoint, and every shard's group exists once there is a group |
| ShardConfiguration.MembershipExact | src/shardkv1/shardcfg/shardcfg.go:229-236 | after any sequence of successful calls, holding a shard is the same as being a group if and only if there are between one and N groups |
| ShardConfiguration.JoinDisruption | src/shardkv1/shardcfg/shardcfg.go:207-213 | in any run, any groups joining others move exactly that number of shards, all to newcomers, and no old group grows |
| ShardConfiguration.LeaveDisruption | src/shardkv1/shardcfg/shardcfg.go:215-221 | in any run, groups that leave others behind cause exactly their own shards to move |
| ShardConfiguration.RunOrder | src/shardkv1/shardcfg/shardcfg.go:207-221 | in any run, every further change takes the lowest-numbered shards of a group first and deals orphans out in order |
| ShardConfiguration.RunMembers | src/shardkv1/shardcfg/shardcfg.go:156-205 | in any run, the groups are exactly those that joined and have not left since, with the servers they joined with |
| ShardConfiguration.CheckPassesMeans | src/shardkv1/shardcfg/shardcfg.go:238-279 | for k wanted groups without repetition, passing the check is the same as: they are the groups, every shard is in one of them, and each holds N/k shards or one more |
| ShardConfiguration.Tally | src/shardkv1/shardcfg/shardcfg.go:81-84 | the counting loop yields every group's number of shards, zero for absent keys |
| ShardConfiguration.SortedIds | src/shardkv1/shardcfg/shardcfg.go:92-98 | whatever order the map is visited in, the ids come out strictly increasing and complete |
| ShardConfiguration.Clashes | src/shardkv1/shardcfg/shardcfg.go:164-172 | true exactly if some group already has one of the servers |
| ShardConfiguration.AddGroups | src/shardkv1/shardcfg/shardcfg.go:158-177 | in any visiting order: all groups are added exactly if each is new and shares no server with another; a refusal means one existed already, a fatal end a shared server; what was added before stays |
| ShardConfiguration.ShardConfig.constructor | src/shardkv1/shardcfg/shardcfg.go:44-49 | the new configuration is the starting point of runs: number 0, all shards unassigned, no groups |
| ShardConfiguration.ShardConfig.Analyze | src/shardkv1/shardcfg/shardcfg.go:80-111 | returns the most and least loaded groups, lowest id among equals, with their loads; the sentinels come back exactly when there is no group (below 257 shards, for the least) |
| ShardConfiguration.ShardConfig.SomeSmall | src/shardkv1/shardcfg/shardcfg.go:88-103 | with up to 256 shards and at least one group, some load is below 257: the sentinels do not escape |
| ShardConfiguration.ShardConfig.FindLeast | src/shardkv1/shardcfg/shardcfg.go:115-118 | returns the least loaded existing group with the lowest id |
| ShardConfiguration.ShardConfig.Rebalance | src/shardkv1/shardcfg/shardcfg.go:122-154 | the in-place loops end, with the array of which minimal movement, balance, order of moves and the greedy form are proved |
| ShardConfiguration.ShardConfig.AssignLoop | src/shardkv1/shardcfg/shardcfg.go:131-138 | the first loop, ranging over a copy of the array, computes its specification |
| ShardConfiguration.ShardConfig.MoveLoop | src/shardkv1/shardcfg/shardcfg.go:140-153 | the second loop terminates with the array that the results on order and balance are about |
| ShardConfiguration.ShardConfig.MoveFirst | src/shardkv1/shardcfg/shardcfg.go:146-152 | exactly the first shard of the most loaded group changes hands |
| ShardConfiguration.ShardConfig.Join | src/shardkv1/shardcfg/shardcfg.go:156-183 | succeeds exactly for a non-empty set of new groups without shared servers, then adds them and counts up; every failure leaves Num alone, says why it happened, and a refusal leaves only some of the new groups added |
| ShardConfiguration.ShardConfig.Leave | src/shardkv1/shardcfg/shardcfg.go:185-205 | succeeds exactly for a non-empty list of distinct current groups; a refusal is due to the first id that is unknown or repeated and has removed just the ids before it; an empty list is fatal |
| ShardConfiguration.ShardConfig.JoinBalance | src/shardkv1/shardcfg/shardcfg.go:207-213 | succeeds exactly when the join is acceptable, with the configuration that runs are built from; otherwise shards and Num are unchanged |
| ShardConfiguration.ShardConfig.LeaveBalance | src/shardkv1/shardcfg/shardcfg.go:215-221 | likewise for leaving |
| ShardConfiguration.ShardConfig.GidServers | src/shardkv1/shardcfg/shardcfg.go:223-227 | the shard's group and servers; in a configuration as runs reach it, it succeeds if and only if there is any group, and no other group has one of these servers |
| ShardConfiguration.ShardConfig.IsMember | src/shardkv1/shardcfg/shardcfg.go:229-236 | true exactly if the group holds a shard |
| ShardConfiguration.ShardConfig.CheckConfig | src/shardkv1/shardcfg/shardcfg.go:238-279 | passes exactly if the groups are as many as wanted, all wanted ones exist, all shards are assigned to groups (when any are wanted) and loads are at most one apart |
| KvModel.Locality | src/models1/kv.go:27-67 | a well-timed history over many keys has a real-time order that the whole store accepts if and only if each sublist Partition returns has one that Step accepts from Init, that is, one in which every answer fits |
| KvModel.AcceptsExactly | src/models1/kv.go:44-67 | Step from Init accepts operations if and only if every get returns the last value put with effect (or ""), every put with effect answers OK or ErrMaybe and any other ErrVersion or ErrMaybe, a put having effect when its version is the number of such puts before it in 64 bits |
| KvModel.LinearizableMeans | src/models1/kv.go:44-67 | a history over many keys is linearizable if and only if some real-time order makes every answer fit the puts on its own key |
| KvModel.KeyByKey | src/models1/kv.go:44-67 | the same for the operations on each key |
| KvModel.StepsSplit | src/models1/kv.go:45-46 | a sequence is accepted by the whole store if and only if every key accepts its own operations |
| KvModel.Combine | src/models1/kv.go:44-48 | from an order for each key, one timeline of all operations, each placed between its call and return, that every key accepts |
| KvModel.SortedKeys | src/models1/kv.go:33-37 | whatever order the map is visited in, the keys come out alphabetically and complete |
| KvModel.BeforeExactly | src/models1/kv.go:37 | the order is lexicographic: one string comes before another if and only if they agree up to where it ends or has the smaller character |
| KvModel.GroupByKey | src/models1/kv.go:28-32 | the loop collects under each key of the history exactly the operations on it, in recorded order |
| KvModel.Partition | src/models1/kv.go:27-43 | the sublists are, key by key in alphabetical order, exactly the operations on that key in recorded order |
| VersionedStore.StoreFollowsModel | src/models1/kv.go:57-63 | the clients' store answers a put in the ways Step allows, and only those, with the same next state, the wrap of the largest 64-bit version included |
| AppendClients.StepKeepsInv | src/kvtest1/kvtest.go:338-363 | every get or put of any client keeps: version = length + 1, each client's numbers increase, acknowledged entries are present, numbers stay below the client's counter; the list only grows |
| AppendClients.NoLostUpdates | src/kvtest1/kvtest.go:338-363 | in any interleaving of any number of clients, an append that returned OK is in the list at every later moment |
| AppendClients.CountsExact | src/kvtest1/kvtest.go:351-358 | a client's two counts are how often its puts returned OK and ErrMaybe |
| AppendClients.AppendsPass | src/kvtest1/kvtest.go:338-401 | in any interleaving, all demands of CheckAppends hold: order per client, skipped entries bounded by maybes, entries bounded by oks plus maybes, version = length + 1 |
| AppendClients.TallyAppends | src/kvtest1/kvtest.go:373-389 | the loop over the entries stops exactly at disorder or a foreign client; otherwise the two maps hold each client's next number and how many it skipped |
| AppendClients.CheckAppends | src/kvtest1/kvtest.go:372-401 | it passes exactly when these demands hold |
| AppendClients.SkippedExact | src/kvtest1/kvtest.go:379-389 | in an ordered list, what is counted as skipped is the number of entries missing below the client's last |
| AppendClients.PassesMeans | src/kvtest1/kvtest.go:372-401 | passing says exactly: each client's numbers increase from 0 and stay below its finished puts, no more are missing than it has unknown puts, nobody else has entries, and the version counts the entries |
| PutClients.StepKeepsInv | src/kvtest1/kvtest.go:219-238 | every put or get of any client on any key keeps: versions sum to acknowledged puts + applied unknown ones, and no client check has failed |
| PutClients.OwnPutReadBack | src/kvtest1/kvtest.go:225-231 | a client whose acknowledged put was not overwritten reads back exactly its own id and version |
| PutClients.WrongReadMisses | src/kvtest1/kvtest.go:227-231 | after an acknowledged put that was not overwritten, the check fires on a value if and only if both its parts differ; otherwise only on an absent key |
| PutClients.CountsExact | src/kvtest1/kvtest.go:286-291 | a client between operations has counted exactly its puts that returned OK and ErrMaybe |
| PutClients.PutAccounting | src/kvtest1/kvtest.go:219-295 | on any number of keys, once all clients are between operations: the versions have grown by Nok plus the unknown puts that were applied, which are at most Nmaybe; the wrong-value check never fired |
| PutClients.RoundsAccounting | src/kvtest1/kvtest.go:137-151 | the same for the carried totals over any number of rounds of fresh clients |
| PutClients.PutsPass | src/kvtest1/kvtest.go:137-151 | after any rounds on one key CheckPutConcurrent passes if and only if some client finished a put and, in reliable mode, no unknown put was applied |
| PutClients.OffVersionsCaught | src/kvtest1/kvtest.go:144-150 | which other versions the check would catch, exactly: in reliable mode all but one; otherwise those that exceed the right one by more than the unknown puts not applied |
| PutClients.CheckPutConcurrent | src/kvtest1/kvtest.go:137-151 | passes exactly if the key exists and its version meets the demand on the totals carried in plus those of all clients, and carries these on |
| LogChecker.CheckerExact | src/raft1/server.go:107-123 | over any deliveries an error is reported if and only if two of them differ at one index, a server is given an index above 1 without its predecessor, or the call to the monitor is lost |
| LogChecker.FirstErrorExact | src/raft1/server.go:107-123 | up to the first error, each single delivery is reported exactly if it is such a violation |
| LogChecker.EveryReportExact | src/raft1/server.go:107-123 | also after errors, each delivery is reported if and only if its call is lost, some server was last given another command there, or its server was not given its predecessor |
| LogChecker.MaxIndexExact | src/raft1/test.go:192-194 | the largest index the monitor was told of, or 0 |
| LogChecker.NoErrorMeansAgreement | src/raft1/test.go:175-196 | without errors all servers' logs are parts of one common sequence, without gaps below any entry |
| LogChecker.Monitor.constructor | src/raft1/test.go:42-47 | every server starts with an empty log and no error |
| LogChecker.Monitor.CheckLogs | src/raft1/test.go:175-196 | reports exactly whether some log holds another command there and whether the server has the predecessor, and records the command in that server's log only |
| LogChecker.Monitor.ApplyOne | src/raft1/server.go:107-123 | one delivery is an error exactly if it conflicts, its predecessor is missing or its call is lost; it is recorded unless the call never arrived, and an error is noted for that server only |
| LogChecker.Monitor.Applier | src/raft1/server.go:107-123 | reading deliveries one by one, it reports and records as the specification of whole delivery sequences says, and a server has an error noted exactly if a delivery to it was reported |
| LogChecker.CopyMap | src/raft1/test.go:203-206 | copying entry by entry in any order gives the same map |
| LogChecker.Monitor.NCommitted | src/raft1/test.go:249-275 | fatal exactly if some server has an error noted or two servers differ at the index; otherwise the number of servers holding it and their common command |
| SnapshotServers.NoFalseAlarms | src/raft1/server.go:49-210 | fed from one global log, across any deliveries, snapshot installs, crashes and restarts, no error is raised as long as no call to the monitor is lost |
| SnapshotServers.AlarmsExact | src/raft1/server.go:128-182 | with calls lost or not, an error is raised if and only if a delivery's call was lost or the monitor lacked its predecessor; never for a mismatch or a snapshot |
| SnapshotServers.ServersFollow | src/raft1/server.go:128-210 | with calls lost or not, every running server's log is the global log up to lastApplied, and at most 9 commands were applied since its last snapshot |
| SnapshotFeeds.FeedExact | src/raft1/server.go:128-210 | whatever commands, snapshot bytes and restarts servers are fed, in any order: a command is reported if and only if it is not one past the server's last command or snapshot, its call is lost, the monitor was not told of its predecessor, or it differs from what the monitor was told; a snapshot if and only if it is absent, unreadable or of another index |
| SnapshotFeeds.FedExactly | src/raft1/server.go:128-210 | servers and monitor then hold exactly what the events say: positions, own logs, and what the monitor was told |
| SnapshotFeeds.SnapshotsExact | src/raft1/server.go:154-166 | a snapshot is handed to Raft if and only if the index is 9 modulo 10, and holds what the server has at every index up to it |
| SnapshotFeeds.ClusterIsFed | src/raft1/server.go:49-182 | each step of a cluster fed from one global log is such an event |
| SnapshotServers.StepKeepsInv | src/raft1/server.go:128-182 | every delivery, install, crash and restart keeps the invariant behind it, including that the monitor's surviving copies hold nothing but the global log |
| SnapshotServers.SnapshotRoundTrip | src/raft1/server.go:154-210 | ingesting a snapshot just made never fails and restores the log (slot 0 filled in as empty) and the index |
| SnapshotServers.RaftServer.constructor | src/raft1/server.go:56-61 | a server starts with an empty log at index 0 |
| SnapshotServers.RaftServer.IngestSnap | src/raft1/server.go:185-210 | fails exactly on absent or undecodable bytes or another index, changing nothing; otherwise log and index become the snapshot's |
| SnapshotServers.RaftServer.CollectLog | src/raft1/server.go:158-162 | the snapshot has one entry per index from 0 on, empty where the log has none |
| SnapshotServers.RaftServer.CallCheckLogs | src/raft1/proxy.go:50-61 | a lost call answers ErrRPC, with or without effect; otherwise the missing predecessor is reported before a mismatch |
| SnapshotServers.RaftServer.Recover | src/raft1/server.go:66-76 | a restarted server takes up exactly the saved snapshot, tells the monitor unless the call is lost, and ends on one it cannot read |
| SnapshotServers.RaftServer.Apply | src/raft1/server.go:133-181 | a command is always recorded; one out of turn raises an error and does not reach the monitor; a snapshot is an error exactly if absent, unreadable or of another index; all else as in the feeds, lost calls included, and an error is noted at the monitor if its report gets through |
| CallTables.CallMap.constructor | src/tester1/demux/callmap.go:15-17 | a new table is open and empty |
| CallTables.CallMap.CloseMap | src/tester1/demux/callmap.go:19-25 | closing keeps the outstanding calls, and whatever is done to the table later registers no other |
| CallTables.ClosedOnlyShrinks | src/tester1/demux/callmap.go:34-54 | under any sequence of operations a closed table only loses calls: what is outstanding at closing is all that ever needs a failure |
| CallTables.CallMap.PutCall | src/tester1/demux/callmap.go:34-43 | registers unless closed, in which case it fails and changes nothing |
| CallTables.CallMap.RemoveCall | src/tester1/demux/callmap.go:45-54 | finds exactly what is registered, and takes it out; works on a closed table too |
| CallTables.CallMap.Outstanding | src/tester1/demux/callmap.go:56-65 | lists every registered tag exactly once |
| Demux.DemuxSafety | src/tester1/demux/dmxclnt.go:49-101 | in every interleaving: the exit on an unmatched reply is not taken; a call gets at most one reply, the server's answer to its own request or a failure after a read error; once the reader has stopped nothing is registered and every registered call has exactly one reply |
| Demux.AnswerReachesCaller | src/tester1/demux/dmxclnt.go:58-81 | once the reader has read the answer to a call, the caller has exactly that answer, for good |
| Demux.AnswerConserved | src/tester1/demux/dmxclnt.go:66-81 | while the reader reads, an answer written to the connection is on its way or has reached its caller |
| Demux.RequestConserved | src/tester1/demux/dmxclnt.go:90-95 | a request written to the connection is on its way, being handled or answered |
| Demux.RequestReachesHandler | src/tester1/demux/dmxsrv.go:49-71 | the handler of a call is given what the caller asked |
| Demux.RefusedExactly | src/tester1/demux/dmxclnt.go:83-89 | a call is turned away if and only if the client was closed or the connection failed before it came to register |
| Demux.ReturnedForGood | src/tester1/demux/dmxclnt.go:99-100 | a caller returns with the one reply it got, and the call is over |
| Demux.StepKeepsInv | src/tester1/demux/dmxclnt.go:49-111 | every step of client threads, reader, server and connection keeps the invariant tying tags, table, messages and replies together; handing out a tag needs that, while the table is open, fewer than 2^32 were handed out since any outstanding call got its own |
| Demux.NoWrapExact | src/tester1/demux/dmxclnt.go:49-56 | in any state so reached, this condition holds if and only if no continuation with at most one more tag, whatever else happens, displaces a call |
| Demux.ExecutionExact | src/tester1/demux/dmxclnt.go:49-111 | so the runs the guarantees are about are exactly the runs from the start that never hand out a tag when that could displace a call |
| Demux.ReplyIsExpected | src/tester1/demux/dmxclnt.go:58-64 | a reply read finds the call it belongs to under its tag |
| Demux.TagIsFree | src/tester1/demux/dmxclnt.go:83-89 | a call that can still register never overwrites another |
| Demux.HandledOnce | src/tester1/demux/dmxsrv.go:49-71 | each request is handled at most once, and the handler is given that call's own request |
| Demux.WrapStrands | src/tester1/demux/dmxclnt.go:49-89 | if the next tag is that of an outstanding call, registered or about to be, handing it out can make the newcomer take its place in the table |
| Demux.StrandedForever | src/tester1/demux/dmxclnt.go:58-81 | a call so displaced stays without reply in every continuation |
| Demux.DisplacedMisdelivers | src/tester1/demux/dmxclnt.go:58-64 | the answer to a displaced call goes to the newcomer, whose own answer then ends the process |
| Demux.TagsCanWrap | src/tester1/demux/dmxclnt.go:49-56 | a concrete run of 2^32 further tags displaces the first call |
| Network.AtMostOnce | src/labrpc/labrpc.go:290-383 | however tables change meanwhile: at most one handler run and at most one answer per request; a request that found its end disabled or leading nowhere never runs and is only refused; server counters equal handler starts |
| Network.NeverStuck | src/labrpc/labrpc.go:290-383 | an unanswered request can always take a step of its own or waits for its handler |
| Network.FewSteps | src/labrpc/labrpc.go:290-383 | a request takes at most seven steps in any run, so each whose handler returns is answered, exactly once |
| Network.PositiveAnswer | src/labrpc/labrpc.go:264-383 | a positive answer is the reply of the request's own handler, and the server object was registered under the end's name, with the end enabled, both at pick-up and at the check after the handler |
| Network.PositiveExactly | src/labrpc/labrpc.go:338-365 | an answered request has a positive answer if and only if its handler returned one and that passed the check after it, not dropped and from a live server |
| Network.FailureWhy | src/labrpc/labrpc.go:290-383 | an answer is the handler's own reply unless the request found no server, the network was unreliable, or the server counted as dead at some moment since pick-up |
| Network.ReliableAnswer | src/labrpc/labrpc.go:290-383 | on a reliable network with a live server, the answer is what the handler, run once, returned |
| Network.CallStays | src/labrpc/labrpc.go:113-140 | a request stays on the end it was made on |
| Network.DeadServerNeverAnswers | src/labrpc/labrpc.go:318-348 | a request without a reply on its way gets no positive answer while its server counts as dead, whenever its handler returns |
| Network.ReadOnce | src/labrpc/labrpc.go:290-291 | a request reads the tables at pick-up only once |
| Network.StepKeepsInv | src/labrpc/labrpc.go:264-383 | every step of a request and every table change keeps the per-request invariant and the counters |
| Network.Tables.constructor | src/labrpc/labrpc.go:198-206 | a new network is reliable and has no ends or servers |
| Network.Tables.ReadEndnameInfo | src/labrpc/labrpc.go:264-278 | what is read reaches a server if and only if the end leads to one, then the same object, and that object does not count as dead |
| Network.Tables.IsServerDead | src/labrpc/labrpc.go:280-288 | unless the end was rewired, a server counts as dead exactly if the end no longer leads to the same object |
| Network.Tables.Update | src/labrpc/labrpc.go:387-459 | a change shows only to ends it concerns; after disabling, making or deleting an end, deleting a server or replacing its object, everything read before counts as dead; connecting an end or adding a server makes enabled ends lead there |
| Network.Tables.PickUp | src/labrpc/labrpc.go:290-295 | picking a request up is the corresponding step of the system |
| Network.Tables.Poll | src/labrpc/labrpc.go:324-336 | polling gives up exactly when the system's step is enabled |
| Network.Tables.Finish | src/labrpc/labrpc.go:338-365 | the check after the handler and the fate of the reply are the step that PositiveExactly and FailureWhy are about |
| Connectivity.RunsAreMeshed | src/tester1/group.go:124-184 | in any run of connecting, disconnecting and restarting servers, an end-point is enabled exactly if both its servers are connected |
| Connectivity.StepKeepsMesh | src/tester1/group.go:130-184 | each such step keeps this |
| Connectivity.ServerGrp.Connect | src/tester1/group.go:141-157 | the server's flag is set, exactly its end-points to and from connected servers of the list are enabled, and no other changes |
| Connectivity.ServerGrp.Disconnect | src/tester1/group.go:161-180 | the server's flag is cleared, exactly its end-points to and from the list are disabled, and no other changes |
| Connectivity.ServerGrp.ConnectAll | src/tester1/group.go:124-128 | from any state, all servers end connected and all pairs enabled |
| Connectivity.ServerGrp.Partition | src/tester1/group.go:313-323 | from any state and for any two lists, two listed servers can talk afterwards exactly if the second list names both or neither, and nothing else changes; for a disjoint cover: exactly if they are in one block |
| Connectivity.MakePartition | src/tester1/group.go:294-311 | gives a disjoint cover if and only if the number of servers is odd, or it is at least four and the leader is 0, or it is two and the leader 1; for odd numbers the first block is a strict majority without the leader |
| TypeGraph.Checker.constructor | src/labgob/labgob.go:75-79 | the memo and the counter start empty |
| TypeGraph.Checker.Check | src/labgob/labgob.go:68-113 | on any finite, possibly cyclic graph, from a closed memo: ends, with a closed memo holding exactly the old types and everything reachable, each new type scanned once and each of its lower-case fields counted once |
| TypeGraph.Checker.CheckType | src/labgob/labgob.go:72-113 | from any memo, also in the middle of a walk: only reachable types are added, each with all its successors, scanned and counted once |
| TypeGraph.Checker.CheckFields | src/labgob/labgob.go:88-102 | the loop over a struct visits all field types and counts every lower-case field |
| TypeGraph.ClosedReaches | src/labgob/labgob.go:72-113 | a memo closed under references holds everything reachable from its members |
| TypeGraph.LowerInCounts | src/labgob/labgob.go:89-99 | the count of a struct is the number of its fields that start in lower case |
| TypeGraph.SuccsAre | src/labgob/labgob.go:87-112 | a type refers to its fields' types, its element type and its key type |
| Framing.RoundTrip | src/tester1/demux/transport.go:48-79 | reading the concatenated frames of any messages shorter than 2^32 bytes returns exactly these messages, then end of file, for any invertible payload encoding |
| Framing.CutStream | src/tester1/demux/transport.go:48-79 | the stream cut at any byte yields exactly the messages whose frames are whole, in order, and then an error that depends on where the cut fell |
| Framing.FrameReadsBack | src/tester1/demux/transport.go:48-79 | a frame followed by anything is read back whole, and nothing more, if and only if its payload is shorter than 2^32 bytes |
| Framing.HeaderLength | src/tester1/demux/transport.go:69-71 | the four header bytes carry the length modulo 2^32 |
| Framing.LowByteFirst | src/tester1/demux/transport.go:69-71 | the header is little-endian: its first byte is the length modulo 256, the next ones those of the length divided by 256 |
| Framing.CutFrame | src/tester1/demux/transport.go:48-57 | a frame cut short is never read as a message |
| Framing.Transport.ReadFull | src/tester1/demux/transport.go:50-57 | all the bytes asked for, or the kind of end |
| Framing.Transport.ReadCall | src/tester1/demux/transport.go:48-64 | one call consumes exactly one frame, or ends as the specification of reading says |
| Framing.AcknowledgedAreRead | src/tester1/demux/transport.go:48-79 | wherever the connection fails, a reader gets exactly the messages for which WriteCall returned no error |
| Framing.Transport.Write | src/tester1/demux/transport.go:69-74 | bytes go out up to where the connection fails, and after a failure none do |
| Framing.Transport.WriteCall | src/tester1/demux/transport.go:66-79 | sends exactly the frame, or as much of it as the connection takes, and then returns an error |

## Left out

- The bodies the labs leave to students (Raft, the key/value servers and clerks, the replicated state machine, lock, shard controller and groups, MapReduce coordinator and worker): there is no code to model.
- `encoding/gob`, JSON, reflection, FNV hashing in Key2Shard and the porcupine search: foreign code; encodings are parameters and sorting is specified by its result.
- The sequential MapReduce driver and its plugins, the persister, Copy and String of configurations, annotations: they would only add easy members.
- Timers, sleeps, message sizes and byte counters: time is a nondeterministic step; liveness is claimed only as NeverStuck and FewSteps say.
- Blocking on unbuffered channels: a delivery is one step, so a reader waiting for a caller to receive is not modelled.
- Join: server lists are values, so that two configurations may share one list in memory is not captured; after a fatal end nothing is promised about the groups.
- ApplyErr: the report of an error itself always arrives in Applier; in Apply it may be lost.
- Update: the exits on making an existing end or deleting a missing one are not modelled; every change is allowed at any time, which covers more runs.
- Tables.constructor: the channel and the goroutine of the network are steps of the state machine.
- Monitor.constructor: all servers exist from the start.
- DemuxSafety: message order on the connection is not used; messages in transit are sets, which covers more runs.
- NoLostUpdates: the clients' store has unbounded versions, so a run long enough to wrap the 64-bit version is not covered; the same holds for PutAccounting.
- MakePartition: needs at least two servers, as the code indexes out of range below that; a group whose servers have not been started is not modelled.
- CheckType: whether a name starts with an upper-case letter is a flag of the field; the lock and the printed warning are not modelled.
