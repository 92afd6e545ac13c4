# Verified model of aquatransport and its AWDL engine

This project models the stateful core of the repository in Dafny and proves what that core is for. It has two halves.

**The AWDL protocol engine** (`deps/owl`): the election of a sync parent and its convergence over a network of nodes
(`Election.dfy`, `Convergence.dfy`, `Stabilization.dfy`), slot arithmetic and following a master's clock (`Sync.dfy`),
the decisions when a frame may be sent and the retry loop of a waiting frame (`Schedule.dfy`), the receive clock
(`RxClock.dfy`), the hash map and the peer table over it (`HashMap.dfy`, `Peers.dfy`), and action frames from the
bytes of a buffer to the record of a peer (`Wire.dfy`, `FrameFormat.dfy`, `FrameTx.dfy`, `FrameRx.dfy`,
`FrameRoundTrip.dfy`, and every byte of them at its offset in `FrameLayout.dfy`).

**The Secure Transport replacement** (`src`): the write queue between SSLWrite and a transport that may block
(`WriteQueue.dfy`), the table of shared shadows (`Shadows.dfy`, `Found.dfy`), the session and chain caches
(`Recency.dfy`, `Ahead.dfy`, `Caches.dfy`, `Hits.dfy`), the wildcard matcher with scopes and redirects (`Glob.dfy`), and the SRP client (`Modular.dfy`,
`Srp.dfy`). `Machine.dfy` holds the fixed-width integers of the C sources, `Wrappers.dfy` the option type, `Sets.dfy`
a fact about finite sets.

The main results:

- On every graph, from every state, however late the nodes' views of each other are and whenever they elect, as long
  as both delays are bounded, the network settles for good in a bounded number of steps: in the one state, determined
  by the graph and the nodes' own fields, in which no election changes anything. The sync addresses there form a
  forest that leads every node to the master it believes in.
- Sharper for synchronous rounds: a full mesh agrees on the node of greatest (counter, metric, address) in 12 rounds
  from any state with heights below 2^32 - 1, and in 13 from any state at all; on any graph with one node of greatest
  (counter, metric), every node at distance e <= 10 settles by round 11 + e (12 + e from any state), and if that is
  every node, nothing changes after round 21.
- An action frame written by one node and read by another leaves exactly the sender's election state and channel
  sequence in its peer table, and locks a follower's slots to its parent's; the reader is total on all bytes, and over
  any run of frames the table holds exactly the records that the run determines.
- A unicast frame is sent exactly when it is safe, and a waiting one goes out within 17 windows, also if timers are late
  and retuning takes its time; so does a waiting multicast frame.
- The receive clock follows late samples by a 1024th and early ones by a quarter: n samples, however late, raise the
  mapping by at most n / 1024 of the latest one's lateness, and a gap to samples that agree closes by (3/4)^n or
  (1023/1024)^n, up to rounding and no faster.
- The matcher that only ever backtracks its last star decides its specification and finds the shortest match.
- No plaintext is lost, repeated or reordered by the write queue, whatever the transport does, and every read is
  answered by what OpenSSL and the transport did.
- The hash map, the peer table, both caches and the shadow table refine their abstract counterparts over any run: the
  result of a run is stated as a function of the run.
- The same for what lookups tell their callers, from the calls alone: a session, a chain or a shadow is found exactly if
  its key was stored or found last and too few others have been since.
- The SRP client agrees with a server that has its own definitions of everything, and a context is good for one proof
  and one key.

## How it is modelled

- Integers have the width of the C type where they can wrap; the slot arithmetic on `uint64_t` and `uint16_t` is
  proved equal to arithmetic on the integers. Times are microseconds, not doubles: every delay the code computes is a
  whole number of them.
- Presence mode 4 and availability windows of 16 time units are set when a node starts and never change, and are
  constants here.
- What the environment decides is a parameter or an adversary: the clock, the order of a table's iterator, the radio's
  channel at each retry, the answers of OpenSSL and of the write callback, the outcome of an allocation, the contents
  of uninitialised memory, the order in which threads take a lock. Hash functions and key derivation are uninterpreted.
- Objects that the sources update in place are classes whose methods are proved against functions on values; loops
  are loops. `HashMap.Map` takes a memory budget, the largest table for which memory can be had: it is what makes
  rehashing end, since the code gives up only when memory runs out.

## What the proofs found

- `awdl_rx_clock_time` may return a time after the host's: for a delayed sample the sum wraps below zero. It happens
  exactly under the condition of `RxClock.TimeAtMostHost`, and only for a sample whose hardware time is behind the
  latest one (`RxClock.OnlyBackwardSamplesExceed`); two samples are enough (`RxClock.TimeCanExceedHost`).
- A valid peer that advertises height 2^32 - 1 and beats all others makes its follower's height wrap to 0
  (`Election.WrappedHeight`, an equivalence).
- Sending is safe against the peer's schedule only while the peer's offset is a multiple of a window; for every other
  offset there is a counterexample (`Schedule.AlignmentIsNeeded`). The code only ever sets it to 0.
- An empty pattern matches only the empty string, although every other pattern matches prefixes (`Glob.GlobPrefix`).
- `hashmap_put` of a key that is present leaves `size` one too high, until the next rehash, and stores the key twice
  exactly if less than half the table is in use by that count and the first slot of its window that is free or its own
  is free (`HashMap.Map.Put`, `HashMap.PresentKeyPut`); put, put, remove, put does it (`HashMap.PutTwice`), puts
  without removals never do (`HashMap.DrivePuts`). Its only caller looks first. If memory runs out in the middle of a
  rehash, entries are lost, and no others appear.
- `src/aquatransport.h:121-123` says that a blocked run adds at most one run to the write queue; the code holds the
  whole rest of the caller's data, which is more exactly if more is left at the blocked run (`WriteQueue.QueueIsRest`,
  `WriteQueue.QueueExceedsRun`).
- The comment at `src/aquatransport_engine.c:292-304` says the write callback is asked at most once an entry; the code
  stops asking only after a would-block. Over the whole entry, flush and runs together, it is asked once for each write
  that OpenSSL attempts up to the first that blocks, so a second time exactly if there is a second write and the first
  did not block (`WriteQueue.AskedUntilBlocked`, `WriteQueue.AskedTwiceInOneEntry`). The model follows the code.
- A sender with a channel encoding of unknown number writes frames that no receiver accepts
  (`FrameRoundTrip.ActionRoundTrip`).

## Model

| member | source | states |
|---|---|---|
| `Election.Node.constructor` | deps/owl/src/election.c:39-58 | a new node is its own master with metric 60 and counter 0: resetting it changes nothing |
| `Election.Node.ResetSelfInPlace` | deps/owl/src/election.c:44-50 | afterwards the node advertises itself, at height 0 |
| `Election.Node.Run` | deps/owl/src/election.c:67-120 | the loop over the iterator, with its three rejections and tie breaks, leaves the node in the state of the recursive specification `Elect` |
| `Election.CompareMaster` | deps/owl/src/election.c:60-65 | its sign is that of the comparison of (counter, metric) as one number |
| `Election.BestFromIsBest` | deps/owl/src/election.c:80-104 | no eligible peer beats the peer that the scan ends with |
| `Election.ElectPicksMaximum` | deps/owl/src/election.c:67-120 | one run picks the maximum of the node itself and the eligible peers by (counter, metric, lower height, greater address); the height stays at most 10 |
| `Election.ElectExactly` | deps/owl/src/election.c:60-120 | the outcome of one run in numbers: all eight fields, for a node that stands alone and for one that follows a peer, which peers may lead (valid, at height 9 at most or 2^32 - 1, not our child), and that none of them comes before the one chosen by counter, metric, nearness and address |
| `Election.ElectIgnoresOrder` | deps/owl/src/election.c:67-120 | two orders of the same peers give the same outcome |
| `Election.WrappedHeight` | deps/owl/src/election.c:81-84 | a follower shows height 0 if and only if some valid peer that is not its child advertises height 2^32 - 1, beats the node, and is beaten by no eligible peer |
| `Election.WrappedHeightHappens` | deps/owl/src/election.c:81-119 | a concrete parent whose height wraps past the cap |
| `Convergence.ElectionIsNodeStep` | deps/owl/src/election.c:67-120 | an election at a node of a network either leaves it alone because no neighbour it may follow beats it, or makes it follow the best such neighbour |
| `Convergence.Round` | deps/owl/src/election.c:67-120 | one election at every node of a network is a synchronous round |
| `Convergence.OwnFieldsKept` | deps/owl/src/election.c:67-120 | over any history, a node keeps its own address, metric and counter, and after a round its height is at most 10 |
| `Convergence.HearsayAges` | deps/owl/src/election.c:81-119 | a rank above every live node's own is claimed only at a height of at least k after k rounds |
| `Convergence.HearsayDies` | deps/owl/src/election.c:81-84 | so the cap has removed it after 11 rounds: a vanished master is forgotten |
| `Convergence.TopStandsAlone` | deps/owl/src/election.c:67-120 | from then on the node of greatest rank is its own master |
| `Convergence.MeshAgrees` | deps/owl/src/election.c:67-120 | in a full mesh, from any state with heights below 2^32 - 1, after 12 rounds and for ever after every node has the node of greatest (counter, metric, address) as sync and master, at height 0 there and 1 elsewhere |
| `Convergence.AgreedMeans` | deps/owl/src/election.c:67-120 | what agreement says of each field of each node |
| `Convergence.MeshAgreesFromAnything` | deps/owl/src/election.c:67-120 | from any state whatever, with heights that may wrap at first, after 13 rounds |
| `Convergence.ClaimIsHonestOrOld` | deps/owl/src/election.c:81-119 | on any graph, a node that claims the greatest rank at height h is within h hops of its owner, or repeats hearsay at least k hops old |
| `Convergence.GraphSettles` | deps/owl/src/election.c:67-120 | on any graph with one node of greatest (counter, metric), a node at distance e <= 10 has settled by round 11 + e: it knows that node as its master, has height e, and follows somebody at distance e - 1 |
| `Convergence.GraphSettlesFromAnything` | deps/owl/src/election.c:67-120 | the same by round 12 + e from any state whatever |
| `Convergence.FixedPointIsForest` | deps/owl/src/election.c:74-119 | when no election changes anything, following sync addresses from any node reaches a root in exactly `height` steps and no fewer, and that root is the master the node believes in |
| `Convergence.StillRoundIsForest` | deps/owl/src/election.c:74-119 | in particular when one more synchronous round changes nothing |
| `Convergence.GreatestHop` | deps/owl/src/election.c:98-104 | once settled, a node follows the neighbour one hop closer that has the greatest address |
| `Convergence.GraphReachesFixedPoint` | deps/owl/src/election.c:67-120 | if one node has the greatest (counter, metric) and every node is within 10 hops of it, nothing changes any more from round 21 on, and sync addresses lead from every node to that one in exactly its distance |
| `Convergence.FixedPointFromAnything` | deps/owl/src/election.c:67-120 | from any state whatever, nothing changes from round 22 on |
| `Stabilization.HistoryIsRun` | deps/owl/src/election.c:67-120 | synchronous rounds are runs without delay |
| `Stabilization.SparseElectionsAreRun` | deps/owl/src/election.c:67-120 | so are networks whose nodes elect at times of their own, if none pauses for more than d steps |
| `Stabilization.StepIsUnique` | deps/owl/src/election.c:67-120 | the graph and the views leave one outcome of an election |
| `Stabilization.Outcome` | deps/owl/src/election.c:67-120 | while some nodes are settled, any other shows what it elects among them, or follows one that is not settled, as it was at most d + 1 steps before |
| `Stabilization.Ages` | deps/owl/src/election.c:81-119 | a claim beyond what any unsettled node elects among the settled ones is hearsay, and its height grows by one in every d + 1 steps |
| `Stabilization.NextSettles` | deps/owl/src/election.c:67-120 | so within 12 (d + 1) steps the unsettled node with the best choice shows it for good |
| `Stabilization.EveryRunSettles` | deps/owl/src/election.c:67-120 | on any graph, from any state, with views and pauses of at most d steps: after 12 (d + 1) steps for each node the network is the one that the graph and the nodes' own fields determine, for good |
| `Stabilization.TargetIsFixed` | deps/owl/src/election.c:67-120 | in that network no election changes anything |
| `Stabilization.OneFixedPoint` | deps/owl/src/election.c:67-120 | and in no other with the same own fields |
| `Stabilization.RunsAgree` | deps/owl/src/election.c:67-120 | two runs of the same nodes end alike, whatever they start from and however they are delayed |
| `Stabilization.EveryRunEndsInForest` | deps/owl/src/election.c:74-119 | where any run ends, sync addresses lead from each node in exactly `height` steps to a root, and that root is the master it believes in |
| `Sync.SyncState.constructor` | deps/owl/src/sync.c:62-70 | a new clock starts its first window now, with counter 0 |
| `Sync.SyncState.UpdateLast` | deps/owl/src/sync.c:106-111 | the 64-bit steps of the code give the clock of the specification, with a counter at the start of a window |
| `Sync.LastUpdateWraps` | deps/owl/src/sync.c:106-111 | wrapping at every step of the subtraction wraps only the result |
| `Sync.CurrentEawExact` | deps/owl/src/sync.c:86-97 | the window number computed on uint64 and uint16 is the unbounded one modulo 2^14, before and after the last update, across every wrap |
| `Sync.CurrentAwExact` | deps/owl/src/sync.c:86-93 | the window counter is that of the last update plus one for every 16 time units since, modulo 2^16, across every wrap |
| `Sync.NextAwIsNextChange` | deps/owl/src/sync.c:79-84 | the microseconds to the next window are in 1..65536 and exactly the distance to the next change of window |
| `Sync.NextAwExact` | deps/owl/src/sync.c:72-84 | both times to the next window are what is left of the unbounded phase |
| `Sync.NeighbourEaw` | deps/owl/src/schedule.c:98-106 | one window length before or after now always names the previous or next window |
| `Sync.ErrorIsDistance` | deps/owl/src/sync.c:99-104 | the error a node sees in any announcement is exactly how many time units the announcing clock is ahead of its own, for any two clocks |
| `Sync.FollowerLocks` | deps/owl/src/sync.c:99-111 | a follower that applies what its master computed sees error 0, and its windows lag its master's by less than 1024 microseconds at every instant |
| `Sync.FollowerSlots` | deps/owl/src/sync.c:86-111 | so their windows agree on the machine, except in that lag at the start of each |
| `RxClock.Clock.TimeOf` | deps/owl/src/sync.c:23-60 | what the code does with a sample, in each case by how late it is: a restart, a sample too late or too early, a delayed one, and the filter, which raises the offset by the 1024th part of the lateness or lowers it by the quarter of the earliness, rounded toward zero |
| `RxClock.FilterGains` | deps/owl/src/sync.c:52-56 | a sample late by d raises the offset by r with 1024 r <= d < 1024 (r + 1), one early by d lowers it by r with 4 r <= d < 4 (r + 1) |
| `RxClock.TimeAtMostHost` | deps/owl/src/sync.c:37-59 | the time is at most the host's if and only if it is not a delayed sample mapped to before time 0 |
| `RxClock.TimeCanExceedHost` | deps/owl/src/sync.c:44-51 | a run of two samples on a fresh estimator whose second time is beyond the host's |
| `RxClock.ReachableIsGrounded` | deps/owl/src/sync.c:23-60 | in every state the code can reach, the latest hardware time maps to 0 or later |
| `RxClock.OnlyBackwardSamplesExceed` | deps/owl/src/sync.c:23-60 | so, after any samples, a time beyond the host's takes a sample whose hardware time is behind the latest one, and the condition is then exact |
| `RxClock.TimeWithinSecond` | deps/owl/src/sync.c:23-60 | once the host has been up for a second, the time is at most the host's and at most a second before it |
| `RxClock.OffsetMovesTowardObserved` | deps/owl/src/sync.c:52-56 | a sample moves the offset toward the observed one and never past it |
| `RxClock.OffsetBounded` | deps/owl/src/sync.c:23-60 | over any sequence the offset stays between the least and the greatest observed one |
| `RxClock.RisesSlowly` | deps/owl/src/sync.c:49-56 | over any samples without a restart, n of them at most `late` late raise the offset by at most n late / 1024: a delivery stall does not move the schedule by as much |
| `RxClock.Approaches` | deps/owl/src/sync.c:49-56 | samples that agree on an offset close the gap to it by the power (3/4)^n from above and (1023/1024)^n from below, up to rounding, no slower and no faster |
| `RxClock.TimeAll` | deps/owl/src/sync.c:23-60 | the class, driven with any samples, ends in the state and returns the times that these laws are about |
| `RxClock.OffsetFits` | deps/owl/src/sync.c:23-60 | and so in 64 bits |
| `RxClock.SteadyTime` | deps/owl/src/sync.c:36-59 | in a reachable state, what a sample returns that is not more than a second over the mapping, at any host time |
| `RxClock.TimesNeverGoBack` | deps/owl/src/sync.c:23-60 | from a fresh estimator, over any sequence of such samples with clocks that advance, the times returned never decrease and never exceed the host's |
| `RxClock.TimesFrom` | deps/owl/src/sync.c:23-60 | the same from any reachable state, and never before a time returned earlier under the mapping in force |
| `Schedule.OnScheduledMeans` | deps/owl/src/schedule.c:30-34 | the slot of the machine is the unbounded window modulo 16, and the test says that the radio is on that slot's channel, not the null channel |
| `Schedule.SameChannelMeans` | deps/owl/src/schedule.c:36-47 | the test says that both schedules name the same channel, not the null channel, at that instant |
| `Schedule.UnicastExactlyWhenSafe` | deps/owl/src/schedule.c:81-114 | 0 is answered if and only if at every instant from a guard before to a guard after, both schedules and the radio are on the same channel; both waivers of the guard are covered |
| `Schedule.AlignmentIsNeeded` | deps/owl/src/schedule.c:36-47 | for every offset that is not a multiple of a window, schedules on which that fails |
| `Schedule.MulticastExactlyWhenTuned` | deps/owl/src/schedule.c:49-79 | 0 is answered if and only if for a guard before and after it is the same slot 0, 8 or 10, and the radio is on its channel |
| `Schedule.MulticastByPhase` | deps/owl/src/schedule.c:49-79 | every other answer: the distance to the next change of slot outside the three slots, 1000 microseconds with the radio elsewhere, and within the guards minus or plus what is missing |
| `Schedule.MulticastAttemptByPhase` | deps/owl/daemon/core.c:308-341 | exactly what one firing of the multicast timer does, by slot, phase and radio: the frame is sent, or the timer set for when |
| `Schedule.MulticastProgress` | deps/owl/daemon/core.c:308-341 | if slot 0, 8 or 10 has a channel at all, a waiting multicast frame goes out within 17 windows of any instant, with every firing up to 16 time units late, and the radio on any channel in the first 16 units of a slot |
| `Schedule.DecideByPhase` | deps/owl/src/schedule.c:81-114 | exactly what is decided, by where in its window the instant is, whether the schedules meet in this window, whether the radio is there, and at the edges whether they meet on the same channel in the window beyond |
| `Schedule.AttemptByPhase` | deps/owl/daemon/core.c:275-302 | exactly what one firing of the timer does and when: if the schedules meet and the radio is elsewhere it is retuned to the plan of the instant at which the switch reads the clock, and that decision is made when the clock is read again; else it is made at once |
| `Schedule.SendsBy` | deps/owl/daemon/core.c:275-302 | if the schedules meet m windows ahead, the frame goes out by the end of that window in at most m + 2 firings, with every firing and every retuning up to 20 time units late |
| `Schedule.UnicastProgress` | deps/owl/daemon/core.c:251-306 | if the schedules meet in any window at all, a waiting frame goes out within 18 firings and 17 windows of any instant, on whatever channel the radio is found at each firing, with every firing and every retuning up to 20 time units late |
| `Schedule.FollowerProgress` | deps/owl/daemon/core.c:430-509 | in particular for a node that runs the sequence of the peer it sends to |
| `Schedule.Channels.CountActive` | deps/owl/daemon/core.c:454-457 | the count is positive if and only if some slot is not null |
| `Schedule.Channels.RestoreConfigured` | deps/owl/daemon/core.c:420-428 | afterwards the node runs its configured sequence |
| `Schedule.Channels.AdoptMasterChanseq` | deps/owl/daemon/core.c:430-509 | which of three sequences is run in each case; an all-null sequence is never adopted |
| `HashMap.Map.constructor` | deps/owl/src/hashmap.c:35-54 | a new map is empty, with 256 free slots |
| `HashMap.Map.Hash` | deps/owl/src/hashmap.c:69-94 | the first of the 8 slots of the window that is free or holds the key, if there is one and less than half the table is used |
| `HashMap.Map.Rehash` | deps/owl/src/hashmap.c:99-134 | unless memory runs out, the map is the same in a table at least twice as large, also if inserting rehashes again, and every key is what a search for it finds first; else no entry is new. Memory for a table in which no window of the keys overflows is enough |
| `HashMap.Map.Choose` | deps/owl/src/hashmap.c:147-153 | the table is rehashed if and only if half of it is in use or the window has no slot for the key, until there is one or memory runs out |
| `HashMap.Map.Put` | deps/owl/src/hashmap.c:139-162 | the key goes into the slot found for it, in the present table if that has one, else in the rehashed one, and is then bound to the value, unless it is present and stored a second time: if and only if the slot found in the present table is free. Memory runs out only beyond the budget, and for a new key not if there is enough for a table in which no window of the keys overflows |
| `HashMap.Map.Get` | deps/owl/src/hashmap.c:167-209 | yields exactly what the finite map holds, and removes exactly that if asked to |
| `HashMap.Map.Insert` | deps/owl/src/hashmap.c:155-161 | filling the slot found for a new key adds it to the map |
| `HashMap.InsertAt` | deps/owl/src/hashmap.c:155-161 | filling a free slot with a new key adds it to the finite map and keeps the keys distinct |
| `HashMap.SnugInsert` | deps/owl/src/hashmap.c:69-94 | where every key is what a search for it finds first, filling the slot found for any key keeps that so |
| `HashMap.Map.Blank` | deps/owl/src/hashmap.c:187-195 | freeing a used slot removes its key alone |
| `HashMap.RemoveAt` | deps/owl/src/hashmap.c:180-200 | freeing a slot removes that key alone and hides no other, since windows are probed to their end |
| `HashMap.NotInWindow` | deps/owl/src/hashmap.c:167-209 | a key that is in none of its 8 slots is not in the map |
| `HashMap.WindowOpen` | deps/owl/src/hashmap.c:77-94 | in a table that the keys fill to half at most, and in which no key shares its window with more than 7 others, a new key finds a slot |
| `HashMap.MustGrow` | deps/owl/src/hashmap.c:147-153 | so a table that is rehashed for a new key has not reached such a size |
| `HashMap.KeyCount` | deps/owl/src/hashmap.c:159 | a table has as many used slots as keys |
| `HashMap.PresentKeyPut` | deps/owl/src/hashmap.c:139-162 | the window of a key that is present has a slot for it; filling that stores the key a second time if and only if the slot is free, which it is not where every key is what a search for it finds first; else its data is replaced; either way there are as many keys as used slots before |
| `HashMap.PutTwice` | deps/owl/src/hashmap.c:139-209 | put, put, remove, put: a key in two slots, and a size of 2 with one key |
| `HashMap.DrivePuts` | deps/owl/src/hashmap.c:139-162 | a map into which things are only put, whatever keys are put again, is the one the puts make, and stores no key twice, unless memory runs out |
| `HashMap.Iterator.Next` | deps/owl/src/hashmap.c:249-263 | yields the first entry not yet visited, or none when none is left |
| `HashMap.Iterator.Remove` | deps/owl/src/hashmap.c:270-288 | removes the entry the iterator stands on, and leaves what it has yet to visit |
| `HashMap.IterationVisitsOnce` | deps/owl/src/hashmap.c:249-263 | no key is visited twice |
| `HashMap.IterationIsContents` | deps/owl/src/hashmap.c:249-263 | a pair is visited if and only if it is in the map |
| `HashMap.Sweep` | deps/owl/src/hashmap.c:249-288 | a loop that removes, while iterating, what a predicate holds of leaves exactly the rest |
| `HashMap.Drive` | deps/owl/src/hashmap.c:139-288 | over any run of puts of absent keys, lookups, removals, and removals while iterating, the table is the finite map of the operations and every lookup is answered from it, unless memory runs out; and it does not if there is enough for a table in which no window of the keys overflows |
| `Peers.LogAppend` | deps/owl/src/peers.c:105-113 | adds and removals of an address keep alternating if each is made in the right state |
| `Peers.MirrorsAdd` | deps/owl/src/peers.c:105-113 | announcing a record that turns valid keeps the neighbours the valid records |
| `Peers.MirrorsRemove` | deps/owl/src/peers.c:124-132 | and so does withdrawing one that was valid with its removal |
| `Peers.PeerTable.Announce` | deps/owl/src/peers.c:62-116 | a record that has become usable is marked and announced, once, and no other record changes |
| `Peers.PeerTable.Refresh` | deps/owl/src/peers.c:92-115 | a known record is stamped, and announced exactly if it turns valid; others stay |
| `Peers.PeerTable.Enter` | deps/owl/src/peers.c:99-104 | a new record is filed; memory runs out only beyond the budget |
| `Peers.PeerTable.Add` | deps/owl/src/peers.c:83-116 | the book of records is the old one with this record made or refreshed, and it is announced exactly if it turns valid; internal errors occur only when memory runs out, and not if there is enough for a table in which no window of the addresses overflows |
| `Peers.PeerTable.TakeInto` | deps/owl/src/rx.c:300-320 | parsing a frame changes the sender's record alone, to what its bytes say |
| `Peers.PeerTable.Accept` | deps/owl/src/rx.c:286-324 | a frame that is admitted makes or refreshes the record, fills it as far as parsing goes, and refreshes it again if all could be parsed; other records stay; the callback is made exactly if the record has turned valid, and once |
| `Peers.PeerTable.Receive` | deps/owl/src/rx.c:258-325 | for any bytes and signal strength: header, filter, and then exactly that, with the receiver's clock, the result, and the callback if and only if the record has turned valid |
| `Peers.HeardTells` | deps/owl/src/rx.c:258-325 | a reception never makes a valid record invalid nor another one valid |
| `Peers.WeakFramesIgnored` | deps/owl/src/rx.c:263-284 | a frame without a header of either kind, or weaker than the threshold, to which known peers add the grace, changes nothing |
| `Peers.ValidExactly` | deps/owl/src/peers.c:62-116 | for any bytes that are heard: the sender is valid afterwards if and only if it was, or had sent a MIF, a device class and a version before, or has by now and the frame could be parsed whole; its record is stamped, and no other changes |
| `Peers.NoMifNoNeighbour` | deps/owl/src/peers.c:62-64 | over any run, whoever has sent no MIF is not valid |
| `Peers.NoMifNoCall` | deps/owl/src/peers.c:105-113 | and is never announced |
| `Peers.OneRecord` | deps/owl/src/peers.c:83-187 | each happening and each address: a heard frame files and stamps the record, and else it stays as it is, or goes by a removal or by a clean-up whose cutoff is after its stamp |
| `Peers.StaysWhileHeard` | deps/owl/src/peers.c:170-187 | over any run, a peer stays in the table while no clean-up has a cutoff after it was last heard |
| `Peers.GoneWhenSilent` | deps/owl/src/peers.c:170-187 | and is gone after one whose cutoff is after everything it was heard at |
| `Peers.PeerTable.Remove` | deps/owl/src/peers.c:118-133 | removes exactly that record, and withdraws it if it was a neighbour |
| `Peers.PeerTable.Examine` | deps/owl/src/peers.c:174-185 | one step of the expiry removes the peer under the iterator if it is stale, and disturbs nothing the iterator has yet to visit |
| `Peers.PeerTable.Expire` | deps/owl/src/peers.c:170-187 | keeps exactly the records stamped at the cutoff or later, while iterating over them, with one withdrawal for each neighbour among the others and no other callback |
| `Peers.DrivePeers` | deps/owl/src/rx.c:258-325 | over any run of frames of any bytes, clean-ups and removals, unless memory runs out: the table holds exactly the records, and the receiver the clock, that the run determines, each reception returns what it determines, each happening makes one callback for each neighbour gained or lost and no other, so that those for an address alternate, and the neighbours added and not removed are exactly the peers marked valid; memory does not run out if there is enough for a table in which no window of the senders overflows |
| `Wire.LeInverse` | deps/owl/src/wire.c:90-109 | a number that fits is read back from its little-endian bytes |
| `Wire.BeInverse` | deps/owl/src/wire.c:97-123 | and from its big-endian ones |
| `Wire.WrittenIsRead` | deps/owl/src/wire.c:83-178 | a field just written is what is read there, and no other field changes |
| `Wire.Buf.Strip` | deps/owl/src/wire.c:68-74 | moves the start past n bytes if there are as many, else nothing |
| `Wire.Buf.Take` | deps/owl/src/wire.c:76-81 | drops the last n bytes if there are as many, else nothing |
| `Wire.Buf.WriteBytes` | deps/owl/src/wire.c:83-130 | overwrites the bytes at an offset if they fit, else nothing |
| `Wire.Buf.ReadLe16` | deps/owl/src/wire.c:140-146 | the number whose bytes are at the offset, if they are all there |
| `Wire.Buf.ReadLe32` | deps/owl/src/wire.c:156-162 | the number whose bytes are at the offset, if they are all there |
| `Wire.Buf.ReadAddr` | deps/owl/src/wire.c:172-178 | the address whose bytes are at the offset, if they are all there |
| `Wire.Buf.ReadIntString` | deps/owl/src/wire.c:196-207 | the string after its length byte, cut to the maximum, if it is all there |
| `Wire.Buf.ReadTlv` | deps/owl/src/wire.c:209-222 | the element at the offset, as a window on the same bytes, if it is all there |
| `Wire.TlvRoundTrip` | deps/owl/src/wire.c:209-222 | an element is read back whatever follows it, and what follows is what is left |
| `FrameTx.Frame.PutChanseq` | deps/owl/src/tx.c:80-96 | the loop appends the header of the sequence and its 16 channels, each with the bytes of its encoding |
| `FrameTx.Frame.InitSyncParams` | deps/owl/src/tx.c:98-147 | appends the element with its 73 bytes at most and a length that fits what was written |
| `FrameTx.Frame.InitChanseq` | deps/owl/src/tx.c:149-164 | appends the sequence with its padding and its length |
| `FrameTx.Frame.InitElectionParams` | deps/owl/src/tx.c:166-186 | appends the version 1 parameters, the height cut to a byte |
| `FrameTx.Frame.InitElectionParamsV2` | deps/owl/src/tx.c:188-206 | appends the version 2 parameters |
| `FrameTx.Frame.InitServiceParams` | deps/owl/src/tx.c:208-224 | appends the service parameters |
| `FrameTx.Frame.InitHtCapabilities` | deps/owl/src/tx.c:226-241 | appends the capabilities |
| `FrameTx.Frame.InitArpa` | deps/owl/src/tx.c:271-284 | appends the name with its length and suffix |
| `FrameTx.Frame.InitDataPathState` | deps/owl/src/tx.c:243-269 | appends the data path state |
| `FrameTx.Frame.InitVersion` | deps/owl/src/tx.c:286-295 | appends version and device class |
| `FrameTx.Frame.InitAction` | deps/owl/src/tx.c:52-66 | appends the fixed header |
| `FrameTx.Frame.InitFullActionFrame` | deps/owl/src/tx.c:372-394 | appends to the buffer exactly the serialised elements of a PSF or MIF, after the header |
| `FrameRx.Peer.HandleChanseq` | deps/owl/src/rx.c:60-109 | takes a sequence over whole, or not at all with the error of the first check that fails |
| `FrameRx.Peer.ReadChannels` | deps/owl/src/rx.c:81-82 | reads 16 channels of one or two bytes if they are all there |
| `FrameRx.Peer.HandleElectionParams` | deps/owl/src/rx.c:111-131 | nothing from a peer known to support version 2; else each field that is there, also when the element is cut short |
| `FrameRx.Peer.HandleElectionParamsV2` | deps/owl/src/rx.c:133-149 | nothing before the height is there, then each field that is there, and the version 2 mark only if all are |
| `FrameRx.Peer.HandleArpa` | deps/owl/src/rx.c:151-158 | the name up to its first zero, cut to 64 bytes |
| `FrameRx.Peer.HandleDataPathState` | deps/owl/src/rx.c:160-194 | country and infrastructure address from wherever the flags put them, if they are there |
| `FrameRx.Peer.HandleVersion` | deps/owl/src/rx.c:196-211 | version and device class, or nothing |
| `FrameRx.Receiver.HandleSyncParams` | deps/owl/src/rx.c:34-58 | only the sync parent is heard; its clock is taken over and the measurement counted |
| `FrameRx.Receiver.HandleTlv` | deps/owl/src/rx.c:213-236 | each element type has the meaning of its handler, and others have none |
| `FrameRx.Receiver.ParseHeader` | deps/owl/src/rx.c:238-256 | accepts exactly the PSF and MIF headers of version 1.0 |
| `FrameRx.Receiver.ParseElements` | deps/owl/src/rx.c:300-318 | the loop on the buffer computes the recursive meaning of its bytes, whatever they are |
| `FrameRx.Receiver.TakeIn` | deps/owl/src/rx.c:300-320 | loop, leftover bytes and the MIF mark, for any bytes |
| `FrameRoundTrip.ListenHearsAll` | deps/owl/src/rx.c:300-318 | reading the bytes of elements is hearing the elements |
| `FrameRoundTrip.UnknownElementsIgnored` | deps/owl/src/rx.c:213-236 | elements of unknown types, anywhere in a frame, change nothing |
| `FrameRoundTrip.ElectionOrderIrrelevant` | deps/owl/src/rx.c:111-149 | version 1 and version 2 parameters may come in either order |
| `FrameRoundTrip.HearsV1` | deps/owl/src/rx.c:111-131 | what version 1 alone conveys: no counters, no parent, and the height modulo 256 |
| `FrameRoundTrip.HearsV2` | deps/owl/src/rx.c:133-149 | version 2 conveys the whole election state but the peer's own address |
| `FrameRoundTrip.HearsChanseq` | deps/owl/src/rx.c:60-109 | the channel sequence comes over if and only if its encoding is known |
| `FrameRoundTrip.HearsSyncParams` | deps/owl/src/rx.c:34-58 | counter and time to the next window come over from the sync parent and set the clock, and are counted as an error if they are more than 3 units off; other nodes change nothing |
| `FrameRoundTrip.HearsName` | deps/owl/src/rx.c:151-158 | a name of at most 64 bytes comes over |
| `FrameRoundTrip.HearsDataPathState` | deps/owl/src/rx.c:160-194 | the flags that are written make the country come over |
| `FrameRoundTrip.ActionRoundTrip` | deps/owl/src/tx.c:372-394 | for every sender and receiver state, a frame is accepted down to its last byte if and only if the channel encoding is known, and then the peer's record is the sender's and the clock follows |
| `FrameRoundTrip.ViewIsAccurate` | deps/owl/src/rx.c:258-325 | filed under its own address, a sender is seen with exactly its election state, all eight fields, and its channel sequence: the accurate views that `Convergence` and `Schedule` start from |
| `FrameRoundTrip.FrameLocksFollower` | deps/owl/src/rx.c:34-58 | a frame of the sync parent heard when it is sent locks the receiver's slots to the parent's at every instant, but for less than 1024 microseconds a window |
| `FrameRoundTrip.TakenIsHeard` | deps/owl/src/rx.c:258-325 | what the reception of a sender's frame makes of any book of records and clock |
| `FrameRoundTrip.Deliver` | deps/owl/src/tx.c:372-394 | written into a buffer by the imperative writer and read from it into a peer table: accepted if and only if the encoding is known, the sender's record is then what the frame says, it is announced exactly if it turns valid, and the receiver's clock is set if the sender is its sync parent |
| `FrameRoundTrip.FirstMifMakesNeighbour` | deps/owl/src/peers.c:62-64 | the first MIF of a sender with a version and a device class makes it a valid neighbour with exactly its election state, channel sequence and name |
| `FrameRoundTrip.SenderBecomesNeighbour` | deps/owl/src/peers.c:62-64 | after any frame of a sender that was taken in: it is valid if and only if it was, or could be used by what it had sent before, or this frame or one before is a MIF and the sender's version and device class are nonzero |
| `FrameLayout.SyncParamsLayout` | deps/owl/src/tx.c:98-147 | every byte of the synchronisation parameters at its offset in the packed structure: the time to the next window and what is left of its first 16 units by the phase, the window counter by the time since the last update |
| `FrameLayout.ChanseqLayout` | deps/owl/src/tx.c:80-164 | every byte of the channel sequence, for each encoding |
| `FrameLayout.ElectionLayout` | deps/owl/src/tx.c:166-186 | every byte of the version 1 parameters |
| `FrameLayout.ElectionV2Layout` | deps/owl/src/tx.c:188-206 | every byte of the version 2 parameters |
| `FrameLayout.FixedLayout` | deps/owl/src/tx.c:208-241 | every byte of the service parameters and of the capabilities |
| `FrameLayout.NameLayout` | deps/owl/src/tx.c:271-284 | every byte of the name element |
| `FrameLayout.PathLayout` | deps/owl/src/tx.c:243-269 | every byte of the data path state, with the bit of the social channel for master channel 6, 44, or any other |
| `FrameLayout.HeaderLayout` | deps/owl/src/tx.c:52-66 | every byte of the action header |
| `FrameLayout.FrameIs` | deps/owl/src/tx.c:372-394 | a frame is the header and the elements of types 4, 5, 18, 24, 6, in a MIF 7 and 16, and 12, 21, in this order, to its last byte |
| `FrameLayout.ElectionRead` | deps/owl/src/rx.c:111-131 | of any bytes: each field of version 1 counts at its offset if its last byte is there |
| `FrameLayout.ElectionV2Read` | deps/owl/src/rx.c:133-149 | of any bytes: the same for version 2 once the first 20 are there, and the mark only if all 40 are |
| `FrameLayout.ChanseqRead` | deps/owl/src/rx.c:60-109 | of any bytes: a sequence is taken over if and only if each header byte is right and all 16 channels are there, and then each channel is the one at its offset |
| `FrameLayout.SyncParamsRead` | deps/owl/src/rx.c:34-58 | of any bytes from the sync parent: the fields at 1 and 29 set the clock if both are there, and nothing changes if not |
| `FrameLayout.NameRead` | deps/owl/src/rx.c:151-158 | of any bytes: the name is what stands before the first zero of the announced bytes, at most 64, if these are there |
| `FrameLayout.PathRead` | deps/owl/src/rx.c:160-194 | for any combination of the five optional fields, cut anywhere or followed by anything: country and infrastructure address come over exactly if all their bytes are there, and the element is too short exactly if any announced byte is missing |
| `FrameLayout.HeaderRead` | deps/owl/src/rx.c:238-256 | a header is accepted exactly if each of its first seven bytes is right |
| `FrameLayout.LeftoverRejected` | deps/owl/src/rx.c:300-318 | bytes behind the last element that are no whole element make the frame one of unexpected format, after its elements have been taken in |
| `FrameLayout.RefusalEnds` | deps/owl/src/rx.c:300-318 | an element that its handler refuses ends the frame, whatever follows |
| `Glob.GlobPrefix` | src/mac/aquatransport_config.c:155-173 | true if and only if some prefix of the string matches with each star taking a run without slashes (and an empty pattern only the empty string); the length yielded is that of the shortest such prefix |
| `Glob.Commit` | src/mac/aquatransport_config.c:158-163 | once a second star is reached the first is settled: moving it cannot reach anything more |
| `Glob.Advance` | src/mac/aquatransport_config.c:158-163 | moving the last star on past a character loses no match |
| `Glob.SlashesAreThePatterns` | src/mac/aquatransport_config.c:149-155 | the text taken has exactly as many slashes as the pattern |
| `Glob.TakesWhatItFillsTo` | src/mac/aquatransport_config.c:145-155 | a pattern takes a text if and only if the text is the pattern with runs without slashes in the place of its stars |
| `Glob.ShortestIsUnique` | src/mac/aquatransport_config.c:164-172 | the length is determined by pattern and string |
| `Glob.ScopeMatches` | src/mac/aquatransport_config.c:243-268 | true if and only if some comma-separated entry, trimmed, admits the process |
| `Glob.AdmitsNames` | src/mac/aquatransport_config.c:253-265 | a token admits a process if and only if it is a star, or one of the four names, to which ".app" may be, and if it ends so itself must be, added |
| `Glob.ScopeIsList` | src/mac/aquatransport_config.c:237-268 | for any list of entries without commas, joined by commas: the process is in scope if and only if some entry, apart from blanks and tabs at its ends, names it |
| `Glob.ScopeHasEntries` | src/mac/aquatransport_config.c:243-268 | every scope is such a list |
| `Glob.ApplyRedirect` | src/mac/aquatransport_config.c:413-429 | the replacement of the first applicable rule followed by the exact unmatched tail, or nothing if no rule applies |
| `WriteQueue.Shadow.BioWrite` | src/aquatransport_engine.c:305-315 | after a would-block in the same entry the callback is not asked; otherwise its byte count is passed on |
| `WriteQueue.Shadow.UnblockWrite` | src/aquatransport_engine.c:317-319 | a new entry may ask again |
| `WriteQueue.Shadow.FlushWrite` | src/aquatransport_engine.c:355-363 | 1: the queue was taken whole, in order; 0: nothing changed; -1: fatal |
| `WriteQueue.Shadow.HoldWrite` | src/aquatransport_engine.c:371-379 | appends to the queue |
| `WriteQueue.Shadow.SslWrite` | src/mac/aquatransport_hooks_mac.c:451-454 | the contract of SSL_write without partial writes; every caller presents a blocked offer again as a prefix and never an empty buffer |
| `WriteQueue.Shadow.WriteRuns` | src/mac/aquatransport_hooks_mac.c:447-467 | the runs are taken in order, and on the first that blocks all the rest is held |
| `WriteQueue.Shadow.Write` | src/mac/aquatransport_hooks_mac.c:434-471 | exactly the bytes reported as processed join what was taken or is queued, in each of the four answers of SSLWrite |
| `WriteQueue.Shadow.Read` | src/mac/aquatransport_hooks_mac.c:382-408 | each answer from what OpenSSL did: native without a connection, aborted if the flush fails, and else would-block, graceful close, abort or the bytes, at most 65536, as the call after the flush wants I/O, finds the peer's close, fails, or takes data; a read flushes at most, and loses nothing of the queue |
| `WriteQueue.Shadow.ReadRecord` | src/mac/aquatransport_hooks_mac.c:391-408 | one call of SSL_read and what its outcome means to the caller |
| `WriteQueue.ReadIsAnswered` | src/mac/aquatransport_hooks_mac.c:382-408 | in any run of calls, what each read is told, from the outcome of its own call |
| `WriteQueue.ReadsReportTheEnd` | src/mac/aquatransport_hooks_mac.c:400-402 | over a run of reads, the end of the stream is reported if and only if a call finds the peer's close |
| `WriteQueue.Shadow.Close` | src/mac/aquatransport_hooks_mac.c:473-481 | closing flushes at most |
| `WriteQueue.Drive` | src/mac/aquatransport_hooks_mac.c:382-481 | over any calls and any blocking pattern, each call returns and leaves what the calls before it determine; until a fatal error, what OpenSSL took and the queue are exactly the accepted bytes, in order; the callback is never asked after a would-block in one entry, and bytes are only held on an empty queue |
| `WriteQueue.WriteGoesThrough` | src/mac/aquatransport_hooks_mac.c:434-471 | a transport that takes what is queued and then never fails gets all of a write processed |
| `WriteQueue.SendAll` | src/mac/aquatransport_hooks_mac.c:434-471 | an application that offers again what was not processed gets its data across unchanged, however it is cut up, and all of it as soon as the transport once lets a call through |
| `WriteQueue.QueueIsRest` | src/mac/aquatransport_hooks_mac.c:447-465 | a write that blocks leaves exactly its data from the blocked run on in the queue: more than one run if and only if more was left |
| `WriteQueue.QueueExceedsRun` | src/mac/aquatransport_hooks_mac.c:457 | a first write of more than 65536 bytes to a transport that blocks at once queues all of it |
| `WriteQueue.EntryLog` | src/aquatransport_engine.c:305-363 | what the transport and the queue see in one entry: it begins, the writes of the flush and then those of the runs, the read or the close alert are asked for, and a write that blocks is held, on an empty queue |
| `WriteQueue.AskedUntilBlocked` | src/aquatransport_engine.c:305-315 | in any entry the callback is asked once for each write that OpenSSL attempts, in the flush and after it, up to the first that blocks: a second time if and only if there is a second write and the first did not block |
| `WriteQueue.AskedTwiceInOneEntry` | src/aquatransport_engine.c:305-315 | an SSLWrite in which it is asked twice |
| `Shadows.Table.Get` | src/aquatransport_engine.c:248-255 | a reference to the context's shadow, if it has one, which becomes the most recent of the list; the others stay |
| `Shadows.Table.Create` | src/aquatransport_engine.c:256-281 | the context's shadow, old or new, becomes the most recent; one slot is written at most, and an entry is evicted only from a full table, and is the least recently used; its shadow dies only if nobody holds it |
| `Shadows.Table.Free` | src/aquatransport_engine.c:283-290 | the context has no entry afterwards, other entries stay, and a shadow still held lives on |
| `Shadows.Table.Release` | src/aquatransport_engine.c:240-247 | dropping a reference ends the shadow exactly when it was the last and there is no entry |
| `Shadows.Table.MakeRoom` | src/aquatransport_engine.c:266-272 | a free slot, or that of the least recently used entry, whose shadow dies only if nobody holds it |
| `Shadows.Table.CreateNew` | src/aquatransport_engine.c:262-274 | a new shadow comes first in the list, and the last goes if there are 256 |
| `Shadows.Table.Oldest` | src/aquatransport_engine.c:268-269 | the least recently used entry, the last of the list |
| `Shadows.Table.Destroy` | src/aquatransport_engine.c:230-239 | what is destroyed is neither held nor listed, and has not been destroyed before |
| `Shadows.CountsRelease` | src/aquatransport_engine.c:243-244 | the count remains holders plus one for an entry |
| `Shadows.CountsUnlist` | src/aquatransport_engine.c:269-287 | also when an entry goes |
| `Shadows.CountsPlace` | src/aquatransport_engine.c:262-274 | and when a shadow is made |
| `Shadows.DyingIsUnneeded` | src/aquatransport_engine.c:240-290 | what some thread is to destroy is exactly what is live and neither held nor listed |
| `Shadows.Interleave` | src/aquatransport_engine.c:230-290 | over any interleaving of threads: the list of entries, the references held, the live shadows and those destroyed are exactly what the steps make of them; counts are right, at most one entry a context, every shadow handed out is live or was destroyed exactly once, and nothing held or listed is |
| `Found.FoundExactly` | src/aquatransport_engine.c:240-290 | after any steps of any threads a context is found if and only if the last step about it handed out its shadow and at no time since have there been 256 others, not counting those freed; it is then the shadow last made for it |
| `Recency.Renew` | src/aquatransport_engine.c:111-115 | stamping a slot with the next tick moves its entry to the front of the list the table stands for |
| `Recency.Insert` | src/aquatransport_engine.c:134-143 | filling a free slot puts its entry in front |
| `Recency.Forget` | src/aquatransport_engine.c:204-205 | freeing a slot takes its entry out |
| `Recency.LeastIsLast` | src/aquatransport_engine.c:134-137 | in a full table the slot of least stamp is that of the last entry |
| `Recency.CacheIsMostRecent` | src/aquatransport_engine.c:96-145 | after any operations the list is exactly the 32 keys used most recently, in that order |
| `Recency.CacheHoldsLastStored` | src/aquatransport_engine.c:96-145 | and holds for each key what was last stored under it |
| `Caches.Table.Store` | src/aquatransport_engine.c:127-143 | the array of stamped slots refines the list: a store replaces the key's own entry, fills a free slot or evicts the least recently used, and yields what it displaced |
| `Caches.SessionCache.Get` | src/aquatransport_engine.c:108-122 | the session last stored under exactly these bytes, if it has not been evicted, becomes the most recent |
| `Caches.SessionCache.Put` | src/aquatransport_engine.c:125-145 | what is displaced or refused is freed, and nothing else |
| `Caches.HitExactly` | src/aquatransport_engine.c:108-122 | a lookup is a hit if and only if its key is among the 32 most recently used of all keys ever stored, and then finds the session last stored under it |
| `Caches.DriveSessions` | src/aquatransport_engine.c:96-145 | over any operations the cache is the LRU list of those that reach it, each lookup is answered from the list of the operations before it, and every reference handed over is either owned or freed, once |
| `Hits.SessionHits` | src/aquatransport_engine.c:96-145 | a lookup is a hit if and only if the last operation with its key stored or found it, under a key of 1 to 256 bytes, and fewer than 32 other keys have been stored or found since; it yields the session last stored under the key |
| `Hits.AnswerSessions` | src/aquatransport_engine.c:96-145 | the same of every lookup of any run of the cache |
| `Caches.ChainCache.Get` | src/aquatransport_engine.c:197-210 | a hit if and only if the digest is listed with a store at most 600 seconds old; an older one is dropped |
| `Caches.ChainCache.Put` | src/aquatransport_engine.c:212-228 | the digest becomes the most recent, and no digest is listed twice |
| `Caches.ChainsAreDated` | src/aquatransport_engine.c:197-228 | whatever is called, no digest is listed twice, and each is listed with the time of its last store |
| `Caches.HitMeansFresh` | src/aquatransport_engine.c:197-210 | a hit means that this digest was last stored at most 600 seconds before |
| `Caches.DriveChains` | src/aquatransport_engine.c:174-228 | over any calls the cache is the list that the calls make, and a lookup is a hit if and only if its digest is listed with a store at most 600 seconds old |
| `Hits.ChainHits` | src/aquatransport_engine.c:174-228 | a lookup is a hit if and only if the last call with its digest stored or found it, at no time since have there been 32 others, not counting those dropped, and its last store is at most 600 seconds old |
| `Hits.AnswerChains` | src/aquatransport_engine.c:174-228 | the same of every lookup of any run of the cache |
| `Srp.PaddedNumber` | src/mac/aquatransport_gsa_crypto.c:18-25 | padding a group integer to 256 bytes loses nothing |
| `Srp.Context.constructor` | src/mac/aquatransport_gsa_crypto.c:27-42 | a fresh context has public value g^a |
| `Srp.Context.Challenge` | src/mac/aquatransport_gsa_crypto.c:43-110 | the sequence of digests and modular steps gives the proof and the state that `Srp.Agreement` and `Srp.Refused` are about, with a context spoilt by any failure after the first checks |
| `Srp.Context.Verify` | src/mac/aquatransport_gsa_crypto.c:112-119 | the key comes out only for the expected proof, once, and is wiped |
| `Srp.SecretsAgree` | src/mac/aquatransport_gsa_crypto.c:88-92 | (g^b)^(a + u x) and (g^a (g^x)^u)^b are equal modulo N, for every N |
| `Srp.ClientMatchesServer` | tools/gsa-vectors.py:48-57 | the client's secret is that of a server with definitions of its own |
| `Srp.Agreement` | tools/gsa-vectors.py:48-62 | facing any server whose values satisfy the server's own equations (its own password step for each protocol, its own numbers and padding, x, v, k, B, u, S, K, M1, M2): if the request is within bounds and none of the four values that must be refused is zero, the client's proof is M1, and M2 and nothing else releases K; if not, nothing comes out |
| `Srp.LogIn` | src/mac/aquatransport_gsa_crypto.c:27-119 | the same for the methods of a fresh context, challenged and then shown a proof |
| `Srp.ServerExists` | tools/gsa-vectors.py:48-62 | there is such a server for every request, exponent and client in a group of 256 bytes |
| `Srp.BaseIsServerPower` | src/mac/aquatransport_gsa_crypto.c:82-86 | what the client takes from the server's value leaves the power of its exponent |
| `Srp.Refused` | src/mac/aquatransport_gsa_crypto.c:53-66 | a second challenge, one out of bounds or of another protocol changes nothing; a value that is zero or not below N spoils the context; neither is answered |
| `Srp.OneKey` | src/mac/aquatransport_gsa_crypto.c:112-119 | once challenged, a context gives its key at most once, and only to the expected proof |
| `Srp.OneShot` | src/mac/aquatransport_gsa_crypto.c:43-119 | whatever is called in whatever order, a fresh context yields at most one proof and at most one key; a key is the one bound into the proof, that proof answers an acceptable challenge, and the server's proof of exactly this proof and key was shown after it |
| `Modular.PowModBase` | src/mac/aquatransport_gsa_crypto.c:82-92 | reducing the base first does not change a power modulo n |

## Left out

- Convergence.GraphReachesFixedPoint: its 21 rounds are for synchronous rounds, one node of greatest (counter, metric)
  and no node farther than 10 hops from it; for all other graphs and runs there is the longer bound of
  `Stabilization.EveryRunSettles`.
- Stabilization.EveryRunSettles: the graph stays the same. When a node joins, leaves, or is no longer heard, the theorem
  starts again from the state the network is in then.
- Schedule.UnicastProgress: retuning succeeds and the schedules are fixed while the frame waits; a card that refuses
  channels, and CoreWLAN retuning checks (`deps/owl/daemon/core.c:358-371`), are not modelled. Timers are never early:
  the event loop arms them from the time it read when it woke, so that a firing may come early by as much and ask once
  more.
- Schedule.MulticastProgress: the radio is tuned 16 time units into a slot at the latest, timers are up to 16 units late
  and never early; the circular buffer that holds the frames is left out.
- Sync.SyncState.UpdateLast: times to the next window beyond 64 time units are computed as the code does but nothing is
  claimed of them.
- HashMap.Map.Put: nothing is claimed of what follows once a key is stored twice, and where `size` is too high there
  is no bound on the memory that is enough. The keyed hash is any function; allocation fails from a given table size
  on.
- Peers.PeerTable.Receive: the receiver's sync parent stays the same over a run; the election that the daemon runs after
  each clean-up is the subject of `Election`. Once memory has run out, nothing is claimed of the neighbour callbacks,
  since entries may be lost without a withdrawal.
- FrameRx.Receiver.TakeIn: the hook for tapped elements is taken to leave buffer and state alone. What is read over
  uninitialised memory by one-byte channels is a parameter.
- FrameTx.Frame.InitFullActionFrame: the 802.11 and radiotap headers before the body and the checksum after it are left
  out, as are data frames; the clock is read once for each field group, as two parameters.
- The receive path before the 802.11 body (`deps/owl/src/rx.c:340-530`): radiotap, LLC, data frames and A-MSDU.
- WriteQueue.Shadow.SslWrite: OpenSSL is its contract (whole writes, a retry begins with the blocked offer) driven by a
  tape of outcomes; what SSL_read decrypts is left out, only its length counts. Copying data for the queue succeeds.
- `sh_reset_write`, the handshake and the hooks that start one: after a new handshake the queue starts empty.
- Shadows.Table.Destroy: the fields of a shadow beyond its context, stamp and count are released by the destructor and
  not modelled. Addresses are never handed out again, so that a destroyed shadow cannot be confused with a new one.
- Caches.SessionCache.Get: the clocks that stamp uses do not wrap; the 32-bit ones of the code do after 2^32 uses.
- Srp.Context.Challenge: SHA-256 and PBKDF2 are uninterpreted and the same at client and server; big numbers are
  integers; wiping of stack copies and failing allocations are left out. Nothing is claimed about secrecy.
- Glob.ApplyRedirect: reading, reloading and parsing the rule files; the rules are a list. Failing allocations.
- Timers, sockets, TAP devices, channel and alert tables, logging, printing, trust evaluation, certificate signing, the
  Objective-C modules and the symbol rebinding machinery.
