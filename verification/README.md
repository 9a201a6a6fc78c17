# A verified model of StayRTR

StayRTR serves validated ROA payloads (VRPs) to routers over the RPKI-to-Router protocol of RFC 6810 (version 0) and
RFC 8210 (version 1). This project models its diff cache, its protocol, its wire format, its input pipeline and the
bookkeeping of its monitor rtrmon in Dafny, and proves what each of them is for. `dafny verify dfyconfig.toml` checks
everything.

## What is modelled

* `Diffs`, `History`, `Serials`, `RtrServer`: the incremental diff cache. A server keeps the current table, one
  accumulated diff per retained serial and an index from serials to diffs, and only ever patches what it holds. It is a
  class whose methods are the loops of the original; its validity predicate ties every field to the plain list of
  tables published so far. The same facts are proved over whole runs of updates (`RunAgrees` and its corollaries).
* `Exactness`: when a served diff is exact. "Old table plus served diff is the current table" is **not** true of the
  code in general: a key that was in the old table, left, came back and left again carries no record and stays on the
  router. `PatchedOldTable` gives the exact difference, `ExactAnswer` carries it to the answers of a server after any
  run of updates, and `ExactWindows` shows that exactly the servers that keep one or two diffs answer exactly whatever
  they publish (the configured `KeepDifference: 3`, cmd/stayrtr/stayrtr.go:526, does not). `FlappingIsLeftBehind` is the
  smallest sequence of updates where it shows.
* `Pdus`, `Layout`, `Wire`: the ten messages, their encoding, and decoding of arbitrary byte streams, as functions on
  byte sequences and as the field-by-field reader and writer of the original. `Layout` says byte by byte what the
  messages look like and that encoder and decoder agree with it.
* `RtrClient`, `Replies`: rtrmon's handling of received messages, the server's replies, what they look like on the wire
  and what they do to a router.
* `Protocol`: one router and one server as a step system. Updates may land between a handler's reading of the serial and
  its reading of the data, queries may overtake replies or be lost behind an earlier one, and replies arrive message by
  message as decoded from their bytes. The router opens a new connection whenever it has dropped the last one: after an
  error and, with `BreakRTR`, after every table; when a connection fails it exits (cmd/rtrmon/rtrmon.go:323-326). In
  every run the router never loses a VRP, never shows one that was not published, and shows after each reply exactly the
  table whose data the reply carries plus what the reply fails to remove (`EndOfDataExactly`). The server of every run
  is the diff cache given the lists published so far (`TablesAreTheCaches`, `CacheImplementsReads`).
* `Runs`: runs whose data comes from that cache, three disciplines of overlap (any, a router that waits for each answer,
  atomic exchanges with no update in between), and the states such runs reach.
* `Lockstep`: with atomic exchanges the router's table equals the server's table at the router's serial as long as diffs
  span at most two updates.
* `Overtaking`: however queries, updates and replies overlap, a router that keeps its connection shows exactly the table
  whose data it received if the server keeps one diff, and so does a router with `BreakRTR` over its first connection.
* `Staleness`: otherwise that is **not** so. There are runs of the diff cache that leave a withdrawn key on the
  router: two queries in flight (`OvertakenAnswer`); a router that waits for each answer, but gets data newer than its
  serial because an update lands between the two reads (`StaleThoughWaiting`); atomic exchanges and a key that flaps
  (`StaleThoughAtomic`); and `BreakRTR` with a second connection (`StaleAfterReconnect`). `OvertakenWithdrawal` is a
  run where a diff withdraws a key the router does not hold. `CurrentExactlyWhen` gives the exact condition: one
  connection with `BreakRTR`, else one diff kept, or two and atomic exchanges.
* `Prefixes`, `Ranges`, `Slurm`, `Pipeline`: byte-level prefixes, the ranges of numbers they stand for, the local
  exceptions of RFC 8416, and the way from the input list to the published table. The prefix test of a filter is exact
  coverage, IPv4-mapped networks standing for IPv4 ones, except for IPv6 networks such as ::/80 whose last address
  only is IPv4-mapped, which no filter prefix matches (`MatchesPrefixExactly`, `CoveredButNotMatched`).
* `Monitor`: rtrmon's grace-period map over runs of polls, and its comparison of two views.

## Assumptions

* One goroutine calls `AddVRPs`; serials are automatic (`manualserial` is false); `SetSerial` is called only before the
  first data, as its comment demands (lib/server.go:338-339).
* `keepDiff` is below 2^32; Go's `int` is 64 bits wide. All other integer widths are explicit, including the wrap-around
  of serials and the truncation of lengths.
* The text of a VRP key is injective in prefix, maximum length and AS number. Addresses written in IPv4-mapped IPv6 form
  are excluded from what is published; prefix and AS-number strings are taken as already parsed, with `None` for one
  that does not parse.
* A router's Serial Query carries a serial of this server (the session identifier is not checked, lib/server.go:308) and
  is answered before that serial is 2^32 updates old. A fresh router holds serial 0, which counts as this server's
  serial only if the server starts at 0, as it does unless `SetSerial` is used.
* Times are parameters; polls of the monitor come at non-decreasing times and the grace period is not negative.
* `To4`, `To16`, `CIDRMask` and `IPNet.Contains` of Go's `net` package behave as documented there.

## Model

| member | source | states |
|---|---|---|
| `Diffs.ConvertVRPListToMap` | lib/server.go:201-207 | the index of a list holds exactly its keys, each with the last entry that has it |
| `Diffs.ComputeDiff` | lib/server.go:209-238 | the three lists, in order: what is new (announced), what is gone (withdrawn), what stays |
| `Diffs.ChangeMeaning` | lib/server.go:209-238 | the diff announces exactly the new keys and withdraws exactly the missing ones, no key both ways, none twice if neither list repeats one |
| `Diffs.ChangeFlags` | lib/server.go:209-238 | an entry of the diff carries the flag 1 if its key is in the new list and 0 if it is not |
| `Diffs.ChangeOrder` | lib/server.go:347-362 | the announcements of a diff come before its withdrawals |
| `Diffs.ComputeDiffConservation` | lib/server.go:209-238 | removed plus unchanged entries make up the previous list; swapping the arguments flips the flags |
| `Diffs.ApplyDiff` | lib/server.go:240-271 | on any lists and flags: untouched previous entries, then the diff's announcements and the withdrawals that cancel no announcement |
| `Diffs.AppliedMeaning` | lib/server.go:240-271 | an announcement overrides, a withdrawal cancels an accumulated announcement or is recorded; coherence and uniqueness are kept |
| `Diffs.AppliedOrder` | lib/server.go:245-268 | the untouched entries come before those of the diff |
| `Diffs.PatchedTable` | lib/server.go:347-362 | patching an all-announced table with the computed diff yields exactly the new keys, all announced |
| `Diffs.PatchRoundTrip` | lib/server.go:209-271 | patching to a new table and back restores the key set |
| `History.AnnouncesStep` | lib/server.go:252-255 | how the announced keys since a table change with one more update, in terms of the tables alone |
| `History.WithdrawsStep` | lib/server.go:256-266 | the same for the withdrawn keys: left exactly once, for good |
| `History.RecordFolds` | lib/server.go:378-380 | folding a computed diff into an exact record gives the exact record of the longer history |
| `History.RecordStarts` | lib/server.go:390 | the newest diff is the exact record since the table it replaced |
| `History.PatchedOldTable` | lib/server.go:240-271 | old table plus record is the current table plus exactly the keys that left, came back and left again; equal iff there are none |
| `History.PatchedHeldTable` | lib/server.go:240-271 | applied to anything that includes some table published since, the record yields the current table plus exactly what it is silent about; equal iff there is none |
| `History.WithdrawsOnlyHeld` | lib/server.go:256-266 | a record withdraws only keys of a later table iff no key had left for good by then |
| `History.OneUpdateExact` | lib/server.go:240-271 | a record over one update is exact for a router that holds either of its two tables |
| `History.PatchCovers` | lib/server.go:375-411 | applied to anything that includes some table published since, the record yields at least the current table |
| `History.ShortLagExact` | lib/server.go:240-271 | a record over at most two updates is exact |
| `History.RecordsWellFormed` | lib/server.go:240-271 | withdrawals name keys of the old table, announcements keys of the current one, none both |
| `Serials.SuccessorWraps` | lib/server.go:326-332 | serials count up modulo 2^32 |
| `Serials.NamesDiffer` | lib/server.go:326-332 | serials less than 2^32 updates apart differ, across wrap-around |
| `Serials.ServesOwnUpdate` | lib/server.go:295-306 | a serial less than 2^32 updates old stands for no other update |
| `Serials.RetainedIsServed` | lib/server.go:295-306 | every retained update is served under its own serial |
| `RtrServer.Server.constructor` | lib/server.go:150-195 | a new server agrees with the empty history |
| `RtrServer.Server.SetSerial` | lib/server.go:338-345 | before any data, sets the first serial and keeps agreement |
| `RtrServer.Server.GetCurrentSerial` | lib/server.go:308-317 | valid iff something was published, and then the serial of the last update |
| `RtrServer.Server.GetCurrentVRPs` | lib/server.go:281-286 | exactly the last table, all announced, no key twice if no list repeated one |
| `RtrServer.Server.GetVRPsSerialDiff` | lib/server.go:288-306 | answers iff the serial stands for a retained update, with the exact record since that update's table |
| `RtrServer.Server.GenerateSerial` | lib/server.go:326-332 | one more than the last retained serial modulo 2^32, or the current one before any data |
| `RtrServer.Server.AddSerial` | lib/server.go:364-373 | which serials are dropped and which retained |
| `RtrServer.Server.FoldDiffs` | lib/server.go:376-380 | the new diff folded into every stored one |
| `RtrServer.Server.ShiftIndex` | lib/server.go:397-403 | all index entries but the superseded serial's move down, whatever order the map is walked in |
| `RtrServer.Server.Reindex` | lib/server.go:395-407 | the whole new serial index |
| `RtrServer.Server.AddVRPsDiff` | lib/server.go:375-411 | the whole new cache for any diff |
| `RtrServer.Server.AddVRPs` | lib/server.go:347-362 | publishing a list keeps the cache in agreement with the history extended by that list's keys under the next serial |
| `RtrServer.ReindexedIsIndexed` | lib/server.go:395-407 | the shifted index again maps every retained serial but the last to one more than its latest position |
| `RtrServer.NextRecords` | lib/server.go:376-393 | folding, appending and dropping keep every stored diff an exact record |
| `RtrServer.RunAgrees` | lib/server.go:347-411 | after any run of updates the cache agrees with the plain list of published tables |
| `RtrServer.CurrentTableOverRuns` | lib/server.go:347-411 | after any run the current table has exactly the last list's keys, all announced |
| `RtrServer.WindowOverRuns` | lib/server.go:364-411 | after any run: equal numbers of diffs and serials, all of them or exactly the newest `keepDiff + 1`, consecutive and distinct serials, the exact index |
| `RtrServer.AnswerOverRuns` | lib/server.go:295-306 | after any run a serial is answered iff it stands for a retained update, in range, with a well-formed record whose effect is known exactly and that repeats no key if no list did |
| `Exactness.ExactAnswer` | lib/server.go:295-306 | after any run an answer takes the table asked about exactly to the current one iff no key of it left, came back and left again |
| `Exactness.FlappingIsLeftBehind` | lib/server.go:256-266 | four updates after which the server answers a router that holds a withdrawn key with an empty diff |
| `Exactness.ExactWindows` | cmd/stayrtr/stayrtr.go:526 | a server answers exactly after every run of updates iff it keeps one or two diffs |
| `Pdus.RoundTrip` | lib/structs.go:513-694 | every well-formed message of at most 2048 bytes decodes to what its receiver should see, whatever follows it |
| `Pdus.OversizeRefused` | lib/structs.go:538-543 | a longer message, which only an Error Report can be, is refused |
| `Pdus.ErrorReportParsed` | lib/structs.go:669-690 | an Error Report comes back with its code, PDU copy and NUL-terminated text |
| `Pdus.MappedBytes` | lib/server.go:918-936 | which addresses count as IPv4 ones written in 16 bytes |
| `Layout.BigEndian` | lib/structs.go:133-506 | numbers go out most significant byte first |
| `Layout.MessageLayout` | lib/structs.go:133-506 | every well-formed message, byte by byte: type, length, numbers, addresses, the terminating NUL, and what the bytes that are not read hold |
| `Layout.DecodesExactly` | lib/structs.go:513-694 | the decoder takes bytes off a stream as a message iff they spell it byte by byte and are at most 2048 |
| `Pdus.SelfDelimiting` | lib/structs.go:513-548 | success consumes exactly the announced length, keeps version and type, and does not depend on what follows |
| `Pdus.StreamRoundTrip` | lib/client.go:125-144 | a stream of messages decodes, by repeated decoding, to those messages with nothing left |
| `Wire.Write` | lib/structs.go:133-506 | the field-by-field writer appends exactly the encoding |
| `Wire.Decode` | lib/structs.go:513-694 | the reader returns and consumes exactly what the decoding function says, for every byte stream and every error |
| `Wire.ReadMessages` | lib/client.go:125-144 | the receive loop hands on exactly the messages before the first failure |
| `RtrClient.Client.constructor` | cmd/rtrmon/rtrmon.go:247-254 | a new client holds nothing and serial 0 |
| `RtrClient.Client.HandlePDU` | cmd/rtrmon/rtrmon.go:417-493 | the effect of each message, field by field, on working map, shown map, serial, session, intervals and connection |
| `Replies.Connection.SendVRP` | lib/server.go:918-936 | the IPv4 or IPv6 message for a VRP, or none |
| `Replies.Connection.SendVRPs` | lib/server.go:870-887 | Cache Response, one message per VRP in order, End of Data |
| `Replies.RequestCache` | lib/server.go:50-75 | error 2 with the text `No data available`, or the whole current table under the current serial |
| `Replies.RequestNewVersion` | lib/server.go:77-101 | error 2 with the text `No data available`, Cache Reset iff the serial stands for nothing retained, or the exact record since it |
| `Replies.OnePduEach` | lib/server.go:918-936 | each VRP that can be sent gives exactly one prefix message with its key and flags |
| `Replies.ReplyMessages` | lib/server.go:870-887 | a reply is Cache Response, one message per VRP in order with its key and flags, and End of Data with serial and intervals |
| `Replies.FlagsOnTheWire` | lib/structs.go:275-332 | byte 8 of a prefix message is 1 for an announcement, as in every whole table, and 0 for a withdrawal |
| `Replies.ReplyOnTheWire` | lib/server.go:870-887 | the bytes of a whole reply decode to the same messages with nothing left; version 0 drops the intervals |
| `Replies.ReceiveReply` | cmd/rtrmon/rtrmon.go:417-473 | a router handling a reply message by message ends with its table patched by what the reply announces and withdraws, and with its serial, session and intervals |
| `Protocol.WireDelivers` | lib/client.go:125-144 | the messages delivered in the step system are those decoded from the bytes sent |
| `Protocol.StepInv` | lib/server.go:50-101 | every step keeps the protocol invariant |
| `Protocol.RunInv` | lib/server.go:50-101 | it holds in every state of every run |
| `Protocol.NoVrpLost` | cmd/rtrmon/rtrmon.go:455-473 | at every point of every run the shown table includes the whole table whose data was last received, and the serial held is no newer than that |
| `Protocol.EndOfDataCovers` | cmd/rtrmon/rtrmon.go:455-473 | completing a reply shows at least the table whose data it carries, whatever was published meanwhile |
| `Protocol.NoVrpInvented` | cmd/rtrmon/rtrmon.go:417-473 | at every point of every run the router holds and shows only VRPs that were published |
| `Protocol.EndOfDataExactly` | cmd/rtrmon/rtrmon.go:417-473 | completing a reply shows the table whose data it carries plus exactly what the reply fails to remove; that table alone iff there is nothing of the kind |
| `Protocol.WithdrawalsKnown` | cmd/rtrmon/rtrmon.go:417-454 | a diff being received withdraws only held keys iff the router holds every key that left between the update asked about and its own |
| `Protocol.TablesAreTheCaches` | lib/server.go:347-411 | in every state of every run the tables and serials are those of the diff cache given the lists published so far |
| `Protocol.CacheImplementsReads` | lib/server.go:281-306 | in every state of every run, what that diff cache holds is data the handler's second read may return |
| `Runs.Reads` | lib/server.go:62-88 | in every reachable state the second read can return what the diff cache holds, and does so in the runs that follow |
| `Lockstep.ExactInLockstep` | lib/server.go:77-101 | in every run with atomic exchanges and diffs over at most two updates the router shows exactly the server's table at the router's serial |
| `Lockstep.DiffExact` | lib/server.go:240-271 | a diff that arrives in such a run brings the router exactly up to date and withdraws only keys it holds |
| `Lockstep.ResetChangesNothing` | cmd/rtrmon/rtrmon.go:485-486 | Cache Reset leaves the router as it was |
| `Lockstep.ReloadExactlyWhen` | cmd/rtrmon/rtrmon.go:417-473 | a whole table only ever adds: exact iff the router held nothing the table lacks |
| `Overtaking.ExactUnderOverlap` | cmd/rtrmon/rtrmon.go:521-539 | with one diff kept, or over the first connection with BreakRTR, the router always shows exactly the table whose data it received, however queries, updates and replies overlap |
| `Staleness.OvertakenAnswer` | cmd/rtrmon/rtrmon.go:531-538 | a run of the diff cache with two unanswered queries that leaves a withdrawn key on the router, for every window but one |
| `Staleness.OvertakenWithdrawal` | cmd/rtrmon/rtrmon.go:531-538 | a run where a diff withdraws a key the router no longer holds, for every window |
| `Staleness.StaleThoughWaiting` | lib/server.go:81-88 | a run with one query at a time that leaves a withdrawn key on the router because an update lands between the two reads, for every window but one |
| `Staleness.StaleThoughAtomic` | lib/server.go:256-266 | a run with atomic exchanges that leaves a flapping key on the router, for every window but one and two |
| `Staleness.StaleAfterReconnect` | cmd/rtrmon/rtrmon.go:479-481 | a run where a router with BreakRTR keeps a key that was withdrawn between its two connections |
| `Staleness.CurrentExactlyWhen` | cmd/rtrmon/rtrmon.go:319-328 | routers always show the table whose data they received iff, with BreakRTR, they connect once, and without it one diff is kept, or two and exchanges are atomic |
| `Prefixes.GetIPBroadcast` | prefixfile/prefixfile.go:76-82 | the last address of a network, byte by byte |
| `Prefixes.EndpointsAreCoverage` | prefixfile/slurm.go:91-110 | containing both end addresses, covering every address, and a mask no longer with agreeing leading bits are the same |
| `Ranges.OnesValue` | prefixfile/prefixfile.go:79 | a mask byte with k leading ones is 256 - 2^(8-k) |
| `Ranges.LastAddressValue` | prefixfile/prefixfile.go:76-82 | the last address as a number: the network's plus 2^h - 1 for h host bits |
| `Ranges.MemberRange` | prefixfile/slurm.go:95-110 | an address lies in a network iff its number lies in the network's range |
| `Ranges.CoversRange` | prefixfile/slurm.go:95-110 | a network covers another of its family iff its range includes the other's |
| `Prefixes.NetOfBytes` | prefixfile/slurm.go:91-107 | a parsed prefix keeps its bytes, their order and its length as a network |
| `Prefixes.MatchesPrefixExactly` | prefixfile/slurm.go:95-110 | for every filter and network, the test as coded is coverage with mapped networks taken as IPv4, and fails besides exactly for networks that only end on an IPv4-mapped address |
| `Prefixes.MappedFilterMatchesIPv4` | prefixfile/slurm.go:95-110 | a filter for ::ffff:0:0/96 matches every IPv4 network |
| `Prefixes.CoveredButNotMatched` | prefixfile/slurm.go:95-110 | ::/80 is covered by ::/0 and not matched by it |
| `Slurm.MatchMeaning` | prefixfile/slurm.go:101-115 | when a filter matches an entry, in terms of addresses and of the entry's own AS number, with or without a prefix |
| `Slurm.FilterOnVRPs` | prefixfile/slurm.go:85-128 | kept and removed entries in order, with fast path and early break |
| `Slurm.AnyFilter` | prefixfile/slurm.go:100-121 | the inner loop finds out whether some filter matches |
| `Slurm.FilterPartition` | prefixfile/slurm.go:85-128 | kept and removed interleave back to the input; removed iff some filter matches |
| `Slurm.FilterTwice` | prefixfile/slurm.go:85-128 | joined filter lists keep what one after the other keeps |
| `Slurm.AssertVRPs` | prefixfile/slurm.go:134-157 | one entry per assertion that parses, with the raised and truncated maximum length |
| `Slurm.AssertedEntries` | prefixfile/slurm.go:134-157 | the asserted entries are exactly those of the assertions that parse |
| `Slurm.AssertedInOrder` | prefixfile/slurm.go:134-157 | in the order of the assertions |
| `Slurm.FilterAssert` | prefixfile/slurm.go:163-167 | unfiltered entries, then assertions |
| `Pipeline.AcceptedMeaning` | cmd/stayrtr/stayrtr.go:184-192 | accepted iff 0 < prefix length <= maximum length <= family width; accepted keys can be sent |
| `Pipeline.AssertionAccepted` | prefixfile/slurm.go:144-154 | exactly which assertions survive the length check after truncation to eight bits |
| `Pipeline.TooLongPasses` | prefixfile/slurm.go:144-154 | an asserted maximum length of 288 is accepted as 32 |
| `Pipeline.ProcessData` | cmd/stayrtr/stayrtr.go:200-244 | each key that an accepted entry spells out field by field, once, in order of first appearance, fit to be sent; the counts per family include duplicates |
| `Pipeline.State.UpdateFromNewState` | cmd/stayrtr/stayrtr.go:255-301 | the new server table is exactly the keys that belong in it, and the processed list is exported; missing data, or data built over a day ago when that is checked, changes nothing |
| `Pipeline.UpdateTable` | cmd/stayrtr/stayrtr.go:274-285 | the table is exactly the keys of the entries with 0 < prefix length <= maximum length <= family width among the unfiltered input and the assertions, which no filter removes |
| `Pipeline.AcceptedFields` | cmd/stayrtr/stayrtr.go:235-241 | a key is accepted iff an accepted entry has exactly its prefix, maximum length and AS number |
| `Pipeline.FollowersAgree` | README.md:237-239 | a follower fed the export builds the same table with the same exceptions, and the same list with none |
| `Monitor.BuildNewVrpMap` | cmd/rtrmon/rtrmon.go:368-415 | the rebuilt map holds the keys that input entries spell out field by field and those within the grace period, and the number kept only by the latter |
| `Monitor.MapIsRight` | cmd/rtrmon/rtrmon.go:368-415 | by induction over polls: who is retained, and the right first and last appearance |
| `Monitor.RetentionOverRuns` | cmd/rtrmon/rtrmon.go:363-415 | after any polls a key is retained iff it appeared within the grace period, LastSeen is its latest appearance, FirstSeen the start of its current retention |
| `Monitor.Diff` | cmd/rtrmon/rtrmon.go:600-608 | one entry for each key only in the first map |
| `Monitor.Compare` | cmd/rtrmon/rtrmon.go:675-676 | the two slices name disjoint keys, both are empty iff the key sets agree, and their lengths leave the same common part of each map |
| `Monitor.CountFirstSeenOnOrBefore` | cmd/rtrmon/rtrmon.go:588-598 | the number of positions whose entry was first seen at or before the threshold |
| `Monitor.CountFallsWithAge` | cmd/rtrmon/rtrmon.go:713-731 | a longer required visibility never counts more |

## Left out

- TCP, TLS and SSH listeners, dialling, authentication, send queues and connection counting: input and output only.
- Manual serials, `SetSerial` after data, and diffs not computed against the current table: the meaning of the cache
  relies on their absence. `AddVRPsDiff` itself is specified for any diff.
- Locks: the two reads of a handler are separate steps in `Protocol`; the methods of `Server` run one at a time.
- `Replies.RequestCache`: the internal-error reply is not modelled, because the current table always exists.
- Protocol version negotiation and the version downgrade of a client session: a fixed version per connection is assumed,
  and no property above depends on which of the two it is.
- End of Data with a version above 1, which is written without a length and body: encoded as in the source, excluded
  from the round trip.
- `Pdus.RoundTrip`: returns Router Key flags as zero, because the decoder does not read back what the encoder writes.
- A connection that fails: rtrmon exits, so a run of `Protocol` ends there.
- Serial queries of a router whose initial serial 0 is not a serial of this server: excluded in `Protocol`.
- Text of keys, CIDR and AS-number strings, JSON, the trust anchor and expiry fields of entries.
- HTTP fetching, ETags, hashing, metrics, logging, flags, templates; rtrdump, whose handler adds nothing to rtrmon's.
