# Conest: verified models of its stateful cores

Dafny models of the parts of Conest whose correctness rests on state kept over
time, and proofs of what they promise. Nothing here runs the original programs.

- **Relay queue** (`RelayTable`, `RelayStore`, `RelayQueue`, `RelayServer`, `RelayRuns`, `RelayAnswers`,
  `RelayFetches`, `RelayProgress`).
  The table of stored envelopes with its SQL selections, the three eviction
  loops of a store, leased and legacy fetches, acknowledgements and reopening.
  `RelayServer.Relay` is the object; each method is proved to make one
  transaction of `RelayQueue`. `RelayRuns` and `RelayProgress` prove what holds
  over whole runs: quotas, accounting for every message, leases, exact refusals
  and progress of a drain. `RelayAnswers` and `RelayFetches` say what each
  operation answers and does to each row in the rows' own fields.
- **Long poll** (`LongPoll`, `LongPollAnswers`). Fetching, storing and pruning threads as a state
  machine, one step per lock held.
- **Rate limits** (`RateWindows`, `RateLimiter`, `LimiterAnswers`). One fixed-window rule serves
  the request, store and mailbox budgets; the limiter object adds the soft ban.
- **BLE link core** (`Reassembler`, `Framing`, `WireFormat`, `BleLinks`, `BleRuns`, `BleCore`,
  `BleInbound`, `BleAnswers`, `BleCrossing`).
  The byte-stream reassembler, the packets' fields, and a proof that it undoes
  framing; the link table and what holds over its runs, what comes in among it;
  two devices that dial each other.
- **Attachment receiver** (`Octets`, `Transfer`, `TransferDisk`, `TransferSession`, `PartialTransfers`,
  `TransferAnswers`).
  Block geometry, the frame and journal codecs, a disk that may lose power,
  and the receiver whose every disk operation is a recorded step.
- **Jitter buffer** (`Jitter`, `JitterAnswers`). Ordering, loss accounting and the bound on stalls.
- **Voice recording** (`Ogg`, `VoiceRecording`, `VoiceWorker`, `RecordingAnswers`). Resampling, the
  page format of RFC 3533 (section 6) and the granule rules of RFC 7845 (section 4).
- **Directory mirror** (`Mirror`). Copy, then remove what is stale, retried.
- **Tor start and stop** (`TorStart`, `TorAnswers`). The generation-checked protocol.

`Basics.dfy` holds options, integer bounds and set sizes.

How to read it: an object the source changes in place is a class with those
fields. Where runs matter, an operation's effect is a predicate (`Step`,
`StoreStep`, `DiskStep`), each class method is proved to have that effect, and
the theorems are about every sequence of such effects. A run is written latest
operation outermost. The modules named `...Answers` (and `RelayFetches`,
`WireFormat`, `BleInbound`) say the same effects a second time, without the
functions that define them: in fields, bytes, numbers and earlier operations.

Assumptions: the relay's configuration does not change across restarts and its
lease ids are fresh; clock readings never go back where a theorem says so
(`ClockForward`, `InOrder`, `Timely`), which the relay's quotas and accounting
do not need; decryption under the attachment key yields only the sender's block
(`Authenticates`) and what the sender sealed opens (`Opens`), two assumptions
that `SmallHolds` shows consistent; the Ogg checksum is some function whose
value fits four bytes. Strings stand for their bytes.

## Where the code differs from what is said of it

Each has its exact condition for all inputs, and an instance.

- A fetch limit within the announcement cap can deliver nothing for ever.
  `DrainsExactly`: enough legacy fetches of a quiet mailbox deliver everything
  if and only if fewer than the limit's number of announcements are older than
  its newest message. `StarvedForEver` gives, for each limit up to the cap, a
  table within every quota whose one message no number of fetches delivers.
- A BLE write is said to admit a central once, and one with a zero write size to
  admit nothing and leave nothing behind. An incoming link that exists is
  returned whatever the size; and this device's own link to that peer stays if
  and only if this device's address is not the higher one, otherwise it is
  taken out for the failed admission (`OwnCentral`, and the contract of
  `AdmitPeripheral`). `ZeroLimitExample` loses a link that was ready that way.
- Sequence number 2^64-1 plays again each time it is kept and polled.
  `PlayedInOrder`: in every run the numbers played strictly increase but for
  that one. `RepeatsExactly`: a poll that plays repeats a number if and only if
  that one was played before. `TopPlaysTwice` is such a run.
- A sample pushed between the worker's empty pop and its reading of the stop
  flag splits or loses the end of a recording. `WholeExactlyIfSettled`: the
  frames hold exactly the captured samples if and only if nothing arrives after
  an empty pop that saw the stop. `LateSample` is a recording whose granules go
  back, `LostSample` one that loses its only sample.
- A block received twice before a checkpoint counts twice in the reported
  progress. `ProgressExact`: the report is the bytes held if and only if no
  pending block repeats. `ReceiveTwice` makes a session report twice the size
  of any one-block file below 4 MiB, `OvershootExample` of a one-byte one.
- The comment on the soft ban says that tallies without a violation for two
  minutes are dropped, so that the map stays bounded. `TallyStep`: a tally that
  never became a ban is cleared if and only if its own peer has a request
  accepted. `TallyOutlasts`: any time and anyone else's requests leave it as it
  was. `TalliesPileUp`: under every policy that has room for a key and does not
  ban at the first violation, peers two minutes apart add one each, without end.
  `NoKeysNoTallies`: with room for no key there are none.
- The mirror loses an entry whose name is the temporary name of a file read
  after it. `MirrorsByName`: but for modes of directories, listing by name
  reproduces a source if and only if no file sorts after an entry with its
  temporary name; `SweptExample` is a source with such a pair.
- The mirror does not copy the mode of a directory. `MirrorsByName`: such a
  source is reproduced with its modes if and only if at every depth each
  directory has its mode already, in the destination, or new directories get it.
  `ModeExample` is a private directory that becomes an ordinary one.
- Tor work is said to go on unless `stop` is called first. A start that began
  after a stop can be cancelled by it too: `FailsExactly`: a start fails exactly
  if something it needs fails, its generation is over, or it waits and a stop
  has signalled since it registered. `CancelledByAnEarlierStop` is a start of
  the current generation that ends so.

## Model

| member | source | states |
|---|---|---|
| RelayStore.MakePairingRoom | native/conest_relay/src/main.rs:1150-1173 | the announcement loop ends with fewer than eight left, having removed exactly the oldest, and keeps the running total; it needs that announcements are never leased |
| RelayStore.MakeMailboxRoom | native/conest_relay/src/main.rs:1176-1207 | the mailbox loop removes the shortest run of victims that makes room, or all of them and refuses; never a leased row |
| RelayStore.VictimsInOrder | native/conest_relay/src/main.rs:1190-1203 | the order in which a mailbox gives rows up: unleased rows of a named kind other than announcements, oldest first, and only then the rest, rows without a kind among them |
| RelayStore.MakeTotalRoom | native/conest_relay/src/main.rs:1225-1286 | making room on the relay: only unleased rows go, each holder's oldest first, the last one was needed; the payers are, turn by turn, the holder chosen as largest for as long as it has anything, then whoever is largest for one row, and then a new choice; another than the first pays only when giving up all of that one's was not enough; a refusal leaves only leased rows |
| RelayStore.LargestHolder | native/conest_relay/src/main.rs:1235-1246 | the chosen holder has the most unleased bytes; there is one exactly when some row is unleased |
| RelayQueue.StoreKeepsGood | native/conest_relay/src/main.rs:1067-1307 | a store keeps all seven quotas and the running total at once |
| RelayQueue.TakeKeepsGood | native/conest_relay/src/main.rs:1439-1532 | so does a fetch, leased or legacy, and it never leases an announcement |
| RelayQueue.AckKeepsGood | native/conest_relay/src/main.rs:1534-1550 | so does an acknowledgement |
| RelayQueue.RestartKeepsGood | native/conest_relay/src/main.rs:758-786 | so does reopening the database, which forgets every lease |
| RelayQueue.ClearedShrinks | native/conest_relay/src/main.rs:1139-1174 | an announcement clears its sender's earlier one and leaves room among eight, removing announcements only |
| RelayServer.Relay.StoreFrom | native/conest_relay/src/main.rs:1067-1307 | a store is one such transaction or a refusal that leaves the table untouched, expired rows included; only the throughput charge stays |
| RelayServer.Relay.Transact | native/conest_relay/src/main.rs:1108-1307 | the transaction itself, eviction loops and all, meets the description |
| RelayAnswers.StoreChecks | native/conest_relay/src/main.rs:1078-1137 | which check answers a store, exactly: the mailbox name, the size, the throughput, and a message of the same id waiting in the same mailbox, still fresh; a duplicate only drops what has expired, a refusal changes nothing |
| RelayAnswers.ClearedIs | native/conest_relay/src/main.rs:1139-1174 | an announcement takes the place exactly of its sender's earlier one and of those of others with seven newer ones |
| RelayAnswers.MailboxGives | native/conest_relay/src/main.rs:1176-1207 | a mailbox gives up unleased rows, those of a named kind other than announcements first and then the older first, none that was not needed, until there is room or none is left |
| RelayAnswers.StoreInFull | native/conest_relay/src/main.rs:1139-1307 | a store that is no duplicate, from beginning to end: what gives way, which quota refuses it, and the row it adds |
| RelayAnswers.TurnsExactly | native/conest_relay/src/main.rs:1234-1286 | each turn of making room on the relay was needed, takes its payer's oldest unleased row, and the payer is the one chosen to pay on or holds the most unleased bytes |
| RelayServer.Relay.TakeQueue | native/conest_relay/src/main.rs:1439-1532 | a fetch hands out the first unleased rows in id order; it leases or deletes exactly those that are not announcements, and names a lease exactly when it leased something |
| RelayFetches.HandedExactly | native/conest_relay/src/main.rs:1453-1485 | a fetch hands out exactly the rows of its mailbox that are fresh, under no lease or a lapsed one, and have fewer than limit such rows before them; in id order |
| RelayFetches.RowsAfterFetch | native/conest_relay/src/main.rs:1453-1530 | what it leaves, row by row: what has expired goes, what was handed out and is no announcement is leased to the deadline or deleted, a lapsed lease goes, all else is as before; it names a lease exactly when it leased something |
| RelayServer.Relay.AcknowledgeLease | native/conest_relay/src/main.rs:1534-1550 | deletes exactly the mailbox's rows held under that lease, or refuses |
| RelayFetches.AckExactly | native/conest_relay/src/main.rs:1534-1550 | an acknowledgement is accepted exactly for a mailbox name and an id of 16 to 128 characters, and takes out exactly the mailbox's rows held under it |
| RelayServer.Relay.Restart | native/conest_relay/src/main.rs:758-760 | clears every lease and nothing else |
| RelayFetches.RestartExactly | native/conest_relay/src/main.rs:758-760 | reopening leaves every row, and no lease |
| RelayServer.Relay.Stats | native/conest_relay/src/main.rs:1552-1580 | drops expired rows, then reports the mailboxes, rows and bytes of the rest, which the running total equals, and the leases still running |
| RelayRuns.AlwaysGood | native/conest_relay/src/main.rs:735-786 | in every reachable state all quotas hold together and the total equals the sum of the rows |
| RelayFetches.QuotasInFull | native/conest_relay/src/main.rs:1139-1307 | in every reachable state, in the rows' own fields: count and bytes per mailbox, eight announcements, one per sender, one message per id, bytes per source, bytes in all |
| RelayRuns.LeaseProvenance | native/conest_relay/src/main.rs:1505-1513 | a leased row is held under the lease it was last handed out under |
| RelayRuns.StaleAck | native/conest_relay/src/main.rs:1534-1550 | an acknowledgement deletes no row whose last lease is another, as after a second lease |
| RelayRuns.LeaseKept | native/conest_relay/src/main.rs:1466-1519 | until its deadline, without a restart, a leased row keeps its lease or is gone |
| RelayRuns.LeaseExclusive | native/conest_relay/src/main.rs:1466-1519 | what a leased fetch handed out no fetch hands out again before the deadline, restarts aside |
| RelayFetches.StaysLeased | native/conest_relay/src/main.rs:1465-1519 | until its deadline a row fetched under a lease and not acknowledged stays, under that lease, whatever else is stored, fetched or acknowledged |
| RelayFetches.HandedAgain | native/conest_relay/src/main.rs:1465-1519 | what was fetched and not acknowledged is handed out again: by the first operation from its deadline on that reads the clock, if that is a fetch of the mailbox with room and the row is still fresh |
| RelayRuns.EvictedUnleased | native/conest_relay/src/main.rs:1150-1207 | neither the announcement loop nor the mailbox loop takes a leased row |
| RelayRuns.StoredRows | native/conest_relay/src/main.rs:1115-1307 | a store adds only its own row; what it removes had expired, or was unleased and the room it made was needed, in its mailbox, among announcements or on the relay; a refusal removes nothing |
| RelayRuns.StepAccounts | native/conest_relay/src/main.rs:1067-1550 | in one operation each row stays or leaves for one of the allowed reasons |
| RelayRuns.RoomyStoreKeepsAll | native/conest_relay/src/main.rs:1176-1286 | a message that its mailbox and the relay have room for displaces nothing |
| RelayRuns.Accounted | native/conest_relay/src/main.rs:1067-1550 | every message ever stored is queued, or left by its time, by making room that was needed while unleased, by a legacy fetch that returned it, or by an acknowledgement of the very lease it was last handed out under; operations may read their clocks in any order |
| RelayRuns.GoneForGood | native/conest_relay/src/main.rs:1067-1550 | what has left never comes back |
| RelayRuns.RowsWereStored | native/conest_relay/src/main.rs:1287-1304 | every row in the table was stored by some operation of the run |
| RelayProgress.MailboxRoomExactly | native/conest_relay/src/main.rs:1176-1207 | the mailbox refuses exactly when its leased rows alone leave no room |
| RelayAnswers.TotalRoomExactly | native/conest_relay/src/main.rs:1225-1286 | the relay's total refuses exactly when leased rows alone leave no room |
| RelayProgress.RefusedExactly | native/conest_relay/src/main.rs:1176-1307 | the outcome of a store that passed its checks and is no duplicate: mailbox full exactly when the fresh leased rows leave no room there, else source full exactly when its share is exceeded by what is left, else relay full exactly when fresh leased rows leave no room, else stored |
| RelayProgress.PrefixDelivers | native/conest_relay/src/main.rs:1474-1490 | the first L rows of a mailbox hold all messages, or at least L - k of them for the k announcements older than the newest message, and all of them only if k is below L |
| RelayProgress.FetchStep | native/conest_relay/src/main.rs:1474-1519 | a legacy fetch of a mailbox without leases is one from its own rows alone, whatever other mailboxes hold |
| RelayProgress.FetchLeaves | native/conest_relay/src/main.rs:1491-1519 | it leaves the other messages in order, and as many announcements ahead of the newest |
| RelayProgress.DrainsWithin | native/conest_relay/src/main.rs:1474-1519 | for k below L, n messages are delivered in id order within ceil(n/(L-k)) legacy fetches |
| RelayProgress.NeverDrains | native/conest_relay/src/main.rs:1474-1519 | for k at least L the newest message is never delivered, by however many fetches |
| RelayProgress.DrainsExactly | native/conest_relay/src/main.rs:1474-1519 | enough fetches deliver everything exactly when k is below L |
| RelayProgress.DrainProgress | native/conest_relay/src/main.rs:1150-1174 | the announcement cap makes every L above 8 drain, within ceil(n/(L-8)) fetches |
| RelayProgress.StarvedForEver | native/conest_relay/src/main.rs:1474-1504 | for every L up to 8, a table within all quotas whose one message no number of fetches delivers |
| LongPoll.AlwaysInv | native/conest_relay/src/main.rs:803-839 | the protocol's invariant holds in every reachable state |
| LongPoll.NotifierKept | native/conest_relay/src/main.rs:821-839 | a fetch from taking its notifier until its own prune has that notifier in the map |
| LongPoll.OthersHold | native/conest_relay/src/main.rs:835-835 | two users of a notifier make its reference count at least three, so neither prunes it |
| LongPoll.WaitersCountSleepers | native/conest_relay/src/main.rs:1351-1361 | waiters is always the number of sleeping fetches |
| LongPoll.CommitsAreNoted | native/conest_relay/src/main.rs:1305-1312 | a commit is noted by every fetch of the mailbox that has found it empty |
| LongPoll.NoLostWakeup | native/conest_relay/src/main.rs:1308-1365 | once a store that committed after a fetch's drain has finished, the fetch's wait predicate is false and, asleep, it has been notified; until then the store is on its way to that fetch's notifier |
| LongPoll.WokenForGood | native/conest_relay/src/main.rs:1351-1363 | such a fetch leaves its sleep at its next step |
| LongPollAnswers.GenerationIs | native/conest_relay/src/main.rs:1308-1312 | a notifier's generation is how often stores have bumped it |
| LongPollAnswers.LooksExactly | native/conest_relay/src/main.rs:1331-1363 | a fetch goes on to sleep only if its first look found nothing; its second look ends it |
| LongPollAnswers.SleepsExactly | native/conest_relay/src/main.rs:1349-1353 | finding nothing, it sleeps exactly if no store has bumped its notifier since it read the generation |
| LongPollAnswers.WakesExactly | native/conest_relay/src/main.rs:1353-1360 | it looks again exactly if its time is over or a store has bumped its notifier since; otherwise it sleeps on |
| LongPollAnswers.BumpWakes | native/conest_relay/src/main.rs:1308-1312 | a bump wakes exactly the fetches asleep on that notifier |
| LongPollAnswers.PrunesExactly | native/conest_relay/src/main.rs:821-839 | a notifier is taken out of the map exactly if no other thread is at work with it |
| LongPollAnswers.PruneStartsExactly | native/conest_relay/src/main.rs:825-834 | it comes to that exactly if the map has that notifier and nobody sleeps on it |
| RateWindows.AlwaysFaithful | native/conest_relay/src/main.rs:899-927 | a window's tally is what its key got since it opened, within the limit, and the minute before holds at most one limit more, despite resets, pruning and refused keys |
| RateWindows.SlidingWindowBound | native/conest_relay/src/main.rs:938-968 | over any run and any 60 s one key gets at most twice the per-minute count and twice the bytes, for each of the three budgets |
| LimiterAnswers.WithinLimitsPasses | native/conest_relay/src/main.rs:899-927 | nobody within the limits is refused: a call passes if it and what its key got in the last minute are within them, and the map has a place |
| LimiterAnswers.PrunesExactly | native/conest_relay/src/main.rs:899-907 | pruning takes out exactly the windows opened two minutes ago or before |
| RateLimiter.Limiter.AllowRequest | native/conest_relay/src/main.rs:865-933 | one request is one judgement of the gate; it prunes exactly when a second has passed since the last pruning and no ban stops it, and then dates that pruning |
| RateLimiter.Limiter.AllowStore | native/conest_relay/src/main.rs:938-968 | one store is one call on its own windows, sharing the prune timestamp |
| RateLimiter.Limiter.AllowMailboxBytes | native/conest_relay/src/main.rs:1034-1059 | one envelope is one call on the mailbox windows, or passes when the budget is off |
| RateLimiter.Limiter.NoteViolation | native/conest_relay/src/main.rs:1003-1017 | a refusal raises the saturating tally and dates a ban at the threshold |
| RateLimiter.Limiter.NoteCompliance | native/conest_relay/src/main.rs:1019-1032 | an accepted request clears the tally of a peer that was never banned |
| RateLimiter.RequestBound | native/conest_relay/src/main.rs:865-933 | with bans included, any 60 s holds at most twice the per-minute requests of one peer |
| RateLimiter.BanPersists | native/conest_relay/src/main.rs:873-897 | no request lifts or shortens a ban before it ends |
| RateLimiter.SilencedUntil | native/conest_relay/src/main.rs:873-897 | a banned peer gets nothing until its ban ends, whatever anyone sends |
| RateLimiter.ThresholdMeansBan | native/conest_relay/src/main.rs:1012-1016 | a tally at the threshold is always a ban dated from one of the peer's own requests |
| LimiterAnswers.OthersExactly | native/conest_relay/src/main.rs:878-891 | what a request leaves of every other peer: a ban in force and a tally stay, an expired ban goes |
| LimiterAnswers.OwnExactly | native/conest_relay/src/main.rs:873-931 | and of its own: a ban in force refuses it; a refusal that counts is one more strike, a ban at the threshold; an accepted request leaves none |
| LimiterAnswers.BannedAtThreshold | native/conest_relay/src/main.rs:1003-1017 | a peer with no strikes is banned by exactly its threshold-th refusal in a row, for the ban time from then, whatever others send |
| LimiterAnswers.BanForgotten | native/conest_relay/src/main.rs:878-891 | once a ban is over, the next request of anyone else leaves no trace of it |
| RateLimiter.TallyStep | native/conest_relay/src/main.rs:878-931 | a tally that never became a ban is cleared exactly by an accepted request of its own peer |
| RateLimiter.TallyOutlasts | native/conest_relay/src/main.rs:878-891 | it outlasts any time and any requests of others |
| RateLimiter.TalliesPileUp | native/conest_relay/src/main.rs:866-917 | for every policy with room for a key and a ban threshold above one, and every n: peers two minutes apart leave n tallies |
| RateLimiter.NoKeysNoTallies | native/conest_relay/src/main.rs:899-910 | with room for no key nobody is tallied |
| Reassembler.Buffer.Push | native/conest_native/src/ble/core.rs:351-396 | one notification, byte by byte in place, has the effect described on values |
| Reassembler.Buffer.Take | native/conest_native/src/ble/core.rs:362-393 | one byte: padding dropped, packet continued or completed, or refused |
| Reassembler.FeedAllSplit | native/conest_native/src/ble/core.rs:361-395 | feeding bytes in two goes is feeding them at once |
| Reassembler.Padding | native/conest_native/src/ble/core.rs:382-391 | a padding byte that is expected is its own count and at least 16, so never a version byte |
| Framing.PrefixStable | native/conest_native/src/ble/core.rs:399-432 | no proper prefix of a packet is malformed or complete |
| Framing.OnlyWellFormed | native/conest_native/src/ble/core.rs:373-395 | whatever arrives, what comes out is well-formed and the buffer grows by no more than the bytes fed |
| Framing.ReassemblyUndoesFraming | native/conest_native/src/ble/core.rs:350-432 | any packets, any padding up to the block's end, any cuts, no pause over 5 s: exactly those packets, unless and only unless some cut overflows the buffer |
| WireFormat.PacketsExactly | native/conest_native/src/ble/core.rs:399-432 | the length rule finds exactly the packets: the bytes of a version, kind, time to live, time, flags, sender, perhaps a recipient, a route of version 2, a payload and perhaps a signature of 64 bytes, 4096 in all at most |
| WireFormat.BeginningAccepted | native/conest_native/src/ble/core.rs:399-432 | no beginning of a packet is refused |
| WireFormat.PaddingExactly | native/conest_native/src/ble/core.rs:383-391 | padding fills the least of 256, 512, 1024 and 2048 that leaves 16 bytes, if that takes at most 255, each byte their number |
| WireFormat.SentArrive | native/conest_native/src/ble/core.rs:351-432 | packets of any legal fields, sent one after another with some of their padding, cut anywhere, without a pause over five seconds, arrive as they are; a notification is refused exactly when a cut overflows the buffer |
| WireFormat.PauseExactly | native/conest_native/src/ble/core.rs:352-355 | an unfinished packet is kept over a pause of five seconds, not longer |
| WireFormat.SignedExample | native/conest_native/src/ble/core.rs:399-432 | a signed packet of 90 bytes is not taken for its first 26 |
| BleLinks.StepKeepsSafe | native/conest_native/src/ble/core.rs:105-333 | every operation keeps at most 8 links, one per peer, none to peer 0, exact bounded queues, at most 256 events and at most 128 backoff entries of 30 s to 300 s |
| BleLinks.StepKeepsNotSelf | native/conest_native/src/ble/core.rs:88-108 | no link to this device, exactly unless the address is changed to that of a linked peer |
| BleLinks.BackedOffMeans | native/conest_native/src/ble/core.rs:200-217 | peers that failed one after another each wait from now, twice as long as before unless they were forgotten; while the table has room nothing is forgotten, without it the table stays full, and of the others those forgotten could be retried no later than those kept |
| BleAnswers.WaitsDouble | native/conest_native/src/ble/core.rs:200-217 | after one failure after another a peer waits 30, 60, 120, 240 and then 300 s |
| BleAnswers.HeldOff | native/conest_native/src/ble/core.rs:119-121 | a failed outgoing link keeps its peer from being dialled for 30 s |
| BleLinks.QueueSteps | native/conest_native/src/ble/core.rs:241-271 | accepting and taking a packet keep the byte count exact and in bounds |
| BleRuns.AlwaysSafe | native/conest_native/src/ble/core.rs:105-333 | the link table is safe after any run |
| BleRuns.NeverSelf | native/conest_native/src/ble/core.rs:88-108 | no run makes a link to this device if its address is only set to one no link has |
| BleRuns.RetiredForGood | native/conest_native/src/ble/core.rs:126-127 | an id once given out and gone is never live again |
| BleRuns.LateCallback | native/conest_native/src/ble/core.rs:186-276 | a late callback on a retired id changes nothing |
| BleRuns.WritesInOrder | native/conest_native/src/ble/core.rs:241-271 | what a live link accepted is what was taken and then what is queued, in order |
| BleRuns.RateBound | native/conest_native/src/ble/core.rs:273-317 | at most 40 packets per link reach the event buffer in any second |
| BleInbound.NotificationExactly | native/conest_native/src/ble/core.rs:273-317 | a notification is refused, and counted, exactly when its link is not ready, it is empty or over 4096 bytes, it is more than the 256th or passes the 16384th byte of its second, or the reassembler refuses it; else its packets reach the buffer up to the 40th of the second, and the rest are counted |
| BleInbound.DeliveredExactly | native/conest_native/src/ble/core.rs:273-317 | on a link just made ready whose peer keeps to those limits, the packets that reach the event buffer are exactly those its notifications make |
| BleInbound.PacketsGetThrough | native/conest_native/src/ble/core.rs:273-432 | so the packets the peer sent are the packets received |
| BleRuns.EventsAreNewest | native/conest_native/src/ble/core.rs:309-332 | the buffer is always the newest packets that reached it, in order |
| BleAnswers.EventsExactly | native/conest_native/src/ble/core.rs:303-333 | a poll takes the oldest 32 events; what comes in is added, and only what is over 256 then gives way and is counted |
| BleAnswers.EventsAccounted | native/conest_native/src/ble/core.rs:303-333 | over any run every event was polled, is still here, was counted as dropped, or was cleared |
| BleAnswers.TimesExactly | native/conest_native/src/ble/core.rs:127-145 | a link's times are when it was reserved and when a packet of it last reached the buffer |
| BleAnswers.ExpireExactly | native/conest_native/src/ble/core.rs:226-239 | an expiry drops exactly the links not ready 15 s after they were reserved and those unheard for 120 s |
| BleAnswers.ReserveExactly | native/conest_native/src/ble/core.rs:105-146 | a reserve succeeds exactly when the peer is another device, no link or backoff of it stands in the way, fewer than eight others stay, and an id is left; what stays, and the new link |
| BleAnswers.ReadyExactly | native/conest_native/src/ble/core.rs:186-196 | a write size makes a link ready, at most 512, and ends its peer's backoff |
| BleAnswers.EnqueueExactly | native/conest_native/src/ble/core.rs:241-255 | a packet is accepted exactly when the link is ready, it fits a write, and the queue then holds at most 64 packets and 16384 bytes |
| BleAnswers.TakeExactly | native/conest_native/src/ble/core.rs:266-271 | a write takes the oldest packet, exactly if there is one |
| BleRuns.PreferredStays | native/conest_native/src/ble/core.rs:105-121 | a link in the preferred direction survives every operation that does not end it, and every reserve for that peer is refused |
| BleRuns.PreferredTakesOver | native/conest_native/src/ble/core.rs:105-146 | a reserve in the preferred direction replaces the other, even in a full table |
| BleRuns.OwnCentral | native/conest_native/src/ble/core.rs:105-121 | a reserve for an incoming link leaves this device's own link to the peer exactly when its address is not the higher one, even if the reserve fails |
| BleRuns.CrossedLinksAgree | native/conest_native/src/ble/core.rs:102-121 | each of two devices keeps its end of the lower address's connection, and only that, over any run of its own |
| BleRuns.NoSecondReserve | native/conest_native/src/ble/core.rs:109-119 | no later reserve for that peer succeeds while it lives |
| BleCrossing.SameConnection | native/conest_native/src/ble/core.rs:102-146 | once a connection dialled by the lower address is reserved at both ends, both hold that same connection and no other to each other, however their moves interleave |
| BleCrossing.CrossingResolves | native/conest_native/src/ble/core.rs:109-121 | of two dials that crossed, accepting the lower address's joins both ends in it and drops the other |
| BleCrossing.LowerRefuses | native/conest_native/src/ble/core.rs:109-118 | the lower address refuses the other's dial |
| BleCore.Soonest | native/conest_native/src/ble/core.rs:206-211 | the entry evicted from a full backoff table is one that may be retried first |
| BleCore.OneMoreFailure | native/conest_native/src/ble/core.rs:200-217 | single failures, each exact on whom a full table forgets, add up to the failures of a sweep |
| BleCore.Core.Drop | native/conest_native/src/ble/core.rs:198-219 | taking a link out, and after a failed outgoing one making its peer wait twice as long; a full table forgets a peer that may be retried first |
| BleCore.Core.Sweep | native/conest_native/src/ble/core.rs:226-239 | drops exactly the links whose setup or silence lasted too long, and backs off exactly their outgoing peers, one after another, each exact on whom a full table forgets |
| BleCore.Core.TryReserve | native/conest_native/src/ble/core.rs:105-146 | a reserve is refused exactly when blocked, full or out of ids, and otherwise leaves the unexpired others and one fresh link |
| BleCore.Core.AdmitPeripheral | native/conest_native/src/ble/core.rs:166-176 | admits the incoming link there is, or a new one ready at once; with write size 0 only the former; this device's own link to the peer stays exactly when its address is not the higher one |
| BleCore.ZeroLimitExample | native/conest_native/src/ble/core.rs:166-176 | a device that loses its own link, ready for use, to a failed admission |
| BleCore.Core.Enqueue | native/conest_native/src/ble/core.rs:241-255 | accepts a packet exactly when the link's limits allow and appends it |
| BleCore.Core.Broadcast | native/conest_native/src/ble/core.rs:257-262 | appends to exactly the other links that accept, and counts them |
| BleCore.Core.TakeWrite | native/conest_native/src/ble/core.rs:266-271 | takes the oldest queued packet and its bytes |
| BleCore.Core.Take | native/conest_native/src/ble/core.rs:273-317 | the per-second limits reset, count and refuse as described |
| BleCore.Core.Deliver | native/conest_native/src/ble/core.rs:303-317 | packet by packet, the first up to 40 of the second reach the buffer, the oldest events give way, and every loss is counted |
| BleCore.Core.Poll | native/conest_native/src/ble/core.rs:320-333 | hands out the oldest 32 events and the limits of the ready links |
| Transfer.BlocksTile | native/conest_native/src/transfer.rs:138-152 | every byte of the file lies in exactly one block |
| Transfer.BlockInside | native/conest_native/src/transfer.rs:145-152 | blocks are nonempty, abut, and the last ends at the file's end |
| Transfer.AllBlocksSum | native/conest_native/src/transfer.rs:509-515 | the lengths of all blocks sum to the file, to the byte |
| TransferAnswers.ManifestExactly | native/conest_native/src/transfer.rs:90-136 | which manifests are accepted, exactly: the bounds, and as many blocks as the size takes |
| Transfer.DecodeEncode | native/conest_native/src/transfer.rs:280-321 | decoding an encoded frame gives the frame back |
| Transfer.EncodeDecode | native/conest_native/src/transfer.rs:280-321 | re-encoding a decoded frame gives the same bytes exactly when its two reserved bytes are zero |
| TransferAnswers.FrameExactly | native/conest_native/src/transfer.rs:297-321 | a frame is accepted exactly if it is "CAT2", version 2, and as long as its length field says; its fields by their bytes |
| TransferAnswers.BlockExactly | native/conest_native/src/transfer.rs:241-278 | what is encrypted is accepted exactly if it is for this manifest, of a block of it with that block's length, opens, and opens to bytes with the hash |
| Transfer.RecordRoundTrip | native/conest_native/src/transfer.rs:367-415 | a journal record is 80 bytes and reads back as its block |
| TransferAnswers.RecordExactly | native/conest_native/src/transfer.rs:398-410 | a record passes exactly if it is "CAJ2", version 2, with its tag; it names the block of its fields |
| TransferAnswers.LoadExactly | native/conest_native/src/transfer.rs:387-415 | a journal loads exactly if every whole record passes, and then to exactly the blocks they name |
| Transfer.LoadPrefix | native/conest_native/src/transfer.rs:387-415 | whatever prefix of a journal survives, loading it yields exactly the entries whose records survived whole |
| TransferDisk.StepKeepsSafe | native/conest_native/src/transfer.rs:469-503 | a block flushed with the sender's bytes keeps them through writes, resizing, flushes and crashes |
| TransferDisk.StepKeepsRecoverable | native/conest_native/src/transfer.rs:387-503 | each disk operation, a crash included, keeps the journal a prefix of records of safe blocks, and whatever a crash may yet put in its place |
| TransferDisk.AlwaysRecoverable | native/conest_native/src/transfer.rs:387-503 | that holds over every run of the receiver's disk operations with crashes anywhere |
| TransferDisk.RecoveredBlocks | native/conest_native/src/transfer.rs:387-415 | in every reachable state the journal loads, and every block it names holds the sender's bytes, also where a crash brought back what a rewrite had replaced |
| TransferDisk.Pigeonhole | native/conest_native/src/transfer.rs:526-529 | as many distinct blocks as the manifest has are all of them |
| TransferDisk.CompleteIsOriginal | native/conest_native/src/transfer.rs:526-550 | a complete transfer is the sender's file, byte for byte |
| TransferSession.SentBlockArrives | native/conest_native/src/transfer.rs:201-321 | the sender's frame of any block encodes, decodes and decrypts to that block |
| TransferSession.ProgressExact | native/conest_native/src/transfer.rs:509-524 | the reported progress is the bytes held exactly when no pending block repeats, and more otherwise |
| PartialTransfers.ReceiveTwice | native/conest_native/src/transfer.rs:469-490 | every session of a one-block file below 4 MiB that takes the sender's frame twice reports twice the file's size |
| PartialTransfers.OvershootExample | native/conest_native/src/transfer.rs:469-490 | a session that does |
| TransferSession.SmallHolds | native/conest_native/src/transfer.rs:95-152 | a manifest, a file and a suite that meet every assumption made of them |
| TransferSession.AnyCrashResumes | native/conest_native/src/transfer.rs:387-415 | power lost at any point of a session leaves a journal that loads and names only safe blocks |
| TransferSession.DurableSurvives | native/conest_native/src/transfer.rs:357-384 | once the journal is flushed a crash loses none of its blocks |
| PartialTransfers.PartialTransfer.AppendRecord | native/conest_native/src/transfer.rs:357-384 | a record is two writes and a flush, skipped for a block already durable |
| PartialTransfers.PartialTransfer.Checkpoint | native/conest_native/src/transfer.rs:492-503 | flushes the file before journalling every pending block; all held blocks are durable after it |
| PartialTransfers.PartialTransfer.ReceiveEncodedBlock | native/conest_native/src/transfer.rs:469-490 | accepts exactly durable blocks and frames that decrypt; an accepted block holds the sender's bytes and joins the pending ones, or all are checkpointed once due or 8 MiB are reached |
| PartialTransfers.PartialTransfer.Finalize | native/conest_native/src/transfer.rs:531-568 | incomplete exactly when a block is missing; refused for its hash exactly when none is and the sender's file has another hash than the manifest; else promoted, and what is promoted is the sender's file |
| PartialTransfers.Open | native/conest_native/src/transfer.rs:438-467 | refuses exactly a bad manifest or a whole bad record; after any run of earlier sessions and crashes it resumes with the journalled blocks, all safe |
| Jitter.Smoothed | native/conest_native/src/audio.rs:1036-1042 | the smoothed jitter lies between its old value and the new deviation |
| JitterAnswers.DeviationExactly | native/conest_native/src/audio.rs:1026-1035 | the deviation is how far from 20 ms for each number in between a packet came, early or late |
| JitterAnswers.ObservedExactly | native/conest_native/src/audio.rs:1024-1047 | the jitter moves a sixteenth of the way to it; the wait is 20 ms and four times the jitter, at most 100 ms |
| JitterAnswers.SteadyArrivals | native/conest_native/src/audio.rs:1024-1047 | packets on schedule never make the buffer wait longer than 20 ms |
| JitterAnswers.InsertExactly | native/conest_native/src/audio.rs:1001-1018 | a packet is kept exactly when not yet passed and not here; over eight the oldest goes, with all that was missing before it |
| JitterAnswers.PollExactly | native/conest_native/src/audio.rs:1049-1065 | a poll plays the oldest packet exactly if it is the next, three are here, or the first poll left unanswered since is as long ago as the wait, 20 to 100 ms; what it passes over is counted as lost |
| JitterAnswers.PlaysWhatCame | native/conest_native/src/audio.rs:1001-1065 | what plays under a number is the packet that came under it |
| Jitter.AlwaysSound | native/conest_native/src/audio.rs:1001-1065 | pending packets are at or after the expected one, at most 8, and the wait is 20 to 100 ms |
| Jitter.AlwaysAccounts | native/conest_native/src/audio.rs:1001-1065 | in every run expected is first plus played plus lost, less the times the largest number was played; accepted is played plus pending plus overflowed |
| Jitter.PlayedInOrder | native/conest_native/src/audio.rs:1049-1065 | in every run the sequence numbers played strictly increase, but that the largest can follow itself |
| Jitter.RepeatsExactly | native/conest_native/src/audio.rs:1050-1052 | a poll that plays, plays a number again exactly when the largest was played before |
| Jitter.TopRepeats | native/conest_native/src/audio.rs:1001-1052 | once it was played the buffer accepts nothing else, and keeping and polling it plays it again |
| Jitter.TopPlaysTwice | native/conest_native/src/audio.rs:1050-1052 | a run that plays it twice |
| Jitter.NoStall | native/conest_native/src/audio.rs:1049-1065 | polls that keep finding nothing to play all come within 100 ms of the first, with fewer than three packets here, whatever arrives meanwhile |
| Jitter.LatePollPlays | native/conest_native/src/audio.rs:1055-1064 | a poll 100 ms after the first unanswered one, or with three packets here, plays, unless one between did |
| Jitter.PacketJitterBuffer.Insert | native/conest_native/src/audio.rs:1001-1018 | keeps exactly new packets not yet passed, observes their arrival, and lets the oldest go over the bound |
| Jitter.PacketJitterBuffer.Trim | native/conest_native/src/audio.rs:1009-1016 | the eviction loop lets one packet go, with all that was missing before it |
| Jitter.PacketJitterBuffer.Observe | native/conest_native/src/audio.rs:1024-1047 | the arrival statistics and the wait they imply |
| Jitter.PacketJitterBuffer.Pop | native/conest_native/src/audio.rs:1049-1065 | plays, waits or skips as described, calling itself at most once |
| Ogg.LacingShape | native/conest_native/src/voice_recording.rs:415-421 | the segment table has n/255 + 1 values that sum to n |
| Ogg.LacingIsOnePacket | native/conest_native/src/voice_recording.rs:415-421 | read by the rules of the format, it is one whole packet |
| Ogg.ReadWritten | native/conest_native/src/voice_recording.rs:407-439 | a written page reads back with its fields, its one packet and a matching checksum |
| Ogg.StreamReadsBack | native/conest_native/src/voice_recording.rs:407-439 | any stream of such pages reads back as exactly those pages |
| VoiceRecording.InStep | native/conest_native/src/voice_recording.rs:293-316 | M device frames yield exactly floor(48000 M / rate) samples |
| RecordingAnswers.MonoWeighs | native/conest_native/src/voice_recording.rs:305-305 | every channel of a device frame weighs the same in its sample, and no sample of another frame counts |
| RecordingAnswers.MonoOfEqual | native/conest_native/src/voice_recording.rs:305-305 | channels that agree give their sample |
| RecordingAnswers.FramesExactly | native/conest_native/src/voice_recording.rs:304-305 | each whole device frame gives one sample, in order |
| RecordingAnswers.ResampledAt | native/conest_native/src/voice_recording.rs:306-314 | frame i is given from sample floor(48000 i / rate) up to floor(48000 (i + 1) / rate) |
| VoiceRecording.Capture.CaptureSamples | native/conest_native/src/voice_recording.rs:293-316 | without an overrun the queue gets exactly the resampling of all callbacks' frames, however they are split; after one nothing more |
| VoiceRecording.Capture.Emit | native/conest_native/src/voice_recording.rs:303-314 | the phase loop emits the copies due for one device frame |
| VoiceRecording.CapturedExactly | native/conest_native/src/voice_recording.rs:293-316 | the worker is given exactly floor(48000 M / rate) samples |
| VoiceWorker.SegmentTable | native/conest_native/src/voice_recording.rs:415-421 | the lacing loop builds the segment table |
| VoiceWorker.OggOpusWriter.WritePage | native/conest_native/src/voice_recording.rs:407-439 | appends one checksummed page with the next page number |
| RecordingAnswers.PageBytesExactly | native/conest_native/src/voice_recording.rs:407-439 | a page, byte for byte |
| VoiceWorker.OggOpusWriter.WriteHeaders | native/conest_native/src/voice_recording.rs:356-388 | writes the identification and comment header pages |
| RecordingAnswers.HeaderBytes | native/conest_native/src/voice_recording.rs:356-388 | the two header packets, byte for byte, and their pages |
| VoiceWorker.WholeExactlyIfSettled | native/conest_native/src/voice_recording.rs:162-198 | the frames hold exactly the captured samples, each but the last full, if and only if no sample arrives after an empty pop that saw the stop |
| VoiceWorker.StreamShape | native/conest_native/src/voice_recording.rs:161-218 | then exactly ceil((N + 312) / 960) audio pages: page k holds the packet of the first k frames at granule 960 k, the last ends the stream at N + 312; granules strictly increase and never pass what was encoded; frame k holds the samples from 960 k on, then silence |
| VoiceWorker.GranulesOf | native/conest_native/src/voice_recording.rs:191-218 | of any recording, settled or not: granules increase exactly when no more frames were cut than the samples need |
| VoiceWorker.LateSample | native/conest_native/src/voice_recording.rs:163-198 | a recording of two samples whose second page stands before its first |
| VoiceWorker.LostSample | native/conest_native/src/voice_recording.rs:180-182 | a sample that is never recorded |
| VoiceWorker.NumberedInOrder | native/conest_native/src/voice_recording.rs:437-437 | below 2^32 pages they are numbered without gaps |
| VoiceWorker.RecordingReadsBack | native/conest_native/src/voice_recording.rs:356-439 | every recording reads back page by page from its bytes |
| VoiceWorker.RecordLoop | native/conest_native/src/voice_recording.rs:141-224 | whatever the order of pops and stop: the captured frames, padded, then silent ones until the tail is decodable, become the headers and those audio pages; no audio exactly when the first frame stays empty |
| Mirror.LandsUnlessSwept | native/conest_updater/src/main.rs:146-224 | a copied entry is there at the end, copied into the directory found at its turn, unless a later file took its name as temporary; then it is not |
| Mirror.MirrorsButModes | native/conest_updater/src/main.rs:140-267 | from any destination a successful attempt yields the source, contents, kinds and file modes, if and only if no file is read after an entry with its temporary name |
| Mirror.MirrorsExactly | native/conest_updater/src/main.rs:140-267 | it yields exactly the source, modes of directories too, if and only if besides, at every depth, each source directory's mode is that of the directory it is copied into: the destination's, or a new one's where there is none or a file takes it for its temporary name |
| Mirror.MirrorsByName | native/conest_updater/src/main.rs:140-288 | listing by name: both conditions, with "sorts after" for "is read after" |
| Mirror.SweptExample | native/conest_updater/src/main.rs:189-224 | a source it does not reproduce, from any destination |
| Mirror.ModeExample | native/conest_updater/src/main.rs:155-167 | a private directory is reproduced exactly when new directories are private, or the one that was there is |
| Mirror.CopyFile | native/conest_updater/src/main.rs:173-224 | a file goes into place through its temporary name, replacing whatever was there |
| Mirror.CopyEntries | native/conest_updater/src/main.rs:146-171 | the recursive copy in listing order |
| Mirror.RemoveStale | native/conest_updater/src/main.rs:226-267 | removes exactly what the source does not have, at every depth |
| Mirror.SyncDirectories | native/conest_updater/src/main.rs:140-144 | one attempt, any step of which may fail |
| Mirror.Apply | native/conest_updater/src/main.rs:42-65 | within 120 attempts, each from what the last left, a success is the source but for modes of directories exactly if the source is clean, and the source exactly if those modes were met as well |
| TorStart.AlwaysInv | native/conest_native/src/tor.rs:278-414 | the protocol's invariant holds in every interleaving |
| TorStart.InstalledIsCurrent | native/conest_native/src/tor.rs:398-414 | an installed service was installed by a start that had read the current generation |
| TorStart.InstallsOnce | native/conest_native/src/tor.rs:398-412 | an install never overwrites another |
| TorAnswers.InstallsExactly | native/conest_native/src/tor.rs:398-412 | a start of the current generation installs its service; any other fails and installs nothing |
| TorAnswers.ChecksExactly | native/conest_native/src/tor.rs:278-306 | before building, a start of another generation fails, and a current one is answered with the running service if there is one |
| TorStart.AnswerIsCurrent | native/conest_native/src/tor.rs:278-306 | a start answered with a running service is answered with a current one |
| TorStart.NoneSleepsThroughStop | native/conest_native/src/tor.rs:287-298 | once no stop is under way every start left from an older generation has been woken |
| TorStart.NoInstallAfterStop | native/conest_native/src/tor.rs:398-409 | a start that read its generation before a stop never installs after it |
| TorAnswers.FailsExactly | native/conest_native/src/tor.rs:285-306 | a start fails exactly if something it needs fails, its generation is over, or it waits and a stop has signalled since it registered |
| TorAnswers.WokenExactly | native/conest_native/src/tor.rs:287-298 | a start has been woken exactly if a stop has signalled since it registered |
| TorAnswers.CancelledByAnEarlierStop | native/conest_native/src/tor.rs:287-298 | a start of the current generation cancelled by the stop that set it |

## Left out

- Relay sockets, HTTP and UDP handling, signing, configuration and arguments: I/O and cryptography around the queue.
- Envelope JSON: an envelope is its kind, sender, message id, size and the rest; stored JSON is taken to parse back, so a fetch never drops a corrupt row.
- peer_group and the mailbox lock order: a source is the group it maps to, and every relay operation is one step under the database lock.
- A fetch's limit and lease time are what its request was clamped to; the clamping is left out.
- Relay byte sums and deadlines are unbounded integers where the source saturates at 2^64; the violation tally does saturate at 2^32.
- Notifier generations and the Tor generation do not wrap after 2^64 changes; poisoned locks are not modelled.
- LongPoll.AlwaysInv: does not say that the notifier map ends empty; two overlapping fetches can each decline to prune.
- RateLimiter.Limiter.AllowStore: does not claim that store windows are ever pruned, because the general limit usually takes the shared timestamp first.
- Failing file operations inside a checkpoint, and files outside the partial file and its journal: the model has crashes, not partial I/O errors.
- AEAD, HMAC, SHA-256 and the Ogg CRC are functions; nonces and additional data are part of them.
- BleCore.Core.Receive: keeps each link's reassembler as a value and works on a buffer made from it; the base64 text of an event, the link name format and the adapter status are left out.
- BleCore.Core.Sweep: removes expired links in any order where the source goes by id; the order matters only for who is forgotten by a full backoff table.
- RelayStore.LargestHolder: picks any holder with the most unleased bytes, as the database may.
- VoiceWorker.RecordLoop: the waveform levels are left out, a write that fails is not modelled, and positions stay below 2^64; the stop flag is taken to be read once per empty pop, since once cleared it is never set again.
- VoiceWorker.OggOpusWriter.WritePage: takes packets of at most 65024 bytes, past which the source's segment count wraps; the encoder's have at most 1275.
- VoiceRecording.Capture.CaptureSamples: samples are real numbers; clamping and integer sample formats are left out.
- Jitter: echo cancellation, decoding, mixing and the playout schedule.
- Mirror.CopyEntries: works on tree values, not paths in place; symbolic links and special files, names that are not Unicode, and waiting for the lock file are left out; new directories all get one mode.
- TorStart: what building a service does, accepting streams, and the web proxy; a start that fails at any point in between is one step.
- The relay supervisor, the API wrappers, platform files, camera, Matrix and ratchet code, and the Dart, Kotlin and runner code.
