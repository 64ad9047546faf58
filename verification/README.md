# Sentinel: a verified model

An nginx module scores requests and allows, challenges, slows or blocks them.
What makes its decisions trustworthy is a handful of small in-memory state
machines, most of them in shared memory and used by several worker processes.
This project models them in Dafny and proves what the rest of the module relies
on. `dafny verify dfyconfig.toml` checks everything.

| files | what they model |
|---|---|
| Keys, TableSpec, Ideal, IdentityTree, RingCompaction, SharedTable, Lru | the shared identity table: a binary tree by hash and key, an LRU queue over the same nodes, an event ring in each node, blocks and batch eviction, against a memory that forgets nothing |
| Text, HexText, Crc32, Actions, FeedFormat, FeedParser, FeedRoundTrip, FeedSpec, FeedReaders, FeedLoader | the CrowdSec feed: the text format with its self-checking trailer, the two scans, and mark-and-sweep loading with readers running whenever the lock is free |
| Score, Requests | the saturating score and the request loop around the table |
| TarpitCap, TarpitOvershoot, TarpitDrip | the tarpit: a connection cap across workers with one counter each, and the timer-driven drip |
| BanRing, RedisPush, SinkSet | the bounded rings of bans, the Redis flush, and the sink's decision set |
| PowDifficulty, PowCookie | the proof of work: difficulty, challenge and bypass cookie |
| HeaderNames, Ja4h, Ja4hLimit | the canonical header string of the JA4H fingerprint, and its limit |
| Options, Powers | small helpers |

## How to read it

Stateful code is modelled as classes and methods with loops (`Zone`, `Drip`,
`Ring`, `Sink`, the byte scans). Each method is tied by its postcondition to a
function on values, and the properties are lemmas about those functions. Steps
of several processes interleave: in `TarpitCap` at every access to a slot, in
`FeedLoader`, `SinkSet` and `RedisPush` wherever the lock is released.

Assumptions, in the system's terms:

- An identity's key is a given byte string; SHA-256 does not appear. The 32-bit
  hash of a key is any function (`Zone.crc`), so collisions are covered.
- The slab either gives the memory or does not, as a parameter of each call
  decides. A keyed digest, a digest, the parsing of addresses (`Env.inet`) and
  the sorting function are parameters too.
- Bytes are characters. Times are unbounded integers: the 64-bit overflow of
  `now + ttl` is not modelled. Where the code bounds a parsed number the bound
  is a parameter (`maxInt`, `maxTime`).
- An event-ring zone has a threshold and a block time of at least 1 and keeps
  its settings for life. Calls come at nondecreasing times.
- One feed load runs at a time: overlapping loads sweep each other's stamps
  (src/sentinel_feed.c:388-391, 472-481). Each tarpit slot has one live
  process: a worker still draining after a reload would share a slot with its
  successor (src/sentinel_tarpit.c:550-551).
- Within one handler call the clock stands still, and an armed timer fires when
  it is due. Header names hold no NUL.

## Where the code and its documentation differ

The model follows the code in each case.

- The tarpit says that a long delay can never overshoot the lifetime
  (src/sentinel_tarpit.c:335-336). The first timer is armed with the plain delay
  (src/sentinel_tarpit.c:518), and the configuration allows a delay of 60 s with
  a lifetime of 1 s (src/ngx_http_sentinel_module.c:2230-2244). The connection
  then lives for the delay. `TarpitDrip.Drip.constructor` and `Drip.Run` give
  the exact condition: the deadline holds exactly when the delay does not
  exceed the lifetime; `DelayOutlivesLifetime` is the case of those settings.
- The feed parser announces one pass over the buffer (src/sentinel_feed.c:195);
  it makes a counting pass and an applying pass. `CountPass` and `ApplyPass` are
  both proved against one classification of lines.
- The Redis flush says that on a refused command the remaining entries are
  dropped (src/sentinel_redis.c:767). Only the one already taken is lost; the
  others stay in the ring (`RedisPush.FlushPush`).
- The ban-loop guard is described as reading the mark of a ban pulled from Redis
  (src/sentinel_redis.c:16). The mark is stored (src/sentinel_shm.c:373) and read
  nowhere; what keeps such bans from being published is the test of the CrowdSec
  hit before the enqueue (src/ngx_http_sentinel_module.c:1582, 1597).
- The proof-of-work overview gives the cookie's expiry as hexadecimal
  (src/sentinel_pow.c:23); it is written and read in decimal
  (src/sentinel_pow.c:239, 341).
- The same overview says that a request with an invalid cookie fails closed. In
  the code it goes on as if it had none, so a solved challenge, or a peer
  address that gives no message, still lets it pass (src/sentinel_pow.c:450-479);
  `PowCookie.Dispatch` states the exact cases.
- The language tag is said to end at whitespace (src/sentinel_ja4h.c:152); it
  ends at a space only (src/sentinel_ja4h.c:154).
- The in-place pruning is written for any ring head (src/sentinel_shm.c:88-94)
  but is right only while the events do not wrap
  (`RingCompaction.CompactionExact`). Every reachable node has head 0 and, after
  each call, room for another event; both are part of `Zone.Valid`.

## Model

| member | source | states |
|---|---|---|
| `Ideal.AnswersAreIdeal` | src/sentinel_shm.c:40-576 | For every sequence of lookup, record and soft-ban calls on any keys at nondecreasing times from an empty zone, and any pattern of refused allocations: each call that does not fail reports the status, count and deadline of a memory that never evicts, never prunes and has no ring; a failed call changes no later answer; and only a refused allocation or a nonpositive duration makes a call fail, never a lookup |
| `Ideal.StepSimulates` | src/sentinel_shm.c:253-576 | One call of any kind keeps the relation between table and ideal memory and answers the same |
| `Ideal.LookupSimulates` | src/sentinel_shm.c:253-303 | A lookup answers as the ideal memory, though it evicts, ends blocks and prunes |
| `Ideal.RecordSimulates` | src/sentinel_shm.c:457-523 | A record answers as the ideal memory, including the burst that turns into a block and the full zone |
| `Ideal.SoftbanSimulates` | src/sentinel_shm.c:540-576 | A soft ban answers as the ideal memory; a nonpositive duration and a full zone fail without effect on later answers |
| `Ideal.RunFailures` | src/sentinel_shm.c:475-484 | In any run a call fails only on a refused allocation or, for a soft ban, a nonpositive duration |
| `Ideal.ExpireKeeps` | src/sentinel_shm.c:40-67 | Evicting a node out of its window and out of its block loses nothing any later call could report |
| `Ideal.AdvanceKeeps` | src/sentinel_shm.c:77-99 | Windows and blocks that agree now agree at every later time |
| `Ideal.RecentTwice` | src/sentinel_shm.c:77-99 | Pruning early changes no later window |
| `SharedTable.Zone.ServeAll` | src/sentinel_shm.c:253-576 | The linked, pruned, ring-based zone itself gives the answers of the specification run to any sequence of calls, which are those of the ideal memory, with the same bound on failures |
| `SharedTable.Zone.ErrrateLookup` | src/sentinel_shm.c:253-303 | Queue contents and answer are those of the specification step, with tree, queue and rings still consistent |
| `SharedTable.Zone.ErrrateRecord` | src/sentinel_shm.c:457-523 | The same for recording an event: whole new contents, answer, and the full-zone error |
| `SharedTable.Zone.SoftbanSet` | src/sentinel_shm.c:540-576 | The same for a soft ban: deadline stored, ring emptied, failure on a full zone or a nonpositive duration |
| `SharedTable.Zone.AppendHead` | src/sentinel_shm.c:506-515 | An event goes behind the kept ones, inside the ring; a complete burst becomes a block and empties the ring, so the ring again has room |
| `SharedTable.Zone.RefreshHead` | src/sentinel_shm.c:290-296 | A block that ran out is ended with its ring; otherwise the events outside the window go |
| `SharedTable.Zone.PruneHead` | src/sentinel_shm.c:498-504 | The recording call leaves exactly what the lookup would leave, whichever way the block ended |
| `SharedTable.Zone.BanHead` | src/sentinel_shm.c:568-572 | Deadline set, burst dropped, nothing else touched |
| `SharedTable.Zone.Prune` | src/sentinel_shm.c:77-99 | In place, the ring keeps exactly the events later than the cutoff, in order, when its head is slot 0 |
| `RingCompaction.CompactionExact` | src/sentinel_shm.c:77-99 | The in-place compaction is an order-preserving filter on every ring exactly when the events do not wrap around the end of the ring |
| `RingCompaction.CompactedIsRecent` | src/sentinel_shm.c:77-99 | Without a wrap, writing from slot 0 never overtakes reading from the head |
| `RingCompaction.WrapLosesEvent` | src/sentinel_shm.c:88-97 | With a wrap there is always a ring on which the loop overwrites an event before reading it |
| `SharedTable.Zone.ExpireTail` | src/sentinel_shm.c:40-67 | Evicts dead nodes from the tail, at most a batch, stopping at the first live one; tree and queue stay the same set |
| `SharedTable.Zone.Find` | src/sentinel_shm.c:101-132 | Tree search and a linear scan of the queue find the same node, or both none, for any hash with collisions |
| `SharedTable.Zone.See` | src/sentinel_shm.c:69-75 | A found node moves to the head with a new last sight; the order of the others is kept |
| `SharedTable.Zone.SeeOrCreate` | src/sentinel_shm.c:134-166 | A missing node is created empty at the head, in tree and queue at once, or the call fails with nothing changed |
| `SharedTable.Zone.Link` | src/sentinel_shm.c:134-166 | Insertion keeps tree and queue holding the same nodes with distinct keys |
| `SharedTable.Zone.Unlink` | src/sentinel_shm.c:63-65 | Removal takes the node out of both and changes nothing else |
| `SharedTable.Zone.Touch` | src/sentinel_shm.c:69-75 | Moving to the head is a permutation of the queue that leaves the tree alone |
| `IdentityTree.Search` | src/sentinel_shm.c:101-132 | Descending by hash and key bytes returns the node with that key if and only if the tree holds one |
| `IdentityTree.InsertedKeepsOrder` | src/sentinel_shm.c:172-204 | Inserting a new key keeps the search order and adds exactly that node |
| `IdentityTree.RemovedKeepsOrder` | src/sentinel_shm.c:63-65 | Deleting a node keeps the search order and removes exactly that node |
| `IdentityTree.Rebalance` | src/sentinel_shm.c:162 | Any rotations anywhere keep the in-order sequence, so search does not depend on the balancing |
| `Keys.CompareTransitive` | src/sentinel_shm.c:122-128 | The byte comparison with its length tie-break is transitive |
| `Keys.CompareAntisymmetric` | src/sentinel_shm.c:122-128 | It is antisymmetric and zero exactly on equal keys |
| `Keys.BeforeIsTotal` | src/sentinel_shm.c:180-199 | By hash, then key bytes, two nodes are equal or exactly one comes first |
| `Keys.BeforeIsTransitive` | src/sentinel_shm.c:180-199 | The tree order is transitive |
| `Lru.StepKeepsOrder` | src/sentinel_shm.c:69-75 | Every call at a later time keeps the queue sorted by last sight |
| `Lru.EvictionIsLru` | src/sentinel_shm.c:40-67 | Evicted nodes are least recently seen, and a tail still in its window means no node behind the stop was evictable |
| `SharedTable.Zone.CrowdsecUpsert` | src/sentinel_shm.c:346-377 | A ban is stored or refreshed at the head with its expiry, action, generation and Redis mark; on a full zone nothing changes |
| `SharedTable.Zone.CrowdsecSweep` | src/sentinel_shm.c:379-408 | Walking from the tail deletes the first nodes of other generations up to the batch, keeps the rest in order and reports how many went |
| `SharedTable.Zone.CrowdsecLookup` | src/sentinel_shm.c:410-450 | The reading and the new contents are those of the specification, eviction included |
| `SharedTable.Zone.NextGeneration` | src/sentinel_feed.c:384-391 | A load gets a stamp above every earlier one |
| `FeedLoader.LoadFeed` | src/sentinel_feed.c:203-486 | Accepted exactly when the checks of the whole file pass. Rejected: contents and generation unchanged. Accepted: no stamp exceeds the generation; the log holds one reading for every call let in by every release of the lock, in order and at its time, each of which saw the old table overlaid with the prefix of the feed stored by then (or, in the sweep, the unlisted key already gone); and afterwards any sequence of lookups at nondecreasing times answers from the last live lines, up to the first refused allocation |
| `FeedLoader.LoadTwiceAndRead` | src/sentinel_feed.c:203-486 | A zone created, loaded, loaded again and read: an accepted second file answers alone, whatever the first one held |
| `FeedSpec.ListedKeyIsNeverMissed` | src/sentinel_feed.c:384-481 | A key banned before the load and still listed, none of whose bans has run out, is a hit at every reading during the load |
| `FeedSpec.HitIsOldOrListed` | src/sentinel_feed.c:384-481 | Every hit during a load has the action of the old entry or of a line of the feed that is unexpired |
| `FeedSpec.SweptIsFeed` | src/sentinel_feed.c:384-481 | After the sweep any sequence of lookups, which evict and reorder the table, hits exactly the keys whose last live line is unexpired at the time, with its action |
| `FeedSpec.ReadKeepsSettled` | src/sentinel_shm.c:410-450 | A lookup after the load leaves the table as settled as it was |
| `FeedSpec.SettledAnswers` | src/sentinel_shm.c:410-450 | By induction over the lookups, each answers from the last live line of its key |
| `FeedSpec.UpsertKeeps` | src/sentinel_shm.c:346-377 | Storing a line overlays it on what the table already told; a refused one changes nothing |
| `FeedSpec.SkipKeeps` | src/sentinel_feed.c:433-440 | A line that has expired by load time changes no answer |
| `FeedSpec.ReadKeeps` | src/sentinel_shm.c:410-450 | A reader between batches sees the stage the load is in, and its evictions lose no unexpired ban |
| `FeedSpec.SweepKeepsCurrent` | src/sentinel_shm.c:379-408 | The sweep deletes no node of the current generation and adds none |
| `FeedSpec.SweepIdle` | src/sentinel_shm.c:379-408 | A batch that deletes nothing proves that every node carries the current generation, so the loop may stop |
| `FeedSpec.LastLiveIsListed` | src/sentinel_feed.c:396-468 | The last live line of a key is a line of the feed, and is missing only if the key has none |
| `FeedReaders.LetReaderIn` | src/sentinel_shm.c:410-450 | The sight is that of the key asked for, its reading is the answer of the lookup on the table as it stands, and it fits the stage of the load |
| `FeedReaders.LetReadersIn` | src/sentinel_feed.c:459-464 | Every call is served, in order and at its time, each reading fits the stage of the load, and the load goes on as if they had not run |
| `FeedReaders.ReadAll` | src/sentinel_shm.c:410-450 | Any lookups made on the zone after a load return what the feed alone says, and leave the zone such that later ones will too |
| `FeedLoader.ApplyPass` | src/sentinel_feed.c:396-468 | The applying scan takes exactly the decisions of the body in order, skipping only expired ones, and stops early only on a refused allocation; it releases the lock once for every 256 stored, and every call let in is in the log |
| `FeedLoader.ApplyOne` | src/sentinel_feed.c:433-464 | One decision is skipped, refused or stored over what the table told; the lock is released exactly when the number stored becomes a multiple of 256 |
| `FeedLoader.Mark` | src/sentinel_feed.c:384-468 | Generation release, applying pass and final release together: one log of all calls let in, and as many releases as stored batches and two |
| `FeedLoader.ApplyFields` | src/sentinel_feed.c:408-431 | The applying scan splits a line into the same fields as the counting scan, with the same malformed cases |
| `FeedLoader.ScanLine` | src/sentinel_feed.c:396-431 | The applying scan reads each line as the format classifies it and goes on to the next |
| `FeedLoader.SweepLoop` | src/sentinel_feed.c:470-481 | The batched sweep terminates with a settled table, deletes at least one node and at most a batch between two releases apart from what readers evict, every call let in after a batch is in the log, and each reading fits the sweep |
| `FeedParser.Validate` | src/sentinel_feed.c:223-382 | The scans return exactly the verdict of the format, and an accepted file has at most a quarter malformed lines |
| `FeedParser.CountPass` | src/sentinel_feed.c:276-349 | The counting loop returns the number of decision lines and of malformed lines of the body |
| `FeedParser.CountFields` | src/sentinel_feed.c:300-347 | A line counts as a decision exactly when its three fields are a usable address, a known action and a number |
| `FeedParser.LocateTrailer` | src/sentinel_feed.c:246-271 | The search returns the first line that starts with the trailer mark |
| `FeedParser.CheckTrailerBytes` | src/sentinel_feed.c:136-190 | The byte loop accepts exactly what the trailer format accepts |
| `FeedFormat.TrailerExact` | src/sentinel_feed.c:136-190 | Accepted exactly when the decimal count matches and the hexadecimal value, modulo 2^32, is the checksum |
| `FeedRoundTrip.FeedRoundTrips` | tools/test_runtime.py:861-896 | Printing any comments and decisions as a feed and parsing it accepts the file with no malformed line and yields exactly those decisions in order |
| `FeedRoundTrip.FieldsRead` | src/sentinel_feed.c:20-30 | A line printed as address, action and expiry reads back as exactly those fields |
| `Actions.ActionRoundTrip` | src/sentinel_feed.c:75-89 | A written action reads back, anything unknown as a ban |
| `FeedRoundTrip.TamperedByteIsRejected` | src/sentinel_feed.c:351-366 | An accepted file changed in one byte of its body, first trailer line still in place, is declined |
| `Crc32.OneByteChangesCrc` | fuzz/fuzz_feed.c:130-150 | Two texts differing in exactly one byte have different checksums |
| `Crc32.ShiftInjective` | fuzz/fuzz_feed.c:138-146 | Each bit step is injective in the register |
| `Crc32.SuffixKeepsApart` | fuzz/fuzz_feed.c:130-150 | Different registers stay different while the same bytes follow |
| `Crc32.ByteBitsNumber` | fuzz/fuzz_feed.c:138 | The bits fed into the register for a byte stand for the value of the byte |
| `Crc32.CrcLong` | fuzz/fuzz_feed.c:130-150 | The loop over bytes and bits, with register and byte shifted apart, computes the register form of the checksum |
| `HexText.HexBitsNumber` | src/sentinel_feed.c:171-189 | Shifting hexadecimal digits into a 32-bit register keeps the number they spell modulo 2^32 |
| `HexText.Hex8RoundTrip` | tools/test_runtime.py:892-894 | Eight printed digits read back as the register |
| `HexText.NumberInjective` | src/sentinel_feed.c:189 | Registers are equal when the numbers they stand for are |
| `HexText.NumberNext` | src/sentinel_feed.c:172-187 | The number of a register is its usual value: 0 for the zero register, one more for the next register, and 0 again after the last |
| `Text.DecRoundTrip` | tools/test_runtime.py:894 | A printed decimal number reads back as itself |
| `Score.ScoreCompute` | src/sentinel_score.c:57-206 | Saturating after every term gives the exact sum of the positive contributions, clamped once; excused requests score 0 |
| `Score.ScoreAdd` | src/sentinel_score.c:44-55 | Adding to a clamped sum is clamping the sum; terms that are not positive are ignored |
| `Score.CappedProduct` | src/sentinel_score.c:111-121 | The division guard fires exactly when the product exceeds the cap |
| `Score.BlockedIsBlock` | src/sentinel_score.c:108-125 | A blocked identity that is not excused is BLOCK when its weight alone reaches the threshold, whatever the other signals |
| `Score.BanOverridesExcuses` | src/sentinel_score.c:88-106 | No excuse lifts a CrowdSec ban whose weight reaches the threshold |
| `Score.MoreSignalsNeverMilder` | src/sentinel_score.c:57-222 | For all weights and thresholds, a request that shows more signals and is not excused never scores lower and never gets a milder verdict |
| `Requests.BlockIsSeen` | src/sentinel_shm.c:253-576 | Until its deadline a stored block is what every lookup of the identity reports, through any calls on any identities and any evictions |
| `Requests.StaysBlocked` | src/ngx_http_sentinel_module.c:1542-1607 | Once blocked, an identity that returns before each deadline gets BLOCK every time, at whichever enforcing locations it arrives, whatever requests of others at any locations and log phases happen between |
| `Requests.BlockedArrives` | src/ngx_http_sentinel_module.c:1542-1607 | A blocked, unexcused arrival is BLOCK again and its deadline moves to now plus the block time |
| `Requests.SoftbanCannotFail` | src/sentinel_shm.c:540-576 | A soft ban on a blocked identity succeeds however full the zone is |
| `Requests.SoftbanStores` | src/sentinel_shm.c:540-576 | A soft ban that does not fail is stored up to its deadline |
| `Requests.OthersSpareBlock` | src/ngx_http_sentinel_module.c:1621-1696 | Events of other identities, and every log phase, leave a running block in place |
| `Requests.HandleArrival` | src/sentinel_errrate.c:63-122 | A request looks its identity up, scores, and on BLOCK stores the soft ban, in that order |
| `Requests.HandleLog` | src/ngx_http_sentinel_module.c:1621-1696 | Every response is recorded in the velocity zone if there is one, only error responses in the error zone, and neither touches the other |
| `Requests.RecordVelocity` | src/ngx_http_sentinel_module.c:1649-1666 | Recording in the velocity zone leaves the error zone as it was and the zones separate |
| `TarpitCap.CapHolds` | src/sentinel_tarpit.c:51-140 | In every run of W workers, with sums read slot by slot and workers killed and respawned anywhere: a running worker counts exactly its live contexts and the reservation in hand, no slot is negative, no context is counted twice, and the total is at most the largest cap plus W - 1 |
| `TarpitOvershoot.OvershootIsReached` | src/sentinel_tarpit.c:96-140 | For every number of workers and every cap some run reaches that bound, so it cannot be lowered |
| `TarpitCap.AccountingKept` | src/sentinel_tarpit.c:51-62 | Every step keeps slots equal to live contexts and contexts counted once |
| `TarpitCap.BoundKept` | src/sentinel_tarpit.c:70-140 | Every step keeps what each sum in progress may have missed: one connection for each reservation made since it began |
| `TarpitCap.BoundedTotal` | src/sentinel_tarpit.c:96-140 | From those bounds the total follows by a pigeonhole over the last W + 1 reservations |
| `TarpitCap.CompareAndSetSucceeds` | src/sentinel_tarpit.c:120-137 | The compare-and-set never finds another value, as only its own worker writes a slot |
| `TarpitCap.ReleasedOnce` | src/sentinel_tarpit.c:51-62 | A context whose cleanup ran is never live again, so a second cleanup releases nothing |
| `TarpitDrip.Drip.Run` | src/sentinel_tarpit.c:212-348 | In every run the request is finalized at most once with its reference dropped at that moment; timers alone end it; with a delay within the lifetime no handler call comes after the deadline; when only timers wake the connection and the delay is longer, the only call comes at the delay and nothing was sent |
| `TarpitDrip.DelayOutlivesLifetime` | src/sentinel_tarpit.c:508-518 | With the allowed delay 60000 and lifetime 1000 the connection ends at 60000 and has sent nothing |
| `TarpitDrip.Drip.WriteHandler` | src/sentinel_tarpit.c:212-348 | One tick: bytes never exceed the total and grow by exactly one tick when delivered; the request ends in exactly the listed cases; a re-armed timer never lies past the deadline |
| `TarpitDrip.Drip.MazeFragment` | src/sentinel_tarpit.c:187-210 | A decoy link fits the scratch buffer, is never empty, has a fixed length and advances the generator sixteen times |
| `TarpitDrip.Drip.Arm` | src/sentinel_tarpit.c:335-347 | A timer armed before the deadline is due after now and not past the deadline |
| `TarpitDrip.Drip.Finish` | src/sentinel_tarpit.c:161-175 | Finalizing drops the extra reference in the same step |
| `TarpitDrip.Drip.constructor` | src/sentinel_tarpit.c:508-518 | The first timer lies within the deadline exactly when the delay does not exceed the lifetime |
| `BanRing.Interleave` | src/sentinel_cssink.c:102-141 | Under any interleaving of producers and consumers the ring is the bounded queue step by step: bans leave once each in acceptance order, offered is taken plus pending plus refused, only a ban that finds 4096 waiting is refused |
| `BanRing.Perform` | src/sentinel_cssink.c:102-141 | One locked step of any worker is one step of the bounded queue |
| `BanRing.Turn` | src/sentinel_cssink.c:319-326 | What others do while the lock is free, then one locked take, are those steps of the bounded queue |
| `BanRing.RunSteps` | src/sentinel_cssink.c:102-141 | Any steps of any workers on the ring are the same steps of the bounded queue |
| `BanRing.Ring.EnqueueBan` | src/sentinel_cssink.c:102-141 | A ban that fits goes behind the waiting ones, or is dropped and counted when 4096 wait; a bad address changes nothing |
| `BanRing.Ring.Dequeue` | src/sentinel_cssink.c:319-326 | The oldest waiting ban comes out, or the ring was empty |
| `BanRing.WrapKeepsSlot` | src/sentinel_cssink.c:127-133 | Slots are the same when a 64-bit counter wraps, because 4096 divides its range |
| `BanRing.SlotsDiffer` | src/sentinel_cssink.c:127-133 | Fewer than 4096 consecutive counter values never share a slot |
| `RedisPush.FlushPush` | src/sentinel_redis.c:710-774 | The ring and what leaves it are the bounded queue run over the turns of the flush: the steps of the others, then one take, as many turns as bans taken and one more on an empty ring. What leaves is what the flush took and what the others took, merged in order; alone, it takes exactly what leaves. Each usable ban it took is sent once, in order, with a positive lifetime. A refused command loses only the last ban taken: everything accepted that nobody took is still in the ring |
| `RedisPush.FlushTurn` | src/sentinel_redis.c:732-742 | One turn adds the steps of the others and one take to the run, and shares out what left |
| `RedisPush.MergedIsBoth` | src/sentinel_redis.c:732-742 | A merge has exactly the bans of both sides, and is the one when the other is empty |
| `RedisPush.Commands` | src/sentinel_redis.c:744-765 | Every command carries a positive lifetime that ends exactly at the ban expiry, and an address that fits |
| `SinkSet.SetIsLatestUnexpired` | src/sentinel_cssink.c:151-203 | While there was room for every ban, an address is in the set exactly when its most recently drained expiry is later than the last pruning, with that expiry |
| `SinkSet.SetFits` | src/sentinel_cssink.c:160-179 | Whatever is drained, the set stays within its capacity |
| `SinkSet.Sink.SetUpsert` | src/sentinel_cssink.c:151-180 | The array scan stores the map update: the same address refreshed in place, a new one in a free slot, dropped when full; addresses stay distinct and the counter stays the number of occupied slots |
| `SinkSet.Sink.SetExpire` | src/sentinel_cssink.c:184-203 | The array afterwards holds exactly the unexpired entries and the returned number is theirs |
| `SinkSet.Sink.Rewrite` | src/sentinel_cssink.c:238-247 | Each live address is written once, with the positive time it has left, and nothing else |
| `SinkSet.Sink.DrainRing` | src/sentinel_cssink.c:315-339 | At most a ring is drained, in order, fewer only if the ring became empty; ring and drained bans are the bounded queue run over the turns: the offers that arrive, then one take |
| `SinkSet.Sink.Tick` | src/sentinel_cssink.c:283-346 | A whole tick: the turns of the drain run on the bounded queue, the bans taken, then the pruning, are appended to the history that determines the set, and the file lists exactly the live map |
| `SinkSet.StoreShows` | src/sentinel_cssink.c:175-179 | Storing a new address in a free slot keeps array and map the same |
| `SinkSet.ClearShows` | src/sentinel_cssink.c:193-197 | Emptying a slot removes its address and no other |
| `PowDifficulty.MeetsDifficulty` | src/sentinel_pow.c:126-148 | The leading-zero loop accepts a digest for a difficulty exactly when, as a 256-bit big-endian number, it is below 2^(256 - difficulty) |
| `PowDifficulty.FirstByte` | src/sentinel_pow.c:133-145 | The leading zero bits of the first nonzero byte fix the number between two powers of two |
| `PowDifficulty.BitsDecide` | src/sentinel_pow.c:147 | Comparing counted bits with the difficulty decides the comparison with the target |
| `PowCookie.SetCookie` | src/sentinel_pow.c:305-346 | A cookie issued now is accepted for the same peer at exactly the times before now plus the lifetime; the header fits the buffer allocated for it |
| `PowCookie.CheckCookie` | src/sentinel_pow.c:212-256 | Valid exactly when the value is digits, a dot and the digest text of an expiry still to come; absent exactly when empty |
| `PowCookie.CookieIsBound` | src/sentinel_pow.c:212-256 | A cookie issued to one peer is accepted from another exactly while it runs and the keyed digests of two messages, different unless the peers are the same, coincide |
| `PowCookie.MessageInjective` | src/sentinel_pow.c:155-203 | Address bytes followed by a decimal time determine address and time, over both address families and times below 10^12 |
| `PowCookie.MessageBoundIsExact` | src/sentinel_pow.c:155-203 | Every short address with a 13-digit time shares its message with a long address, so the bound cannot be raised |
| `PowCookie.ChallengeIsNoCookie` | src/sentinel_pow.c:71-123 | The message behind a challenge is never the message of a cookie that is still to expire |
| `PowCookie.PutHex` | src/sentinel_pow.c:53-63 | The loop writes two digits a byte and nothing behind them |
| `PowCookie.HexInjective` | src/sentinel_pow.c:53-63 | Equal texts are equal digests |
| `PowCookie.Dispatch` | src/sentinel_pow.c:436-486 | A request passes as verified exactly with a live cookie of its own or with a nonce that solves its own challenge; a bad cookie counts as none; it fails open exactly when the step is off or the peer has no usable address |
| `PowCookie.CheckWork` | src/sentinel_pow.c:465-481 | A nonce is accepted exactly when the digest of challenge and nonce meets the target |
| `Ja4h.FingerprintIgnoresOrderAndCase` | src/sentinel_ja4h.c:61-213 | With at most 64 listed headers the canonical string is the same for every order of the headers and every letter case of their names, for any correct sorts |
| `Ja4h.FingerprintIsOne` | src/sentinel_ja4h.c:140-143 | However many headers there are, the string does not depend on which correct sort is used |
| `HeaderNames.KeptIgnoresOrder` | src/sentinel_ja4h.c:129-135 | Which names are kept ignores their order exactly while none is left out or all are the same |
| `Ja4hLimit.FingerprintOrderExact` | src/sentinel_ja4h.c:61-213 | For names without commas, short enough to fit, the fingerprint of a request ignores the order of its headers and the case of their names exactly while at most 64 are listed, or all listed ones have one name up to case |
| `Ja4hLimit.JoinedInjective` | src/sentinel_ja4h.c:191-203 | Equally many names without commas are known, up to case, from the comma-separated text |
| `Ja4h.Compute` | src/sentinel_ja4h.c:61-213 | The whole writer produces the canonical string, or nothing when it would reach the end of the buffer; every write, guarded or not, is inside the buffer |
| `Ja4h.Walk` | src/sentinel_ja4h.c:103-138 | One walk keeps the first 64 unskipped live names in order and notes exactly whether the two skipped ones occur |
| `Ja4h.AppendPrefix` | src/sentinel_ja4h.c:175-189 | The unguarded single-byte writes lie at fixed places near the start |
| `Ja4h.AppendNames` | src/sentinel_ja4h.c:191-203 | Names are appended lowercase and comma separated, or the overflow is reported exactly when they do not fit |
| `Ja4h.FirstLanguageTag` | src/sentinel_ja4h.c:145-160 | The first tag, up to a separator and 32 bytes |
| `Ja4h.SkipIsSkipped` | src/sentinel_ja4h.c:24-42 | The length-and-compare tests recognise exactly the two skipped names in any case |
| `HeaderNames.NameOrderIsCompare` | src/sentinel_ja4h.c:44-58 | On names without NUL the comparison orders by lowercase bytes, then length, and is zero exactly up to case |
| `HeaderNames.SortsAgree` | src/sentinel_ja4h.c:140-143 | Any two correct sorts of lists that agree without case agree without case |
| `HeaderNames.NamesFolded` | src/sentinel_ja4h.c:103-138 | Reordering headers and changing their case changes neither the list of lowercase names nor the two flags |

## Left out

- Rbtree: the tree is a datatype over mutable nodes; the relinking of red-black nodes in place, colours and rotations belong to nginx. `Rebalance` allows any rotation.
- Queue: the LRU queue is a sequence field that the methods reassign; the links inside the nodes are not modelled.
- TableSpec.Step: times below 0 and a clock that steps back are not covered by the window and block theorems.
- FeedLoader.LoadFeed: one load at a time; other writers of the zone during a load, such as the Redis pull, are not modelled.
- FeedLoader.ApplyPass: readers run between batches, not a second loader; the pre-load stat and size gates of the file are I/O.
- TarpitCap.CapHolds: slots beyond the number of workers are always 0 and are not listed; one live process for each slot.
- TarpitDrip.Drip.Run: output buffers, chains and the sending itself; an outcome of each send is given.
- PowCookie.CheckCookie: extraction of the cookie from request lines, and the time the comparison takes.
- PowCookie.Dispatch: extraction of the nonce, and the challenge page. A keyed digest that fails is not modelled.
- Ja4h.Compute: the digest of the canonical string. The language header is given apart from the other headers, so requests that carry several are compared under the one chosen.
- RedisPush.FlushPush: formatting of keys and values into fixed buffers, connection handling, authentication, SCAN and GET replies.
- SinkSet.Sink.Tick: the JSON text of a line, temporary file and rename. Workers that do not own the sink never take from its ring.
- Score.ScoreCompute: the signals behind the inputs (headers, paths, user agents, networks, resolver results).
- Requests.StaysBlocked: locations in observation mode, which do not enforce, and requests that never reach the score.
- Requests.HandleLog: a location with a velocity zone and no error zone, for which the log phase ends after the first record.
- Config: directive tables, merging, variables and the walk over locations are nginx plumbing.
- Metrics: counters and logging.
- Resolver: the reverse-DNS check is driven by DNS replies; its cache is an identity table as modelled here.
