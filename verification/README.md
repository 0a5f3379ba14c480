# Verification of bucket-next

bucket-next is a sharded ID generator. Its promise is that an ID never repeats within an entity:
not across shards, not under concurrency, not after a crash. This project models the four pieces of
the program on which the promise rests and proves it for them in Dafny 4.11. `dafny verify
dfyconfig.toml` checks the whole project.

| part of the program | modules |
|---|---|
| `internal/allocator` as a concurrent, crashing protocol: threads, lock, condition variable, background refill, store, file, restarts, offline resets | `Reservation`, `Protocol`, `ProtocolInvariant`, `ProtocolTheorems`, `ProtocolResets`, `ProtocolTight`, `ProtocolBounds`, `ProtocolCrash` |
| where its promises fail, and exactly when | `ProtocolGap`, `ProtocolOverrun`, `ProtocolTorn`, `ProtocolWrap`, `ProtocolCounterexamples`, with `ProtocolWitness` for building runs |
| `internal/allocator` as objects whose every method extends a run of that protocol | `Allocator`, `ProtocolPaths` |
| `internal/state`: the file as a value, the store as an object | `StateFile`, `StateStore`, `NameOrder` |
| `internal/uuidgen` for an arbitrary cipher | `Bits`, `Feistel`, `CycleWalk`, `Base62`, `UuidCodec` |
| `internal/forge` for an arbitrary clock | `Snowflake`, `SnowflakeForge` |
| `internal/shardmath`, `internal/datatype` in wrapping int64 | `Int64`, `ShardMath`, `DataTypes` |
| `internal/server` handlers, `cmd/bucket-next-cli` commands, the start of `cmd/bucket-next` | `Wire`, `Server`, `Cli`, `Service` |
| all of it together, over a cluster of shards | `Cluster` |

The theorem to start from is `Cluster.NoIDTwice`, with `Cluster.NoIDTwiceTame`, which needs no
hypothesis on the numbers or the values. They stand on one inductive invariant
(`ProtocolInvariant.Inv`), kept by every step of the protocol, on residues modulo `total_shards`, and
on the codec being a bijection.

## How to read the model

- A protocol step is what one thread does between two points at which another thread or a crash can
  get in. A disk write is a step of its own for the refill, which writes without the entity lock, and
  a step inside the lock for inline reservations and resets. Every write has one of three outcomes:
  done, failed with the file unchanged, failed with the new file already in place
  (`internal/state/state.go:347-351`).
- `hist` records every range handed out since the last forced move back, across crashes. A forced
  move back starts a new uniqueness epoch, as the program's documentation says of it.
- An `Entity` object carries, as ghost fields, the protocol run that its calls amount to.
  `Allocator.Valid` says that the run is a run of the protocol and that it ends in the fields.
- int64 arithmetic is written out with `Int64.Wrap` wherever the program computes with int64. A run is
  `Clean` if no step of it computes an int64 that differs from the mathematical value
  (`ProtocolBounds.NoWrapIffExact`) and no reset tears the file (below); `ProtocolBounds.NothingWraps`
  says where the first half holds by itself.
- `Server.Valid` includes `Allocator.Bounded`: in configurations with room, no mark is higher than calls
  within the type can lead to. The operations keep it, and it makes their arithmetic exact.

## Where the code and its documentation differ

- `README.md:605` and `docs/usage-examples.md:145` say that a crash skips at most `segment_size`
  iterations. Without writes that fail after the rename, and for a crash at any point but between a
  reset's write and its end, that holds if and only if `segment_size` is 1 and every call is for a single
  ID (`ProtocolGap.GapAnywhereIff`); for a crash while no call holds the entity lock, if and only if
  `segment_size` is 1 (`ProtocolGap.GapWithinSegmentIff`). What the refill rule allows is
  `threshold + segment_size`, and inside a call for n `max(threshold, n-1) + segment_size`
  (`ProtocolCrash.CrashGapBound`). A reservation whose write fails after the rename stays in the file, so
  then a crash skips all that the call asked for, even later (`ProtocolGap.FailedReservationGap`); the
  bound whatever writes fail, other than those of resets, is in terms of the largest call
  (`ProtocolCrash.CrashGapBoundAny`).
- `internal/allocator/allocator.go:84-86` says that Next fails when the type cannot hold all n values.
  The check at line 103 is not repeated after the wait at line 108. A call that has passed the check may
  still hand out an iteration past the type's last one if and only if, as it gets the lock, a refill is in
  flight and the window is too short for it (`ProtocolOverrun.OverrunIff`).
- A reset whose flush fails after the rename is reported as failed. If it is not a move back, and there is
  room for two segments above its target, it lets an iteration be handed out twice if and only if its
  target lies inside the reserved window (`ProtocolTorn.TornResetRepeatsIff`).
- Near 2^63 reservations wrap and are then not written. Calls that need not wait can then be handed an
  iteration twice if and only if there is no room for a batch above the highest mark,
  `maxIter + threshold + segmentSize + 10000 > 2^63-1` (`ProtocolWrap.RepeatsIffNotRoomy`, for segments
  that fit the type and three of which fit in int64; for segments of one the threshold counts as 0). For
  segments up to 2^60 that is one shard with a 63-bit type (`Cluster.RoomyIff`). With p calls waiting,
  room for p batches more is enough (`ProtocolBounds.NothingWraps`).
- A failed persist sets the forge's sequence back. In any state that is reached, as long as no ID has been
  issued twice, some continuation whose persists all succeed issues one twice if and only if an ID issued
  at the forge's timestamp has a sequence number above the forge's own (`Snowflake.RepeatsIffAhead`).

## Model

| member | source | states |
|---|---|---|
| Cluster.NoIDTwice | internal/server/handlers.go:81-115 | Two different mints of one entity, on any shards of a cluster and at any points of their histories of interleaved calls, refills, resets, failed writes, crashes and restarts, give different IDs, if the values wrap at most once and the codec accepts them |
| Cluster.NoIDTwiceTame | internal/server/handlers.go:93-115 | In configurations with room below 2^63, over histories in which at most p calls wait at a time, no two mints that give an ID give the same one, with no hypothesis on the numbers; if none waits, every mint gives an ID, and it is the number shard_id + i * total_shards, or the text that decodes to it, within the type |
| Cluster.TameIsValid | internal/allocator/allocator.go:103-121 | Such histories meet the hypotheses of NoIDTwice by themselves |
| Cluster.TwoShards | internal/shardmath/shardmath.go:3-5 | Two shards can both have handed out the same iterations, so the theorem is not empty |
| Cluster.RoomyIff | internal/datatype/datatype.go:64-75 | For segments up to 2^60 and up to 2^32 waiting calls, a configuration has room if and only if there are two shards or more, or the type is int or uuid8 |
| Cluster.TameFits | internal/allocator/allocator.go:103-121 | In such a history every iteration handed out is within the type's bound, but for one batch for each call that may wait |
| Cluster.NoSnowflakeTwice | internal/forge/forge.go:146 | Two Snowflake IDs issued anywhere in a cluster with one epoch, over all starts of all shards, are equal only if they are the same issue |
| Cluster.NoValueBelowReset | internal/server/handlers.go:389-395 | After the mark of an accepted reset to v is written, every ID minted later is a number of at least the least shard value from v on, through crashes and offline resets, until a reset is forced |
| Cluster.NoValueBelowStart | internal/server/handlers.go:317-332 | The same after registration with start value v |
| Cluster.FirstValueAfterReset | internal/allocator/allocator.go:149-153 | The first ID minted after a completed reset to v is the number that is the least shard value at or above v |
| Cluster.FirstValueAfterStart | internal/server/handlers.go:317-332 | The first ID minted after registration with start value v likewise |
| ProtocolTheorems.StepKeeps | internal/allocator/allocator.go:87-154 | Every step of every thread, refill, failed write, crash, restart or offline reset keeps the invariant |
| ProtocolTheorems.RunKeeps | internal/allocator/allocator.go:87-154 | Hence every run does |
| ProtocolTheorems.NoIterationTwice | internal/allocator/allocator.go:9-13 | In every reachable state no iteration lies in two of the ranges handed out, and later ranges lie above earlier ones |
| ProtocolTheorems.DurableCoverage | internal/allocator/allocator.go:106-120 | What was handed out is below the next iteration and below the mark in the file; cursor, window, memory mark and file mark are in order; the mark is the end of the window, or one segment more while a refill is in flight |
| ProtocolTheorems.RefinesCounter | internal/allocator/allocator.go:87-122 | In a process life without a reset, whatever earlier lives did, the ranges it has handed out in the order taken cut the interval from the load mark to the cursor without gap or overlap |
| ProtocolTheorems.ContiguousTiles | internal/allocator/allocator.go:118-121 | In an unbroken log each iteration of the interval is in exactly one range and no other is in any |
| ProtocolTheorems.LogStartsAtLoadMark | internal/allocator/allocator.go:208-222 | Without resets the log of a process life begins at its load mark |
| ProtocolTheorems.OthersKeepHead | internal/allocator/allocator.go:103-116 | No other step than a take, a completed reset, a crash or an offline reset moves the next iteration; so every failing exit of Next leaves it alone |
| ProtocolCrash.CrashGapBound | internal/allocator/allocator.go:225-247 | Without writes that fail after the rename, a crash with the lock free forfeits at most threshold + segmentSize iterations, counted from the next iteration before to the next after the restart; inside a call for n at most max(threshold, n-1) + segmentSize |
| ProtocolCrash.CrashGapBoundAny | internal/state/state.go:347-351 | Whatever writes fail, resets' own excepted, a crash forfeits at most max(threshold, N-1) + segmentSize, where N is the largest call made |
| ProtocolCrash.RunSynced | internal/state/state.go:226-232 | Without writes that fail after the rename, the memory of a running store and its file agree on the mark |
| ProtocolTheorems.OneReservationAtATime | internal/allocator/allocator.go:106-117 | A waiting call implies the reservation token and exactly one refill; a call that has written the mark itself holds the lock and no refill exists beside it |
| ProtocolTheorems.RefillWakesAll | internal/allocator/allocator.go:241-247 | The end of a refill, successful or not, gives the token back and leaves no call parked |
| ProtocolTheorems.NeverStuck | internal/allocator/allocator.go:106-117 | While any call is in progress some call or refill can take its next step |
| ProtocolInvariant.FreshInv | internal/state/state.go:199-212 | A registered entity that has not been used satisfies the invariant |
| ProtocolInvariant.LoadKeeps | internal/allocator/allocator.go:208-222 | Loading keeps the invariant and does not move the next iteration |
| ProtocolInvariant.InlineNumbers | internal/allocator/allocator.go:111-116 | The shortage, growth and new end of an inline reservation are the mathematical values, the growth covers the shortage, and the mark is the end of the window |
| ProtocolGap.GapAnywhereIff | README.md:605-606 | Over runs without writes that fail after the rename and with calls for at most `most`, what a crash skips, at any point but inside an accepted reset, stays within segment_size if and only if segment_size is 1 and `most` is 1 |
| ProtocolGap.GapWithinSegmentIff | README.md:605-606 | With the entity lock free, whatever the calls ask for, if and only if segment_size is 1 |
| ProtocolGap.GapOfMore | internal/allocator/allocator.go:225-240 | For every longer segment a run of single-ID calls, without forced moves and without such writes, after which a crash with the lock free skips more |
| ProtocolGap.GapInCall | internal/allocator/allocator.go:106-117 | For every n, a call for n that has just reserved: a crash there skips n rounded up to segments, with nothing handed out |
| ProtocolGap.GapOfOne | internal/allocator/allocator.go:106-120 | With segments of one iteration, without such writes, and with the lock free, a crash skips at most one |
| ProtocolGap.GapOfSingles | internal/allocator/allocator.go:106-120 | With segments of one iteration and single-ID calls, at any point but inside an accepted reset |
| ProtocolGap.FailedReservationGap | internal/state/state.go:347-351 | For every n, one call for n whose write fails after the rename makes a crash skip n rounded up to segments, with nothing handed out |
| ProtocolBounds.ExhaustionGuardExact | internal/allocator/allocator.go:103-105 | The int64 guard decides rightly whether n values fit if and only if cursor+n-1 is an int64 |
| ProtocolBounds.RefusedIffExhausted | internal/allocator/allocator.go:103-105 | A call is refused on entry exactly when its n values do not fit, and then changes nothing |
| ProtocolBounds.TakenFits | internal/allocator/allocator.go:103-121 | The values of a call that never waited fit the type |
| ProtocolOverrun.OverrunIff | internal/allocator/allocator.go:103-110 | A call that has passed the check may, in some clean continuation, take past the type's last iteration if and only if on getting the lock it finds a refill in flight and the window too short |
| ProtocolOverrun.WaitingOverruns | internal/allocator/allocator.go:106-110 | The continuation: it parks, another call takes one more than the room left, it wakes up and takes |
| ProtocolOverrun.TakesWithin | internal/allocator/allocator.go:106-118 | Otherwise, whatever the others do, it takes within the type |
| ProtocolBounds.NothingWraps | internal/allocator/allocator.go:103-119 | In a configuration with room, over every run in which at most p calls wait at a time, with resets, failures, crashes and restarts, no int64 wraps and no mark goes above the top |
| ProtocolBounds.NoWrapIffExact | internal/allocator/allocator.go:103-119 | The no-wrap hypothesis on a step is exactly that its int64 expressions have their mathematical values |
| ProtocolBounds.StepBounded | internal/allocator/allocator.go:106-120 | Every step of such a run keeps the marks below the top and the cursor within the type but for one batch for each call still waiting |
| ProtocolBounds.IssuedFits | internal/allocator/allocator.go:84-86 | In such a run every range handed out fits the type, but for p batches |
| ProtocolResets.NextAfterReset | internal/allocator/allocator.go:149-153 | The next range this process hands out after a completed reset starts at its target |
| ProtocolResets.FirstAfterInit | internal/server/handlers.go:332-353 | The first range after registration starts at the start iteration |
| ProtocolResets.RunAboveFloor | internal/allocator/allocator.go:141-149 | Along every run without forced moves nothing is handed out below the last accepted target, and no earlier range is forgotten |
| ProtocolResets.NothingBelowReset | internal/allocator/allocator.go:141-149 | That holds from the moment the mark of a reset is written, even when it lowers the mark inside the window |
| ProtocolResets.NothingBelowStart | internal/server/handlers.go:317-332 | And for a start iteration |
| ProtocolResets.NothingBelowOfflineReset | cmd/bucket-next-cli/main.go:180-189 | And for an offline reset without --force, which forgets nothing |
| ProtocolCounterexamples.GapExceedsSegment | README.md:605-606 | A run with segment 10 and threshold 5 whose crash would skip 15 |
| ProtocolCounterexamples.ParkedCallOverruns | internal/allocator/allocator.go:103-108 | A run in which a call that waited hands out an iteration past the type's last |
| ProtocolCounterexamples.TornResetRepeats | internal/allocator/allocator.go:144-149 | A run in which a failed reset whose file was already replaced leads to an iteration handed out twice |
| ProtocolTorn.TornResetRepeatsIff | internal/allocator/allocator.go:144-149 | After a reset that is not a move back and whose write fails after the rename, some clean unforced continuation hands out an iteration twice if and only if the target lies below the end of the window |
| ProtocolTorn.TornRepeats | internal/state/state.go:347-351 | That continuation, for every such reset |
| ProtocolWrap.RepeatsIffNotRoomy | internal/allocator/allocator.go:103-119 | Unforced runs of batches that need not wait, from a start within the type, can hand out an iteration twice if and only if there is no room for a batch above the highest mark |
| ProtocolWrap.UnroomyRepeats | internal/allocator/allocator.go:103-119 | Such a run for every configuration without room |
| ProtocolWrap.WrappedReservationRepeats | internal/allocator/allocator.go:111-116 | Wherever a reservation from the type's last iteration wraps, a run that hands that iteration out twice |
| ProtocolCounterexamples.ReservationCoversIffInRange | internal/allocator/allocator.go:113-116 | An inline reservation is durable if and only if its end is an int64 |
| Reservation.GrowCovers | internal/allocator/allocator.go:111-112 | The growth is the least multiple of the segment size that covers the shortage |
| Allocator.Allocator.Next | internal/allocator/allocator.go:87-122 | n consecutive iterations from where the last call ended, or an error with the counter unmoved; ErrExhausted exactly when the n values do not fit, a failed reservation only if a write failed, the other errors exactly when; all entities stay in order and bounded marks stay bounded |
| Allocator.Allocator.BoundedFits | internal/allocator/allocator.go:103-119 | With bounded marks, a batch in a configuration with room wraps nothing |
| Allocator.Allocator.Reset | internal/allocator/allocator.go:127-154 | The next iteration and both marks become the target exactly when the move is allowed and the write succeeds; refused exactly for a move back without force; out of order exactly when it goes ahead, its write fails after the rename, and the target lies below the end that the window has by then |
| Allocator.Allocator.HandedOnce | internal/allocator/allocator.go:9-13 | The object never hands out an iteration twice, and all it handed out is below its cursor and its durable mark |
| Allocator.Allocator.RunRefill | internal/allocator/allocator.go:237-247 | A refill that ends between calls extends the window by one segment or not at all, and gives the token back, without moving the counter |
| Allocator.Allocator.NextLocked | internal/allocator/allocator.go:103-121 | The loop of Next, with waits and inline reservations, is a run of the protocol that ends with no call in progress |
| Allocator.Allocator.ResetLocked | internal/allocator/allocator.go:137-153 | So is Reset with its wait |
| Allocator.Allocator.LoadLocked | internal/allocator/allocator.go:208-222 | The window starts empty at the durable mark; it fails exactly for an unregistered entity |
| Allocator.Allocator.EntityFor | internal/allocator/allocator.go:196-206 | One entity object per name, created unloaded |
| Allocator.Allocator.CompleteRefill | internal/allocator/allocator.go:237-247 | The refill, write and end, is two protocol steps, and disturbs no other entity's marks |
| Allocator.Allocator.ReserveInline | internal/allocator/allocator.go:111-116 | The inline reservation covers n and less than a segment more, or fails and ends the call |
| Allocator.Allocator.TakeLocked | internal/allocator/allocator.go:118-120 | The range starts at the cursor, the cursor moves by n, and a refill starts as the protocol's step says |
| Allocator.Allocator.WriteLocked | internal/allocator/allocator.go:146-153 | The accepted part of Reset: mark, then window; a failed write leaves the window |
| Allocator.Allocator.Undisturbed | internal/state/state.go:313-323 | A flush for another purpose, successful or failed at any point, leaves the allocator in order |
| Server.Server.MintCounter | internal/server/handlers.go:93-114 | ID i is the number shard_id + (first+i) * total_shards, or the text that decodes to it; the codec never refuses after iterations were taken; a registered entity is refused only as exhausted, exactly when, or after a failed write; on any error the counter has not moved; the reported range has the first and the last value, the step and the count, and describes all values |
| Server.Server.MintSnowflake | internal/server/handlers.go:83-92 | The n IDs are the packings of the stamps that the forge has issued in this call, which are readings of its clock, increase, and come after the one it was at; together they are a run of the model from its old state to its new one. It fails only with the clock too far back or after a failed write, and disturbs no counter |
| Server.Server.Mint | internal/server/handlers.go:81-115 | Both ways for a registered entity: counter IDs from its position on, or the stamps that the forge has just issued |
| Server.Server.HandleNext | internal/server/handlers.go:213-279 | Batch limits, registration or type check, then the n numbers, or texts that decode to them, from the entity's counter position on, iteration 0 if it is new; or n Snowflake IDs as minted by the forge; a refused or failed request leaves the counter where it was, and every error has its cause |
| Server.Server.RegisterOrCheck | internal/server/handlers.go:61-76 | A new entity starts at iteration 0; an existing one is untouched and compared by type; no other entity moves |
| Server.Server.RegisterAt | internal/state/state.go:199-212 | Registration as the allocator sees it: check-and-create, the new entity at its start, every other where it was |
| Server.Server.HandleInit | internal/server/handlers.go:302-353 | The four outcomes and exactly when; if created, the first value is the least shard value from startValue on |
| Server.Server.HandleReset | internal/server/handlers.go:376-424 | The six outcomes and exactly when, in terms of the state before the call; after a move the next value is the least shard value from the requested one on, durably |
| Server.Server.MoveTo | internal/server/handlers.go:393-424 | Its last part: refused, moved or failed as the allocator's reset is |
| Server.EncodeAll | internal/server/handlers.go:99-110 | The loop of mint yields the ID of every iteration in order, or a refusal of the codec for one of them |
| Server.EncodeAllSucceeds | internal/server/handlers.go:99-110 | Within the bound that the allocator checks there is no such refusal |
| Server.AllDenote | internal/server/handlers.go:99-110 | The IDs of consecutive iterations stand for the consecutive values of the shard |
| Server.RangeDescribes | internal/server/handlers.go:51-57 | First and last are the values of the first and the last iteration, and value i is first + i*step for all number IDs of a batch |
| Wire.ParseCounterValue | internal/server/handlers.go:128-142 | A value is rejected exactly when it is not positive or no value of the shard lies between it and the type's maximum; otherwise the result is the least such value, its iteration is in range and maps back to it |
| Wire.WithinMaxIter | internal/server/handlers.go:99-110 | Every iteration i up to MaxIter has an ID: the number shard_id + i * total_shards for int and long, a text of the right length that decodes to it for the uuid types; and that number is within the type |
| Wire.BoundsOfTypes | internal/datatype/datatype.go:17-22 | The bound of int is 2^31-1, that of long 2^63-1, and that of each uuid type is exactly what its texts can carry |
| Wire.WireInjective | internal/server/handlers.go:99-110 | Equal IDs come from the same shard and the same iteration |
| DataTypes.KindsOfTypes | internal/datatype/datatype.go:35-62 | Every type but snowflake is backed by a counter, and its IDs are numbers or texts, those with a length being texts |
| Cli.CmdInit | cmd/bucket-next-cli/main.go:138-165 | Rejections as in the service and exactly when; an existing entity is not touched; the first value is the least shard value from the start value on, and the file holds it |
| Cli.CmdReset | cmd/bucket-next-cli/main.go:167-192 | Refused exactly for a move below the mark without --force; whatever it does to the file is an offline reset step of the protocol |
| Cli.CmdDelete | cmd/bucket-next-cli/main.go:194-210 | Only with --force; removes that entity alone, from memory and file, or fails with the write and changes nothing in memory |
| Cli.HasFlag | cmd/bucket-next-cli/main.go:270-282 | The in-place compaction leaves the other arguments in order and reports whether the flag was there |
| Cli.WithoutKeepsOthers | cmd/bucket-next-cli/main.go:270-282 | Every other argument is still there as often as before, and the flag is gone |
| Cli.WithoutInOrder | cmd/bucket-next-cli/main.go:270-282 | Each argument stays in its place among the others unless it is the flag |
| Service.Start | cmd/bucket-next/main.go:58-99 | Every entity resumes at the mark in the file and the forge at the Snowflake mark, with nothing handed out yet; the forge has the 0-based shard id, the epoch, the tolerance and the clock, the allocator its window sizes, the server its key and tweaks; every refusal has its cause |
| Service.OpenOrCreate | cmd/bucket-next/main.go:64-78 | A missing file is refused exactly unless the operator asked to create it; other refusals are those of the file or of a failed write |
| Service.Restart | cmd/bucket-next/main.go:64-97 | Whatever call the dead process had finished last, and whatever it had handed out, its successor on the same file resumes every entity above it, and its forge at or above every stamp issued, configured as asked; from a readable file it is refused only if the clock is too far behind |
| Service.ShardsAnswerApart | cmd/bucket-next/main.go:83-97 | Servers that were started for different shards with one epoch never answer the same Snowflake ID |
| StateStore.Store.Create | internal/state/state.go:81-94 | Succeeds exactly if there was no file and the write did; the file then holds the empty store |
| StateStore.Store.Open | internal/state/state.go:98-151 | Version 1 is refused for its identity if and only if some record has a shard id that is neither 0 nor this one, and the first such record is named; version 2 is accepted if and only if its version is 2 and its identity this one; on success the memory has the last record of each name, and a version-1 file has been rewritten |
| StateStore.Store.Migrate | internal/state/state.go:112-133 | Records of version 1 are adopted with their own iteration and type, the last of each name, unless one names another shard; the first that does is named |
| StateStore.Store.ReadV2 | internal/state/state.go:135-150 | Accepted exactly with version 2 and the right identity; the memory has the last record of each name and the Snowflake mark |
| StateStore.Store.Flush | internal/state/state.go:314-352 | After a write that took effect, the file has version 2, this identity, the mark and the sorted records, and opening it rebuilds exactly the memory; otherwise the file is as before |
| StateStore.Store.Sorted | internal/state/state.go:304-311 | The list holds exactly the records of the map, in ascending order of name |
| StateStore.Store.Register | internal/state/state.go:199-212 | An existing record is returned untouched; a new one is in memory and file, or in memory not at all |
| StateStore.Store.RaiseMark | internal/state/state.go:216-233 | One record's mark goes as the protocol's Raise; no other mark moves, though the file may catch up with the memory |
| StateStore.Store.SetMark | internal/state/state.go:236-250 | One record's mark goes as the protocol's Write; the file holds the memory after a success |
| StateStore.Store.Delete | internal/state/state.go:253-266 | The entity is removed from memory and file, or the memory is as before |
| StateStore.Store.Clear | internal/state/state.go:269-279 | All entities are removed from memory and file, or the memory is as before |
| StateStore.Store.RaiseSnowflakeMark | internal/state/state.go:289-302 | The Snowflake mark goes as Raise, and fails only if a write does |
| StateFile.RebuildListing | internal/state/state.go:304-311 | Listing the map by name and reading the list back is the identity |
| StateFile.ListingUnique | internal/state/state.go:304-311 | The memory determines the list, whatever the order of map iteration |
| NameOrder.LessIff | internal/state/state.go:304-311 | The order of names is decided by the first character that differs, and a proper prefix comes first |
| StateFile.NoProblemsIffSame | internal/state/state.go:153-172 | A file is accepted exactly when all four parts of its identity match |
| StateFile.ProblemsAreDifferences | internal/state/state.go:153-172 | The refusal names every part that differs and no other |
| StateFile.ReopenMeans | internal/state/state.go:98-151 | What opening gives for each kind of file, in terms of its records, version and identity |
| StateFile.RebuildKeepsLast | internal/state/state.go:117-125 | Reading a list keeps the last record of each name and no other |
| StateFile.MarksOnlyRise | internal/state/state.go:214-233 | Over every history of mutations without SetMark, Delete and Clear, with failed writes and restarts, no mark of the store falls, no entity goes, and the file is never behind the memory; the file itself may fall back to the memory after a write that failed late |
| StateFile.CommittedHappens | internal/state/state.go:214-250 | A mutation of the store object, as its contract describes it, is one event of such a history |
| StateFile.TypeNeverChanges | internal/state/state.go:196-212 | An entity that is not removed keeps its type, in memory and in the file, over every such history |
| ShardMath.ValueIsExact | internal/shardmath/shardmath.go:19-21 | Value is shard_id + i * total_shards whenever that is an int64 |
| ShardMath.ValuesDisjoint | internal/shardmath/shardmath.go:3-5 | Two shards, or two iterations of one, never share a value, even where values wrap once |
| ShardMath.FitsIffWithinMaxIter | internal/shardmath/shardmath.go:47-52 | An iteration's value fits under the maximum if and only if it is at most MaxIter |
| ShardMath.SnapRejectsExactly | internal/shardmath/shardmath.go:28-43 | The test on the wrapped result rejects exactly when no value of the shard lies in the range |
| ShardMath.SnapAccepted | internal/shardmath/shardmath.go:23-43 | Otherwise the result is the least shard value from v on, and Iter and Value are inverse on it |
| ShardMath.SnapIsGap | internal/shardmath/shardmath.go:31-43 | SnapForward adds the distance to the next residue, wrapping |
| ShardMath.GapIsLeast | internal/shardmath/shardmath.go:28-30 | That distance leads to the least shard value at or above v |
| Int64.WrapIsCongruent | internal/shardmath/shardmath.go:19-21 | The wrapped value is the one int64 that is congruent to the integer modulo 2^64 |
| Feistel.ComputePerm | internal/uuidgen/uuidgen.go:183-189 | The eight-round loop computes the network |
| Feistel.ComputeUnperm | internal/uuidgen/uuidgen.go:191-197 | The backward loop computes its inverse network |
| Feistel.PermInverse | internal/uuidgen/uuidgen.go:183-213 | On 48 and on 64 bits the two are inverse permutations, for every round function |
| Feistel.CrossesIff | internal/uuidgen/uuidgen.go:172-205 | For every cipher the network goes through ten halves, each the one before the last xored with the low bits of the first eight output bytes for (tag, round, tweak, last half) |
| Feistel.KeyedRounds | internal/uuidgen/uuidgen.go:172-205 | For a cipher that does not look at the half, the left half comes out xored with the even rounds' values and the right one with the odd rounds' |
| Bits.XorBit | internal/uuidgen/uuidgen.go:183-189 | Bit k of an exclusive or tells whether the two differ there |
| CycleWalk.OrbitReturns | internal/uuidgen/uuidgen.go:115-118 | The orbit of a permutation of a finite set returns to its start, by the pigeonhole principle |
| CycleWalk.WalkEnds | internal/uuidgen/uuidgen.go:116-118 | Hence the walk from any start in the domain comes back into the domain |
| CycleWalk.WalkReverses | internal/uuidgen/uuidgen.go:153-157 | A walk read backward is a walk of the inverse permutation |
| CycleWalk.WalkInverse | internal/uuidgen/uuidgen.go:153-157 | Hence walking with the inverse undoes walking |
| Base62.NumberOfFixed | internal/uuidgen/uuidgen.go:226-241 | Reading the fixed-width text of a number that fits gives the number |
| Base62.FixedOfNumber | internal/uuidgen/uuidgen.go:226-241 | Writing the number of a text gives the text |
| Base62.EncodeFixed | internal/uuidgen/uuidgen.go:226-233 | The buffer filled from its end is the fixed-width text |
| Base62.DecodeFixed | internal/uuidgen/uuidgen.go:235-241 | The uint64 accumulation is the number modulo 2^64 |
| Base62.PaddedIsFixed | internal/uuidgen/uuidgen.go:124-128 | A number below 62^L, printed and padded with zeros, is its fixed-width text of exactly L characters |
| Base62.FixedAt | internal/uuidgen/uuidgen.go:226-233 | Character i is the digit of weight 62^(n-1-i) |
| Base62.AlphabetCode | internal/uuidgen/uuidgen.go:32-33 | The digits are 0 to 9, a to z, A to Z, in this order |
| UuidCodec.Encode | internal/uuidgen/uuidgen.go:105-131 | The method, with its cycle-walking loop, computes the specification for every value, length and tweak |
| UuidCodec.Decode | internal/uuidgen/uuidgen.go:136-170 | So does Decode, for every string |
| UuidCodec.Walk8 | internal/uuidgen/uuidgen.go:115-118 | The loop ends and computes the scramble on the 62^8 values |
| UuidCodec.Unwalk8 | internal/uuidgen/uuidgen.go:153-157 | The backward loop ends and computes its inverse |
| UuidCodec.DecodeInvertsEncode | internal/uuidgen/uuidgen.go:133-170 | For all four lengths, Decode gives v for s if and only if Encode gives s for v: it accepts exactly the image |
| UuidCodec.EncodeDomain | internal/uuidgen/uuidgen.go:105-131 | Encode succeeds exactly on the values that fit, for the lengths 8, 12, 16 and 22, with exactly the asked length |
| UuidCodec.EncodeInjective | internal/uuidgen/uuidgen.go:3-6 | Different values never give the same text under one key and tweak |
| UuidCodec.EveryString8 | internal/uuidgen/uuidgen.go:12-13 | Every 8-character string of the alphabet decodes, and encodes back to itself |
| UuidCodec.LongFits | internal/uuidgen/uuidgen.go:120-128 | Pad and permuted value together stay below 62^L and can be taken apart again |
| UuidCodec.LimitPositive | internal/uuidgen/uuidgen.go:94-97 | There is at least one pad for each length |
| UuidCodec.TextIff8 | internal/uuidgen/uuidgen.go:110-119 | For every cipher the 8-character text of v is the number at the end of the cycle walk from v through the 48-bit network, whose inner points are all past 62^8 |
| UuidCodec.TextIffLong | internal/uuidgen/uuidgen.go:120-129 | For every cipher the longer text of v is the number whose low 64 bits the 64-bit network makes of v, under the cipher's output for (0x50, length, tweak, v) modulo floor(62^length / 2^64) |
| UuidCodec.TweakMatters | internal/uuidgen/uuidgen.go:8-10 | For any two tweaks, any length and any value that fits, some cipher gives different texts |
| Snowflake.ParseInvertsPack | internal/forge/forge.go:166-174 | Parse recovers timestamp, shard and sequence |
| Snowflake.PackIsExact | internal/forge/forge.go:146 | The ID is (ts - epoch) * 2^22 + shard * 2^12 + sequence |
| Snowflake.PackOrder | internal/forge/forge.go:146 | The numeric order of IDs is the order of (timestamp, shard, sequence), so shards never collide |
| Snowflake.NeverRepeats | internal/forge/forge.go:34-36 | Over all runs of a shard with any clock readings, failing persists, crashes and restarts, stamps and IDs increase strictly and stay below the persisted mark, unless the clock is back at the last stamp after a failed persist |
| Snowflake.AtMost4096 | internal/forge/forge.go:124-135 | No more than 4096 stamps of a steady history are of one millisecond |
| Snowflake.FullMillisecond | internal/forge/forge.go:124-135 | In a new millisecond the sequence numbers go from 0 to 4095 in order, and then the forge waits for the next |
| Snowflake.PersistedRunsAreSteady | internal/forge/forge.go:137-145 | If every persist succeeds, from the first start on, that exception never arises |
| Snowflake.FreshStaysFresh | internal/forge/forge.go:137-145 | Nor from any state of the invariant in which the last stamp is not above the forge's own position |
| Snowflake.NothingBeforeTheMark | internal/forge/forge.go:84-103 | After a start every stamp is at the persisted mark or later |
| Snowflake.RepeatsIffAhead | internal/forge/forge.go:124-145 | From any state that any run reaches without having issued a stamp twice, some continuation whose persists all succeed does so if and only if a stamp issued at the forge's timestamp has a higher sequence number than the forge |
| Snowflake.RunCovered | internal/forge/forge.go:137-145 | Whatever the clock does, every issued timestamp stays below the mark in memory and in the file, and not above the forge's own |
| Snowflake.IncreasesIffNotSteppedBack | internal/forge/forge.go:124-145 | One generation is above everything issued if and only if it is not at the last issued timestamp from such a state |
| Snowflake.SteppingBackRepeats | internal/forge/forge.go:124-145 | A run with one failed persist and one backward clock step that issues an ID twice |
| SnowflakeForge.Forge.Generate | internal/forge/forge.go:112-149 | Refused exactly when the clock is further back than the tolerance; otherwise the timestamp is the first reading that is not before the last one, or past it if its 4096 numbers are used up; the sequence goes on or starts at 0; a timestamp at or past the lease is used only after a new lease is written; one step of the run model |
| SnowflakeForge.Forge.Settle | internal/forge/forge.go:113-135 | The drift wait and the sequence wait end on the first reading that is not before the last timestamp, or past it if the sequence is full; the sequence number is the next one at the old timestamp and 0 at a new one |
| SnowflakeForge.Forge.NextInSequence | internal/forge/forge.go:124-135 | The second of the two waits |
| SnowflakeForge.Forge.HoldLease | internal/forge/forge.go:137-143 | Nothing is written before the lease runs out; then a lease of 1000 ms more is in the file, or the write failed and the lease is as before |
| SnowflakeForge.Forge.GenerateBatch | internal/forge/forge.go:152-164 | n IDs with increasing stamps read from the clock, or none and the cause; a run of the model from the forge's state to its new state |
| SnowflakeForge.Forge.EnableMark | internal/forge/forge.go:84-103 | Refused exactly when the clock is too far behind the mark; otherwise the forge is in the start state of the run model and the clock is past the mark |
| SnowflakeForge.Forge.Create | internal/forge/forge.go:66-76 | Shard ids 1 to 1024 only |
| SnowflakeForge.Clock.WaitPast | internal/forge/forge.go:119-131 | The spin loop ends with the first reading past the limit |

## Left out

- Allocator.Allocator.Next: in a configuration without room below 2^63 (one shard with a 63-bit type) assumes that this call does not wrap; what happens otherwise is in ProtocolWrap. Runs one call at a time, with refills in the background; the interleaving of calls is in Protocol.
- Allocator.Allocator.NextLocked: likewise.
- Allocator.Allocator.ReserveInline: assumes what Next has established before it, that the n values fit the type, and the same of wrapping.
- Allocator.Allocator.TakeLocked: likewise.
- Server.Server.MintCounter: inherits the assumption of Next for configurations without room, and so does HandleNext.
- Cluster.NoIDTwice: speaks of the ranges handed out since the last forced backward move; a forced move, and delete or clear, start a new uniqueness epoch. It assumes that no reset's flush fails after its rename below the window, and that no int64 of the allocator wraps.
- Cluster.NoIDTwiceTame: a call that waited may be past the type's last value, and then the uuid types may give no ID, and long a wrapped value, still unique.
- ProtocolOverrun.OverrunIff: the call that overtakes is not limited to a batch; several would do.
- ProtocolGap.GapAnywhereIff: the converse needs a type with room for one segment and for two iterations, and three segments in int64; likewise GapWithinSegmentIff.
- ProtocolCrash.CrashGapBoundAny: leaves out resets whose write fails after the rename, which a crash takes to their target.
- ProtocolWrap.RepeatsIffNotRoomy: for segments that fit the type and three of which fit in int64, and for calls that do not wait; with p calls waiting the room of Roomy is enough but not shown to be needed.
- ProtocolTorn.TornResetRepeatsIff: moves back, which give up uniqueness anyway, and targets within two segments of 2^63 are left out.
- Snowflake.NeverRepeats: clock readings are natural numbers, and millisecond sums do not wrap; packed IDs are compared for timestamps within 41 bits of the epoch.
- Cluster.NoSnowflakeTwice: inherits that, and the exception of NeverRepeats.
- Service.ShardsAnswerApart: for timestamps within 41 bits of the epoch. What one server answers before and after a restart is in Restart and in NeverRepeats.
- SnowflakeForge.Forge.EnableMark: assumes that the clock eventually passes every value; so do the other waits.
- Service.Restart: the dead process was between calls (Protocol has crashes at every step), the file's marks are natural int64 numbers and bounded, and one process uses the file at a time.
- StateStore.Store.Open: read errors other than a missing file are not modelled.
- HTTP, JSON, error texts, status and list views, statistics, logging, shutdown.
- AES, SHA-256, key fingerprints and the derivation of tweaks: arbitrary functions. Nothing is claimed about randomness, nor about different entities beyond `UuidCodec.TweakMatters`.
- Decimal text of long and snowflake IDs, and the date and binary parts of Parse.
- Loading the configuration; the floating-point watermark is replaced by the threshold it gives, from 1 to segment_size.
- `Snapshot`, which is a diagnostic view read partly without the lock.
- `cmdClear` and `cmdList`, which call the store and print; the first is `StateStore.Store.Clear`.
- `datatype.Parse` and the comparison of type names.
- Fairness: a waiting Next may starve under contention. Freedom from deadlock is proved.
