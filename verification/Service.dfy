/** The start of cmd/bucket-next: one process over one state file, and what it owes to the one before. */
module Service {
  import opened Wrappers
  import opened Int64
  import opened DataTypes
  import opened ShardMath
  import opened StateFile
  import opened StateStore
  import opened Feistel
  import opened Protocol
  import opened ProtocolBounds
  import A = Allocator
  import F = SnowflakeForge
  import S = Snowflake
  import Srv = Server

  datatype StartError = NoStateFile | BadState(open: OpenError) | NotCreated | BadShard | BadClock

  /** The configuration that internal/config has validated, with the threshold already computed. */
  datatype Settings = Settings(layout: Layout, segmentSize: int, threshold: int, epochMs: int, tolerance: int) {
    predicate Valid() {
      layout.Valid() && 1 <= threshold <= segmentSize <= MAX
    }

    ghost function ConfigFor(dt: DataType): Config
      requires layout.Valid()
    {
      Config(segmentSize, threshold, layout.MaxIter(dt.MaxValue()))
    }
  }

  /** The records that a start finds in the file; none if it creates the file. */
  ghost function Found(file: File, id: Identity): Memory {
    if Reopen(file, id).Success? then Reopen(file, id).value else Memory(map[], 0)
  }

  /** The marks are int64 naturals, and in a configuration with room none that calls within the type cannot lead to. */
  ghost predicate Sensible(cfg: Settings, m: Memory)
    requires cfg.Valid()
  {
    forall k :: k in m.records ==>
                  && 0 <= m.records[k].iteration <= MAX
                  && (Roomy(cfg.ConfigFor(m.records[k].dataType), 0) ==>
                      m.records[k].iteration <= Top(cfg.ConfigFor(m.records[k].dataType), 0))
  }

  /** The store: opened, or created if there is no file and the operator asked for that. */
  method OpenOrCreate(disk: Disk, id: Identity, initState: bool) returns (r: Result<Store, StartError>)
    modifies disk
    ensures r.Success? ==> && fresh(r.value) && r.value.disk == disk && r.value.id == id && r.value.Valid() && r.value.InSync()
                           && r.value.Memory() == Found(old(disk.file), id)
                           && (old(disk.file).Missing? ==> initState)
    ensures r.Success? && !initState ==> Reopen(old(disk.file), id).Success?
    ensures r.Failure? ==> r.error.NoStateFile? || r.error.BadState? || r.error.NotCreated?
    ensures r.Failure? && r.error.BadState? ==>
              || Reopen(old(disk.file), id) == Failure(r.error.open)
              || (r.error.open == WriteFailed && old(disk.file).V1? && !old(disk.NextFate()).Done?)
    ensures r == Failure(NotCreated) <==> old(disk.file).Missing? && initState && !old(disk.NextFate()).Done?
    ensures r == Failure(NoStateFile) <==> old(disk.file).Missing? && !initState
  {
    var found := Store.Open(disk, id);
    if found.Success? {
      return Success(found.value);
    }
    if found.error != NotFound {
      return Failure(BadState(found.error));
    }
    if !initState {
      return Failure(NoStateFile);
    }
    var made := Store.Create(disk, id);
    if made.Failure? {
      return Failure(NotCreated);
    }
    return Success(made.value);
  }

  /** The Snowflake mark is further ahead of the clock than a lease and the tolerance allow. */
  ghost predicate TooFarAhead(mark: int, now: int, tolerance: int) {
    mark > 0 && mark - now > 1000 + tolerance
  }

  /** The server has what its configuration says: 0-based shard, clock and epoch in the forge; window sizes; key and tweaks. */
  ghost predicate Configured(server: Srv.Server, cfg: Settings, clock: F.Clock, codec: Codec, tweakFor: string -> Tweak)
  {
    && server.forge.shard == cfg.layout.shardID - 1
    && server.forge.epochMs == cfg.epochMs && server.forge.tolerance == cfg.tolerance && server.forge.clock == clock
    && server.allocator.layout == cfg.layout
    && server.allocator.segmentSize == cfg.segmentSize && server.allocator.threshold == cfg.threshold
    && server.codec == codec && server.tweakFor == tweakFor
  }

  /**
   The start: every entity resumes at the mark in the file, and the forge at the Snowflake mark, once
   the clock is past it. Nothing is written but a new or a migrated file.
   */
  method Start(cfg: Settings, disk: Disk, id: Identity, initState: bool, clock: F.Clock, codec: Codec, tweakFor: string -> Tweak)
    returns (r: Result<Srv.Server, StartError>)
    requires cfg.Valid() && clock.Advances() && Sensible(cfg, Found(disk.file, id))
    modifies disk, clock
    ensures r.Success? ==>
              && fresh(r.value) && fresh(r.value.allocator) && r.value.Valid()
              && r.value.allocator.layout == cfg.layout && r.value.allocator.store.disk == disk
              && r.value.allocator.store.Memory() == Found(old(disk.file), id)
              && (forall k :: k in r.value.allocator.store.records ==>
                    && r.value.allocator.HeadOf(k) == Found(old(disk.file), id).records[k].iteration
                    && r.value.allocator.Handed(k) == [])
              && r.value.forge.issued == [] && r.value.forge.persist == r.value.allocator.store
              && r.value.forge.State() == S.Start(Found(old(disk.file), id).sfMark) && r.value.forge.Backed()
              && Configured(r.value, cfg, clock, codec, tweakFor)
    ensures r.Success? && !initState ==> Reopen(old(disk.file), id).Success?
    ensures r == Failure(BadClock) || r.Success? ==>
              (r == Failure(BadClock) <==> TooFarAhead(Found(old(disk.file), id).sfMark, clock.reading(old(clock.tick)), cfg.tolerance))
    ensures r.Failure? ==> r.error.NoStateFile? || r.error.BadState? || r.error.NotCreated? || r.error.BadClock?
    ensures r.Failure? && r.error.BadState? ==>
              || Reopen(old(disk.file), id) == Failure(r.error.open)
              || (r.error.open == WriteFailed && old(disk.file).V1? && !old(disk.NextFate()).Done?)
    ensures r == Failure(NotCreated) <==> old(disk.file).Missing? && initState && !old(disk.NextFate()).Done?
    ensures r == Failure(NoStateFile) <==> old(disk.file).Missing? && !initState
  {
    hide Reopen, Layout.MaxIter, A.Allocator.Bounded, A.Allocator.Sane, Roomy, Top;
    var opening := OpenOrCreate(disk, id, initState);
    if opening.Failure? {
      return Failure(opening.error);
    }
    var store := opening.value;
    var forge := F.Forge.Create(cfg.layout.shardID, cfg.epochMs, cfg.tolerance, clock);
    if forge.None? {
      return Failure(BadShard);
    }
    var fg := forge.value;
    var enabled := fg.EnableMark(store.sfMark, store);
    if enabled.Failure? {
      return Failure(BadClock);
    }
    var alloc := new A.Allocator(cfg.layout, cfg.segmentSize, cfg.threshold, store);
    alloc.SyncedIsBounded();
    var server := new Srv.Server(alloc, fg, codec, tweakFor);
    return Success(server);
  }

  /**
   Uniqueness from one process to the next: whatever call the dead process had finished last, and whatever
   it had handed out, every entity resumes above that.
   */
  method Restart(dead: Srv.Server, cfg: Settings, clock: F.Clock, codec: Codec, tweakFor: string -> Tweak)
    returns (r: Result<Srv.Server, StartError>)
    requires dead.Valid()
    requires cfg.Valid() && clock.Advances() && Sensible(cfg, Found(dead.allocator.store.disk.file, dead.allocator.store.id))
    modifies dead.allocator.store.disk, clock
    ensures r.Success? ==>
              && fresh(r.value) && r.value.Valid() && Configured(r.value, cfg, clock, codec, tweakFor)
              && forall k :: k in old(dead.allocator.store.records) ==>
                   && k in r.value.allocator.store.records
                   && r.value.allocator.HeadOf(k) == old(dead.allocator.store.MarkOf(k)).disk >= old(dead.allocator.HeadOf(k))
                   && forall i, x :: 0 <= i < |old(dead.allocator.Handed(k))| && old(dead.allocator.Handed(k))[i].Has(x) ==>
                        x < r.value.allocator.HeadOf(k)
    ensures r.Failure? && Reopen(old(dead.allocator.store.disk.file), dead.allocator.store.id).Success?
            && !old(dead.allocator.store.disk.file).V1? ==>
              && r == Failure(BadClock)
              && TooFarAhead(Reopen(old(dead.allocator.store.disk.file), dead.allocator.store.id).value.sfMark,
                             clock.reading(old(clock.tick)), cfg.tolerance)
    ensures r.Success? && dead.forge.persist != null ==>
              forall i :: 0 <= i < |old(dead.forge.issued)| ==>
                            old(dead.forge.issued)[i].ts < r.value.forge.lastTimestamp
  {
    hide Reopen;
    forall k | k in dead.allocator.store.records
      ensures dead.allocator.store.Tracks(k) && dead.allocator.HeadOf(k) <= dead.allocator.store.MarkOf(k).disk
      ensures forall i, x :: 0 <= i < |dead.allocator.Handed(k)| && dead.allocator.Handed(k)[i].Has(x) ==>
                               x < dead.allocator.store.MarkOf(k).disk
    {
      dead.allocator.HandedOnce(k);
    }
    assert dead.allocator.store.SfAhead();
    ReopenMeans(dead.allocator.store.disk.file, dead.allocator.store.id);
    r := Start(cfg, dead.allocator.store.disk, dead.allocator.store.id, false, clock, codec, tweakFor);
  }

  /** What a server has answered as Snowflake IDs since its start. */
  ghost function Answered(server: Srv.Server): seq<int>
    reads server.forge
  {
    seq(|server.forge.issued|, i requires 0 <= i < |server.forge.issued| reads server.forge =>
      S.Pack(server.forge.epochMs, server.forge.shard, server.forge.issued[i]))
  }

  /** The timestamps of all its stamps are within 41 bits of the epoch. */
  ghost predicate InTime(server: Srv.Server)
    reads server.forge
  {
    forall i :: 0 <= i < |server.forge.issued| ==> 0 <= server.forge.issued[i].ts - server.forge.epochMs < S.TIME_LIMIT
  }

  /** Servers that were started for different shards with one epoch never answer the same Snowflake ID. */
  lemma ShardsAnswerApart(a: Srv.Server, b: Srv.Server, ca: Settings, cb: Settings, i: nat, j: nat)
    requires a.Valid() && b.Valid() && InTime(a) && InTime(b)
    requires Configured(a, ca, a.forge.clock, a.codec, a.tweakFor) && Configured(b, cb, b.forge.clock, b.codec, b.tweakFor)
    requires ca.layout.shardID != cb.layout.shardID && ca.epochMs == cb.epochMs
    requires i < |a.forge.issued| && j < |b.forge.issued|
    ensures Answered(a)[i] != Answered(b)[j]
  {
    hide S.Pack, A.Allocator.Valid, A.Allocator.Bounded;
    S.PackOrder(ca.epochMs, a.forge.shard, a.forge.issued[i], b.forge.shard, b.forge.issued[j]);
  }
}
