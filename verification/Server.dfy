/** The handlers of internal/server as decisions on the store, the allocator and the forge, without HTTP. */
module Server {
  import opened Wrappers
  import opened Int64
  import opened DataTypes
  import opened ShardMath
  import opened Reservation
  import opened StateFile
  import opened StateStore
  import opened Feistel
  import opened UuidCodec
  import opened Wire
  import opened Protocol
  import ProtocolBounds
  import A = Allocator
  import F = SnowflakeForge
  import S = Snowflake

  /** A vector of number IDs: value i is first + i * step. */
  datatype RangeInfo = RangeInfo(first: int, last: int, step: int, count: int) {
    ghost predicate Describes(values: seq<ID>) {
      && count == |values| >= 1 && last == first + (count - 1) * step
      && forall i :: 0 <= i < |values| ==> values[i] == Numeric(first + i * step)
    }
  }

  datatype Minted = Minted(values: seq<ID>, range: Option<RangeInfo>)

  datatype MintError = FromForge(forge: F.ForgeError) | FromAllocator(allocator: A.AllocError) | FromCodec(codec: CodecError)

  datatype CheckReply = Proceed | RegisterFailed | TypeDiffers(registered: DataType)

  datatype NextReply = BadBatchSize | Unchecked(check: CheckReply) | Unminted(error: MintError) | Served(minted: Minted)

  datatype InitReply =
    | InvalidStart
    | StoreFailed
    | Exists(record: Record)
    | Created(next: Option<int>)

  datatype ResetReply =
    | UnknownName
    | NotNumeric
    | InvalidValue
    | Refused(next: int)
    | ResetFailed
    | Moved(previous: int, actual: int, previousIter: int, newIter: int, forced: bool)

  // ----- minting -----

  /** The loop of mint: the IDs of n iterations from first on, or the codec's first refusal. */
  method EncodeAll(l: Layout, c: Codec, tw: Tweak, dt: DataType, first: int, n: nat) returns (r: Result<seq<ID>, CodecError>)
    ensures r.Success? ==> |r.value| == n && forall i :: 0 <= i < n ==> WireOf(l, c, tw, dt, first + i) == Success(r.value[i])
    ensures r.Failure? ==> exists x :: first <= x < first + n && WireOf(l, c, tw, dt, x) == Failure(r.error)
  {
    hide EncodeSpec;
    var values := new ID[n];
    for i := 0 to n
      invariant forall j :: 0 <= j < i ==> WireOf(l, c, tw, dt, first + j) == Success(values[j])
    {
      var v := l.Value(first + i);
      if dt.IsUuid() {
        var str := Encode(c, v, dt.UuidLength(), tw);
        if str.Failure? {
          assert WireOf(l, c, tw, dt, first + i) == Failure(str.error);
          return Failure(str.error);
        }
        values[i] := Text(str.value);
      } else {
        values[i] := Numeric(v);
      }
    }
    return Success(values[..]);
  }

  /** Within the bound of the allocator the loop cannot fail. */
  lemma EncodeAllSucceeds(l: Layout, c: Codec, tw: Tweak, dt: DataType, first: int, n: nat)
    requires l.Valid() && dt.IsCounter() && 0 <= first && first + n - 1 <= l.MaxIter(dt.MaxValue())
    ensures forall x :: first <= x < first + n ==> WireOf(l, c, tw, dt, x).Success?
  {
    hide WireOf;
    forall x | first <= x < first + n
      ensures WireOf(l, c, tw, dt, x).Success?
    {
      WithinMaxIter(l, c, tw, dt, x);
    }
  }

  /** The IDs stand for the consecutive values of this shard from that of iteration `first` on. */
  lemma AllDenote(l: Layout, c: Codec, tw: Tweak, dt: DataType, first: int, values: seq<ID>)
    requires l.Valid() && dt.IsCounter() && 0 <= first && first + |values| - 1 <= l.MaxIter(dt.MaxValue())
    requires forall i :: 0 <= i < |values| ==> WireOf(l, c, tw, dt, first + i) == Success(values[i])
    ensures forall i :: 0 <= i < |values| ==> Denotes(c, tw, dt, values[i], l.shardID + (first + i) * l.totalShards)
  {
    hide WireOf, Denotes;
    forall i | 0 <= i < |values|
      ensures Denotes(c, tw, dt, values[i], l.shardID + (first + i) * l.totalShards)
    {
      WithinMaxIter(l, c, tw, dt, first + i);
    }
  }

  /** The values of n iterations from first on. */
  ghost function RangeFrom(l: Layout, first: int, n: int): RangeInfo {
    RangeInfo(l.shardID + first * l.totalShards, l.shardID + (first + n - 1) * l.totalShards, l.totalShards, n)
  }

  /** The range that mint reports with number IDs describes them all. */
  lemma RangeDescribes(l: Layout, c: Codec, tw: Tweak, dt: DataType, first: int, values: seq<ID>)
    requires l.Valid() && dt.IsNumeric() && 0 <= first && first + |values| - 1 <= l.MaxIter(dt.MaxValue()) && values != []
    requires forall i :: 0 <= i < |values| ==> WireOf(l, c, tw, dt, first + i) == Success(values[i])
    ensures values[0].Numeric? && values[|values| - 1].Numeric?
    ensures RangeInfo(values[0].value, values[|values| - 1].value, l.totalShards, |values|).Describes(values)
    ensures RangeInfo(values[0].value, values[|values| - 1].value, l.totalShards, |values|) == RangeFrom(l, first, |values|)
  {
    forall i | 0 <= i < |values|
      ensures values[i] == Numeric(l.Exact(first) + i * l.totalShards)
    {
      WithinMaxIter(l, c, tw, dt, first + i);
      assert l.Exact(first + i) == l.Exact(first) + i * l.totalShards;
    }
  }

  class Server {
    const allocator: A.Allocator
    const forge: F.Forge
    const codec: Codec
    const tweakFor: string -> Tweak

    constructor (allocator: A.Allocator, forge: F.Forge, codec: Codec, tweakFor: string -> Tweak)
      ensures this.allocator == allocator && this.forge == forge && this.codec == codec && this.tweakFor == tweakFor
    {
      this.allocator := allocator;
      this.forge := forge;
      this.codec := codec;
      this.tweakFor := tweakFor;
    }

    /** The allocator is in order, and the forge persists to the same store or not at all. */
    ghost predicate Valid()
      reads allocator, allocator.store, allocator.store.disk, allocator.entities.Values, forge, forge.persist
    {
      && allocator.Valid() && allocator.Bounded() && forge.Valid() && forge.Covered()
      && (forge.persist == null || forge.persist == allocator.store)
    }

    /** Where the next ID of the name comes from: its counter, or iteration 0 if it is new. */
    ghost function Position(name: string): int
      reads allocator, allocator.store, allocator.entities.Values
    {
      if name in allocator.store.records then allocator.HeadOf(name) else 0
    }

    /** The configuration has room below 2^63, or at least this call does not wrap. */
    ghost predicate Room(name: string, dt: DataType, n: int)
      requires allocator.layout.Valid()
      reads allocator, allocator.store, allocator.entities.Values
    {
      ProtocolBounds.Roomy(allocator.ConfigFor(dt), 0) || allocator.Exact(allocator.ConfigFor(dt), Position(name), n)
    }

    /** The file is that one still, or it has the Snowflake mark that the store has in memory. */
    ghost predicate SfFlushed(file: File)
      reads allocator.store, allocator.store.disk
    {
      || allocator.store.disk.file == file
      || (&& Reopen(allocator.store.disk.file, allocator.store.id).Success?
          && Reopen(allocator.store.disk.file, allocator.store.id).value.sfMark == allocator.store.sfMark)
    }

    /** registerOrCheck: the entity is registered from iteration 0, or bound to this type already. */
    method RegisterOrCheck(name: string, dt: DataType) returns (reply: CheckReply)
      requires Valid()
      modifies allocator.store`records, allocator.store.disk
      ensures Valid()
      ensures reply == RegisterFailed ==>
                && allocator.store.records == old(allocator.store.records)
                && allocator.store.disk.FailedSince(old(allocator.store.disk.writes))
      ensures allocator.store.disk.writes >= old(allocator.store.disk.writes)
      ensures reply != RegisterFailed ==>
                && name in allocator.store.records
                && allocator.store.records == (if name in old(allocator.store.records) then old(allocator.store.records)
                   else old(allocator.store.records)[name := Record(name, dt, 0, allocator.store.id.shardID)])
                && reply == (if allocator.store.records[name].dataType == dt then Proceed
                             else TypeDiffers(allocator.store.records[name].dataType))
      ensures name in old(allocator.store.records) ==> reply != RegisterFailed
      ensures SfFlushed(old(allocator.store.disk.file))
      ensures forall k :: k in old(allocator.store.records) ==>
                allocator.HeadOf(k) == old(allocator.HeadOf(k)) && allocator.Handed(k) == old(allocator.Handed(k))
      ensures name !in old(allocator.store.records) && reply == Proceed ==>
                allocator.HeadOf(name) == 0 && allocator.Handed(name) == []
    {
      var r := RegisterAt(name, dt, 0);
      if r.Failure? {
        return RegisterFailed;
      }
      var (rec, created) := r.value;
      reply := if rec.dataType == dt then Proceed else TypeDiffers(rec.dataType);
    }

    /** store.Register as the allocator sees it: the others keep their place, a new entity starts at `start`. */
    method RegisterAt(name: string, dt: DataType, start: int) returns (r: Result<(Record, bool), StoreError>)
      requires Valid() && 0 <= start <= MAX && start <= allocator.ConfigFor(dt).maxIter + 1
      modifies allocator.store`records, allocator.store.disk
      ensures Valid()
      ensures r.Failure? ==> allocator.store.records == old(allocator.store.records) && name !in allocator.store.records
      ensures r.Success? ==>
                && name in allocator.store.records
                && r.value == (allocator.store.records[name], name !in old(allocator.store.records))
                && allocator.store.records == (if name in old(allocator.store.records) then old(allocator.store.records)
                   else old(allocator.store.records)[name := Record(name, dt, start, allocator.store.id.shardID)])
      ensures r.Success? <==> name in old(allocator.store.records) || old(allocator.store.disk.NextFate()).Done?
      ensures r.Failure? ==> allocator.store.disk.FailedSince(old(allocator.store.disk.writes))
      ensures allocator.store.disk.writes >= old(allocator.store.disk.writes)
      ensures r.Success? && r.value.1 ==> allocator.store.InSync()
      ensures SfFlushed(old(allocator.store.disk.file))
      ensures forall k :: k in old(allocator.store.records) ==>
                allocator.HeadOf(k) == old(allocator.HeadOf(k)) && allocator.Handed(k) == old(allocator.Handed(k))
      ensures r.Success? && r.value.1 ==> allocator.HeadOf(name) == start && allocator.Handed(name) == []
    {
      hide Reopen, A.Allocator.OkUnder, A.Allocator.EntitiesUnder, A.SoundRecords, A.BookOf, A.TypesOf, A.Allocator.BoundedUnder;
      hide Layout.MaxIter;
      ghost var was, file := allocator.store.records, Reopen(allocator.store.disk.file, allocator.store.id);
      allocator.ValidUnder();
      allocator.LoadedIsRegistered(name);
      r := allocator.store.Register(name, dt, start);
      allocator.Undisturbed(was, file);
      allocator.UndisturbedBounded(was, file);
    }

    // ----- ID generation -----

    /** mint for the counter types. Either all n IDs come out, or none and the counter has not moved. */
    method MintCounter(name: string, dt: DataType, n: int) returns (r: Result<Minted, MintError>)
      requires Valid() && !dt.Snowflake? && 1 <= n <= ProtocolBounds.MAX_BATCH && Room(name, dt, n)
      modifies allocator`entities, allocator.entities.Values, allocator.store`records, allocator.store.disk
      ensures Valid() && allocator.store.records.Keys == old(allocator.store.records.Keys)
      ensures r.Failure? ==> r.error.FromAllocator?
      ensures r == Failure(FromAllocator(A.ReserveFailed)) ==>
                allocator.store.disk.FailedSince(old(allocator.store.disk.writes))
      ensures r.Failure? && name in allocator.store.records && old(allocator.store.records[name].dataType) == dt ==>
                r.error.allocator in {A.Exhausted, A.ReserveFailed}
      ensures r == Failure(FromAllocator(A.Exhausted)) <==>
              && name in allocator.store.records && old(allocator.store.records[name].dataType) == dt
              && old(allocator.HeadOf(name)) + n - 1 > allocator.layout.MaxIter(dt.MaxValue())
      ensures r.Failure? && name in allocator.store.records ==>
                allocator.HeadOf(name) == old(allocator.HeadOf(name)) && allocator.Handed(name) == old(allocator.Handed(name))
      ensures r.Success? ==>
                && name in allocator.store.records && |r.value.values| == n
                && (forall i :: 0 <= i < n ==> WireOf(allocator.layout, codec, tweakFor(name), dt, old(allocator.HeadOf(name)) + i)
                                               == Success(r.value.values[i]))
                && (forall i :: 0 <= i < n ==>
                      Denotes(codec, tweakFor(name), dt, r.value.values[i],
                              allocator.layout.shardID + (old(allocator.HeadOf(name)) + i) * allocator.layout.totalShards))
                && allocator.HeadOf(name) == old(allocator.HeadOf(name)) + n
                && allocator.Handed(name) == old(allocator.Handed(name)) + [Range(old(allocator.HeadOf(name)), n)]
                && (r.value.range.Some? <==> dt.IsNumeric())
                && (dt.IsNumeric() ==> && r.value.range.value.Describes(r.value.values)
                                       && r.value.range.value == RangeFrom(allocator.layout, old(allocator.HeadOf(name)), n))
    {
      hide RangeInfo.Describes, Room, RangeFrom, WireOf, Denotes, A.Allocator.Valid, Layout.MaxIter, Layout.Value, Layout.Exact, A.Allocator.HeadOf, A.Allocator.Handed, A.Allocator.Fits, A.Allocator.Bounded;
      var l := allocator.layout;
      assert l.Valid() by { ValidLayout(); }
      RoomFits(name, dt, n);
      var next := allocator.Next(name, dt, n);
      if next.Failure? {
        return Failure(FromAllocator(next.error));
      }
      var first := next.value;
      EncodeAllSucceeds(l, codec, tweakFor(name), dt, first, n);
      var ids := EncodeAll(l, codec, tweakFor(name), dt, first, n);
      if ids.Failure? {
        assert false;  // every iteration that Next hands out has an ID
      }
      var values := ids.value;
      AllDenote(l, codec, tweakFor(name), dt, first, values);
      if !dt.IsNumeric() {
        return Success(Minted(values, None));
      }
      RangeDescribes(l, codec, tweakFor(name), dt, first, values);
      return Success(Minted(values, Some(RangeInfo(values[0].value, values[n - 1].value, l.totalShards, n))));
    }

    lemma RoomFits(name: string, dt: DataType, n: int)
      requires Valid() && n <= ProtocolBounds.MAX_BATCH && Room(name, dt, n)
      ensures allocator.Fits(name, dt, n)
    {
      hide A.Allocator.Exact, A.Allocator.EntityOk, Reopen;
      if ProtocolBounds.Roomy(allocator.ConfigFor(dt), 0) {
        allocator.BoundedFits(name, dt, n);
      }
    }

    lemma ValidLayout()
      requires allocator.Valid()
      ensures allocator.layout.Valid()
    {
    }

    /**
     mint for Snowflake: the IDs are the packed stamps that the forge has just issued. The lease is written
     to the same store and disturbs no counter.
     */
    method MintSnowflake(n: nat) returns (r: Result<Minted, MintError>, ghost stamps: seq<S.Stamp>, ghost run: seq<S.Action>)
      requires Valid()
      modifies forge, forge.clock, allocator.store, allocator.store.disk
      ensures Valid() && allocator.store.records == old(allocator.store.records) && forge.persist == old(forge.persist)
      ensures r.Failure? ==> r.error.FromForge?
      ensures r == Failure(FromForge(F.ClockBackwards)) ==>
                forge.clock.tick > 0 && forge.lastTimestamp - forge.clock.reading(forge.clock.tick - 1) > forge.tolerance
      ensures r == Failure(FromForge(F.PersistFailed)) ==>
                forge.persist != null && allocator.store.disk.FailedSince(old(allocator.store.disk.writes))
      ensures r.Failure? ==> r.error.forge.ClockBackwards? || r.error.forge.PersistFailed?
      ensures r.Success? ==>
                && |r.value.values| == n == |stamps| && S.Increasing(stamps) && r.value.range == None
                && (forall i :: 0 <= i < n ==> r.value.values[i] == Numeric(S.Pack(forge.epochMs, forge.shard, stamps[i])))
                && (forall i :: 0 <= i < n ==> S.Stamp(old(forge.lastTimestamp), old(forge.sequence)).Before(stamps[i]))
                && (forall i :: 0 <= i < n ==> forge.clock.Gave(stamps[i].ts, old(forge.clock.tick)))
                && (n > 0 ==> S.Stamp(forge.lastTimestamp, forge.sequence) == stamps[n - 1])
      ensures forge.issued == old(forge.issued) + stamps
      ensures old(forge.Backed()) ==> forge.Backed() && S.Run(old(forge.World([])), run) == Some(forge.World(stamps))
      ensures forall k :: k in allocator.store.records ==>
                allocator.HeadOf(k) == old(allocator.HeadOf(k)) && allocator.Handed(k) == old(allocator.Handed(k))
    {
      hide Reopen, A.Allocator.OkUnder, A.Allocator.EntitiesUnder, A.SoundRecords, A.BookOf, A.TypesOf, A.Allocator.BoundedUnder, S.Pack, S.Increasing, S.Run, A.Allocator.HeadIn, A.Allocator.Handed;
      ghost var was, file := allocator.store.records, Reopen(allocator.store.disk.file, allocator.store.id);
      allocator.ValidUnder();
      var ids;
      ids, stamps, run := forge.GenerateBatch(n);
      allocator.Undisturbed(was, file);
      allocator.UndisturbedBounded(was, file);
      if ids.Failure? {
        return Failure(FromForge(ids.error)), stamps, run;
      }
      return Success(Minted(seq(n, i requires 0 <= i < n => Numeric(ids.value[i])), None)), stamps, run;
    }

    /** mint, for an entity that is registered with this type. */
    method Mint(name: string, dt: DataType, n: int)
      returns (r: Result<Minted, MintError>, ghost stamps: seq<S.Stamp>, ghost run: seq<S.Action>)
      requires Valid() && 1 <= n <= ProtocolBounds.MAX_BATCH && Room(name, dt, n)
      requires name in allocator.store.records && allocator.store.records[name].dataType == dt
      modifies allocator`entities, allocator.entities.Values, allocator.store, allocator.store.disk, forge, forge.clock
      ensures Valid() && forge.persist == old(forge.persist) && name in allocator.store.records
      ensures r.Failure? && !dt.Snowflake? ==>
                && r.error.FromAllocator? && r.error.allocator in {A.Exhausted, A.ReserveFailed}
                && (r.error.allocator.Exhausted? <==> old(allocator.HeadOf(name)) + n - 1 > allocator.layout.MaxIter(dt.MaxValue()))
                && (r.error.allocator.ReserveFailed? ==> allocator.store.disk.FailedSince(old(allocator.store.disk.writes)))
      ensures r.Failure? && dt.Snowflake? ==> r.error.FromForge? && ForgeFailed(r.error.forge, old(allocator.store.disk.writes))
      ensures r.Failure? ==>
                allocator.HeadOf(name) == old(allocator.HeadOf(name)) && allocator.Handed(name) == old(allocator.Handed(name))
      ensures r.Success? ==> |r.value.values| == n
      ensures r.Success? && !dt.Snowflake? ==>
                && allocator.HeadOf(name) == old(allocator.HeadOf(name)) + n
                && (forall i :: 0 <= i < n ==> WireOf(allocator.layout, codec, tweakFor(name), dt, old(allocator.HeadOf(name)) + i)
                                               == Success(r.value.values[i]))
                && forall i :: 0 <= i < n ==>
                     Denotes(codec, tweakFor(name), dt, r.value.values[i],
                             allocator.layout.shardID + (old(allocator.HeadOf(name)) + i) * allocator.layout.totalShards)
      ensures r.Success? && dt.IsNumeric() ==>
                && r.value.range == Some(RangeFrom(allocator.layout, old(allocator.HeadOf(name)), n)) && r.value.range.value.Describes(r.value.values)
      ensures r.Success? && dt.Snowflake? ==> SnowflakeAnswer(old(S.Stamp(forge.lastTimestamp, forge.sequence)), old(forge.clock.tick), r.value.values, stamps)
      ensures forge.issued == old(forge.issued) + stamps
      ensures dt.Snowflake? && old(forge.Backed()) ==>
                forge.Backed() && S.Run(old(forge.World([])), run) == Some(forge.World(stamps))
    {
      hide F.Forge.Covered, A.Allocator.Bounded, RangeFrom, WireOf, Denotes, RangeInfo.Describes, A.Allocator.Valid, A.Allocator.HeadIn, A.Allocator.Handed, Layout.MaxIter, S.Pack, S.Increasing, S.Run, Reopen;
      stamps, run := [], [];
      if dt.Snowflake? {
        r, stamps, run := MintSnowflake(n);
      } else {
        r := MintCounter(name, dt, n);
      }
    }

    /** Why the forge refused: the clock is too far back now, or the lease was not written. */
    ghost predicate ForgeFailed(e: F.ForgeError, writes: nat)
      reads allocator.store, allocator.store.disk, forge, forge.clock
    {
      match e
      case ClockBackwards =>
        forge.clock.tick > 0 && forge.lastTimestamp - forge.clock.reading(forge.clock.tick - 1) > forge.tolerance
      case PersistFailed => forge.persist != null && allocator.store.disk.FailedSince(writes)
      case ClockBehindMark => false
    }

    /** The IDs are those of the stamps, which increase, come after the one that the forge was at, and are the clock's. */
    ghost predicate SnowflakeAnswer(at: S.Stamp, tick: nat, values: seq<ID>, stamps: seq<S.Stamp>)
      reads forge, forge.clock
    {
      && |stamps| == |values| && S.Increasing(stamps)
      && (forall i :: 0 <= i < |values| ==> values[i] == Numeric(S.Pack(forge.epochMs, forge.shard, stamps[i])))
      && (forall i :: 0 <= i < |values| ==> at.Before(stamps[i]))
      && (forall i :: 0 <= i < |values| ==> forge.clock.Gave(stamps[i].ts, tick))
      && (stamps != [] ==> S.Stamp(forge.lastTimestamp, forge.sequence) == stamps[|stamps| - 1])
    }

    /** handleNextID (n = 1) and handleNextBatch: register or check, then mint. */
    method HandleNext(name: string, dt: DataType, n: int)
      returns (reply: NextReply, ghost stamps: seq<S.Stamp>, ghost run: seq<S.Action>)
      requires Valid() && Room(name, dt, n)
      modifies allocator`entities, allocator.entities.Values, allocator.store, allocator.store.disk, forge, forge.clock
      ensures Valid() && forge.persist == old(forge.persist)
      ensures reply == BadBatchSize <==> !(1 <= n <= 10000)
      ensures reply.Unchecked? && reply.check.TypeDiffers? <==>
              && 1 <= n <= 10000 && name in old(allocator.store.records)
              && old(allocator.store.records)[name].dataType != dt
      ensures reply.Unchecked? && reply.check.RegisterFailed? ==>
                name !in old(allocator.store.records) && allocator.store.disk.FailedSince(old(allocator.store.disk.writes))
      ensures reply.Unminted? && !dt.Snowflake? ==>
                && reply.error.FromAllocator? && reply.error.allocator in {A.Exhausted, A.ReserveFailed}
                && (reply.error.allocator.Exhausted? <==>
                    old(Position(name)) + n - 1 > allocator.layout.MaxIter(dt.MaxValue()))
                && (reply.error.allocator.ReserveFailed? ==> allocator.store.disk.FailedSince(old(allocator.store.disk.writes)))
      ensures reply.Unminted? && dt.Snowflake? ==>
                reply.error.FromForge? && ForgeFailed(reply.error.forge, old(allocator.store.disk.writes))
      ensures !reply.Served? && name in old(allocator.store.records) ==>
                && name in allocator.store.records
                && allocator.HeadOf(name) == old(allocator.HeadOf(name)) && allocator.Handed(name) == old(allocator.Handed(name))
      ensures reply.Served? ==> name in allocator.store.records && |reply.minted.values| == n
      ensures reply.Served? && !dt.Snowflake? ==>
                var first := old(Position(name));
                && allocator.HeadOf(name) == first + n
                && (forall i :: 0 <= i < n ==>
                      WireOf(allocator.layout, codec, tweakFor(name), dt, first + i) == Success(reply.minted.values[i]))
                && forall i :: 0 <= i < n ==>
                     Denotes(codec, tweakFor(name), dt, reply.minted.values[i],
                             allocator.layout.shardID + (first + i) * allocator.layout.totalShards)
      ensures reply.Served? && dt.IsNumeric() ==>
                && reply.minted.range == Some(RangeFrom(allocator.layout, old(Position(name)), n))
                && reply.minted.range.value.Describes(reply.minted.values)
      ensures reply.Served? && dt.Snowflake? ==>
                SnowflakeAnswer(old(S.Stamp(forge.lastTimestamp, forge.sequence)), old(forge.clock.tick), reply.minted.values, stamps)
      ensures forge.issued == old(forge.issued) + stamps
      ensures dt.Snowflake? && (reply.Served? || reply.Unminted?) && old(forge.Backed()) ==>
                forge.Backed() && S.Run(old(forge.World([])), run) == Some(forge.World(stamps))
    {
      hide F.Forge.Covered, A.Allocator.Bounded, RangeFrom, WireOf, Denotes, RangeInfo.Describes, A.Allocator.Valid, A.Allocator.HeadIn, A.Allocator.Handed, Layout.MaxIter, S.Pack, S.Increasing, S.Run, Reopen;
      hide SnowflakeAnswer;
      stamps, run := [], [];
      if n < 1 || n > ProtocolBounds.MAX_BATCH {
        return BadBatchSize, stamps, run;
      }
      ghost var file := allocator.store.disk.file;
      ghost var w0 := if forge.Backed() then forge.World([]) else S.NEW_SHARD;
      var check := RegisterOrCheck(name, dt);
      ghost var flushed := allocator.store.disk.file != file;
      if !check.Proceed? {
        return Unchecked(check), stamps, run;
      }
      var r;
      r, stamps, run := Mint(name, dt, n);
      if flushed && w0 != S.NEW_SHARD && dt.Snowflake? {
        S.RunFrom(w0, S.OtherFlush, run);
        run := [S.OtherFlush] + run;
      }
      reply := if r.Failure? then Unminted(r.error) else Served(r.value);
    }

    // ----- entity lifecycle -----

    /** handleInit after decoding: a new entity whose first value is the least of this shard from startValue on. */
    method HandleInit(name: string, dt: DataType, startValue: Option<int>) returns (reply: InitReply)
      requires Valid() && (startValue.Some? ==> startValue.value <= MAX)
      modifies allocator.store`records, allocator.store.disk
      ensures Valid()
      ensures reply == InvalidStart <==>
              startValue.Some? && (!dt.IsNumeric() || ParseCounterValue(allocator.layout, dt, startValue.value).None?)
      ensures reply.Exists? <==> reply != InvalidStart && name in old(allocator.store.records)
      ensures reply.Exists? ==> reply.record == old(allocator.store.records)[name]
      ensures reply.Created? <==>
              && reply != InvalidStart && name !in old(allocator.store.records) && old(allocator.store.disk.NextFate()).Done?
      ensures reply.StoreFailed? <==>
              && reply != InvalidStart && name !in old(allocator.store.records) && !old(allocator.store.disk.NextFate()).Done?
      ensures !reply.Created? ==> allocator.store.records == old(allocator.store.records)
      ensures forall k :: k in old(allocator.store.records) ==>
                && k in allocator.store.records && allocator.store.records[k] == old(allocator.store.records)[k]
                && allocator.HeadOf(k) == old(allocator.HeadOf(k)) && allocator.Handed(k) == old(allocator.Handed(k))
      ensures reply.Created? ==>
                && name in allocator.store.records && allocator.store.records[name].dataType == dt && allocator.store.InSync()
                && allocator.HeadOf(name) == allocator.store.records[name].iteration && allocator.Handed(name) == []
                && (startValue.None? ==> allocator.HeadOf(name) == 0)
                && (startValue.Some? ==> IsLeastFrom(allocator.layout, startValue.value, allocator.layout.Value(allocator.HeadOf(name))))
                && reply.next == (if dt.IsNumeric() then Some(allocator.layout.Value(allocator.HeadOf(name))) else None)
                && (dt.IsNumeric() ==> reply.next == Some(allocator.layout.shardID + allocator.HeadOf(name) * allocator.layout.totalShards))
    {
      hide A.Allocator.Bounded, Denotes, WireOf, ParseCounterValue, A.Allocator.Valid, A.Allocator.HeadOf, A.Allocator.Handed, IsLeastFrom;
      hide Layout.MaxIter, Layout.Value, Layout.Exact, Layout.Iter, Layout.Owns, Store.InSync;
      if startValue.Some? && !dt.IsNumeric() {
        return InvalidStart;
      }
      var l := allocator.layout;
      assert l.Valid() by { ValidLayout(); }
      var initialIter := 0;
      MaxIterFits(l, dt);
      if startValue.Some? {
        var snapped := ParseCounterValue(l, dt, startValue.value);
        if snapped.None? {
          return InvalidStart;
        }
        initialIter := l.Iter(snapped.value);
      }
      var r := RegisterAt(name, dt, initialIter);
      if r.Failure? {
        return StoreFailed;
      }
      var (rec, created) := r.value;
      if !created {
        return Exists(rec);
      }
      if startValue.None? {
        ValueOfFirst(l);
      }
      return Created(if dt.IsNumeric() then Some(l.Value(initialIter)) else None);
    }

    lemma ValueOfFirst(l: Layout)
      requires l.Valid()
      ensures l.Value(0) == l.shardID
    {
      ValueIsExact(l, 0);
    }

    /** The value that a reset to `value` means: for a registered number entity, the value snapped to this shard. */
    ghost function Requested(name: string, value: int): Option<int>
      requires allocator.layout.Valid() && value <= MAX
      reads allocator.store
    {
      if name in allocator.store.records && allocator.store.records[name].dataType.IsNumeric()
      then ParseCounterValue(allocator.layout, allocator.store.records[name].dataType, value)
      else None
    }

    /**
     handleReset after decoding: the next value becomes the least of this shard from `value` on, unless
     that lies before the present one and force is not given.
     */
    method HandleReset(name: string, value: int, force: bool) returns (reply: ResetReply)
      requires Valid() && value <= MAX
      modifies allocator`entities, allocator.entities.Values, allocator.store`records, allocator.store.disk
      ensures allocator.store.records.Keys == old(allocator.store.records.Keys)
      ensures Valid() <==> !allocator.Torn(name)
      ensures reply == UnknownName <==> name !in allocator.store.records
      ensures reply == NotNumeric <==> name in allocator.store.records && !old(allocator.store.records[name].dataType).IsNumeric()
      ensures reply == InvalidValue <==>
              && name in allocator.store.records && old(allocator.store.records[name].dataType).IsNumeric()
              && old(Requested(name, value)).None?
      ensures var to := old(Requested(name, value));
              && (reply.Refused? <==> to.Some? && !old(allocator.Proceeds(name, allocator.layout.Iter(to.value), force)))
              && (reply.Moved? <==> && to.Some? && old(allocator.Proceeds(name, allocator.layout.Iter(to.value), force))
                                    && old(allocator.ResetFate(name)).Done?)
              && (reply.ResetFailed? <==> && to.Some? && old(allocator.Proceeds(name, allocator.layout.Iter(to.value), force))
                                          && !old(allocator.ResetFate(name)).Done?)
              && (allocator.Torn(name) <==> && reply.ResetFailed? && old(allocator.ResetFate(name)).FailedAfter?
                                            && allocator.layout.Iter(to.value) < old(allocator.WindowEnd(name)))
      ensures reply.Refused? ==> reply.next == allocator.layout.Value(allocator.HeadOf(name))
      ensures !reply.Moved? && name in allocator.store.records ==>
                allocator.HeadOf(name) == old(allocator.HeadOf(name)) && allocator.Handed(name) == old(allocator.Handed(name))
      ensures reply.Moved? ==>
                && name in allocator.store.records
                && reply.actual == allocator.layout.Value(allocator.HeadOf(name))
                && reply.actual == allocator.layout.shardID + reply.newIter * allocator.layout.totalShards
                && IsLeastFrom(allocator.layout, value, reply.actual)
                && reply.newIter == allocator.HeadOf(name) && reply.previousIter == old(allocator.HeadOf(name))
                && reply.previous == allocator.layout.Value(reply.previousIter)
                && allocator.store.Tracks(name) && allocator.store.MarkOf(name) == Mark(reply.newIter, reply.newIter)
                && (reply.forced <==> reply.newIter < reply.previousIter)
                && allocator.Handed(name) == (if reply.forced then [] else old(allocator.Handed(name)))
    {
      hide F.Forge.Covered, ParseCounterValue, A.Allocator.Valid, A.Allocator.HeadOf, A.Allocator.Handed, IsLeastFrom, A.Allocator.Torn, A.Allocator.Bounded;
      hide A.Allocator.WindowEnd, A.Allocator.ResetFate, A.Allocator.Proceeds;
      hide Layout.MaxIter, Layout.Value, Layout.Exact, Layout.Iter, Layout.Owns, Store.Tracks, Store.MarkOf;
      assert !allocator.Torn(name) by { allocator.ValidIsWhole(name); }
      var rec := allocator.store.Get(name);
      if rec.None? {
        return UnknownName;
      }
      var dt := rec.value.dataType;
      if !dt.IsNumeric() {
        return NotNumeric;
      }
      assert allocator.layout.Valid() by { ValidLayout(); }
      var snapped := ParseCounterValue(allocator.layout, dt, value);
      if snapped.None? {
        return InvalidValue;
      }
      reply := MoveTo(name, dt, snapped.value, force);
    }

    /** handlers.go:393-424: the reset and its answer. */
    method MoveTo(name: string, dt: DataType, snapped: int, force: bool) returns (reply: ResetReply)
      requires Valid() && name in allocator.store.records && allocator.store.records[name].dataType == dt
      requires 0 <= allocator.layout.Iter(snapped) <= allocator.layout.MaxIter(dt.MaxValue())
      requires allocator.layout.Value(allocator.layout.Iter(snapped)) == snapped
      modifies allocator`entities, allocator.entities.Values, allocator.store`records, allocator.store.disk
      ensures allocator.store.records.Keys == old(allocator.store.records.Keys)
      ensures Valid() <==> !allocator.Torn(name)
      ensures var go := old(allocator.Proceeds(name, allocator.layout.Iter(snapped), force));
              && (reply.Refused? <==> !go)
              && (reply.Moved? <==> go && old(allocator.ResetFate(name)).Done?)
              && (reply.ResetFailed? <==> go && !old(allocator.ResetFate(name)).Done?)
              && (allocator.Torn(name) <==> && go && old(allocator.ResetFate(name)).FailedAfter?
                                            && allocator.layout.Iter(snapped) < old(allocator.WindowEnd(name)))
      ensures reply.Refused? ==> reply.next == allocator.layout.Value(allocator.HeadOf(name))
      ensures !reply.Moved? ==>
                allocator.HeadOf(name) == old(allocator.HeadOf(name)) && allocator.Handed(name) == old(allocator.Handed(name))
      ensures reply.Moved? ==>
                && reply.actual == snapped == allocator.layout.Value(allocator.HeadOf(name))
                && reply.newIter == allocator.HeadOf(name) == allocator.layout.Iter(snapped)
                && reply.previousIter == old(allocator.HeadOf(name))
                && reply.previous == allocator.layout.Value(reply.previousIter)
                && allocator.store.Tracks(name) && allocator.store.MarkOf(name) == Mark(reply.newIter, reply.newIter)
                && (reply.forced <==> reply.newIter < reply.previousIter)
                && allocator.Handed(name) == (if reply.forced then [] else old(allocator.Handed(name)))
    {
      hide A.Allocator.Valid, A.Allocator.HeadOf, A.Allocator.Handed, A.Allocator.Torn, A.Allocator.Bounded, A.Allocator.Types;
      hide A.Allocator.WindowEnd, A.Allocator.ResetFate;
      hide Layout.MaxIter, Layout.Value, Layout.Exact, Layout.Iter, Layout.Owns, Store.Tracks, Store.MarkOf;
      var l := allocator.layout;
      assert l.Valid() by { ValidLayout(); }
      var newIter := l.Iter(snapped);
      MaxIterFits(l, dt);
      ghost var types := allocator.Types();
      allocator.SameType(name, types);
      var prevIter, r := allocator.Reset(name, newIter, force);
      allocator.SameType(name, types);
      if r == Failure(A.Backward) {
        return Refused(l.Value(prevIter));
      }
      if r.Failure? {
        return ResetFailed;
      }
      return Moved(l.Value(prevIter), snapped, prevIter, newIter, force && newIter < prevIter);
    }
  }
}
