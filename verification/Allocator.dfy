/**
 internal/allocator as objects. Each entity carries, beside its fields, the protocol run that its
 calls amount to: every method is proved to extend that run, so the protocol's theorems hold of
 the objects. A call here is not interleaved with other calls, but refills run in the background.
 */
module Allocator {
  import opened Wrappers
  import opened Int64
  import opened DataTypes
  import opened ShardMath
  import opened Reservation
  import opened StateFile
  import opened StateStore
  import opened Protocol
  import opened ProtocolInvariant
  import opened ProtocolTheorems
  import opened ProtocolTight
  import opened ProtocolBounds
  import opened ProtocolPaths

  datatype AllocError = BadCount | NotCounter | UnknownEntity | TypeMismatch | Exhausted | ReserveFailed | BadTarget | Backward | SetFailed

  class Entity {
    var loaded: bool
    var dataType: DataType
    var loadMark: int
    var cursor: int
    var reservedEnd: int
    var reserving: bool

    ghost var origin: State
    ghost var run: seq<Action>
    ghost var model: State

    constructor ()
      ensures !loaded && !reserving
    {
      loaded := false;
      dataType := Int;
      loadMark := 0;
      cursor := 0;
      reservedEnd := 0;
      reserving := false;
      origin := Fresh(0);
      run := [];
      model := Fresh(0);
    }

    /** The model is what the run of protocol steps makes of the state at load time. */
    ghost predicate Traced(c: Config)
      reads this
    {
      c.Valid() && Inv(c, origin) && origin.hist == [] && !origin.loaded && Leads(c, origin, run, model)
    }

    /** The fields are those of the protocol state m, with at most one refill goroutine, number 0. */
    ghost predicate Mirrors(m: State)
      reads this
    {
      && m.up && m.loaded && m.loadMark == loadMark && m.cursor == cursor && m.reservedEnd == reservedEnd
      && m.reserving == reserving
      && m.refills == if reserving then map[0 := Writing(reservedEnd)] else map[]
    }

    ghost method Follow(c: Config, acts: seq<Action>, s: State)
      requires Traced(c) && Leads(c, model, acts, s)
      modifies this`run, this`model
      ensures Traced(c) && model == s
    {
      LeadsOn(c, origin, run, model, acts, s);
      run := run + acts;
      model := s;
    }

    lemma Keeps(c: Config)
      requires Traced(c)
      ensures Inv(c, model)
    {
      RunKeeps(c, origin, run);
    }

    lemma KeepsTight(c: Config)
      requires Traced(c)
      ensures TightIfOne(c, model)
    {
      hide Inv, Exec, Clean;
      if c.segmentSize == 1 {
        RunTight(c, origin, run);
      }
    }
  }

  /** A loaded-to-be entity at the given mark, before any call. */
  ghost function Dormant(m: Mark): State {
    Fresh(m.mem).(mark := m)
  }

  ghost function BookOf(records: map<string, Record>, onDisk: Result<Memory, OpenError>): map<string, Mark> {
    map k | k in records && onDisk.Success? && k in onDisk.value.records ::
      Mark(records[k].iteration, onDisk.value.records[k].iteration)
  }

  /** Every record has a sound mark in memory and in the file. */
  ghost predicate SoundRecords(records: map<string, Record>, onDisk: Result<Memory, OpenError>) {
    forall k :: k in records ==>
                  && onDisk.Success? && k in onDisk.value.records
                  && 0 <= records[k].iteration <= onDisk.value.records[k].iteration <= MAX
  }

  ghost function TypesOf(records: map<string, Record>): map<string, DataType> {
    map k | k in records :: records[k].dataType
  }

  class Allocator {
    const layout: Layout
    const segmentSize: int
    const threshold: int
    const store: Store
    var entities: map<string, Entity>

    constructor (layout: Layout, segmentSize: int, threshold: int, store: Store)
      requires layout.Valid() && 1 <= threshold <= segmentSize <= MAX && store.Valid()
      ensures this.layout == layout && this.segmentSize == segmentSize && this.threshold == threshold
      ensures this.store == store && entities == map[]
      ensures Sane() ==> Valid()
    {
      this.layout := layout;
      this.segmentSize := segmentSize;
      this.threshold := threshold;
      this.store := store;
      this.entities := map[];
    }

    ghost function ConfigFor(dt: DataType): Config
      requires layout.Valid()
    {
      Config(segmentSize, threshold, layout.MaxIter(dt.MaxValue()))
    }

    ghost predicate Sane()
      reads store, store.disk
    {
      store.Valid() && SoundRecords(store.records, Reopen(store.disk.file, store.id)) && store.SfAhead()
    }

    /** The store has the entity's mark; the file may be one foreign flush ahead of the model. */
    ghost predicate Follows(e: Entity, name: string)
      reads e, store, store.disk
    {
      && store.Tracks(name)
      && store.MarkOf(name).mem == e.model.mark.mem
      && store.MarkOf(name).disk in {e.model.mark.disk, e.model.mark.mem}
    }

    /** The model of a loaded entity: no call in progress, and a refill only while the type is not exceeded. */
    ghost predicate Resting(e: Entity)
      requires layout.Valid()
      reads e
    {
      && e.Traced(ConfigFor(e.dataType)) && Idle(e.model) && e.Mirrors(Load(e.model))
      && Unexceeded(e)
    }

    ghost predicate Unexceeded(e: Entity)
      requires layout.Valid()
      reads e
    {
      e.reserving ==> e.cursor <= ConfigFor(e.dataType).maxIter + 1
    }

    ghost predicate EntityOk(e: Entity, name: string)
      requires layout.Valid()
      reads e, store, store.disk
    {
      if e.loaded then Follows(e, name) && e.dataType == store.records[name].dataType && Resting(e) else !e.reserving
    }

    ghost predicate Valid()
      reads this, store, store.disk, entities.Values
    {
      && layout.Valid() && 1 <= threshold <= segmentSize <= MAX
      && Sane()
      && (forall k :: k in entities ==> EntityOk(entities[k], k))
      && (forall j, k :: j in entities && k in entities && j != k ==> entities[j] != entities[k])
    }

    /** The next iteration of a registered entity: its cursor, or its mark while it is not loaded. */
    ghost function HeadOf(name: string): int
      requires name in store.records
      reads this, store, entities.Values
    {
      HeadIn(store.records, name)
    }

    ghost function HeadIn(records: map<string, Record>, name: string): int
      requires name in records
      reads this, entities.Values
    {
      if name in entities && entities[name].loaded then entities[name].cursor else records[name].iteration
    }

    /** The ranges this process has handed out for the entity since its last forced move back. */
    ghost function Handed(name: string): seq<Range>
      reads this, entities.Values
    {
      if name in entities && entities[name].loaded then entities[name].model.hist else []
    }

    // ----- what Valid says -----

    /** No iteration is handed out twice by the object, and all are below its next one and its durable mark. */
    lemma HandedOnce(name: string)
      requires Valid() && name in store.records
      ensures forall i, j, x :: 0 <= i < j < |Handed(name)| ==> !(Handed(name)[i].Has(x) && Handed(name)[j].Has(x))
      ensures forall i, x :: 0 <= i < |Handed(name)| && Handed(name)[i].Has(x) ==>
                               x < HeadOf(name) && x < store.MarkOf(name).mem && x < store.MarkOf(name).disk
      ensures store.Tracks(name) && HeadOf(name) <= store.MarkOf(name).disk
    {
      if name in entities && entities[name].loaded {
        var e := entities[name];
        assert EntityOk(e, name);
        e.Keeps(ConfigFor(e.dataType));
      }
    }

    // ----- store frame -----

    /** All marks, in memory and in the file, by name. */
    ghost function Book(): map<string, Mark>
      reads store, store.disk
    {
      BookOf(store.records, Reopen(store.disk.file, store.id))
    }

    ghost function Types(): map<string, DataType>
      reads store
    {
      TypesOf(store.records)
    }

    /** Between two books, only `name` has moved; a flush may have brought other marks in the file up to date. */
    ghost predicate OthersKept(name: string, b: map<string, Mark>, b': map<string, Mark>) {
      && b.Keys == b'.Keys
      && forall k :: k in b && k != name ==> b'[k].mem == b[k].mem && b'[k].disk in {b[k].disk, b[k].mem}
    }

    lemma OthersStay(name: string, b: map<string, Mark>)
      ensures OthersKept(name, b, b)
    {
    }

    lemma OthersGoOn(name: string, b: map<string, Mark>, b': map<string, Mark>, b'': map<string, Mark>)
      requires OthersKept(name, b, b') && OthersKept(name, b', b'')
      ensures OthersKept(name, b, b'')
    {
    }

    // ----- internals -----

    /** Inside a call: the model has the very mark of the store. */
    ghost predicate Core(e: Entity, name: string)
      requires layout.Valid()
      reads e, store, store.disk
    {
      && e.loaded && Sane() && store.Tracks(name) && e.model.mark == store.MarkOf(name)
      && e.Traced(ConfigFor(e.dataType)) && e.Mirrors(Load(e.model)) && Unexceeded(e)
    }

    /** The file's mark has not risen, or not above the highest that calls within the type need. */
    ghost predicate Peaked(c: Config, before: Mark, after: Mark) {
      after.disk <= before.disk || after.disk <= Top(c, 0)
    }

    /** A foreign flush that the model has not seen yet is one step of the protocol. */
    ghost method CatchUp(e: Entity, name: string)
      requires layout.Valid() && Sane() && e.loaded && EntityOk(e, name)
      modifies e`run, e`model
      ensures Core(e, name) && e.model == old(e.model).(mark := store.MarkOf(name))
    {
      hide Leads, Inv, Sane, Book, Types, Reopen, Wrap, Grow, Raise, Committed;
      var c := ConfigFor(e.dataType);
      var m := store.MarkOf(name);
      if m.disk == e.model.mark.disk {
        assert e.model == e.model.(mark := m);
      } else {
        LeadsOne(c, e.model, OtherFlush);
        e.Follow(c, [OtherFlush], e.model.(mark := m));
      }
    }

    method EntityFor(name: string) returns (e: Entity)
      requires Valid()
      modifies this`entities
      ensures Valid() && name in entities && entities[name] == e
      ensures if name in old(entities) then entities == old(entities)
              else fresh(e) && !e.loaded && entities == old(entities)[name := e]
    {
      if name in entities {
        return entities[name];
      }
      e := new Entity();
      entities := entities[name := e];
    }

    /** loadLocked: the window starts empty at the durable mark. */
    method LoadLocked(e: Entity, name: string) returns (ok: bool)
      requires layout.Valid() && 1 <= threshold <= segmentSize <= MAX && Sane() && EntityOk(e, name)
      modifies e
      ensures ok == (old(e.loaded) || name in store.records)
      ensures EntityOk(e, name) && e.loaded == ok
      ensures old(e.loaded) ==> unchanged(e)
      ensures ok && !old(e.loaded) ==>
                && e.dataType == store.records[name].dataType && e.model == Dormant(store.MarkOf(name))
                && e.cursor == e.reservedEnd == e.loadMark == store.records[name].iteration && !e.reserving
    {
      hide Inv, Leads, Reopen, Wrap, Book, Types, Committed;
      if e.loaded {
        return true;
      }
      var rec := store.Get(name);
      if rec.None? {
        return false;
      }
      ghost var c := ConfigFor(rec.value.dataType);
      ConfigIsValid(rec.value.dataType);
      e.dataType := rec.value.dataType;
      e.loadMark := rec.value.iteration;
      e.cursor := rec.value.iteration;
      e.reservedEnd := rec.value.iteration;
      e.loaded := true;
      e.origin := Dormant(store.MarkOf(name));
      e.run := [];
      e.model := e.origin;
      DormantInv(c, store.MarkOf(name));
      LeadsNowhere(c, e.origin);
      return true;
    }

    lemma DormantInv(c: Config, m: Mark)
      requires c.Valid() && 0 <= m.mem <= m.disk <= MAX
      ensures Inv(c, Dormant(m)) && Dormant(m).hist == [] && !Dormant(m).loaded && Idle(Dormant(m))
    {
      hide Wrap;
    }

    lemma ConfigIsValid(dt: DataType)
      requires layout.Valid() && 1 <= threshold <= segmentSize <= MAX
      ensures ConfigFor(dt).Valid()
    {
    }

    /** What the invariant says of the refill in flight: it does not wrap, nor go above the peak. */
    lemma RefillRoom(e: Entity, name: string)
      requires layout.Valid() && Core(e, name) && e.reserving && e.model.loaded
      ensures 0 <= e.cursor <= e.reservedEnd && e.reservedEnd + segmentSize <= MAX
      ensures e.reservedEnd + segmentSize <= Top(ConfigFor(e.dataType), 0)
      ensures store.MarkOf(name).mem == e.reservedEnd
    {
      hide Leads, Reopen, Sane, Contiguous, Threads, Issued, Logged, TightIfOne;
      e.Keeps(ConfigFor(e.dataType));
      e.KeepsTight(ConfigFor(e.dataType));
      RefillSlack(ConfigFor(e.dataType), e.model);
      assert RefillOk(ConfigFor(e.dataType), e.model, e.model.refills[0]);
    }

    /** What the invariant says of the window inside a call. */
    lemma WindowFacts(e: Entity, name: string)
      requires layout.Valid() && Core(e, name) && e.model.loaded
      ensures 0 <= e.cursor <= e.reservedEnd <= MAX
    {
      hide Leads, Reopen, Sane, Contiguous, Threads, Issued, Logged;
      e.Keeps(ConfigFor(e.dataType));
    }

    /** store.RaiseMark, with its effect on the book. */
    method RaiseStoreMark(name: string, iter: int) returns (ok: bool)
      requires Sane() && store.Tracks(name) && 0 <= iter <= MAX
      modifies store`records, store.disk
      ensures Sane() && store.Tracks(name)
      ensures (ok, store.MarkOf(name)) == Raise(old(store.MarkOf(name)), iter, old(store.disk.NextFate()))
      ensures store.disk.writes == old(store.disk.writes) + if iter > old(store.MarkOf(name)).mem then 1 else 0
      ensures OthersKept(name, old(Book()), Book()) && Types() == old(Types())
    {
      hide Reopen, Committed;
      var r := store.RaiseMark(name, iter);
      ok := r.Success?;
    }

    /** The part of refill after its start: the write, then the end of the reservation. */
    method CompleteRefill(e: Entity, name: string)
      requires layout.Valid() && Core(e, name) && e.model.loaded && e.model.lock.None? && e.reserving
      modifies e, store`records, store.disk
      ensures Core(e, name) && e.dataType == old(e.dataType)
      ensures e.model == Refilled(ConfigFor(e.dataType), old(e.model), old(store.disk.NextFate()))
                         .(threads := map t | t in old(e.model).threads :: old(e.model).threads[t].Woken())
      ensures store.disk.writes == old(store.disk.writes) + 1
      ensures Peaked(ConfigFor(e.dataType), old(store.MarkOf(name)), store.MarkOf(name))
      ensures OthersKept(name, old(Book()), Book()) && Types() == old(Types())
    {
      hide Leads, Inv, Sane, Book, Types, Reopen, Wrap, Grow, Committed, OthersKept, Top, Store.Tracks, Store.MarkOf;
      ghost var c := ConfigFor(e.dataType);
      ghost var o := store.disk.NextFate();
      RefillRoom(e, name);
      RefillPath(c, e.model, o);
      ghost var s := Refilled(c, e.model, o).(threads := map t | t in e.model.threads :: e.model.threads[t].Woken());
      var to := Wrap(e.reservedEnd + segmentSize);
      var ok := RaiseStoreMark(name, to);
      assert s.mark == store.MarkOf(name);
      if ok {
        e.reservedEnd := to;
      }
      e.reserving := false;
      assert e.Mirrors(s);
      e.Follow(c, [RefillWrite(0, o), RefillFinish(0)], s);
    }

    /** cond.Wait: the background refill runs to its end while the call is parked. */
    method AwaitRefill(e: Entity, name: string, ghost pc: Pc)
      requires layout.Valid() && Core(e, name) && Alone(e.model, pc) && e.reserving && (Short(e.model, pc) || pc.ResetLoop?)
      modifies e, store`records, store.disk
      ensures Core(e, name) && e.loaded && e.dataType == old(e.dataType)
      ensures Alone(e.model, Resumed(pc)) && 0 <= e.cursor <= e.reservedEnd
      ensures !e.reserving && e.cursor == old(e.cursor) && e.model.hist == old(e.model.hist)
      ensures e.reservedEnd == old(e.reservedEnd) + if old(store.disk.NextFate()).Done? then segmentSize else 0
      ensures store.disk.writes == old(store.disk.writes) + 1
      ensures Peaked(ConfigFor(e.dataType), old(store.MarkOf(name)), store.MarkOf(name))
      ensures OthersKept(name, old(Book()), Book()) && Types() == old(Types())
    {
      hide Leads, Inv, Sane, Book, Types, Reopen, Wrap, Grow, Raise, Committed, OthersKept, Peaked, Store.Tracks, Store.MarkOf;
      ghost var c := ConfigFor(e.dataType);
      ghost var s0, o := e.model, store.disk.NextFate();
      RefillRoom(e, name);
      ParkPath(c, s0, pc);
      ghost var s1 := s0.(threads := map[0 := ParkedPc(pc)], lock := None);
      assert e.Mirrors(s1);
      e.Follow(c, [Park(0)], s1);
      CompleteRefill(e, name);
      RefilledFacts(c, s1, o);
      assert e.model.threads == map[0 := ParkedPc(pc).Woken()];
      ReacquirePath(c, e.model, pc);
      e.Follow(c, [Reacquire(0)], e.model.(threads := map[0 := Resumed(pc)], lock := Some(0)));
    }

    /** allocator.go:111-116: the inline reservation. On failure the call is over. */
    method ReserveInline(e: Entity, name: string, n: int, ghost pc: Pc) returns (ok: bool)
      requires layout.Valid() && Core(e, name) && Alone(e.model, pc) && !e.reserving
      requires pc.NextLoop? && pc.n == n && Short(e.model, pc) && 1 <= n
      requires 0 <= e.cursor <= e.reservedEnd
      requires e.cursor + n <= ConfigFor(e.dataType).maxIter + 1 && e.cursor + n + segmentSize - 1 <= MAX
      modifies e, store`records, store.disk
      ensures Core(e, name) && e.dataType == old(e.dataType) && e.cursor == old(e.cursor) && e.model.hist == old(e.model.hist)
      ensures if ok then Alone(e.model, pc) && !e.reserving && n <= e.reservedEnd - e.cursor < n + segmentSize
              else Idle(e.model) && store.disk.FailedSince(old(store.disk.writes))
      ensures store.disk.writes >= old(store.disk.writes)
      ensures Peaked(ConfigFor(e.dataType), old(store.MarkOf(name)), store.MarkOf(name))
      ensures OthersKept(name, old(Book()), Book()) && Types() == old(Types())
    {
      hide Leads, Inv, Sane, Book, Types, Reopen, Wrap, Grow, Committed, Store.Tracks, Store.MarkOf;
      ghost var c := ConfigFor(e.dataType);
      ghost var o := store.disk.NextFate();
      WindowFacts(e, name);
      assert e.model.Remaining() == e.reservedEnd - e.cursor;
      GrowCovers(c.segmentSize, n - (e.reservedEnd - e.cursor));
      InlinePath(c, e.model, pc, o);
      var short := Wrap(n - Wrap(e.reservedEnd - e.cursor));
      var end := Wrap(e.reservedEnd + Grow(segmentSize, short));
      ok := RaiseStoreMark(name, end);
      ghost var mark := store.MarkOf(name);
      if ok {
        e.reservedEnd := end;
        e.Follow(c, [InlineWrite(0, o), InlineExtend(0)], e.model.(mark := mark, reservedEnd := end));
      } else {
        e.Follow(c, [InlineWrite(0, o)], e.model.(mark := mark, threads := map[], lock := None));
      }
    }

    /** allocator.go:118-120: the range is taken, and a refill starts if the window runs low. */
    method TakeLocked(e: Entity, name: string, n: int, ghost pc: Pc) returns (first: int)
      requires layout.Valid() && Core(e, name) && Alone(e.model, pc) && pc.NextLoop? && pc.n == n && !Short(e.model, pc)
      requires 1 <= n && 0 <= e.cursor <= e.reservedEnd
      requires e.cursor + n <= ConfigFor(e.dataType).maxIter + 1 && e.cursor + n + threshold + segmentSize <= MAX
      modifies e
      ensures Core(e, name) && Idle(e.model) && e.model.loaded && e.dataType == old(e.dataType)
      ensures first == old(e.cursor) && e.cursor == first + n && e.reservedEnd == old(e.reservedEnd)
      ensures e.reserving <==> old(e.reserving) || e.reservedEnd - e.cursor <= threshold
      ensures e.model.hist == old(e.model.hist) + [Range(first, n)]
    {
      hide Leads, Inv, Sane, Book, Types, Reopen, Wrap, Grow, Raise, Committed, Store.Tracks, Store.MarkOf;
      ghost var c := ConfigFor(e.dataType);
      WindowFacts(e, name);
      assert e.reserving ==> e.model.refills.Keys == {0};
      TakePath(c, e.model, pc);
      ghost var s := TakeRange(c, e.model, 0, n, if e.reserving then 1 else 0);
      ghost var was := e.reserving;
      first := e.cursor;
      e.cursor := Wrap(e.cursor + n);
      if !e.reserving && Wrap(e.reservedEnd - e.cursor) <= threshold {
        e.reserving := true;
      }
      e.Follow(c, [Take(0, if was then 1 else 0)], s);
    }

    /** What the invariant says of an idle, loaded entity. */
    lemma IdleFacts(e: Entity, name: string)
      requires layout.Valid() && Sane() && e.loaded && EntityOk(e, name)
      ensures 0 <= e.cursor <= e.reservedEnd <= store.records[name].iteration
      ensures Load(e.model).cursor == e.cursor && e.model.Head() == e.cursor
      ensures e.reserving ==> e.model.loaded
    {
      e.Keeps(ConfigFor(e.dataType));
    }

    /** The object and its model agree on whether the window is short. */
    lemma ShortAgrees(e: Entity, name: string, pc: Pc)
      requires layout.Valid() && Core(e, name) && Alone(e.model, pc) && pc.NextLoop?
      ensures Short(e.model, pc) <==> Wrap(e.reservedEnd - e.cursor) < pc.n
    {
      hide Leads, Inv, Sane, Wrap, Reopen;
    }

    /** allocator.go:95-105: the lock, and the exhaustion check. */
    method EnterLocked(e: Entity, name: string, n: int) returns (refused: bool)
      requires layout.Valid() && Sane() && e.loaded && EntityOk(e, name) && 1 <= n <= MAX && e.cursor + n - 1 <= MAX
      modifies e`run, e`model
      ensures Core(e, name) && e.model.hist == old(e.model.hist)
      ensures refused <==> e.cursor + n - 1 > ConfigFor(e.dataType).maxIter
      ensures if refused then Idle(e.model) else Alone(e.model, NextLoop(n, e.cursor, false))
      ensures 0 <= e.cursor <= e.reservedEnd
    {
      hide Leads, Inv, Sane, Book, Types, Reopen, Wrap, Grow, Raise, Committed;
      ghost var c := ConfigFor(e.dataType);
      IdleFacts(e, name);
      CatchUp(e, name);
      e.Keeps(c);
      EnterPath(c, e.model, n);
      WrapTwice(e.cursor + n, -1);
      var maxIter := layout.MaxIter(e.dataType.MaxValue());
      refused := Wrap(Wrap(e.cursor + n) - 1) > maxIter;
      ghost var l := Load(e.model);
      e.Follow(c, [CallNext(0, n), EnterNext(0)],
               if refused then l else l.(threads := map[0 := NextLoop(n, l.cursor, false)], lock := Some(0)));
    }

    /** Next after its checks on count, registration and type. */
    method NextLocked(e: Entity, name: string, n: int) returns (r: Result<int, AllocError>)
      requires layout.Valid() && 1 <= threshold <= segmentSize && Sane() && e.loaded && EntityOk(e, name) && 1 <= n <= MAX
      requires Exact(ConfigFor(e.dataType), e.cursor, n)
      modifies e, store`records, store.disk
      ensures Core(e, name) && Idle(e.model) && e.dataType == old(e.dataType)
      ensures r == Failure(Exhausted) <==> old(e.cursor) + n - 1 > layout.MaxIter(e.dataType.MaxValue())
      ensures r.Failure? ==> r.error in {Exhausted, ReserveFailed} && e.cursor == old(e.cursor) && e.model.hist == old(e.model.hist)
      ensures r.Success? ==> && 0 <= r.value == old(e.cursor) && e.cursor == r.value + n
                             && e.model.hist == old(e.model.hist) + [Range(r.value, n)]
      ensures r == Failure(ReserveFailed) ==> store.disk.FailedSince(old(store.disk.writes))
      ensures store.Tracks(name) && Peaked(ConfigFor(e.dataType), old(store.MarkOf(name)), store.MarkOf(name))
      ensures OthersKept(name, old(Book()), Book()) && Types() == old(Types())
    {
      hide Core, Short, Alone, Sane, EntityOk, Book, Types, Wrap, OthersKept, Store.Tracks, Store.MarkOf;
      OthersStay(name, Book());
      var refused := EnterLocked(e, name, n);
      CoreTracks(e, name);
      if refused {
        return Failure(Exhausted);
      }
      ghost var c := ConfigFor(e.dataType);
      ghost var pc := NextLoop(n, e.cursor, false);
      while Wrap(e.reservedEnd - e.cursor) < n
        invariant Core(e, name) && store.Tracks(name) && e.dataType == old(e.dataType) && e.cursor == old(e.cursor)
        invariant e.model.hist == old(e.model.hist) && 0 <= e.cursor <= e.reservedEnd
        invariant pc.NextLoop? && pc.n == n && Alone(e.model, pc)
        invariant Peaked(c, old(store.MarkOf(name)), store.MarkOf(name)) && store.disk.writes >= old(store.disk.writes)
        invariant OthersKept(name, old(Book()), Book()) && Types() == old(Types())
        decreases if e.reserving then 2 else if Wrap(e.reservedEnd - e.cursor) < n then 1 else 0
      {
        ShortAgrees(e, name, pc);
        ghost var book := Book();
        if e.reserving {
          AwaitRefill(e, name, pc);
          pc := Resumed(pc);
          OthersGoOn(name, old(Book()), book, Book());
          CoreTracks(e, name);
        } else {
          var ok := ReserveInline(e, name, n, pc);
          OthersGoOn(name, old(Book()), book, Book());
          CoreTracks(e, name);
          if !ok {
            return Failure(ReserveFailed);
          }
        }
      }
      ShortAgrees(e, name, pc);
      var first := TakeLocked(e, name, n, pc);
      return Success(first);
    }

    lemma CoreTracks(e: Entity, name: string)
      requires layout.Valid() && Core(e, name)
      ensures store.Tracks(name) && e.loaded
    {
    }

    /** The no-wrap hypothesis of one call of Next from this cursor: the check, and the marks if it passes, stay in int64. */
    ghost predicate Exact(c: Config, cursor: int, n: int) {
      && cursor + n - 1 <= MAX
      && (cursor + n - 1 <= c.maxIter ==> cursor + n + threshold + segmentSize <= MAX)
    }

    // ----- the operations -----

    /** EntityOk against a given book: it depends on the entity's own fields only. */
    ghost predicate OkUnder(e: Entity, name: string, b: map<string, Mark>, types: map<string, DataType>)
      requires layout.Valid()
      reads e
    {
      if e.loaded then
        && name in b && b[name].mem == e.model.mark.mem && b[name].disk in {e.model.mark.disk, e.model.mark.mem}
        && name in types && e.dataType == types[name] && Resting(e)
      else !e.reserving
    }

    lemma OkIsOkUnder(e: Entity, name: string)
      requires layout.Valid() && Sane()
      ensures EntityOk(e, name) <==> OkUnder(e, name, Book(), Types())
    {
      hide Leads, Inv, Reopen, Load, Idle;
    }

    lemma OkUnderLater(e: Entity, k: string, name: string, b: map<string, Mark>, b': map<string, Mark>, types: map<string, DataType>)
      requires layout.Valid() && OkUnder(e, k, b, types) && k != name && OthersKept(name, b, b')
      ensures OkUnder(e, k, b', types)
    {
      hide Leads, Inv, Load, Idle;
    }

    lemma AllOkUnder()
      requires Valid()
      ensures forall k :: k in entities ==> OkUnder(entities[k], k, Book(), Types())
    {
      forall k | k in entities
        ensures OkUnder(entities[k], k, Book(), Types())
      {
        OkIsOkUnder(entities[k], k);
      }
    }

    /** After an operation on one entity the others are still in order. */
    lemma OthersOk(name: string, b: map<string, Mark>)
      requires layout.Valid() && Sane() && OthersKept(name, b, Book())
      requires forall k :: k in entities && k != name ==> OkUnder(entities[k], k, b, Types())
      ensures forall k :: k in entities && k != name ==> EntityOk(entities[k], k)
    {
      forall k | k in entities && k != name
        ensures EntityOk(entities[k], k)
      {
        OkUnderLater(entities[k], k, name, b, Book(), Types());
        OkIsOkUnder(entities[k], k);
      }
    }

    /** Every mark is where it was, but the file may have caught up with the memory; entities may have been added. */
    ghost predicate AllKept(b: map<string, Mark>, b': map<string, Mark>) {
      forall k :: k in b ==> k in b' && b'[k].mem == b[k].mem && b'[k].disk in {b[k].disk, b[k].mem}
    }

    /** The entities are in order against a book and a type map, those of an earlier moment perhaps. */
    ghost predicate EntitiesUnder(b: map<string, Mark>, types: map<string, DataType>)
      requires layout.Valid()
      reads this, entities.Values
    {
      && (forall k :: k in entities ==> OkUnder(entities[k], k, b, types))
      && (forall j, k :: j in entities && k in entities && j != k ==> entities[j] != entities[k])
    }

    /** What Valid comes to in terms of the store's records and the records in its file. */
    lemma ValidUnder()
      requires Valid()
      ensures store.SfAhead()
      ensures SoundRecords(store.records, Reopen(store.disk.file, store.id))
      ensures EntitiesUnder(BookOf(store.records, Reopen(store.disk.file, store.id)), TypesOf(store.records))
    {
      hide Leads, Inv, Reopen, Load, Idle, OkUnder;
      AllOkUnder();
    }

    /**
     A flush of the store for another purpose leaves the allocator valid: the records that were there
     are still there, and the file either has not changed or holds all the records of the memory.
     */
    lemma Undisturbed(was: map<string, Record>, file: Result<Memory, OpenError>)
      requires layout.Valid() && 1 <= threshold <= segmentSize <= MAX && store.Valid() && store.SfAhead()
      requires SoundRecords(was, file) && EntitiesUnder(BookOf(was, file), TypesOf(was))
      requires forall k :: k in was ==> k in store.records && store.records[k] == was[k]
      requires forall k :: k in store.records && k !in was ==> 0 <= store.records[k].iteration <= MAX
      requires var now := Reopen(store.disk.file, store.id);
               || (store.records == was && now == file)
               || (now.Success? && forall k :: k in store.records ==> k in now.value.records && now.value.records[k] == store.records[k])
      ensures Valid()
    {
      hide Leads, Inv, Reopen, Load, Idle, OkUnder, EntityOk;
      StoreSound(was, file);
      forall k | k in entities
        ensures EntityOk(entities[k], k)
      {
        OkUnderAll(entities[k], k, BookOf(was, file), TypesOf(was));
        OkIsOkUnder(entities[k], k);
      }
    }

    lemma StoreSound(was: map<string, Record>, file: Result<Memory, OpenError>)
      requires store.Valid() && SoundRecords(was, file) && store.SfAhead()
      requires forall k :: k in was ==> k in store.records && store.records[k] == was[k]
      requires forall k :: k in store.records && k !in was ==> 0 <= store.records[k].iteration <= MAX
      requires var now := Reopen(store.disk.file, store.id);
               || (store.records == was && now == file)
               || (now.Success? && forall k :: k in store.records ==> k in now.value.records && now.value.records[k] == store.records[k])
      ensures Sane() && AllKept(BookOf(was, file), Book())
      ensures forall k :: k in TypesOf(was) ==> k in Types() && Types()[k] == TypesOf(was)[k]
    {
      hide Reopen;
    }

    /** Likewise for the bound on the marks, if new records start within it. */
    lemma UndisturbedBounded(was: map<string, Record>, file: Result<Memory, OpenError>)
      requires layout.Valid() && store.Valid() && store.SfAhead() && SoundRecords(was, file) && BoundedUnder(BookOf(was, file), TypesOf(was))
      requires forall k :: k in was ==> k in store.records && store.records[k] == was[k]
      requires forall k :: k in store.records && k !in was ==>
                             && 0 <= store.records[k].iteration <= MAX
                             && store.records[k].iteration <= ConfigFor(store.records[k].dataType).maxIter + 1
      requires 1 <= threshold <= segmentSize
      requires var now := Reopen(store.disk.file, store.id);
               || (store.records == was && now == file)
               || (now.Success? && forall k :: k in store.records ==> k in now.value.records && now.value.records[k] == store.records[k])
      ensures Bounded()
    {
      hide Reopen, Layout.MaxIter;
      StoreSound(was, file);
      forall k | k in Types()
        ensures k in Book() && (Roomy(ConfigFor(Types()[k]), 0) ==> Book()[k].disk <= Top(ConfigFor(Types()[k]), 0))
      {
        if k in was {
          assert k in TypesOf(was) && TypesOf(was)[k] == Types()[k];
        }
      }
    }

    lemma OkUnderAll(e: Entity, k: string, b: map<string, Mark>, types: map<string, DataType>)
      requires layout.Valid() && OkUnder(e, k, b, types) && AllKept(b, Book())
      requires forall k :: k in types ==> k in Types() && Types()[k] == types[k]
      ensures OkUnder(e, k, Book(), Types())
    {
      hide Leads, Inv, Load, Idle, Book, Types;
    }

    /** An entity that is not in the store is not loaded. */
    lemma LoadedIsRegistered(name: string)
      requires Valid()
      ensures name in entities && entities[name].loaded ==> name in store.records
    {
      if name in entities {
        assert EntityOk(entities[name], name);
      }
    }

    /** The no-wrap hypothesis of one call by name; a call with the wrong type computes nothing. */
    ghost predicate Fits(name: string, dt: DataType, n: int)
      requires layout.Valid()
      reads this, store, entities.Values
    {
      name in store.records && store.records[name].dataType == dt ==> Exact(ConfigFor(dt), HeadOf(name), n)
    }

    // ----- bounded marks -----

    ghost predicate BoundedUnder(b: map<string, Mark>, types: map<string, DataType>)
      requires layout.Valid()
    {
      forall k :: k in types ==> k in b && (Roomy(ConfigFor(types[k]), 0) ==> b[k].disk <= Top(ConfigFor(types[k]), 0))
    }

    /** In configurations with room, every mark is one that calls within the type can have led to. */
    ghost predicate Bounded()
      requires layout.Valid()
      reads store, store.disk
    {
      BoundedUnder(Book(), Types())
    }

    /** A store just opened, whose marks are int64 naturals within the bound. */
    lemma SyncedIsBounded()
      requires layout.Valid() && store.Valid() && store.InSync()
      requires forall k :: k in store.records ==>
                 && 0 <= store.records[k].iteration <= MAX
                 && (Roomy(ConfigFor(store.records[k].dataType), 0) ==>
                     store.records[k].iteration <= Top(ConfigFor(store.records[k].dataType), 0))
      ensures Sane() && Bounded()
    {
      hide Reopen, Layout.MaxIter;
    }

    /** With bounded marks, a batch of a roomy configuration needs no hypothesis. */
    lemma BoundedFits(name: string, dt: DataType, n: int)
      requires Valid() && Bounded() && n <= MAX_BATCH && Roomy(ConfigFor(dt), 0)
      ensures Fits(name, dt, n)
    {
      hide Leads, Inv, Reopen, EntityOk;
      if name in store.records {
        HandedOnce(name);
        assert Types()[name] == store.records[name].dataType;
      }
    }

    /** An operation that left the others alone and its own mark below the peak keeps the bound. */
    lemma StaysBounded(name: string, b: map<string, Mark>)
      requires layout.Valid() && Sane() && name in b && OthersKept(name, b, Book()) && BoundedUnder(b, Types())
      requires forall k :: k in b ==> b[k].mem <= b[k].disk
      requires store.Tracks(name) && Peaked(ConfigFor(store.records[name].dataType), b[name], store.MarkOf(name))
      ensures Bounded()
    {
      hide Reopen, Layout.MaxIter;
    }

    /** The entity, loaded if it is registered. */
    method Acquire(name: string) returns (e: Entity, ok: bool)
      requires Valid()
      modifies this`entities, entities.Values
      ensures Valid() && name in entities && entities[name] == e
      ensures e in old(entities.Values) || fresh(e)
      ensures ok == e.loaded == (name in store.records)
      ensures ok ==> && e.dataType == store.records[name].dataType
                     && e.cursor == old(HeadOf(name)) && e.model.hist == old(Handed(name))
                     && EndAtTurn(e) == old(WindowEnd(name)) && FateAtTurn(e) == old(ResetFate(name))
    {
      hide Leads, Inv, Sane, Reopen;
      e := EntityFor(name);
      ok := LoadLocked(e, name);
      assert e.loaded ==> store.Tracks(name);
    }

    /** The call proper, on a loaded entity. */
    method Serve(e: Entity, name: string, n: int) returns (r: Result<int, AllocError>)
      requires Valid() && name in entities && entities[name] == e && e.loaded && 1 <= n <= MAX
      requires Exact(ConfigFor(e.dataType), e.cursor, n)
      modifies e, store`records, store.disk
      ensures Valid() && e.loaded && e.dataType == old(e.dataType) && (old(Bounded()) ==> Bounded())
      ensures Types() == old(Types()) && store.records.Keys == old(store.records.Keys)
      ensures r == Failure(Exhausted) <==> old(e.cursor) + n - 1 > layout.MaxIter(e.dataType.MaxValue())
      ensures r == Failure(ReserveFailed) ==> store.disk.FailedSince(old(store.disk.writes))
      ensures r.Failure? ==> r.error in {Exhausted, ReserveFailed} && e.cursor == old(e.cursor) && e.model.hist == old(e.model.hist)
      ensures r.Success? ==> && 0 <= r.value == old(e.cursor) && e.cursor == r.value + n
                             && e.model.hist == old(e.model.hist) + [Range(r.value, n)]
    {
      hide Leads, Inv, Reopen, OthersKept, OkUnder, Load, Sane, Types, Book, Core, Idle, Resting, Peaked, BoundedUnder, Exact;
      ghost var book, types := Book(), Types();
      EntityRegistered(e, name);
      SameType(name, types);
      AllOkUnder();
      assert EntityOk(e, name);
      r := NextLocked(e, name, n);
      SameType(name, types);
      CoreIsOk(e, name);
      OthersOk(name, book);
      if BoundedUnder(book, types) {
        StaysBounded(name, book);
      }
    }

    /** A loaded entity is registered under its type, and the book lists its mark. */
    lemma EntityRegistered(e: Entity, name: string)
      requires Valid() && name in entities && entities[name] == e && e.loaded
      ensures name in store.records && e.dataType == store.records[name].dataType && store.Tracks(name)
      ensures name in Book() && Book()[name] == store.MarkOf(name)
      ensures forall k :: k in Book() ==> Book()[k].mem <= Book()[k].disk
    {
      hide Leads, Inv, Reopen, Resting;
      assert EntityOk(e, name);
    }

    /** Equal type maps mean the same entities with the same types. */
    lemma SameType(name: string, types: map<string, DataType>)
      requires Types() == types
      ensures store.records.Keys == types.Keys
      ensures name in store.records ==> store.records[name].dataType == types[name]
    {
      assert Types().Keys == store.records.Keys;
    }

    /** A call that is over leaves its entity in order. */
    lemma CoreIsOk(e: Entity, name: string)
      requires layout.Valid() && Core(e, name) && Idle(e.model) && name in store.records
      requires e.dataType == store.records[name].dataType
      ensures EntityOk(e, name) && Sane() && e.loaded
    {
      hide Leads, Inv, Load;
    }

    /**
     Next: n consecutive iterations, starting where the last call ended, or an error and no change
     of position. It refuses as exhausted exactly when the n values do not fit the type.
     */
    method Next(name: string, dt: DataType, n: int) returns (r: Result<int, AllocError>)
      requires Valid() && n <= MAX && Fits(name, dt, n)
      modifies this`entities, entities.Values, store`records, store.disk
      ensures Valid() && (old(Bounded()) ==> Bounded())
      ensures Types() == old(Types()) && store.records.Keys == old(store.records.Keys)
      ensures r == Failure(BadCount) <==> n < 1
      ensures r == Failure(NotCounter) <==> n >= 1 && dt.Snowflake?
      ensures r == Failure(UnknownEntity) <==> n >= 1 && dt.IsCounter() && name !in store.records
      ensures r == Failure(TypeMismatch) <==>
              n >= 1 && dt.IsCounter() && name in store.records && old(store.records[name].dataType) != dt
      ensures r == Failure(Exhausted) <==>
              && n >= 1 && dt.IsCounter() && name in store.records && old(store.records[name].dataType) == dt
              && old(HeadOf(name)) + n - 1 > layout.MaxIter(dt.MaxValue())
      ensures r == Failure(ReserveFailed) ==> store.disk.FailedSince(old(store.disk.writes))
      ensures r.Failure? && r.error !in {BadCount, NotCounter, UnknownEntity, TypeMismatch, Exhausted} ==> r.error == ReserveFailed
      ensures r.Failure? && name in store.records ==> HeadOf(name) == old(HeadOf(name)) && Handed(name) == old(Handed(name))
      ensures r.Success? ==> && 0 <= r.value == old(HeadOf(name)) && HeadOf(name) == r.value + n
                             && Handed(name) == old(Handed(name)) + [Range(r.value, n)]
    {
      hide Leads, Inv, Reopen, Load, Sane, Book, Types, Idle, EntityOk, Exact, BoundedUnder;
      if n < 1 {
        return Failure(BadCount);
      }
      if !dt.IsCounter() {
        return Failure(NotCounter);
      }
      var e, ok := Acquire(name);
      if !ok {
        return Failure(UnknownEntity);
      }
      if e.dataType != dt {
        return Failure(TypeMismatch);
      }
      r := Serve(e, name, n);
    }

    // ----- refills between calls -----

    /** A background refill that runs to its end while no call is in progress: the counter does not move. */
    method RunRefill(name: string)
      requires Valid() && name in entities && entities[name].loaded && entities[name].reserving
      modifies entities[name], store`records, store.disk
      ensures Valid() && (old(Bounded()) ==> Bounded()) && Types() == old(Types()) && name in store.records
      ensures !entities[name].reserving
      ensures HeadOf(name) == old(HeadOf(name)) && Handed(name) == old(Handed(name))
      ensures entities[name].reservedEnd == old(entities[name].reservedEnd) + if old(store.disk.NextFate()).Done? then segmentSize else 0
    {
      hide Leads, Inv, Reopen, OthersKept, OkUnder, Load, Sane, Types, Book, Core, Wrap, Resting, Peaked, BoundedUnder;
      var e := entities[name];
      ghost var book, types := Book(), Types();
      EntityRegistered(e, name);
      assert EntityOk(e, name);
      SameType(name, types);
      AllOkUnder();
      FinishRefill(e, name);
      SameType(name, types);
      CoreIsOk(e, name);
      OthersOk(name, book);
      if BoundedUnder(book, types) {
        StaysBounded(name, book);
      }
    }

    method FinishRefill(e: Entity, name: string)
      requires layout.Valid() && 1 <= threshold <= segmentSize <= MAX && Sane() && e.loaded && EntityOk(e, name) && e.reserving
      modifies e, store`records, store.disk
      ensures Core(e, name) && Idle(e.model) && e.loaded && e.dataType == old(e.dataType) && !e.reserving
      ensures e.cursor == old(e.cursor) && e.model.hist == old(e.model.hist)
      ensures e.reservedEnd == old(e.reservedEnd) + if old(store.disk.NextFate()).Done? then segmentSize else 0
      ensures store.Tracks(name) && Peaked(ConfigFor(e.dataType), old(store.MarkOf(name)), store.MarkOf(name))
      ensures OthersKept(name, old(Book()), Book()) && Types() == old(Types())
    {
      hide Leads, Inv, Sane, Book, Types, Reopen, Wrap, Raise, Peaked, OthersKept, Store.MarkOf;
      ghost var c, o := ConfigFor(e.dataType), store.disk.NextFate();
      ConfigIsValid(e.dataType);
      IdleFacts(e, name);
      CatchUp(e, name);
      ghost var s := e.model;
      assert Load(s) == s;
      RefillRoom(e, name);
      RefilledFacts(c, s, o);
      CompleteRefill(e, name);
      assert e.model.threads == map[];
    }

    // ----- reset -----

    /** store.SetMark, with its effect on the book; it leaves the marks sound unless the file fell behind. */
    method SetStoreMark(name: string, iter: int) returns (ok: bool)
      requires Sane() && store.Tracks(name) && 0 <= iter <= MAX
      modifies store`records, store.disk
      ensures store.Valid() && store.Tracks(name)
      ensures (ok, store.MarkOf(name)) == Write(old(store.MarkOf(name)), iter, old(store.disk.NextFate()))
      ensures store.disk.writes == old(store.disk.writes) + 1
      ensures Sane() <==> store.MarkOf(name).mem <= store.MarkOf(name).disk
      ensures OthersKept(name, old(Book()), Book()) && Types() == old(Types())
    {
      hide Reopen;
      var r := store.SetMark(name, iter);
      ok := r.Success?;
    }

    /** The file says less than the memory: what a reset leaves whose flush failed after the rename. */
    ghost predicate Torn(name: string)
      reads store, store.disk
    {
      store.Tracks(name) && store.MarkOf(name).disk < store.MarkOf(name).mem
    }

    /** allocator.go:131-136: the lock, with a reset waiting at its loop. */
    method EnterReset(e: Entity, name: string, target: int, force: bool)
      requires layout.Valid() && 1 <= threshold <= segmentSize <= MAX && Sane() && e.loaded && EntityOk(e, name)
      requires 0 <= target <= MAX
      modifies e`run, e`model
      ensures Core(e, name) && e.model.hist == old(e.model.hist) && Alone(e.model, ResetLoop(target, force))
    {
      hide Leads, Inv, Sane, Book, Types, Reopen, Wrap, Grow, Raise, Committed;
      ghost var c := ConfigFor(e.dataType);
      IdleFacts(e, name);
      CatchUp(e, name);
      e.Keeps(c);
      EnterResetPath(c, e.model, target, force);
      e.Follow(c, [CallReset(0, target, force), Protocol.EnterReset(0)],
               Load(e.model).(threads := map[0 := ResetLoop(target, force)], lock := Some(0)));
    }

    /** With the lock and no reservation in flight, the mark is the end of the window. */
    lemma ResetFacts(e: Entity, name: string, target: int, force: bool)
      requires layout.Valid() && Core(e, name) && Alone(e.model, ResetLoop(target, force)) && !e.reserving
      ensures store.MarkOf(name).mem == e.reservedEnd <= store.MarkOf(name).disk
    {
      hide Leads, Reopen, Wrap, Contiguous;
      e.Keeps(ConfigFor(e.dataType));
    }

    /** allocator.go:140-143: a move back is refused unless it is forced. */
    method RefuseLocked(e: Entity, name: string, target: int)
      requires layout.Valid() && Core(e, name) && Alone(e.model, ResetLoop(target, false)) && !e.reserving
      requires 0 <= target < e.cursor
      modifies e`run, e`model
      ensures Core(e, name) && Idle(e.model) && e.model.hist == old(e.model.hist)
    {
      hide Leads, Inv, Sane, Reopen, Wrap, Store.Tracks, Store.MarkOf;
      ghost var c := ConfigFor(e.dataType);
      ghost var s := e.model.(threads := map[], lock := None);
      ResetPath(c, e.model, target, false, Done);
      assert e.Mirrors(s);
      e.Follow(c, [RefuseReset(0)], s);
    }

    /** allocator.go:146-152: the mark is set, then the window; a failed write leaves the window alone. */
    method WriteLocked(e: Entity, name: string, target: int, force: bool) returns (ok: bool)
      requires layout.Valid() && Core(e, name) && Alone(e.model, ResetLoop(target, force)) && !e.reserving
      requires 0 <= target <= MAX && Accepts(e.cursor, target, force)
      modifies e, store`records, store.disk
      ensures store.Tracks(name) && (!Torn(name) ==> Core(e, name) && Idle(e.model))
      ensures e.loaded && e.dataType == old(e.dataType)
      ensures !ok ==> e.cursor == old(e.cursor) && e.model.hist == old(e.model.hist)
      ensures ok ==> && e.cursor == target && store.MarkOf(name) == Mark(target, target)
                     && e.model.hist == if target < old(e.cursor) then [] else old(e.model.hist)
      ensures ok <==> old(store.disk.NextFate()).Done?
      ensures Torn(name) <==> old(store.disk.NextFate()).FailedAfter? && target < old(e.reservedEnd)
      ensures Torn(name) ==> !ok && store.MarkOf(name).disk == target && !Sane()
      ensures store.MarkOf(name).disk in {old(store.MarkOf(name)).disk, target}
      ensures OthersKept(name, old(Book()), Book()) && Types() == old(Types())
    {
      hide Leads, Inv, Sane, Book, Types, Reopen, Wrap, Grow, Raise, Committed, OthersKept, Store.Tracks, Store.MarkOf;
      ghost var c, m := ConfigFor(e.dataType), e.model;
      ResetFacts(e, name, target, force);
      ghost var o := store.disk.NextFate();
      if target >= e.reservedEnd || !o.FailedAfter? {
        ResetPath(c, m, target, force, o);
      }
      ok := SetStoreMark(name, target);
      if ok {
        e.cursor, e.reservedEnd := target, target;
        if target < e.loadMark {
          e.loadMark := target;
        }
        assert e.Mirrors(ResetDone(m, target));
        e.Follow(c, [ResetWrite(0, o), ResetApply(0)], ResetDone(m, target));
      } else if target >= e.reservedEnd || !o.FailedAfter? {
        ghost var s := m.(mark := store.MarkOf(name), threads := map[], lock := None);
        assert e.Mirrors(s);
        e.Follow(c, [ResetWrite(0, o)], s);
      }
    }

    /** allocator.go:140-153. */
    method MoveLocked(e: Entity, name: string, target: int, force: bool) returns (r: Result<(), AllocError>)
      requires layout.Valid() && Core(e, name) && Alone(e.model, ResetLoop(target, force)) && !e.reserving
      requires 0 <= target <= MAX
      modifies e, store`records, store.disk
      ensures store.Tracks(name) && (!Torn(name) ==> Core(e, name) && Idle(e.model))
      ensures e.loaded && e.dataType == old(e.dataType)
      ensures r == Failure(Backward) <==> target < old(e.cursor) && !force
      ensures r.Success? <==> Accepts(old(e.cursor), target, force) && old(store.disk.NextFate()).Done?
      ensures r.Failure? ==> r.error in {Backward, SetFailed} && e.cursor == old(e.cursor) && e.model.hist == old(e.model.hist)
      ensures r.Success? ==> && e.cursor == target && store.MarkOf(name) == Mark(target, target)
                             && e.model.hist == if target < old(e.cursor) then [] else old(e.model.hist)
      ensures Torn(name) <==> Accepts(old(e.cursor), target, force) && old(store.disk.NextFate()).FailedAfter? && target < old(e.reservedEnd)
      ensures Torn(name) ==> store.MarkOf(name).disk == target && !Sane()
      ensures store.MarkOf(name).disk in {old(store.MarkOf(name)).disk, target}
      ensures OthersKept(name, old(Book()), Book()) && Types() == old(Types())
    {
      hide Alone, Idle, Sane, Book, Types, OthersKept, Reopen, Leads, Inv, Store.Tracks, Store.MarkOf;
      ResetFacts(e, name, target, force);
      if target < e.cursor && !force {
        OthersStay(name, Book());
        RefuseLocked(e, name, target);
        return Failure(Backward);
      }
      var ok := WriteLocked(e, name, target, force);
      return if ok then Success(()) else Failure(SetFailed);
    }

    /** The end of the window when a reset gets its turn: after the refill in flight, which may succeed. */
    ghost function EndAtTurn(e: Entity): int
      reads e, store.disk
    {
      e.reservedEnd + if e.reserving && store.disk.NextFate().Done? then segmentSize else 0
    }

    /** How the reset's own write will end: the refill in flight comes first. */
    ghost function FateAtTurn(e: Entity): Outcome
      reads e, store.disk
    {
      store.disk.fate(store.disk.writes + if e.reserving then 1 else 0)
    }

    /** Reset after its checks on the target and on registration. */
    method ResetLocked(e: Entity, name: string, target: int, force: bool) returns (r: Result<(), AllocError>)
      requires layout.Valid() && 1 <= threshold <= segmentSize <= MAX && Sane() && e.loaded && EntityOk(e, name)
      requires 0 <= target <= MAX
      modifies e, store`records, store.disk
      ensures store.Tracks(name) && (!Torn(name) ==> Core(e, name) && Idle(e.model))
      ensures e.loaded && e.dataType == old(e.dataType)
      ensures r == Failure(Backward) <==> target < old(e.cursor) && !force
      ensures r.Success? <==> Accepts(old(e.cursor), target, force) && old(FateAtTurn(e)).Done?
      ensures r.Failure? ==> r.error in {Backward, SetFailed} && e.cursor == old(e.cursor) && e.model.hist == old(e.model.hist)
      ensures r.Success? ==> && e.cursor == target && store.MarkOf(name) == Mark(target, target)
                             && e.model.hist == if target < old(e.cursor) then [] else old(e.model.hist)
      ensures Torn(name) <==> Accepts(old(e.cursor), target, force) && old(FateAtTurn(e)).FailedAfter? && target < old(EndAtTurn(e))
      ensures Torn(name) ==> store.MarkOf(name).disk == target && !Sane()
      ensures target <= ConfigFor(e.dataType).maxIter ==> Peaked(ConfigFor(e.dataType), old(store.MarkOf(name)), store.MarkOf(name))
      ensures OthersKept(name, old(Book()), Book()) && Types() == old(Types())
    {
      hide Core, Short, Alone, Sane, EntityOk, Book, Types, Wrap, OthersKept, Torn, Store.Tracks, Store.MarkOf;
      EnterReset(e, name, target, force);
      CoreTracks(e, name);
      OthersStay(name, Book());
      while e.reserving
        invariant Core(e, name) && store.Tracks(name) && e.loaded && e.dataType == old(e.dataType) && e.cursor == old(e.cursor)
        invariant e.model.hist == old(e.model.hist) && Alone(e.model, ResetLoop(target, force))
        invariant e.reserving ==> old(e.reserving) && store.disk.writes == old(store.disk.writes) && e.reservedEnd == old(e.reservedEnd)
        invariant !e.reserving ==> store.disk.NextFate() == old(FateAtTurn(e)) && e.reservedEnd == old(EndAtTurn(e))
        invariant Peaked(ConfigFor(e.dataType), old(store.MarkOf(name)), store.MarkOf(name))
        invariant OthersKept(name, old(Book()), Book()) && Types() == old(Types())
        decreases e.reserving
      {
        ghost var book := Book();
        AwaitRefill(e, name, ResetLoop(target, force));
        CoreTracks(e, name);
        OthersGoOn(name, old(Book()), book, Book());
      }
      ghost var book := Book();
      r := MoveLocked(e, name, target, force);
      OthersGoOn(name, old(Book()), book, Book());
    }

    method ServeReset(e: Entity, name: string, target: int, force: bool) returns (r: Result<(), AllocError>)
      requires Valid() && name in entities && entities[name] == e && e.loaded && 0 <= target <= MAX
      modifies e, store`records, store.disk
      ensures (Valid() <==> !Torn(name)) && e.loaded && e.dataType == old(e.dataType) && store.Tracks(name)
      ensures Types() == old(Types()) && store.records.Keys == old(store.records.Keys)
      ensures r == Failure(Backward) <==> target < old(e.cursor) && !force
      ensures r.Success? <==> Accepts(old(e.cursor), target, force) && old(FateAtTurn(e)).Done?
      ensures r.Failure? ==> r.error in {Backward, SetFailed} && e.cursor == old(e.cursor) && e.model.hist == old(e.model.hist)
      ensures r.Success? ==> && e.cursor == target && store.MarkOf(name) == Mark(target, target)
                             && e.model.hist == if target < old(e.cursor) then [] else old(e.model.hist)
      ensures Torn(name) <==> Accepts(old(e.cursor), target, force) && old(FateAtTurn(e)).FailedAfter? && target < old(EndAtTurn(e))
      ensures Torn(name) ==> store.MarkOf(name).disk == target
      ensures old(Bounded()) && target <= ConfigFor(e.dataType).maxIter && !Torn(name) ==> Bounded()
    {
      hide Leads, Inv, Reopen, OthersKept, OkUnder, Load, Sane, Types, Book, Core, Idle, Torn, Resting, Peaked, BoundedUnder;
      ghost var book, types := Book(), Types();
      EntityRegistered(e, name);
      SameType(name, types);
      AllOkUnder();
      assert EntityOk(e, name);
      r := ResetLocked(e, name, target, force);
      SameType(name, types);
      if !Torn(name) {
        CoreIsOk(e, name);
        OthersOk(name, book);
        if BoundedUnder(book, types) && target <= ConfigFor(e.dataType).maxIter {
          StaysBounded(name, book);
        }
      }
    }

    lemma ValidIsWhole(name: string)
      requires Valid()
      ensures !Torn(name)
    {
      hide Reopen, EntityOk;
    }

    /** By name: the window's end and the fate of the write when a reset of this entity gets its turn. */
    ghost function WindowEnd(name: string): int
      requires name in store.records
      reads this, store, store.disk, entities.Values
    {
      if name in entities && entities[name].loaded then EndAtTurn(entities[name]) else store.records[name].iteration
    }

    ghost function ResetFate(name: string): Outcome
      reads this, store, store.disk, entities.Values
    {
      if name in entities && entities[name].loaded then FateAtTurn(entities[name]) else store.disk.NextFate()
    }

    ghost predicate WithinType(name: string, target: int)
      requires layout.Valid()
      reads store
    {
      name in store.records ==> target <= ConfigFor(store.records[name].dataType).maxIter
    }

    /** The reset goes ahead. */
    ghost predicate Proceeds(name: string, target: int, force: bool)
      reads this, store, entities.Values
    {
      target >= 0 && name in store.records && Accepts(HeadOf(name), target, force)
    }

    /**
     Reset: the next iteration becomes target, in memory and in the file, unless that is a move back
     without force or the write fails. The marks are left unsound exactly when the reset goes ahead, its
     write fails after the rename, and the target lies below the end of the window.
     */
    method Reset(name: string, target: int, force: bool) returns (prev: int, r: Result<(), AllocError>)
      requires Valid() && target <= MAX
      modifies this`entities, entities.Values, store`records, store.disk
      ensures Types() == old(Types()) && store.records.Keys == old(store.records.Keys)
      ensures Valid() <==> !Torn(name)
      ensures Torn(name) <==>
              old(Proceeds(name, target, force)) && old(ResetFate(name)).FailedAfter? && target < old(WindowEnd(name))
      ensures Torn(name) ==> store.MarkOf(name).disk == target
      ensures old(Bounded()) && !Torn(name) && WithinType(name, target) ==> Bounded()
      ensures r.Success? <==> old(Proceeds(name, target, force)) && old(ResetFate(name)).Done?
      ensures r == Failure(BadTarget) <==> target < 0
      ensures r == Failure(UnknownEntity) <==> target >= 0 && name !in store.records
      ensures r == Failure(Backward) <==> target >= 0 && name in store.records && target < old(HeadOf(name)) && !force
      ensures target >= 0 && name in store.records ==> prev == old(HeadOf(name))
      ensures r.Failure? && name in store.records ==> HeadOf(name) == old(HeadOf(name)) && Handed(name) == old(Handed(name))
      ensures r.Success? ==> && HeadOf(name) == target && store.Tracks(name) && store.MarkOf(name) == Mark(target, target)
                             && Handed(name) == if target < prev then [] else old(Handed(name))
    {
      hide Leads, Inv, Reopen, Load, Sane, Book, Types, Idle, EntityOk, Torn, BoundedUnder;
      prev := 0;
      if target < 0 {
        ValidIsWhole(name);
        return 0, Failure(BadTarget);
      }
      var e, ok := Acquire(name);
      if !ok {
        ValidIsWhole(name);
        return 0, Failure(UnknownEntity);
      }
      SameType(name, Types());
      prev := e.cursor;
      r := ServeReset(e, name, target, force);
      SameType(name, Types());
    }
  }
}
