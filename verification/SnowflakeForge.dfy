/**
 internal/forge as an object: generation spins on a clock, an arbitrary sequence of readings of
 which only this is known, that it eventually passes every value.
 */
module SnowflakeForge {
  import opened Wrappers
  import opened Reservation
  import opened StateFile
  import opened StateStore
  import S = Snowflake

  class Clock {
    const reading: nat -> nat
    var tick: nat

    constructor (reading: nat -> nat)
      ensures this.reading == reading && tick == 0
    {
      this.reading := reading;
      this.tick := 0;
    }

    ghost predicate Advances()
    {
      forall i: nat, t: nat :: PassesFrom(i, t)
    }

    ghost predicate PassesFrom(i: nat, t: nat)
    {
      exists j: nat :: j >= i && reading(j) > t
    }

    method NowMs() returns (ts: nat)
      modifies this
      ensures ts == reading(old(tick)) && tick == old(tick) + 1
    {
      ts := reading(tick);
      tick := tick + 1;
    }

    /** ts is one of the readings given since `from`. */
    ghost predicate Gave(ts: int, from: nat)
      reads this
    {
      exists j: nat :: from <= j < tick && reading(j) == ts
    }

    /** None of these readings is past `limit`. */
    ghost predicate Quiet(from: nat, to: int, limit: int) {
      forall j: nat :: from <= j < to ==> reading(j) <= limit
    }

    /** Readings followed by one more, and then others, none of them past `last`. */
    lemma QuietOn(from: nat, mid: nat, to: int, limit: int, last: int)
      requires from <= mid && Quiet(from, mid, last) && reading(mid) <= last && Quiet(mid + 1, to, limit) && limit <= last
      ensures Quiet(from, to, last)
    {
    }

    lemma QuietMore(from: nat, to: int, limit: int, last: int)
      requires Quiet(from, to, limit) && limit <= last
      ensures Quiet(from, to, last)
    {
    }

    lemma QuietNow(from: nat, limit: int)
      ensures Quiet(from, from, limit)
    {
    }

    /** Read until the clock is past `limit`. */
    method WaitPast(limit: int) returns (ts: nat)
      requires Advances()
      modifies this
      ensures ts > limit && tick > old(tick) && ts == reading(tick - 1)
      ensures Quiet(old(tick), tick - 1, limit)
    {
      ghost var limit': nat := if limit < 0 then 0 else limit;
      assert PassesFrom(tick, limit');
      ghost var stop: nat :| stop >= tick && reading(stop) > limit';
      ts := NowMs();
      while ts <= limit
        invariant old(tick) < tick <= stop + 1 && ts == reading(tick - 1)
        invariant forall j: nat :: old(tick) <= j < tick - 1 ==> reading(j) <= limit
        decreases stop + 1 - tick
      {
        ts := NowMs();
      }
    }
  }

  datatype ForgeError = ClockBackwards | PersistFailed | ClockBehindMark

  /** The next stamp of a forge comes after the one it is at. */
  lemma SettledLater(f: S.Forge, ts: nat)
    requires S.Settles(f, ts)
    ensures S.Stamp(f.last, f.sequence).Before(S.Stamp(ts, S.NextSeq(f, ts)))
  {
  }

  class Forge {
    const shard: int
    const epochMs: int
    const tolerance: int
    const clock: Clock
    var lastTimestamp: int
    var sequence: int
    var leaseUntil: int
    var persist: Store?

    /** The stamps this object has issued. */
    ghost var issued: seq<S.Stamp>

    ghost predicate Valid()
      reads this
    {
      && 0 <= shard <= S.MAX_SHARD && 0 <= sequence <= S.MAX_SEQUENCE && lastTimestamp >= -1
      && clock.Advances()
    }

    ghost function State(): S.Forge
      reads this
    {
      S.Forge(lastTimestamp, sequence, leaseUntil)
    }

    /** What the store behind `persist` has in memory. */
    ghost function Saved(): Memory
      reads this, persist
    {
      if persist == null then Memory(map[], 0) else persist.Memory()
    }

    /** Marks are persisted, and the file is readable. */
    ghost predicate Backed()
      reads this, persist, if persist == null then {} else {persist.disk}
    {
      persist != null && Reopen(persist.disk.file, persist.id).Success?
    }

    /** Every stamp issued has its sequence number in 12 bits and is below the mark in the store's memory; so is the lease. */
    ghost predicate Covered()
      reads this, persist
    {
      && (forall i :: 0 <= i < |issued| ==> 0 <= issued[i].sequence <= S.MAX_SEQUENCE)
      && (persist != null ==>
            && (leaseUntil <= 0 || leaseUntil <= persist.sfMark)
            && forall i :: 0 <= i < |issued| ==> 0 <= issued[i].ts < persist.sfMark)
    }

    /** The file holds the records that the store has in memory. */
    ghost predicate RecordsOnDisk()
      requires persist != null
      reads this, persist, persist.disk
    {
      && Reopen(persist.disk.file, persist.id).Success?
      && Reopen(persist.disk.file, persist.id).value.records == persist.records
    }

    /** ts is the clock's first reading from `from` on that is past `limit`, and the last one it gave. */
    ghost predicate FirstPast(ts: nat, from: nat, limit: int)
      reads clock
    {
      from < clock.tick && ts == clock.reading(clock.tick - 1) > limit && clock.Quiet(from, clock.tick - 1, limit)
    }

    /** The forge and its durable mark as a state of the run model, with the given history. */
    ghost function World(issued: seq<S.Stamp>): S.World
      requires Backed()
      reads this, persist, if persist == null then {} else {persist.disk}
    {
      S.World(true, State(), persist.SfMarkOf(), issued)
    }

    /** New: refused unless the 1-based shard id fits ten bits. */
    static method Create(shardID: int, epochMs: int, tolerance: int, clock: Clock) returns (r: Option<Forge>)
      requires clock.Advances()
      ensures r.Some? <==> 1 <= shardID <= 1024
      ensures r.Some? ==> && fresh(r.value) && r.value.Valid() && r.value.State() == S.Forge(-1, 0, 0)
                          && r.value.shard == shardID - 1 && r.value.epochMs == epochMs && r.value.clock == clock
                          && r.value.tolerance == tolerance && r.value.persist == null && r.value.issued == []
    {
      if shardID < 1 || shardID > S.MAX_SHARD + 1 {
        return None;
      }
      var f := new Forge(shardID - 1, epochMs, tolerance, clock);
      return Some(f);
    }

    constructor (shard: int, epochMs: int, tolerance: int, clock: Clock)
      requires 0 <= shard <= S.MAX_SHARD && clock.Advances()
      ensures Valid() && State() == S.Forge(-1, 0, 0) && persist == null && issued == []
      ensures this.shard == shard && this.epochMs == epochMs && this.tolerance == tolerance && this.clock == clock
    {
      this.shard := shard;
      this.epochMs := epochMs;
      this.tolerance := tolerance;
      this.clock := clock;
      this.lastTimestamp := -1;
      this.sequence := 0;
      this.leaseUntil := 0;
      this.persist := null;
      this.issued := [];
    }

    /** EnableMark: from a fresh forge, exactly the start state of the run model, once the clock is past the mark. */
    method EnableMark(mark: int, store: Store) returns (r: Result<(), ForgeError>)
      requires Valid()
      modifies this, clock
      ensures Valid()
      ensures r.Failure? <==> mark > 0 && mark - clock.reading(old(clock.tick)) > 1000 + tolerance
      ensures r.Failure? ==> r.error == ClockBehindMark && State() == old(State()) && persist == old(persist)
      ensures r.Success? ==> persist == store
      ensures issued == old(issued) && (old(issued) == [] && old(leaseUntil) <= 0 && r.Success? ==> Covered())
      ensures r.Success? && old(State()) == S.Forge(-1, 0, 0) ==> State() == S.Start(mark)
      ensures r.Success? ==>
                && lastTimestamp == (if 0 < mark && old(lastTimestamp) < mark then mark else old(lastTimestamp))
                && sequence == old(sequence) && leaseUntil == old(leaseUntil)
      ensures r.Success? && mark > 0 ==> lastTimestamp >= mark && clock.tick > 0 && clock.reading(clock.tick - 1) > mark
    {
      if mark > 0 {
        var now := clock.NowMs();
        if mark - now > S.LEASE_MS + tolerance {
          return Failure(ClockBehindMark);
        }
        var passed := clock.WaitPast(mark);
        if mark > lastTimestamp {
          lastTimestamp := mark;
        }
      }
      persist := store;
      return Success(());
    }

    /**
     forge.go:113-135: the drift wait and the sequence wait, or None if the clock is too far back. The
     timestamp is the first reading that is not before the last one, or past it if its sequence is full.
     */
    method Settle() returns (r: Option<nat>)
      requires Valid()
      modifies this`sequence, clock
      ensures Valid()
      ensures var first := clock.reading(old(clock.tick));
              r.None? <==> first < lastTimestamp && lastTimestamp - first > tolerance
      ensures r.None? ==> sequence == old(sequence) && clock.tick == old(clock.tick) + 1
      ensures clock.tick > old(clock.tick) && (r.Some? ==> clock.Gave(r.value, old(clock.tick)))
      ensures r.Some? ==>
                && FirstPast(r.value, old(clock.tick), if old(sequence) < 4095 then lastTimestamp - 1 else lastTimestamp)
                && sequence == (if r.value == lastTimestamp then old(sequence) + 1 else 0)
      ensures r.Some? ==> S.Settles(old(State()), r.value) && sequence == S.NextSeq(old(State()), r.value)
    {
      hide Clock.Advances, Clock.Quiet, S.Settles, S.NextSeq;
      ghost var from := clock.tick;
      clock.QuietNow(from, lastTimestamp - 1);
      var now := clock.NowMs();
      if now < lastTimestamp {
        if lastTimestamp - now > tolerance {
          return None;
        }
        now := clock.WaitPast(lastTimestamp - 1);
        clock.QuietOn(from, from, clock.tick - 1, lastTimestamp - 1, lastTimestamp - 1);
      }
      now := NextInSequence(now, from);
      return Some(now);
    }

    /** forge.go:124-135: the sequence wait, from a reading that is not before the last timestamp. */
    method NextInSequence(now: nat, ghost from: nat) returns (ts: nat)
      requires Valid() && FirstPast(now, from, lastTimestamp - 1)
      modifies this`sequence, clock
      ensures Valid()
      ensures FirstPast(ts, from, if old(sequence) < 4095 then lastTimestamp - 1 else lastTimestamp)
      ensures sequence == (if ts == lastTimestamp then old(sequence) + 1 else 0)
      ensures S.Settles(old(State()), ts) && sequence == S.NextSeq(old(State()), ts)
    {
      hide Clock.Advances, Clock.Quiet;
      ts := now;
      ghost var mid := clock.tick - 1;
      clock.QuietMore(from, mid, lastTimestamp - 1, lastTimestamp);
      if ts == lastTimestamp {
        S.NextInTurn(sequence);
        sequence := (sequence + 1) % (S.MAX_SEQUENCE + 1);
        if sequence == 0 {
          ts := clock.WaitPast(lastTimestamp);
          clock.QuietOn(from, mid, clock.tick - 1, lastTimestamp, lastTimestamp);
        }
      } else {
        sequence := 0;
      }
    }

    /** forge.go:137-143: a timestamp at or past the lease is used only after a new lease is in the file. */
    method HoldLease(now: nat) returns (ok: bool)
      requires persist != null ==> persist.Valid()
      modifies this`leaseUntil, if persist == null then {} else {persist as object, persist.disk}
      ensures persist != null ==> persist.Valid() && persist.disk.writes >= old(persist.disk.writes)
      ensures persist == null || now < old(leaseUntil) ==>
                ok && leaseUntil == old(leaseUntil) && (persist != null ==> unchanged(persist) && unchanged(persist.disk))
      ensures ok && persist != null && now >= old(leaseUntil) ==> leaseUntil == now + 1000 && now + 1000 <= persist.sfMark
      ensures !ok ==> && persist != null && leaseUntil == old(leaseUntil) && Saved() == old(Saved())
                      && persist.disk.FailedSince(old(persist.disk.writes))
      ensures Saved().sfMark >= old(Saved().sfMark) && Saved().records == old(Saved().records)
      ensures old(Covered()) ==> Covered() && (ok && persist != null ==> now < persist.sfMark)
      ensures persist != null && old(persist.SfAhead()) ==> persist.SfAhead()
      ensures persist != null ==> persist.disk.file == old(persist.disk.file) || RecordsOnDisk()
      ensures old(Backed()) ==> Backed()
      ensures old(Backed()) && now >= old(leaseUntil) ==>
                (ok, persist.SfMarkOf()) == Raise(old(persist.SfMarkOf()), now + S.LEASE_MS, old(persist.disk.NextFate()))
    {
      hide Reopen, Store.SfAhead;
      ok := true;
      if persist != null && now >= leaseUntil {
        ok := persist.RaiseSnowflakeMark(now + S.LEASE_MS);
        if ok {
          leaseUntil := now + S.LEASE_MS;
        }
      }
    }

    /**
     generateLocked. It refuses exactly when the clock is further back than the tolerance; otherwise
     it settles on a timestamp, persists a lease if that is at or past the last one, and issues.
     */
    method Generate() returns (r: Result<int, ForgeError>, ghost ts: nat)
      requires Valid()
      requires persist != null ==> persist.Valid()
      modifies this, clock, if persist == null then {} else {persist as object, persist.disk}
      ensures Valid() && persist == old(persist) && (persist != null ==> persist.Valid())
      ensures var first := clock.reading(old(clock.tick));
              r == Failure(ClockBackwards) <==> first < old(lastTimestamp) && old(lastTimestamp) - first > tolerance
      ensures r == Failure(ClockBackwards) ==>
                clock.tick == old(clock.tick) + 1 && State() == old(State()) && (persist != null ==> unchanged(persist) && unchanged(persist.disk))
      ensures r != Failure(ClockBackwards) ==>
                && S.Settles(old(State()), ts)
                && (r.Success? || r == Failure(PersistFailed))
                && FirstPast(ts, old(clock.tick), if old(sequence) < 4095 then old(lastTimestamp) - 1 else old(lastTimestamp))
                && sequence == (if ts == old(lastTimestamp) then old(sequence) + 1 else 0)
                && State() == S.After(old(State()), ts, persist != null && S.NeedsLease(old(State()), ts), r.Success?)
      ensures r.Success? ==>
                && r.value == S.Pack(epochMs, shard, S.Stamp(ts, sequence)) && lastTimestamp == ts
                && leaseUntil == (if persist != null && ts >= old(leaseUntil) then ts + 1000 else old(leaseUntil))
      ensures r.Success? && persist != null && ts < old(leaseUntil) ==> unchanged(persist) && unchanged(persist.disk)
      ensures r == Failure(PersistFailed) ==>
                && persist != null && S.NeedsLease(old(State()), ts) && Saved() == old(Saved())
                && persist.disk.FailedSince(old(persist.disk.writes))
      ensures r.Success? ==> clock.Gave(ts, old(clock.tick))
      ensures clock.tick > old(clock.tick) && (persist != null ==> persist.disk.writes >= old(persist.disk.writes))
      ensures r.Success? && persist != null && S.NeedsLease(old(State()), ts) ==> ts + S.LEASE_MS <= Saved().sfMark
      ensures Saved().sfMark >= old(Saved().sfMark) && Saved().records == old(Saved().records)
      ensures issued == old(issued) + if r.Success? then [S.Stamp(ts, sequence)] else []
      ensures old(Covered()) ==> Covered()
      ensures persist != null && old(persist.SfAhead()) ==> persist.SfAhead()
      ensures persist != null ==> persist.disk.file == old(persist.disk.file) || RecordsOnDisk()
      ensures old(Backed()) && r != Failure(ClockBackwards) ==>
                && Backed()
                && S.Step(old(World([])), S.Generate(ts, old(persist.disk.NextFate())))
                   == World(if r.Success? then [S.Stamp(ts, sequence)] else [])
    {
      hide Clock.Gave, Raise, Reopen, FirstPast, S.Pack, Store.SfAhead;
      ts := 0;
      var settled := Settle();
      if settled.None? {
        return Failure(ClockBackwards), ts;
      }
      var now := settled.value;
      ts := now;
      var ok := HoldLease(now);
      if !ok {
        return Failure(PersistFailed), ts;
      }
      lastTimestamp := now;
      issued := issued + [S.Stamp(now, sequence)];
      return Success(S.Pack(epochMs, shard, S.Stamp(now, sequence))), ts;
    }

    /**
     GenerateBatch: n IDs whose stamps increase strictly, or an error and no IDs. With a persisted
     mark it is a run of the model, whether or not it fails on the way.
     */
    method GenerateBatch(n: nat)
      returns (r: Result<seq<int>, ForgeError>, ghost stamps: seq<S.Stamp>, ghost run: seq<S.Action>)
      requires Valid()
      requires persist != null ==> persist.Valid()
      modifies this, clock, if persist == null then {} else {persist as object, persist.disk}
      ensures Valid() && persist == old(persist) && (persist != null ==> persist.Valid())
      ensures r.Success? ==> && |r.value| == n == |stamps| && S.Increasing(stamps)
                             && (forall i :: 0 <= i < n ==> r.value[i] == S.Pack(epochMs, shard, stamps[i]))
                             && (forall i :: 0 <= i < n ==> S.Stamp(old(lastTimestamp), old(sequence)).Before(stamps[i]))
      ensures r.Success? ==>
                && (forall i :: 0 <= i < n ==> clock.Gave(stamps[i].ts, old(clock.tick)))
                && (n > 0 ==> S.Stamp(lastTimestamp, sequence) == stamps[n - 1])
      ensures clock.tick >= old(clock.tick)
      ensures r == Failure(ClockBackwards) ==>
                clock.tick > old(clock.tick) && lastTimestamp - clock.reading(clock.tick - 1) > tolerance
      ensures r == Failure(PersistFailed) ==> persist != null && persist.disk.FailedSince(old(persist.disk.writes))
      ensures r.Failure? ==> r.error.ClockBackwards? || r.error.PersistFailed?
      ensures Saved().sfMark >= old(Saved().sfMark) && Saved().records == old(Saved().records)
      ensures issued == old(issued) + stamps && (old(Covered()) ==> Covered())
      ensures persist != null && old(persist.SfAhead()) ==> persist.SfAhead()
      ensures persist != null ==> persist.disk.file == old(persist.disk.file) || RecordsOnDisk()
      ensures old(Backed()) ==> Backed() && S.Run(old(World([])), run) == Some(World(stamps))
    {
      hide Raise, Clock.PassesFrom, S.After, Reopen, Covered, Store.SfAhead, S.Pack, S.Step, S.Increasing, S.Run, S.NextSeq, S.NeedsLease, S.Settles, FirstPast;
      S.IncreasingNothing();
      ghost var backed := Backed();
      ghost var w0 := if backed then World([]) else S.NEW_SHARD;
      S.RunNothing(w0);
      run := [];
      var out: seq<int> := [];
      stamps := [];
      ghost var start := S.Stamp(lastTimestamp, sequence);
      for i := 0 to n
        invariant Valid() && persist == old(persist) && (persist != null ==> persist.Valid())
        invariant |out| == i == |stamps| && S.Increasing(stamps)
        invariant forall j :: 0 <= j < i ==> out[j] == S.Pack(epochMs, shard, stamps[j])
        invariant forall j :: 0 <= j < i ==> start.Before(stamps[j])
        invariant forall j :: 0 <= j < i ==> clock.Gave(stamps[j].ts, old(clock.tick))
        invariant i == 0 ==> S.Stamp(lastTimestamp, sequence) == start
        invariant i > 0 ==> S.Stamp(lastTimestamp, sequence) == stamps[i - 1]
        invariant clock.tick >= old(clock.tick) && (persist != null ==> persist.disk.writes >= old(persist.disk.writes))
        invariant Saved().sfMark >= old(Saved().sfMark) && Saved().records == old(Saved().records)
        invariant persist != null ==> persist.disk.file == old(persist.disk.file) || RecordsOnDisk()
        invariant issued == old(issued) + stamps && (old(Covered()) ==> Covered())
        invariant persist != null && old(persist.SfAhead()) ==> persist.SfAhead()
        invariant backed ==> Backed() && S.Run(w0, run) == Some(World(stamps))
      {
        ghost var w, o := if backed then World([]) else S.NEW_SHARD, if backed then persist.disk.NextFate() else Done;
        ghost var f := State();
        var id, ts := Generate();
        ghost var issued := if id.Success? then [S.Stamp(ts, sequence)] else [];
        if id != Failure(ClockBackwards) {
          SettledLater(f, ts);
        }
        if backed && id != Failure(ClockBackwards) {
          S.RunOnce(w0, run, w, stamps, S.Generate(ts, o));
          run := run + [S.Generate(ts, o)];
        }
        assert id.Failure? ==> stamps + issued == stamps;
        if id.Failure? {
          return Failure(id.error), stamps, run;
        }
        S.IncreasingOnce(stamps, S.Stamp(ts, sequence));
        out := out + [id.value];
        stamps := stamps + [S.Stamp(ts, sequence)];
      }
      return Success(out), stamps, run;
    }
  }
}
