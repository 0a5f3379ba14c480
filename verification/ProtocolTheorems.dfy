/** What the invariant gives over whole runs of the protocol. */
module ProtocolTheorems {
  import opened Wrappers
  import opened Int64
  import opened Reservation
  import opened Protocol
  import opened ProtocolInvariant

  // ----- runs -----

  /** Every action of the run was possible and met the hypotheses when its turn came. */
  ghost predicate Clean(c: Config, s: State, run: seq<Action>)
    requires c.Valid()
  {
    run == [] ||
    var last := |run| - 1;
    Clean(c, s, run[..last]) && Exec(c, s, run).Some? && Benign(c, Exec(c, s, run[..last]).value, run[last])
  }

  lemma StepKeeps(c: Config, s: State, a: Action)
    requires c.Valid() && Inv(c, s) && Enabled(c, s, a) && Benign(c, s, a)
    ensures Inv(c, Apply(c, s, a))
  {
    hide Apply, Inv;
    match a
    case CallNext(_, _) => CallNextKeeps(c, s, a);
    case EnterNext(_) => EnterNextKeeps(c, s, a);
    case Park(_) => ParkKeeps(c, s, a);
    case Reacquire(_) => ReacquireKeeps(c, s, a);
    case InlineWrite(_, _) => InlineWriteKeeps(c, s, a);
    case InlineExtend(_) => InlineExtendKeeps(c, s, a);
    case Take(_, _) => TakeKeeps(c, s, a);
    case CallReset(_, _, _) => CallResetKeeps(c, s, a);
    case EnterReset(_) => EnterResetKeeps(c, s, a);
    case RefuseReset(_) => RefuseResetKeeps(c, s, a);
    case ResetWrite(_, _) => ResetWriteKeeps(c, s, a);
    case ResetApply(_) => ResetApplyKeeps(c, s, a);
    case RefillWrite(_, _) => RefillWriteKeeps(c, s, a);
    case RefillFinish(_) => RefillFinishKeeps(c, s, a);
    case OtherFlush => OtherFlushKeeps(c, s, a);
    case Crash => CrashKeeps(c, s, a);
    case Boot => BootKeeps(c, s, a);
    case OfflineReset(_, _, _) => OfflineResetKeeps(c, s, a);
  }

  lemma {:induction false} RunKeeps(c: Config, s: State, run: seq<Action>)
    requires c.Valid() && Inv(c, s) && Clean(c, s, run)
    ensures Exec(c, s, run).Some? && Inv(c, Exec(c, s, run).value)
  {
    if run != [] {
      var last := |run| - 1;
      RunKeeps(c, s, run[..last]);
      StepKeeps(c, Exec(c, s, run[..last]).value, run[last]);
    }
  }

  /** A state that the entity can reach from its registration at `start`. */
  ghost predicate Reachable(c: Config, start: int, run: seq<Action>, s: State) {
    c.Valid() && 0 <= start <= MAX && Clean(c, Fresh(start), run) && Exec(c, Fresh(start), run) == Some(s)
  }

  lemma ReachableInv(c: Config, start: int, run: seq<Action>, s: State)
    requires Reachable(c, start, run, s)
    ensures Inv(c, s)
  {
    FreshInv(c, start);
    RunKeeps(c, Fresh(start), run);
  }

  // ----- uniqueness and durability -----

  /**
   No iteration is handed out twice, whatever the interleaving of calls, refills, resets, failed
   writes, crashes and restarts; moreover later ranges lie above earlier ones.
   */
  lemma NoIterationTwice(c: Config, start: int, run: seq<Action>, s: State)
    requires Reachable(c, start, run, s)
    ensures forall i, j, x :: 0 <= i < j < |s.hist| ==> !(s.hist[i].Has(x) && s.hist[j].Has(x))
    ensures forall i, j, x, y :: 0 <= i < j < |s.hist| && s.hist[i].Has(x) && s.hist[j].Has(y) ==> x < y
  {
    ReachableInv(c, start, run, s);
  }

  /**
   Durable coverage: what was handed out is below the cursor and below the mark in the file; the
   window is covered by the store's mark; and the mark is exactly what the reservation in flight,
   if any, makes it. Only a thread between its own write and its update of the window is exempt.
   */
  lemma DurableCoverage(c: Config, start: int, run: seq<Action>, s: State)
    requires Reachable(c, start, run, s)
    ensures forall i, x :: 0 <= i < |s.hist| && s.hist[i].Has(x) ==> x < s.mark.disk && x < s.Head()
    ensures s.loaded && !(Holder(s).Some? && Holder(s).value.ResetWrote?)
            ==> s.cursor <= s.reservedEnd <= s.mark.mem <= s.mark.disk
    ensures s.loaded && !s.reserving && !(Holder(s).Some? && (Holder(s).value.ResetWrote? || Holder(s).value.NextWrote?))
            ==> s.mark.mem == s.reservedEnd
    ensures forall r :: r in s.refills ==>
                          && s.reservedEnd == s.refills[r].from
                          && s.mark.mem in {s.refills[r].from, s.refills[r].from + c.segmentSize}
  {
    ReachableInv(c, start, run, s);
    if s.reserving {
      var r :| r in s.refills;
      assert RefillOk(c, s, s.refills[r]);
    }
  }

  // ----- the allocator refines a plain counter -----

  /** In a contiguous log every iteration of [from, to) occurs in exactly one range, and no other does. */
  lemma {:induction false} ContiguousTiles(log: seq<Range>, from: int, to: int, x: int)
    requires Contiguous(log, from, to)
    ensures from <= to
    ensures from <= x < to <==> exists i :: 0 <= i < |log| && log[i].Has(x)
    ensures forall i, j :: 0 <= i < |log| && 0 <= j < |log| && log[i].Has(x) && log[j].Has(x) ==> i == j
  {
    if log != [] {
      var k := |log| - 1;
      var init, last := log[..k], log[k];
      ContiguousTiles(init, from, last.first, x);
      forall i | 0 <= i < |log| && log[i].Has(x)
        ensures i == k || (from <= x < last.first && init[i].Has(x))
      {
        if i < k {
          assert init[i].Has(x);
        }
      }
      if from <= x < last.first {
        var i :| 0 <= i < |init| && init[i].Has(x);
        assert log[i].Has(x);
      }
      if last.Has(x) {
        assert log[k].Has(x);
      }
    }
  }

  /** Neither crashes nor resets: the loadMark of this process is where its log began. */
  ghost predicate SinceLoad(s: State) {
    s.loaded ==> s.base == s.loadMark
  }

  ghost predicate NoReset(run: seq<Action>) {
    forall i :: 0 <= i < |run| ==> !run[i].ResetApply?
  }

  lemma {:induction false} LogStartsAtLoadMark(c: Config, s: State, run: seq<Action>)
    requires c.Valid() && SinceLoad(s) && Exec(c, s, run).Some? && NoReset(run)
    ensures SinceLoad(Exec(c, s, run).value)
  {
    if run != [] {
      var last := |run| - 1;
      LogStartsAtLoadMark(c, s, run[..last]);
      StepKeepsBase(c, Exec(c, s, run[..last]).value, run[last]);
    }
  }

  lemma StepKeepsBase(c: Config, s: State, a: Action)
    requires c.Valid() && SinceLoad(s) && Enabled(c, s, a) && !a.ResetApply?
    ensures SinceLoad(Apply(c, s, a))
  {
  }

  lemma {:induction false} ExecSplit(c: Config, s: State, first: seq<Action>, rest: seq<Action>)
    requires c.Valid() && Exec(c, s, first + rest).Some?
    ensures Exec(c, s, first).Some? && Exec(c, Exec(c, s, first).value, rest) == Exec(c, s, first + rest)
  {
    hide Apply, Enabled;
    if rest == [] {
      assert first + rest == first;
    } else {
      var last := |rest| - 1;
      assert (first + rest)[..|first| + last] == first + rest[..last];
      ExecSplit(c, s, first, rest[..last]);
    }
  }

  /** What came before the last start of the process: nothing, or a run that ends with one. */
  ghost predicate EndsInBoot(run: seq<Action>) {
    run == [] || run[|run| - 1].Boot?
  }

  lemma {:induction false} PrefixClean(c: Config, s: State, first: seq<Action>, rest: seq<Action>)
    requires c.Valid() && Clean(c, s, first + rest)
    ensures Clean(c, s, first)
  {
    if rest == [] {
      assert first + rest == first;
    } else {
      assert (first + rest)[..|first + rest| - 1] == first + rest[..|rest| - 1];
      PrefixClean(c, s, first, rest[..|rest| - 1]);
    }
  }

  /** A process starts with its entities not loaded. */
  lemma StartsUnloaded(c: Config, start: int, before: seq<Action>, s: State)
    requires Reachable(c, start, before, s) && EndsInBoot(before)
    ensures SinceLoad(s)
  {
    hide Wrap, Grow;
    if before != [] {
      var last := |before| - 1;
      assert Clean(c, Fresh(start), before[..last]);
      ReachableInv(c, start, before[..last], Exec(c, Fresh(start), before[..last]).value);
    }
  }

  /**
   Refinement of a plain counter: without a reset in this process life, the ranges that it has handed
   out, in the order in which they were taken, cut [loadMark, cursor) into consecutive pieces, whatever
   earlier lives did.
   */
  lemma RefinesCounter(c: Config, start: int, before: seq<Action>, life: seq<Action>, s: State, x: int)
    requires Reachable(c, start, before + life, s) && EndsInBoot(before) && NoReset(life) && s.loaded
    ensures Contiguous(s.log, s.loadMark, s.cursor)
    ensures s.loadMark <= x < s.cursor <==> exists i :: 0 <= i < |s.log| && s.log[i].Has(x)
    ensures forall i, j :: 0 <= i < |s.log| && 0 <= j < |s.log| && s.log[i].Has(x) && s.log[j].Has(x) ==> i == j
  {
    hide Exec, Clean;
    ReachableInv(c, start, before + life, s);
    ExecSplit(c, Fresh(start), before, life);
    PrefixClean(c, Fresh(start), before, life);
    var m := Exec(c, Fresh(start), before).value;
    StartsUnloaded(c, start, before, m);
    LogStartsAtLoadMark(c, m, life);
    ContiguousTiles(s.log, s.loadMark, s.cursor, x);
  }

  /** Only a Take, a completed reset, or a crash moves the next iteration; every failing exit leaves it alone. */
  lemma OthersKeepHead(c: Config, s: State, a: Action)
    requires c.Valid() && Inv(c, s) && Enabled(c, s, a)
    requires !a.Take? && !a.ResetApply? && !a.Crash? && !a.OfflineReset?
    ensures Apply(c, s, a).Head() == s.Head()
  {
  }

  // ----- no lost wake-up -----

  /**
   A parked call implies the reservation token and exactly one refill, and every thread that has
   written the mark itself holds the lock with no refill beside it.
   */
  lemma OneReservationAtATime(c: Config, start: int, run: seq<Action>, s: State)
    requires Reachable(c, start, run, s)
    ensures forall t :: t in s.threads && s.threads[t].Parked() ==> s.reserving
    ensures s.reserving <==> exists r :: s.refills.Keys == {r}
    ensures forall t :: t in s.threads && (s.threads[t].NextWrote? || s.threads[t].ResetWrote?)
                        ==> s.lock == Some(t) && s.refills == map[]
  {
    ReachableInv(c, start, run, s);
    if s.reserving {
      var r :| r in s.refills;
      assert s.refills.Keys == {r};
    }
    if r :| s.refills.Keys == {r} {
      assert r in s.refills;
    }
  }

  /** The end of a refill, successful or not, wakes every waiter and gives the token back. */
  lemma RefillWakesAll(c: Config, s: State, r: nat)
    requires c.Valid() && Inv(c, s) && Enabled(c, s, RefillFinish(r))
    ensures var s' := Apply(c, s, RefillFinish(r));
            && !s'.reserving && s'.refills == map[] && s'.threads.Keys == s.threads.Keys
            && forall t :: t in s'.threads ==> !s'.threads[t].Parked()
  {
    assert forall q :: q in s.refills ==> q == r;
  }

  /** A step of the protocol itself: not a new call, a crash, or a flush for something else. */
  ghost predicate Progress(a: Action) {
    !a.CallNext? && !a.CallReset? && !a.OtherFlush? && !a.Crash? && !a.Boot? && !a.OfflineReset?
  }

  /** Deadlock freedom: while a call is in progress, some call or refill can take its next step. */
  lemma NeverStuck(c: Config, start: int, run: seq<Action>, s: State)
    requires Reachable(c, start, run, s) && s.threads != map[]
    ensures exists a :: Progress(a) && Enabled(c, s, a)
  {
    ReachableInv(c, start, run, s);
    if s.lock.Some? {
      HolderCanStep(c, s, s.lock.value);
    } else if s.reserving {
      var r :| r in s.refills;
      var a := if s.refills[r].Writing? then RefillWrite(r, Done) else RefillFinish(r);
      assert Progress(a) && Enabled(c, s, a);
    } else {
      var t :| t in s.threads;
      assert ThreadOk(c, s, t, s.threads[t]);
      var pc := s.threads[t];
      var a := if pc.NextStart? then EnterNext(t) else if pc.ResetStart? then EnterReset(t) else Reacquire(t);
      assert Progress(a) && Enabled(c, s, a);
    }
  }

  lemma HolderCanStep(c: Config, s: State, t: nat)
    requires c.Valid() && Inv(c, s) && s.lock == Some(t)
    ensures exists a :: Progress(a) && Enabled(c, s, a)
  {
    assert s.loaded && Running(s, t) by { assert ThreadOk(c, s, t, s.threads[t]); }
    var pc := s.threads[t];
    var r := UnusedRefill(s);
    var a :=
      if pc.NextWrote? then InlineExtend(t)
      else if pc.ResetWrote? then ResetApply(t)
      else if pc.NextLoop? && !Short(s, pc) then Take(t, r)
      else if s.reserving then Park(t)
      else if pc.NextLoop? then InlineWrite(t, Done)
      else if Accepts(s.cursor, pc.target, pc.force) then ResetWrite(t, Done)
      else RefuseReset(t);
    assert Progress(a) && Enabled(c, s, a);
  }

  /** A name for the goroutine that Take may start. */
  ghost function UnusedRefill(s: State): (r: nat)
    requires forall p, q :: p in s.refills && q in s.refills ==> p == q
    ensures r !in s.refills
  {
    if 0 in s.refills then assert 1 in s.refills ==> 1 == 0; 1 else 0
  }
}
