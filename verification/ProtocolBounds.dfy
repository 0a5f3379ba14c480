/** Exhaustion of the type and int64 overflow: where the code keeps its bounds, and where it does not. */
module ProtocolBounds {
  import opened Wrappers
  import opened Int64
  import opened Reservation
  import opened Protocol
  import opened ProtocolInvariant
  import opened ProtocolTheorems
  import opened ProtocolTight

  /** MaxBatchSize of internal/server: no call asks for more. */
  const MAX_BATCH: int := 10000

  // ----- exhaustion -----

  /**
   The int64 guard at allocator.go:103 decides rightly whether n values from cursor on fit under maxIter
   if and only if cursor+n-1 is an int64; past that it never refuses.
   */
  lemma ExhaustionGuardExact(cursor: int, n: int, maxIter: int)
    requires 0 <= cursor <= MAX && 1 <= n <= MAX && -1 <= maxIter <= MAX
    ensures (Wrap(Wrap(cursor + n) - 1) > maxIter <==> cursor + n - 1 > maxIter) <==> cursor + n - 1 <= MAX
  {
    if cursor + n > MAX {
      WrapsNegative(cursor + n);
      if cursor + n - 1 == MAX {
        assert Wrap(-TWO_63 - 1) == MAX;
      }
    }
  }

  /** A call is refused on entry exactly when its n values do not fit; then nothing is handed out. */
  lemma RefusedIffExhausted(c: Config, start: int, run: seq<Action>, s: State, t: nat)
    requires Reachable(c, start, run, s) && Enabled(c, s, EnterNext(t)) && NoWrap(c, s, EnterNext(t))
    ensures var s' := Apply(c, s, EnterNext(t));
            && (t !in s'.threads <==> s.Head() + s.threads[t].n - 1 > c.maxIter)
            && s'.hist == s.hist && s'.Head() == s.Head() && s'.mark == s.mark
  {
    hide Exec, Clean, Wrap, Issued, Logged;
    ReachableInv(c, start, run, s);
    LoadKeeps(c, s);
    assert ThreadOk(c, s, t, s.threads[t]);
    WrapTwice(s.Head() + s.threads[t].n, -1);
  }

  /** A call that never waited takes at the cursor against which its exhaustion check was made, so its values fit. */
  lemma TakenFits(c: Config, start: int, run: seq<Action>, s: State, t: nat, r: nat)
    requires Reachable(c, start, run, s) && Enabled(c, s, Take(t, r)) && !s.threads[t].parked
    ensures s.cursor + s.threads[t].n - 1 <= c.maxIter
  {
    ReachableInv(c, start, run, s);
    assert ThreadOk(c, s, t, s.threads[t]);
  }

  // ----- what the no-wrap hypothesis says -----

  /**
   The hypothesis on a step is exactly that its int64 expressions, of Next at allocator.go:103-119 and
   of refill at allocator.go:239, have their mathematical values.
   */
  lemma NoWrapIffExact(c: Config, start: int, run: seq<Action>, s: State, a: Action)
    requires Reachable(c, start, run, s) && Enabled(c, s, a)
    ensures a.EnterNext? ==>
              var x := Load(s).cursor + s.threads[a.t].n;
              NoWrap(c, s, a) <==> Wrap(Wrap(x) - 1) == x - 1
    ensures a.InlineWrite? ==>
              var short := s.threads[a.t].n - (s.reservedEnd - s.cursor);
              && Wrap(s.threads[a.t].n - s.Remaining()) == short
              && (NoWrap(c, s, a) <==>
                  && Wrap(Wrap(short + c.segmentSize) - 1) == short + c.segmentSize - 1
                  && Wrap(s.reservedEnd + Grow(c.segmentSize, short)) == s.reservedEnd + Grow(c.segmentSize, short))
    ensures a.Take? ==>
              && Wrap(s.cursor + s.threads[a.t].n) == s.cursor + s.threads[a.t].n
              && (!s.reserving && s.reservedEnd - s.cursor - s.threads[a.t].n <= c.threshold ==>
                  (NoWrap(c, s, a) <==> Wrap(s.reservedEnd + c.segmentSize) == s.reservedEnd + c.segmentSize))
  {
    hide Exec, Clean, Contiguous, Grow, Wrap;
    ReachableInv(c, start, run, s);
    if a.EnterNext? {
      LoadKeeps(c, s);
      assert ThreadOk(c, s, a.t, s.threads[a.t]);
      WrapTwice(Load(s).cursor + s.threads[a.t].n, -1);
    } else if a.InlineWrite? {
      assert ThreadOk(c, s, a.t, s.threads[a.t]);
      var short := s.threads[a.t].n - (s.reservedEnd - s.cursor);
      WrapTwice(short + c.segmentSize, -1);
      if short + c.segmentSize - 1 <= MAX {
        GrowCovers(c.segmentSize, short);
      }
    } else if a.Take? {
      assert ThreadOk(c, s, a.t, s.threads[a.t]);
    }
  }

  // ----- no step wraps -----

  /** The call has been parked on the condition variable. */
  predicate Waited(pc: Pc) {
    pc.NextParked? || pc.NextWoken? || ((pc.NextLoop? || pc.NextWrote?) && pc.parked)
  }

  /** The calls of Next in progress that have waited. */
  function Waiters(s: State): set<nat> {
    set t | t in s.threads && Waited(s.threads[t])
  }

  /** The configurations whose marks stay clear of 2^63 when at most p calls wait at a time. */
  predicate Roomy(c: Config, p: nat) {
    c.maxIter + Slack(c) + c.segmentSize + (p + 1) * MAX_BATCH <= MAX
  }

  /** The highest mark that is then reached. */
  function Top(c: Config, p: nat): int {
    c.maxIter + 1 + Slack(c) + c.segmentSize + p * MAX_BATCH
  }

  /** Calls of at most MAX_BATCH, of which at most p wait at a time, and targets that fit the type. */
  ghost predicate Orderly(c: Config, s: State, a: Action, p: nat) {
    && (a.Park? ==> a.t in s.threads && (!s.threads[a.t].InNext() || a.t in Waiters(s) || |Waiters(s)| < p))
    && (a.CallNext? ==> a.n <= MAX_BATCH)
    && (a.CallReset? || a.OfflineReset? ==> a.target <= c.maxIter)
    && !TornReset(s, a)
  }

  ghost predicate OrderlyRun(c: Config, s: State, run: seq<Action>, p: nat)
    requires c.Valid()
  {
    run == [] ||
    var last := |run| - 1;
    OrderlyRun(c, s, run[..last], p) && Exec(c, s, run).Some? && Orderly(c, Exec(c, s, run[..last]).value, run[last], p)
  }

  predicate Entered(pc: Pc) {
    pc.InNext() && !pc.NextStart?
  }

  ghost predicate CallBounded(c: Config, pc: Pc) {
    && (pc.InNext() ==> pc.n <= MAX_BATCH)
    && (!pc.InNext() ==> pc.target <= c.maxIter)
  }

  ghost predicate MarksBounded(c: Config, s: State, p: nat) {
    && s.mark.disk <= Top(c, p)
    && (s.loaded ==> s.reservedEnd <= Top(c, p))
    && (forall r :: r in s.refills && s.refills[r].Writing? ==> s.refills[r].from + c.segmentSize <= Top(c, p))
  }

  ghost predicate CallsBounded(c: Config, s: State) {
    forall t :: t in s.threads ==> CallBounded(c, s.threads[t])
  }

  /**
   Past the last iteration of the type no call enters any more, so the cursor can only be pushed on by
   those that have waited, by one batch each.
   */
  ghost predicate CursorBounded(c: Config, s: State, p: nat) {
    && |Waiters(s)| <= p
    && forall t :: t in s.threads && Entered(s.threads[t]) ==>
                     s.cursor <= c.maxIter + 1 + (p - |Waiters(s)|) * MAX_BATCH
  }

  ghost predicate Bounded(c: Config, s: State, p: nat) {
    MarksBounded(c, s, p) && CallsBounded(c, s) && CursorBounded(c, s, p) && TightIfOne(c, s)
  }

  /** An orderly step of a bounded state in a roomy configuration wraps nothing. */
  lemma BoundedIsBenign(c: Config, s: State, a: Action, p: nat)
    requires c.Valid() && Roomy(c, p) && Inv(c, s) && Bounded(c, s, p) && Enabled(c, s, a) && Orderly(c, s, a, p)
    ensures Benign(c, s, a)
  {
    hide Grow, Wrap, Contiguous;
    if a.EnterNext? {
      LoadKeeps(c, s);
      assert CallBounded(c, s.threads[a.t]);
    } else if a.InlineWrite? {
      TakerBound(c, s, a.t, p);
      GrowCovers(c.segmentSize, s.threads[a.t].n - (s.reservedEnd - s.cursor));
    } else if a.Take? {
      TakerBound(c, s, a.t, p);
      SlackBound(c, s, a.t, p);
    }
  }

  /** A refill that a take would start begins within the slack. */
  lemma SlackBound(c: Config, s: State, t: nat, p: nat)
    requires c.Valid() && Inv(c, s) && Bounded(c, s, p) && Running(s, t) && s.threads[t].NextLoop?
    ensures s.threads[t].n <= s.reservedEnd - s.cursor && s.reservedEnd - s.cursor - s.threads[t].n <= c.threshold ==>
              s.reservedEnd - s.cursor - s.threads[t].n <= Slack(c)
  {
    hide Contiguous, Tight;
    assert ThreadOk(c, s, t, s.threads[t]);
    if s.threads[t].n <= s.reservedEnd - s.cursor && s.reservedEnd - s.cursor - s.threads[t].n <= c.threshold {
      TakeSlack(c, s, t);
    }
  }

  /** A call in the lock takes within the type, or has waited and takes within the batches left to the waiters. */
  lemma TakerBound(c: Config, s: State, t: nat, p: nat)
    requires c.Valid() && Inv(c, s) && Bounded(c, s, p) && Running(s, t) && s.threads[t].NextLoop?
    ensures 1 <= s.threads[t].n <= MAX_BATCH && 0 <= s.cursor <= s.reservedEnd
    ensures if t in Waiters(s) then s.cursor + s.threads[t].n <= c.maxIter + 1 + (p - |Waiters(s)| + 1) * MAX_BATCH
            else s.cursor + s.threads[t].n <= c.maxIter + 1
    ensures t in Waiters(s) ==> |Waiters(s)| >= 1
  {
    hide Contiguous;
    assert ThreadOk(c, s, t, s.threads[t]) && CallBounded(c, s.threads[t]);
    if t in Waiters(s) {
      SomeMember(Waiters(s), t);
    }
  }

  lemma SomeMember(a: set<nat>, t: nat)
    requires t in a
    ensures |a| >= 1 && |a - {t}| == |a| - 1
  {
    assert a == (a - {t}) + {t};
  }

  lemma StepBounded(c: Config, s: State, a: Action, p: nat)
    requires c.Valid() && Inv(c, s) && Bounded(c, s, p) && Enabled(c, s, a) && Orderly(c, s, a, p) && Benign(c, s, a)
    ensures Bounded(c, Apply(c, s, a), p)
  {
    hide MarksBounded, CallsBounded, CursorBounded, TightIfOne, Inv, Apply, Enabled, Orderly;
    StepTightIfOne(c, s, a);
    StepMarks(c, s, a, p);
    StepCalls(c, s, a, p);
    StepCursor(c, s, a, p);
  }

  lemma StepCalls(c: Config, s: State, a: Action, p: nat)
    requires c.Valid() && CallsBounded(c, s) && Enabled(c, s, a) && Orderly(c, s, a, p)
    ensures CallsBounded(c, Apply(c, s, a))
  {
    hide Wrap, Grow, Waiters;
  }

  lemma StepMarks(c: Config, s: State, a: Action, p: nat)
    requires c.Valid() && Inv(c, s) && Bounded(c, s, p) && Enabled(c, s, a) && Orderly(c, s, a, p) && NoWrap(c, s, a)
    ensures MarksBounded(c, Apply(c, s, a), p)
  {
    hide Wrap, Grow, Contiguous, Waiters, Inv, MarksBounded, CallsBounded, CursorBounded, Apply, NoWrap;
    if a.InlineWrite? {
      InlineMarks(c, s, a.t, a.o, p);
    } else if a.Take? {
      TakeMarks(c, s, a.t, a.r, p);
    } else if a.RefillWrite? || a.RefillFinish? {
      RefillMarks(c, s, a, p);
    } else if a.ResetWrite? || a.ResetApply? || a.OfflineReset? {
      ResetMarks(c, s, a, p);
    } else {
      OtherMarks(c, s, a, p);
    }
  }

  lemma StepCursor(c: Config, s: State, a: Action, p: nat)
    requires c.Valid() && Inv(c, s) && Bounded(c, s, p) && Enabled(c, s, a) && Orderly(c, s, a, p) && NoWrap(c, s, a)
    ensures CursorBounded(c, Apply(c, s, a), p)
  {
    hide Wrap, Grow, Contiguous, Waiters, Inv, MarksBounded, CallsBounded, CursorBounded, Apply, NoWrap;
    if a.EnterNext? || a.EnterReset? {
      EnterCursor(c, s, a, p);
    } else if a.Take? {
      TakeCursor(c, s, a.t, a.r, p);
    } else if a.InlineWrite? || a.InlineExtend? || a.ResetWrite? || a.ResetApply? || a.RefuseReset? {
      LockedCursor(c, s, a, p);
    } else if a.Park? || a.Reacquire? {
      WaitCursor(c, s, a, p);
    } else {
      OtherCursor(c, s, a, p);
    }
  }

  // ----- the calls that have waited -----

  lemma LeaveWaiters(s: State, t: nat)
    ensures Waiters(Leave(s, t)) == Waiters(s) - {t}
    ensures |Waiters(Leave(s, t))| == if t in Waiters(s) then |Waiters(s)| - 1 else |Waiters(s)|
  {
    if t in Waiters(s) {
      SomeMember(Waiters(s), t);
    } else {
      assert Waiters(s) - {t} == Waiters(s);
    }
  }

  lemma MoveWaiters(s: State, t: nat, pc: Pc, lock: Option<nat>)
    ensures Waiters(Move(s, t, pc, lock)) == if Waited(pc) then Waiters(s) + {t} else Waiters(s) - {t}
    ensures Waited(pc) && t !in Waiters(s) ==> |Waiters(Move(s, t, pc, lock))| == |Waiters(s)| + 1
    ensures Waited(pc) && t in Waiters(s) ==> Waiters(Move(s, t, pc, lock)) == Waiters(s)
    ensures !Waited(pc) && t !in Waiters(s) ==> Waiters(Move(s, t, pc, lock)) == Waiters(s)
  {
  }

  lemma SameWaiters(s: State, s': State)
    requires s'.threads == s.threads
    ensures Waiters(s') == Waiters(s)
  {
  }

  lemma WaiterIff(s: State, t: nat)
    ensures t in Waiters(s) <==> t in s.threads && Waited(s.threads[t])
  {
  }

  // ----- marks, step by step -----

  lemma RefillMarks(c: Config, s: State, a: Action, p: nat)
    requires c.Valid() && Inv(c, s) && Bounded(c, s, p) && Enabled(c, s, a) && (a.RefillWrite? || a.RefillFinish?)
    ensures MarksBounded(c, Apply(c, s, a), p)
  {
    hide Wrap, Contiguous, CallsBounded, CursorBounded;
    assert RefillOk(c, s, s.refills[a.r]);
  }

  lemma InlineMarks(c: Config, s: State, t: nat, o: Outcome, p: nat)
    requires c.Valid() && Inv(c, s) && Bounded(c, s, p) && Enabled(c, s, InlineWrite(t, o)) && NoWrap(c, s, InlineWrite(t, o))
    ensures MarksBounded(c, Apply(c, s, InlineWrite(t, o)), p)
  {
    hide Wrap, Grow, Contiguous, Waiters, CallsBounded, CursorBounded;
    InlineNumbers(c, s, t);
    TakerBound(c, s, t, p);
  }

  lemma TakeMarks(c: Config, s: State, t: nat, r: nat, p: nat)
    requires c.Valid() && Inv(c, s) && Bounded(c, s, p) && Enabled(c, s, Take(t, r)) && NoWrap(c, s, Take(t, r))
    ensures MarksBounded(c, Apply(c, s, Take(t, r)), p)
  {
    hide Wrap, Contiguous, Waiters, CallsBounded, CursorBounded, TightIfOne;
    TakerBound(c, s, t, p);
    SlackBound(c, s, t, p);
  }

  lemma ResetMarks(c: Config, s: State, a: Action, p: nat)
    requires c.Valid() && Inv(c, s) && Bounded(c, s, p)
    requires Enabled(c, s, a) && Orderly(c, s, a, p) && (a.ResetWrite? || a.ResetApply? || a.OfflineReset?)
    ensures MarksBounded(c, Apply(c, s, a), p)
  {
    hide Wrap, Contiguous, Waiters, CursorBounded;
    if !a.OfflineReset? {
      assert CallBounded(c, s.threads[a.t]);
    }
  }

  lemma OtherMarks(c: Config, s: State, a: Action, p: nat)
    requires c.Valid() && Inv(c, s) && Bounded(c, s, p) && Enabled(c, s, a)
    requires !a.InlineWrite? && !a.Take? && !a.RefillWrite? && !a.RefillFinish?
    requires !a.ResetWrite? && !a.ResetApply? && !a.OfflineReset?
    ensures MarksBounded(c, Apply(c, s, a), p)
  {
    hide Wrap, Contiguous, Waiters, CallsBounded, CursorBounded, TightIfOne;
  }

  // ----- the cursor, step by step -----

  /** One call leaves, or goes on without having waited more; the cursor stays or comes down. */
  lemma CursorStep(c: Config, s: State, s': State, t: nat, p: nat)
    requires CursorBounded(c, s, p) && t in s.threads
    requires s'.threads == s.threads - {t}
             || (t in s'.threads && s'.threads == s.threads[t := s'.threads[t]]
                 && (Waited(s'.threads[t]) ==> Waited(s.threads[t])) && (Entered(s'.threads[t]) ==> Entered(s.threads[t])))
    requires s'.cursor <= s.cursor || s'.cursor <= c.maxIter + 1
    ensures CursorBounded(c, s', p)
  {
    hide Waiters;
    WaiterIff(s, t);
    LeaveWaiters(s, t);
    if t in s'.threads {
      MoveWaiters(s, t, s'.threads[t], s'.lock);
      SameWaiters(s', Move(s, t, s'.threads[t], s'.lock));
    } else {
      SameWaiters(s', Leave(s, t));
    }
    assert forall u :: u in s'.threads && u != t ==> u in s.threads && s'.threads[u] == s.threads[u];
  }

  lemma LoadCursor(c: Config, s: State, p: nat)
    requires c.Valid() && Inv(c, s) && CursorBounded(c, s, p)
    ensures CursorBounded(c, Load(s), p)
  {
    hide Waiters, Window, Issued, Logged;
    SameWaiters(s, Load(s));
  }

  lemma EnterCursor(c: Config, s: State, a: Action, p: nat)
    requires c.Valid() && Inv(c, s) && Bounded(c, s, p) && NoWrap(c, s, a)
    requires Enabled(c, s, a) && (a.EnterNext? || a.EnterReset?)
    ensures CursorBounded(c, Apply(c, s, a), p)
  {
    hide Wrap, Waiters, Inv, MarksBounded, CallsBounded, CursorBounded;
    var l, s' := Load(s), Apply(c, s, a);
    LoadCursor(c, s, p);
    if a.EnterNext? && a.t in s'.threads {
      AdmittedCursor(c, s, a.t, p);
    } else {
      CursorStep(c, l, s', a.t, p);
    }
  }

  /** A call that passes the check starts within the type. */
  lemma AdmittedCursor(c: Config, s: State, t: nat, p: nat)
    requires c.Valid() && Inv(c, s) && Bounded(c, s, p) && Enabled(c, s, EnterNext(t)) && NoWrap(c, s, EnterNext(t))
    requires t in Apply(c, s, EnterNext(t)).threads
    ensures CursorBounded(c, Apply(c, s, EnterNext(t)), p)
  {
    hide Wrap, Waiters, Window, Issued, Logged, MarksBounded, CallsBounded;
    LoadKeeps(c, s);
    var l, n := Load(s), s.threads[t].n;
    assert ThreadOk(c, s, t, s.threads[t]);
    SameWaiters(s, l);
    WaiterIff(l, t);
    WrapTwice(l.cursor + n, -1);
    MoveWaiters(l, t, NextLoop(n, l.cursor, false), Some(t));
    SameWaiters(Apply(c, s, EnterNext(t)), Move(l, t, NextLoop(n, l.cursor, false), Some(t)));
  }

  lemma TakeCursor(c: Config, s: State, t: nat, r: nat, p: nat)
    requires c.Valid() && Inv(c, s) && Bounded(c, s, p) && Enabled(c, s, Take(t, r))
    ensures CursorBounded(c, Apply(c, s, Take(t, r)), p)
  {
    hide Wrap, Contiguous, Waiters, MarksBounded, CallsBounded;
    TakerBound(c, s, t, p);
    LeaveWaiters(s, t);
    SameWaiters(Leave(s, t), Apply(c, s, Take(t, r)));
  }

  lemma LockedCursor(c: Config, s: State, a: Action, p: nat)
    requires c.Valid() && Inv(c, s) && Bounded(c, s, p) && Enabled(c, s, a)
    requires a.InlineWrite? || a.InlineExtend? || a.ResetWrite? || a.ResetApply? || a.RefuseReset?
    ensures CursorBounded(c, Apply(c, s, a), p)
  {
    hide Wrap, Grow, Contiguous, Waiters, Window, Issued, Logged, MarksBounded, CursorBounded;
    assert CallBounded(c, s.threads[a.t]);
    CursorStep(c, s, Apply(c, s, a), a.t, p);
  }

  lemma WaitCursor(c: Config, s: State, a: Action, p: nat)
    requires c.Valid() && Inv(c, s) && Bounded(c, s, p)
    requires Enabled(c, s, a) && Orderly(c, s, a, p) && (a.Park? || a.Reacquire?)
    ensures CursorBounded(c, Apply(c, s, a), p)
  {
    hide Wrap, Contiguous, Waiters, Window, Issued, Logged, MarksBounded;
    var s' := Apply(c, s, a);
    WaiterIff(s, a.t);
    MoveWaiters(s, a.t, s'.threads[a.t], s'.lock);
    SameWaiters(s', Move(s, a.t, s'.threads[a.t], s'.lock));
    assert ThreadOk(c, s, a.t, s.threads[a.t]) && CallBounded(c, s.threads[a.t]);
  }

  lemma OtherCursor(c: Config, s: State, a: Action, p: nat)
    requires c.Valid() && Inv(c, s) && Bounded(c, s, p) && Enabled(c, s, a)
    requires a.CallNext? || a.CallReset? || a.RefillWrite? || a.RefillFinish? || a.OtherFlush? || a.Crash? || a.Boot? || a.OfflineReset?
    ensures CursorBounded(c, Apply(c, s, a), p)
  {
    hide Wrap, Contiguous, Window, Issued, Logged, MarksBounded, CallsBounded;
    var s' := Apply(c, s, a);
    if a.Crash? {
      assert Waiters(s') == {};
    } else {
      assert Waiters(s') == Waiters(s);
    }
  }

  // ----- runs -----

  lemma {:induction false} OrderlyIsClean(c: Config, s: State, run: seq<Action>, p: nat)
    requires c.Valid() && Roomy(c, p) && Inv(c, s) && Bounded(c, s, p) && OrderlyRun(c, s, run, p)
    ensures Clean(c, s, run) && Exec(c, s, run).Some?
    ensures Inv(c, Exec(c, s, run).value) && Bounded(c, Exec(c, s, run).value, p)
  {
    hide Inv, Bounded, Apply, Enabled, Orderly;
    if run != [] {
      var last := |run| - 1;
      OrderlyIsClean(c, s, run[..last], p);
      var m := Exec(c, s, run[..last]).value;
      BoundedIsBenign(c, m, run[last], p);
      StepKeeps(c, m, run[last]);
      StepBounded(c, m, run[last], p);
    }
  }

  lemma FreshBounded(c: Config, start: int, p: nat)
    requires c.Valid() && 0 <= start <= c.maxIter
    ensures Inv(c, Fresh(start)) && Bounded(c, Fresh(start), p)
  {
    FreshInv(c, start);
    assert Waiters(Fresh(start)) == {};
  }

  /**
   In a roomy configuration the no-wrap hypothesis discharges itself: every run of calls of which at
   most p wait at a time, with resets, failed writes, crashes and restarts, is clean, and no mark goes
   above Top.
   */
  lemma NothingWraps(c: Config, start: int, run: seq<Action>, p: nat)
    requires c.Valid() && Roomy(c, p) && 0 <= start <= c.maxIter && OrderlyRun(c, Fresh(start), run, p)
    ensures Exec(c, Fresh(start), run).Some?
    ensures Reachable(c, start, run, Exec(c, Fresh(start), run).value)
    ensures Exec(c, Fresh(start), run).value.mark.disk <= Top(c, p)
  {
    FreshBounded(c, start, p);
    OrderlyIsClean(c, Fresh(start), run, p);
  }

  // ----- what is handed out -----

  /** Every range ends within the type, but for the batches that calls which waited may add. */
  ghost predicate LogFits(c: Config, log: seq<Range>, p: nat) {
    forall i :: 0 <= i < |log| ==> log[i].End() - 1 <= c.maxIter + p * MAX_BATCH
  }

  lemma {:induction false} IssuedFits(c: Config, s: State, run: seq<Action>, p: nat)
    requires c.Valid() && Roomy(c, p) && Inv(c, s) && Bounded(c, s, p) && OrderlyRun(c, s, run, p)
    requires LogFits(c, s.hist, p)
    ensures Exec(c, s, run).Some? && LogFits(c, Exec(c, s, run).value.hist, p)
  {
    hide Inv, Bounded, Apply, Enabled, Orderly, LogFits;
    if run != [] {
      var last := |run| - 1;
      IssuedFits(c, s, run[..last], p);
      OrderlyIsClean(c, s, run[..last], p);
      StepFits(c, Exec(c, s, run[..last]).value, run[last], p);
    }
  }

  lemma StepFits(c: Config, s: State, a: Action, p: nat)
    requires c.Valid() && Inv(c, s) && Bounded(c, s, p) && Enabled(c, s, a) && LogFits(c, s.hist, p)
    ensures LogFits(c, Apply(c, s, a).hist, p)
  {
    hide Wrap, Grow, Contiguous, Waiters, Issued, Logged, Bounded;
    if a.Take? {
      TakerBound(c, s, a.t, p);
    }
  }
}
