/** Building runs of the protocol step by step, for statements that some run exists. */
module ProtocolWitness {
  import opened Wrappers
  import opened Int64
  import opened Reservation
  import opened Protocol
  import opened ProtocolInvariant
  import opened ProtocolTheorems
  import opened ProtocolResets
  import opened ProtocolBounds
  import opened ProtocolCrash
  import CycleWalk

  /** What is asked of every step, beside that it is unforced. `apart` makes no call of its own; `most` bounds the calls. */
  datatype Manner = Manner(clean: bool, orderly: bool, sharp: bool, apart: Option<nat>, most: Option<int>) {
    predicate Serves(n: int) {
      (orderly ==> n <= MAX_BATCH) && (most.Some? ==> n <= most.value)
    }
  }

  const FREE: Manner := Manner(false, false, false, None, None)
  const CLEAN: Manner := Manner(true, false, false, None, None)
  const CLEAN_SHARP: Manner := Manner(true, false, true, None, None)
  const SINGLES: Manner := Manner(true, false, true, None, Some(1))
  const ORDERLY: Manner := Manner(false, true, true, None, None)

  ghost predicate Allowed(c: Config, s: State, a: Action, m: Manner)
    requires c.Valid()
  {
    && Unforced(s, a)
    && (m.clean ==> Benign(c, s, a))
    && (m.orderly ==> Orderly(c, s, a, 0))
    && (m.sharp ==> Sharp(a))
    && (m.apart.Some? && a.CallNext? ==> a.t != m.apart.value)
    && (m.most.Some? && a.CallNext? ==> a.n <= m.most.value)
  }

  ghost predicate Keeping(c: Config, s: State, run: seq<Action>, m: Manner)
    requires c.Valid()
  {
    run == [] ||
    var last := |run| - 1;
    Keeping(c, s, run[..last], m) && Exec(c, s, run).Some? && Allowed(c, Exec(c, s, run[..last]).value, run[last], m)
  }

  ghost predicate Along(c: Config, s: State, run: seq<Action>, m: Manner, s': State)
    requires c.Valid()
  {
    Exec(c, s, run) == Some(s') && Keeping(c, s, run, m)
  }

  /** Some run in this manner leads from s to s'. */
  ghost predicate Leadable(c: Config, s: State, m: Manner, s': State)
    requires c.Valid()
  {
    exists run :: Along(c, s, run, m, s')
  }

  ghost predicate Apart(run: seq<Action>, t: nat) {
    forall i :: 0 <= i < |run| && run[i].CallNext? ==> run[i].t != t
  }

  /** What such a run is in the terms of the other modules. */
  lemma {:induction false} Manners(c: Config, s: State, run: seq<Action>, m: Manner)
    requires c.Valid() && Keeping(c, s, run, m) && Exec(c, s, run).Some?
    ensures UnforcedRun(c, s, run)
    ensures m.clean ==> Clean(c, s, run)
    ensures m.orderly ==> OrderlyRun(c, s, run, 0)
    ensures m.sharp ==> SharpRun(run)
    ensures m.apart.Some? ==> Apart(run, m.apart.value)
  {
    hide Benign, Orderly, Unforced, Apply, Enabled;
    if run != [] {
      Manners(c, s, run[..|run| - 1], m);
    }
  }

  /** Runs whose calls ask for at most m.most values. */
  lemma {:induction false} MannersModest(c: Config, s: State, run: seq<Action>, m: Manner)
    requires c.Valid() && Keeping(c, s, run, m) && Exec(c, s, run).Some? && m.sharp && m.most.Some?
    ensures Modest(run, m.most.value)
  {
    hide Benign, Orderly, Unforced, Apply, Enabled;
    if run != [] {
      var last := |run| - 1;
      MannersModest(c, s, run[..last], m);
      assert run == run[..last] + [run[last]];
      assert Sharp(run[last]);
    }
  }

  lemma RunOf(c: Config, s: State, m: Manner, s': State) returns (run: seq<Action>)
    requires c.Valid() && Leadable(c, s, m, s')
    ensures Exec(c, s, run) == Some(s') && UnforcedRun(c, s, run)
    ensures m.clean ==> Clean(c, s, run)
    ensures m.orderly ==> OrderlyRun(c, s, run, 0)
    ensures m.sharp ==> SharpRun(run)
    ensures m.apart.Some? ==> Apart(run, m.apart.value)
    ensures m.sharp && m.most.Some? ==> Modest(run, m.most.value)
  {
    hide Keeping, Modest;
    run :| Along(c, s, run, m, s');
    Manners(c, s, run, m);
    if m.sharp && m.most.Some? {
      MannersModest(c, s, run, m);
    }
  }

  lemma Here(c: Config, s: State, m: Manner)
    requires c.Valid()
    ensures Leadable(c, s, m, s)
  {
    assert Along(c, s, [], m, s);
  }

  lemma Go(c: Config, s0: State, m: Manner, s: State, a: Action) returns (s': State)
    requires c.Valid() && Leadable(c, s0, m, s) && Enabled(c, s, a) && Allowed(c, s, a, m)
    ensures s' == Apply(c, s, a) && Leadable(c, s0, m, s')
  {
    hide Allowed, Apply, Enabled;
    s' := Apply(c, s, a);
    var run :| Along(c, s0, run, m, s);
    assert (run + [a])[..|run|] == run;
    assert Along(c, s0, run + [a], m, s');
  }

  /** Clean runs keep the invariant. */
  lemma LeadableInv(c: Config, s0: State, m: Manner, s: State)
    requires c.Valid() && Leadable(c, s0, m, s) && m.clean && Inv(c, s0)
    ensures Inv(c, s)
  {
    hide Inv, Keeping;
    var run :| Along(c, s0, run, m, s);
    Manners(c, s0, run, m);
    RunKeeps(c, s0, run);
  }

  /** A thread that is in no call. */
  lemma Unused(threads: map<nat, Pc>) returns (u: nat)
    ensures u !in threads
  {
    var all := CycleWalk.Numbers(|threads.Keys| + 1);
    if all <= threads.Keys {
      CycleWalk.SubsetSize(all, threads.Keys);
    }
    u :| u in all && u !in threads.Keys;
  }

  // ----- a call of Next -----

  /** A call that passes the exhaustion check. */
  lemma GoEnter(c: Config, s0: State, m: Manner, s: State, t: nat, n: int) returns (s': State)
    requires c.Valid() && Leadable(c, s0, m, s)
    requires s.up && s.lock.None? && t !in s.threads && 1 <= n <= MAX
    requires Wrap(Wrap(Load(s).cursor + n) - 1) <= c.maxIter
    requires m.clean ==> Load(s).cursor + n - 1 <= MAX
    requires m.Serves(n) && m.apart != Some(t)
    ensures s' == Move(Load(s), t, NextLoop(n, Load(s).cursor, false), Some(t)) && Leadable(c, s0, m, s')
  {
    hide Leadable, Wrap;
    s' := Go(c, s0, m, s, CallNext(t, n));
    s' := Go(c, s0, m, s', EnterNext(t));
    assert s'.threads == s.threads[t := NextLoop(n, Load(s).cursor, false)];
  }

  /** A window after one inline reservation for n, as int64 arithmetic makes it. */
  ghost function Extended(c: Config, l: State, n: int): State
    requires c.Valid()
  {
    var end := Wrap(l.reservedEnd + Grow(c.segmentSize, Wrap(n - l.Remaining())));
    l.(mark := Raise(l.mark, end, Done).1, reservedEnd := end)
  }

  /** The inline reservation of a call that holds the lock, with a successful write. */
  lemma GoExtend(c: Config, s0: State, m: Manner, s: State, t: nat, pc: Pc) returns (s': State)
    requires c.Valid() && Leadable(c, s0, m, s)
    requires s.up && s.loaded && s.At(t, pc) && pc.NextLoop? && s.Remaining() < pc.n && !s.reserving
    requires m.clean ==> NoWrap(c, s, InlineWrite(t, Done))
    ensures s' == Extended(c, s, pc.n) && Leadable(c, s0, m, s')
  {
    hide Leadable, Grow, Wrap;
    var grow := Grow(c.segmentSize, Wrap(pc.n - s.Remaining()));
    s' := Go(c, s0, m, s, InlineWrite(t, Done));
    assert s' == Move(s.(mark := Extended(c, s, pc.n).mark), t, NextWrote(pc.n, pc.checked, pc.parked, grow), Some(t));
    s' := Go(c, s0, m, s', InlineExtend(t));
    assert s'.threads == s.threads;
  }

  lemma GoTake(c: Config, s0: State, m: Manner, s: State, t: nat, pc: Pc, r: nat) returns (s': State)
    requires c.Valid() && Leadable(c, s0, m, s)
    requires s.up && s.At(t, pc) && pc.NextLoop? && s.Remaining() >= pc.n && r !in s.refills
    requires m.clean ==> NoWrap(c, s, Take(t, r))
    ensures s' == TakeRange(c, s, t, pc.n, r) && Leadable(c, s0, m, s')
  {
    s' := Go(c, s0, m, s, Take(t, r));
  }

  /** The first call since the entity was loaded, alone in the process: it reserves inline and takes. */
  lemma GoAlone(c: Config, s0: State, m: Manner, s: State, n: int) returns (s': State)
    requires c.Valid() && Leadable(c, s0, m, s) && m.apart.None?
    requires s.up && !s.loaded && s.lock.None? && s.threads == map[] && s.refills == map[] && !s.reserving
    requires 1 <= n <= MAX && Wrap(Wrap(s.mark.mem + n) - 1) <= c.maxIter
    requires n <= Extended(c, Load(s), n).Remaining()
    requires m.clean ==> 0 <= s.mark.mem && s.mark.mem + n + 2 * c.segmentSize <= MAX
    requires m.Serves(n)
    ensures s' == TakeRange(c, Extended(c, Load(s), n), 1, n, 0) && Leadable(c, s0, m, s')
  {
    hide Leadable, Grow, Wrap, TakeRange;
    var pc := NextLoop(n, s.mark.mem, false);
    s' := GoEnter(c, s0, m, s, 1, n);
    assert s' == Load(s).(threads := map[1 := pc], lock := Some(1));
    assert s'.Remaining() == Wrap(0) == 0 && Wrap(n - 0) == n;
    if m.clean {
      GrowCovers(c.segmentSize, n);
    }
    s' := GoExtend(c, s0, m, s', 1, pc);
    var locked := s';
    s' := GoTake(c, s0, m, locked, 1, pc, 0);
    TakeLeaves(c, Extended(c, Load(s), n), locked, n);
  }

  /** Apart from the thread that leaves, TakeRange does the same with and without it. */
  lemma TakeLeaves(c: Config, e: State, locked: State, n: int)
    requires e.threads == map[] && e.lock.None?
    requires locked.threads.Keys == {1} && locked == e.(threads := locked.threads, lock := Some(1))
    ensures TakeRange(c, locked, 1, n, 0) == TakeRange(c, e, 1, n, 0)
  {
    hide Wrap;
    assert locked.threads - {1} == map[] && e.threads - {1} == map[];
  }

  // ----- between calls -----

  /** Up, not yet used, with this mark. */
  ghost predicate Rested(s: State, mark: int) {
    && s.up && !s.loaded && s.lock.None? && s.threads == map[] && s.refills == map[] && !s.reserving
    && s.mark == Mark(mark, mark)
  }

  /** Between calls, with the mark at the end of the window. */
  ghost predicate Settled(s: State) {
    && s.up && s.loaded && s.lock.None? && s.threads == map[]
    && 0 <= s.cursor <= s.reservedEnd <= MAX && s.mark == Mark(s.reservedEnd, s.reservedEnd)
    && s.refills == if s.reserving then map[0 := Writing(s.reservedEnd)] else map[]
  }

  /** A first call for n within one segment. */
  lemma GoFirstSegment(c: Config, s0: State, m: Manner, s: State, mark: int, n: int) returns (s': State)
    requires c.Valid() && Leadable(c, s0, m, s) && m.apart.None? && Rested(s, mark) && 0 <= mark
    requires 1 <= n <= c.segmentSize && m.Serves(n) && mark + n - 1 <= c.maxIter
    requires mark + 3 * c.segmentSize <= MAX || (!m.clean && mark + c.segmentSize <= MAX && 2 * c.segmentSize <= MAX)
    ensures Leadable(c, s0, m, s') && Settled(s') && s'.cursor == mark + n && s'.reservedEnd == mark + c.segmentSize
    ensures s'.reserving <==> c.segmentSize - n <= c.threshold
  {
    hide Leadable, Wrap, Grow;
    WrapTwice(mark + n, -1);
    OneSegment(c, s, mark, n);
    s' := GoAlone(c, s0, m, s, n);
  }

  lemma OneSegment(c: Config, s: State, mark: int, n: int)
    requires c.Valid() && Rested(s, mark) && 0 <= mark && 1 <= n <= c.segmentSize
    requires mark + c.segmentSize <= MAX && 2 * c.segmentSize <= MAX
    ensures Extended(c, Load(s), n)
            == Load(s).(reservedEnd := mark + c.segmentSize, mark := Mark(mark + c.segmentSize, mark + c.segmentSize))
    ensures Extended(c, Load(s), n).Remaining() == c.segmentSize
  {
    hide Wrap, Grow;
    assert Load(s).Remaining() == Wrap(0) == 0 && Wrap(n - 0) == n;
    GrowOneSegment(c.segmentSize, n);
  }

  /** Calls of at most `batch` take the window down to the threshold, where a refill starts. */
  lemma GoDown(c: Config, s0: State, m: Manner, s: State, batch: int) returns (s': State)
    requires c.Valid() && Leadable(c, s0, m, s) && m.apart.None? && Settled(s) && !s.reserving
    requires 1 <= batch && forall n :: 1 <= n <= batch ==> m.Serves(n)
    requires s.reservedEnd - s.cursor > c.threshold && s.reservedEnd - c.threshold <= c.maxIter + 1
    requires m.clean ==> s.reservedEnd + c.segmentSize <= MAX
    ensures Leadable(c, s0, m, s') && Settled(s') && s'.reserving
    ensures s'.reservedEnd == s.reservedEnd && s'.cursor == s.reservedEnd - c.threshold
    decreases s.reservedEnd - s.cursor
  {
    hide Leadable, Wrap, Grow;
    var left := s.reservedEnd - s.cursor - c.threshold;
    var n := if left <= batch then left else batch;
    WrapTwice(s.cursor + n, -1);
    s' := GoEnter(c, s0, m, s, 1, n);
    assert s'.threads == map[1 := NextLoop(n, s.cursor, false)];
    var locked := s';
    s' := GoTake(c, s0, m, locked, 1, NextLoop(n, s.cursor, false), 0);
    assert locked.threads - {1} == map[];
    if n < left {
      s' := GoDown(c, s0, m, s', batch);
    }
  }

  /** The refill in flight succeeds. */
  lemma GoRefill(c: Config, s0: State, m: Manner, s: State) returns (s': State)
    requires c.Valid() && Leadable(c, s0, m, s) && Settled(s) && s.reserving && s.reservedEnd + c.segmentSize <= MAX
    ensures Leadable(c, s0, m, s') && Settled(s') && !s'.reserving
    ensures s'.cursor == s.cursor && s'.reservedEnd == s.reservedEnd + c.segmentSize
  {
    hide Leadable, Wrap, Grow;
    s' := Go(c, s0, m, s, RefillWrite(0, Done));
    s' := Go(c, s0, m, s', RefillFinish(0));
    assert s'.threads == map[];
  }

  // ----- a refill -----

  /** s with the refill over and every waiter woken. */
  ghost predicate Drained(s: State, s': State) {
    && s' == s.(mark := s'.mark, reserving := false, refills := map[], reservedEnd := s'.reservedEnd, threads := s'.threads)
    && s'.threads == map t | t in s.threads :: s.threads[t].Woken()
  }

  /** The refill in flight runs to its end. */
  lemma GoDrain(c: Config, s0: State, m: Manner, s: State) returns (s': State)
    requires c.Valid() && Leadable(c, s0, m, s) && m.clean && Inv(c, s0)
    requires s.up && s.lock.None? && s.reserving
    ensures Leadable(c, s0, m, s') && Drained(s, s')
  {
    hide Leadable, Inv, Drained;
    LeadableInv(c, s0, m, s);
    var r := TheRefill(c, s);
    s' := s;
    if s.refills[r].Writing? {
      FailedRefill(c, s, r, m);
      s' := Go(c, s0, m, s, RefillWrite(r, FailedBefore));
    }
    FinishedRefill(c, s, s', r, m);
    s' := Go(c, s0, m, s', RefillFinish(r));
  }

  lemma TheRefill(c: Config, s: State) returns (r: nat)
    requires Inv(c, s) && s.reserving
    ensures s.refills.Keys == {r}
  {
    hide Window, Issued, Logged;
    r :| r in s.refills;
  }

  lemma FailedRefill(c: Config, s: State, r: nat, m: Manner)
    requires c.Valid() && s.up && s.refills.Keys == {r} && s.refills[r].Writing?
    ensures Enabled(c, s, RefillWrite(r, FailedBefore)) && Allowed(c, s, RefillWrite(r, FailedBefore), m)
    ensures var s' := Apply(c, s, RefillWrite(r, FailedBefore));
            && s' == s.(mark := s'.mark, refills := s'.refills)
            && s'.refills.Keys == {r} && s'.refills[r].Wrote?
  {
    hide Wrap;
  }

  lemma FinishedRefill(c: Config, s: State, s1: State, r: nat, m: Manner)
    requires c.Valid() && s1.up && s1.lock.None? && s1.refills.Keys == {r} && s1.refills[r].Wrote?
    requires s1 == s.(mark := s1.mark, refills := s1.refills)
    ensures Enabled(c, s1, RefillFinish(r)) && Allowed(c, s1, RefillFinish(r), m)
    ensures Drained(s, Apply(c, s1, RefillFinish(r)))
  {
    hide Wrap;
    assert s1.refills - {r} == map[];
  }
}
