/**
 The exhaustion check of Next at allocator.go:103 is not repeated after the wait at allocator.go:108.
 When a call is in danger of handing out iterations past the type's last one.
 */
module ProtocolOverrun {
  import opened Wrappers
  import opened Int64
  import opened Reservation
  import opened Protocol
  import opened ProtocolInvariant
  import opened ProtocolTheorems
  import opened ProtocolBounds
  import opened ProtocolWitness

  /** After these steps, none of which is a new call by t, the call that t is in takes past the last iteration. */
  ghost predicate Overruns(c: Config, s: State, t: nat, run: seq<Action>, m: State, r: nat)
    requires c.Valid()
  {
    && Clean(c, s, run) && Exec(c, s, run) == Some(m) && Apart(run, t)
    && Enabled(c, m, Take(t, r)) && Benign(c, m, Take(t, r))
    && m.cursor + m.threads[t].n - 1 > c.maxIter
  }

  ghost predicate MayOverrun(c: Config, s: State, t: nat)
    requires c.Valid()
  {
    exists run, m, r :: Overruns(c, s, t, run, m, r)
  }

  // ----- a call that need not wait -----

  /** The call of t keeps the lock and need not park. */
  ghost predicate Unhindered(s: State, t: nat) {
    t in s.threads && Entered(s.threads[t]) ==>
      && s.lock == Some(t) && !Waited(s.threads[t])
      && (s.reserving ==> !Short(s, s.threads[t]))
  }

  lemma StepUnhindered(c: Config, s: State, t: nat, a: Action)
    requires c.Valid() && Inv(c, s) && Unhindered(s, t) && Enabled(c, s, a) && Benign(c, s, a)
    requires a.CallNext? ==> a.t != t
    requires t in s.threads ==> !s.threads[t].NextStart?
    ensures Unhindered(Apply(c, s, a), t)
    ensures t in Apply(c, s, a).threads ==> !Apply(c, s, a).threads[t].NextStart?
  {
    hide Unhindered, Inv, Apply, Enabled, Benign;
    if a.CallNext? || a.CallReset? || a.RefillWrite? || a.RefillFinish? || a.OtherFlush? || a.Crash? || a.Boot? || a.OfflineReset? {
      OthersUnhindered(c, s, t, a);
    } else if a.InlineWrite? || a.InlineExtend? || a.Take? {
      NextUnhindered(c, s, t, a);
    } else {
      RestUnhindered(c, s, t, a);
    }
  }

  lemma OthersUnhindered(c: Config, s: State, t: nat, a: Action)
    requires c.Valid() && Inv(c, s) && Unhindered(s, t) && Enabled(c, s, a)
    requires a.CallNext? ==> a.t != t
    requires t in s.threads ==> !s.threads[t].NextStart?
    requires a.CallNext? || a.CallReset? || a.RefillWrite? || a.RefillFinish? || a.OtherFlush? || a.Crash? || a.Boot? || a.OfflineReset?
    ensures Unhindered(Apply(c, s, a), t)
    ensures t in Apply(c, s, a).threads ==> !Apply(c, s, a).threads[t].NextStart?
  {
    hide Wrap, Grow, Contiguous, Window, Issued, Logged;
  }

  lemma NextUnhindered(c: Config, s: State, t: nat, a: Action)
    requires c.Valid() && Inv(c, s) && Unhindered(s, t) && Enabled(c, s, a)
    requires t in s.threads ==> !s.threads[t].NextStart?
    requires a.InlineWrite? || a.InlineExtend? || a.Take?
    ensures Unhindered(Apply(c, s, a), t)
    ensures t in Apply(c, s, a).threads ==> !Apply(c, s, a).threads[t].NextStart?
  {
    hide Wrap, Grow, Contiguous, Window, Issued, Logged;
    if t in s.threads && Entered(s.threads[t]) {
      assert ThreadOk(c, s, t, s.threads[t]);
    }
  }

  lemma RestUnhindered(c: Config, s: State, t: nat, a: Action)
    requires c.Valid() && Inv(c, s) && Unhindered(s, t) && Enabled(c, s, a)
    requires t in s.threads ==> !s.threads[t].NextStart?
    requires a.EnterNext? || a.EnterReset? || a.Park? || a.Reacquire? || a.RefuseReset? || a.ResetWrite? || a.ResetApply?
    ensures Unhindered(Apply(c, s, a), t)
    ensures t in Apply(c, s, a).threads ==> !Apply(c, s, a).threads[t].NextStart?
  {
    hide Wrap, Grow, Contiguous, Window, Issued, Logged;
    if t in s.threads && Entered(s.threads[t]) {
      assert ThreadOk(c, s, t, s.threads[t]);
    }
  }

  lemma {:induction false} RunUnhindered(c: Config, s: State, t: nat, run: seq<Action>)
    requires c.Valid() && Inv(c, s) && Unhindered(s, t) && (t in s.threads ==> !s.threads[t].NextStart?)
    requires Clean(c, s, run) && Apart(run, t)
    ensures Exec(c, s, run).Some?
    ensures var m := Exec(c, s, run).value;
            Inv(c, m) && Unhindered(m, t) && (t in m.threads ==> !m.threads[t].NextStart?)
  {
    hide Inv, Unhindered, Apply, Enabled, Benign;
    if run != [] {
      var last := |run| - 1;
      RunUnhindered(c, s, t, run[..last]);
      var m := Exec(c, s, run[..last]).value;
      StepKeeps(c, m, run[last]);
      StepUnhindered(c, m, t, run[last]);
    }
  }

  lemma TakesWithin(c: Config, s: State, t: nat, run: seq<Action>, r: nat)
    requires c.Valid() && Inv(c, s) && Unhindered(s, t) && (t in s.threads ==> !s.threads[t].NextStart?)
    requires Clean(c, s, run) && Apart(run, t)
    ensures Exec(c, s, run).Some?
    ensures var m := Exec(c, s, run).value; Enabled(c, m, Take(t, r)) ==> m.cursor + m.threads[t].n - 1 <= c.maxIter
  {
    hide Clean, Exec;
    RunUnhindered(c, s, t, run);
    var m := Exec(c, s, run).value;
    if t in m.threads {
      assert ThreadOk(c, m, t, m.threads[t]);
    }
  }

  lemma CannotOverrun(c: Config, s: State, t: nat, run: seq<Action>, m: State, r: nat)
    requires c.Valid() && Inv(c, s) && Unhindered(s, t) && (t in s.threads ==> !s.threads[t].NextStart?)
    ensures !Overruns(c, s, t, run, m, r)
  {
    hide Clean, Exec, Inv, Unhindered;
    if Clean(c, s, run) && Apart(run, t) {
      TakesWithin(c, s, t, run, r);
    }
  }

  // ----- a call that waits -----

  /** A call by u for k iterations from here, with an inline reservation if the window is short. */
  lemma GoTakeOver(c: Config, s0: State, m: Manner, s: State, u: nat, k: int) returns (s': State)
    requires c.Valid() && Inv(c, s0) && Leadable(c, s0, m, s) && m.clean && m.Serves(k) && m.apart != Some(u)
    requires s.up && s.loaded && s.lock.None? && u !in s.threads && !s.reserving
    requires 1 <= k && s.cursor + k - 1 <= c.maxIter && c.maxIter + 1 + c.threshold + c.segmentSize <= MAX
    ensures Leadable(c, s0, m, s') && Inv(c, s') && s'.up && s'.loaded && s'.lock.None?
    ensures s'.cursor == s.cursor + k && s'.threads == s.threads
  {
    hide Leadable, Wrap, Grow, Contiguous, Threads, Issued, Logged;
    LeadableInv(c, s0, m, s);
    WrapTwice(s.cursor + k, -1);
    s' := GoEnter(c, s0, m, s, u, k);
    var pc := NextLoop(k, s.cursor, false);
    LeadableInv(c, s0, m, s');
    s' := GoWindow(c, s0, m, s', u, pc);
    var locked := s';
    s' := GoTake(c, s0, m, locked, u, pc, 0);
    LeadableInv(c, s0, m, s');
    assert s.threads[u := pc] - {u} == s.threads;
  }

  /** The call in the lock gets its window. */
  lemma GoWindow(c: Config, s0: State, m: Manner, s: State, t: nat, pc: Pc) returns (s': State)
    requires c.Valid() && Inv(c, s0) && Leadable(c, s0, m, s) && m.clean
    requires s.up && s.loaded && s.At(t, pc) && pc.NextLoop? && !s.reserving
    requires s.cursor + pc.n + c.segmentSize - 1 <= MAX
    requires s.cursor + pc.n + c.threshold + c.segmentSize <= MAX
    ensures Leadable(c, s0, m, s') && Inv(c, s')
    ensures s' == s.(mark := s'.mark, reservedEnd := s'.reservedEnd) && s'.refills == map[]
    ensures s'.Remaining() >= pc.n && NoWrap(c, s', Take(t, 0))
  {
    hide Leadable, Wrap, Grow, Contiguous, Issued, Logged;
    LeadableInv(c, s0, m, s);
    assert ThreadOk(c, s, t, pc);
    s' := s;
    if s.Remaining() < pc.n {
      GrowCovers(c.segmentSize, pc.n - (s.reservedEnd - s.cursor));
      InlineNumbers(c, s, t);
      s' := GoExtend(c, s0, m, s, t, pc);
      LeadableInv(c, s0, m, s');
    }
  }

  /** It parks, and before it wakes up another call takes one iteration more than the room it had. */
  lemma Overtaken(c: Config, s: State, t: nat, m: Manner) returns (s': State)
    requires c.Valid() && Inv(c, s) && c.maxIter + 2 + c.threshold + c.segmentSize <= MAX
    requires s.up && s.loaded && s.lock == Some(t) && t in s.threads && s.threads[t].NextLoop? && !s.threads[t].parked
    requires s.reserving && s.Remaining() < s.threads[t].n && m == Manner(true, false, false, Some(t), None)
    ensures Leadable(c, s, m, s') && s'.up && s'.loaded && s'.lock.None? && !s'.reserving
    ensures t in s'.threads && s'.threads[t] == NextWoken(s.threads[t].n, s.threads[t].checked)
    ensures s'.cursor + s.threads[t].n - 1 == c.maxIter + 1
  {
    hide Leadable, Wrap, Contiguous, Window, Issued, Logged;
    var pc := s.threads[t];
    assert ThreadOk(c, s, t, pc);
    Here(c, s, m);
    var s1 := Go(c, s, m, s, Park(t));
    var s2 := GoDrain(c, s, m, s1);
    var u := Unused(s2.threads);
    assert t in s2.threads && s2.threads[t] == NextWoken(pc.n, pc.checked);
    s' := GoTakeOver(c, s, m, s2, u, c.maxIter - (s.cursor + pc.n - 1) + 1);
    if s'.reserving {
      s' := GoDrain(c, s, m, s');
    }
  }

  lemma WaitingOverruns(c: Config, s: State, t: nat)
    requires c.Valid() && Inv(c, s) && c.maxIter + 2 + c.threshold + c.segmentSize <= MAX
    requires s.up && s.loaded && s.lock == Some(t) && t in s.threads && s.threads[t].NextLoop? && !s.threads[t].parked
    requires s.reserving && s.Remaining() < s.threads[t].n
    ensures MayOverrun(c, s, t)
  {
    hide Leadable, Wrap, Contiguous, Threads, Window, Issued, Logged, Clean, Exec;
    var m := Manner(true, false, false, Some(t), None);
    var pc := s.threads[t];
    var s1 := Overtaken(c, s, t, m);
    var s2 := Go(c, s, m, s1, Reacquire(t));
    var s3 := GoWindow(c, s, m, s2, t, NextLoop(pc.n, pc.checked, true));
    var run := RunOf(c, s, m, s3);
    assert Overruns(c, s, t, run, s3, 0);
  }

  /**
   Exactly when a call that has passed the check may still overrun, as it gets the lock: if and only if
   a refill is in flight and the window is too short for it, which is the branch of allocator.go:107.
   */
  lemma OverrunIff(c: Config, start: int, run: seq<Action>, s: State, t: nat)
    requires Reachable(c, start, run, s) && c.maxIter + 2 + c.threshold + c.segmentSize <= MAX
    requires Enabled(c, s, EnterNext(t)) && NoWrap(c, s, EnterNext(t)) && t in Apply(c, s, EnterNext(t)).threads
    ensures var s' := Apply(c, s, EnterNext(t));
            MayOverrun(c, s', t) <==> s'.reserving && s'.Remaining() < s'.threads[t].n
  {
    hide Exec, Clean, Inv, Overruns;
    ReachableInv(c, start, run, s);
    StepKeeps(c, s, EnterNext(t));
    var s' := Apply(c, s, EnterNext(t));
    assert s'.loaded by { LoadKeeps(c, s); }
    if s'.reserving && s'.Remaining() < s'.threads[t].n {
      WaitingOverruns(c, s', t);
    } else {
      forall more, m, r
        ensures !Overruns(c, s', t, more, m, r)
      {
        CannotOverrun(c, s', t, more, m, r);
      }
    }
  }
}
