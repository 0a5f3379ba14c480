/** What a crash can skip: the distance from the next iteration to the mark in the file. */
module ProtocolCrash {
  import opened Int64
  import opened Reservation
  import opened Protocol
  import opened ProtocolInvariant
  import opened ProtocolTheorems

  /** Not a write that is reported as failed although the new file is in place. */
  predicate Sharp(a: Action) {
    match a
    case InlineWrite(_, o) => !o.FailedAfter?
    case ResetWrite(_, o) => !o.FailedAfter?
    case RefillWrite(_, o) => !o.FailedAfter?
    case OfflineReset(_, _, o) => !o.FailedAfter?
    case _ => true
  }

  ghost predicate SharpRun(run: seq<Action>) {
    forall i :: 0 <= i < |run| ==> Sharp(run[i])
  }

  /** The iterations that a crash now would skip. */
  function Forfeit(c: Config, s: State): int
    requires c.Valid() && s.up
  {
    Apply(c, Apply(c, s, Crash), Boot).Head() - s.Head()
  }

  lemma StepSynced(c: Config, s: State, a: Action)
    requires c.Valid() && Enabled(c, s, a) && Sharp(a) && (s.up ==> s.mark.mem == s.mark.disk)
    ensures Apply(c, s, a).up ==> Apply(c, s, a).mark.mem == Apply(c, s, a).mark.disk
  {
    hide Wrap, Grow;
  }

  /** Without such writes the file and the memory of a running store agree. */
  lemma {:induction false} RunSynced(c: Config, s: State, run: seq<Action>)
    requires c.Valid() && Exec(c, s, run).Some? && SharpRun(run) && (s.up ==> s.mark.mem == s.mark.disk)
    ensures var s' := Exec(c, s, run).value; s'.up ==> s'.mark.mem == s'.mark.disk
  {
    hide Apply, Enabled;
    if run != [] {
      var last := |run| - 1;
      RunSynced(c, s, run[..last]);
      StepSynced(c, Exec(c, s, run[..last]).value, run[last]);
    }
  }

  /** How far the store's mark may be past the cursor. */
  lemma MarkReach(c: Config, s: State)
    requires c.Valid() && Inv(c, s) && s.loaded
    ensures s.lock.None? ==> s.mark.mem - s.cursor <= c.threshold + c.segmentSize
    ensures forall t :: t in s.threads && s.threads[t].Holds() && s.threads[t].InNext() ==>
                          var n := s.threads[t].n;
                          s.mark.mem - s.cursor <= (if n - 1 > c.threshold then n - 1 else c.threshold) + c.segmentSize
    ensures (forall t :: t in s.threads ==> !s.threads[t].ResetWrote?) && s.lock.Some? && !s.threads[s.lock.value].InNext()
            ==> s.mark.mem - s.cursor <= c.threshold + c.segmentSize
  {
    hide Contiguous;
    if s.reserving {
      var r :| r in s.refills;
      assert RefillOk(c, s, s.refills[r]);
    }
  }

  /**
   What a crash forfeits, in runs without writes that fail after the rename: with the lock free at most
   threshold + segmentSize iterations, and inside a call for n at most max(threshold, n-1) + segmentSize.
   */
  lemma CrashGapBound(c: Config, start: int, run: seq<Action>, s: State)
    requires Reachable(c, start, run, s) && SharpRun(run) && s.loaded
    ensures s.up && (s.lock.None? ==> Forfeit(c, s) <= c.threshold + c.segmentSize <= 2 * c.segmentSize)
    ensures forall t :: t in s.threads && s.threads[t].Holds() && s.threads[t].InNext() ==>
                          var n := s.threads[t].n;
                          Forfeit(c, s) <= (if n - 1 > c.threshold then n - 1 else c.threshold) + c.segmentSize
  {
    hide Clean, Exec;
    ReachableInv(c, start, run, s);
    RunSynced(c, Fresh(start), run);
    MarkReach(c, s);
  }

  // ----- crash gap with writes that fail after the rename -----

  /** No call asks for more than `most`, and no reset has such a write. */
  ghost predicate Modest(run: seq<Action>, most: int) {
    forall i :: 0 <= i < |run| ==>
                  && (run[i].CallNext? ==> run[i].n <= most)
                  && (run[i].ResetWrite? ==> !run[i].o.FailedAfter?)
  }

  function Farthest(c: Config, most: int): int {
    (if most - 1 > c.threshold then most - 1 else c.threshold) + c.segmentSize
  }

  /** The file's mark is within reach of the next iteration, whatever writes have failed. */
  ghost predicate Near(c: Config, s: State, most: int) {
    && (forall t :: t in s.threads && s.threads[t].InNext() ==> s.threads[t].n <= most)
    && (s.up ==> if Holder(s).Some? && Holder(s).value.ResetWrote? then s.mark.disk == s.mark.mem
                 else s.mark.disk - s.Head() <= Farthest(c, most))
  }

  lemma StepNear(c: Config, s: State, a: Action, most: int)
    requires c.Valid() && Inv(c, s) && Near(c, s, most) && Enabled(c, s, a) && Benign(c, s, a) && Modest([a], most)
    ensures Near(c, Apply(c, s, a), most)
  {
    hide Apply, Enabled, Inv, Near;
    assert [a][0] == a;
    if a.EnterNext? || a.EnterReset? {
      EnterNear(c, s, a, most);
    } else if a.InlineWrite? || a.InlineExtend? || a.Take? {
      NextNear(c, s, a, most);
    } else if a.ResetWrite? || a.ResetApply? || a.RefuseReset? {
      ResetNear(c, s, a, most);
    } else if a.RefillWrite? || a.RefillFinish? || a.OtherFlush? {
      RefillNear(c, s, a, most);
    } else {
      OtherNear(c, s, a, most);
    }
  }

  lemma EnterNear(c: Config, s: State, a: Action, most: int)
    requires c.Valid() && Inv(c, s) && Near(c, s, most) && Enabled(c, s, a) && (a.EnterNext? || a.EnterReset?)
    ensures Near(c, Apply(c, s, a), most)
  {
    hide Wrap, Grow, Contiguous, Window, Issued, Logged;
    LoadKeeps(c, s);
  }

  lemma NextNear(c: Config, s: State, a: Action, most: int)
    requires c.Valid() && Inv(c, s) && Near(c, s, most) && Enabled(c, s, a) && NoWrap(c, s, a)
    requires a.InlineWrite? || a.InlineExtend? || a.Take?
    ensures Near(c, Apply(c, s, a), most)
  {
    hide Wrap, Grow, Contiguous, Issued, Logged, Near;
    if a.InlineWrite? {
      InlineNear(c, s, a.t, a.o, most);
    } else {
      TakeNear(c, s, a, most);
    }
  }

  lemma InlineNear(c: Config, s: State, t: nat, o: Outcome, most: int)
    requires c.Valid() && Inv(c, s) && Near(c, s, most) && Enabled(c, s, InlineWrite(t, o)) && NoWrap(c, s, InlineWrite(t, o))
    ensures Near(c, Apply(c, s, InlineWrite(t, o)), most)
  {
    hide Wrap, Grow, Contiguous, Issued, Logged;
    InlineNumbers(c, s, t);
  }

  lemma TakeNear(c: Config, s: State, a: Action, most: int)
    requires c.Valid() && Inv(c, s) && Near(c, s, most) && Enabled(c, s, a) && (a.InlineExtend? || a.Take?)
    ensures Near(c, Apply(c, s, a), most)
  {
    hide Wrap, Grow, Contiguous, Issued, Logged;
  }

  lemma ResetNear(c: Config, s: State, a: Action, most: int)
    requires c.Valid() && Inv(c, s) && Near(c, s, most) && Enabled(c, s, a) && (a.ResetWrite? ==> !a.o.FailedAfter?)
    requires a.ResetWrite? || a.ResetApply? || a.RefuseReset?
    ensures Near(c, Apply(c, s, a), most)
  {
    hide Wrap, Grow, Contiguous, Issued, Logged;
  }

  lemma RefillNear(c: Config, s: State, a: Action, most: int)
    requires c.Valid() && Inv(c, s) && Near(c, s, most) && Enabled(c, s, a)
    requires a.RefillWrite? || a.RefillFinish? || a.OtherFlush?
    ensures Near(c, Apply(c, s, a), most)
  {
    hide Wrap, Grow, Contiguous, Issued, Logged;
    if s.loaded {
      MarkReach(c, s);
    }
    if !a.OtherFlush? {
      assert RefillOk(c, s, s.refills[a.r]);
    }
  }

  lemma OtherNear(c: Config, s: State, a: Action, most: int)
    requires c.Valid() && Inv(c, s) && Near(c, s, most) && Enabled(c, s, a) && (a.CallNext? ==> a.n <= most)
    requires a.CallNext? || a.CallReset? || a.Park? || a.Reacquire? || a.Crash? || a.Boot? || a.OfflineReset?
    ensures Near(c, Apply(c, s, a), most)
  {
    hide Wrap, Grow, Contiguous, Window, Issued, Logged;
  }

  lemma {:induction false} RunNear(c: Config, s: State, run: seq<Action>, most: int)
    requires c.Valid() && Inv(c, s) && Near(c, s, most) && Clean(c, s, run) && Modest(run, most)
    ensures Exec(c, s, run).Some? && Near(c, Exec(c, s, run).value, most)
  {
    hide Inv, Near, Apply, Enabled, Benign;
    if run != [] {
      var last := |run| - 1;
      RunNear(c, s, run[..last], most);
      RunKeeps(c, s, run[..last]);
      StepNear(c, Exec(c, s, run[..last]).value, run[last], most);
    }
  }

  /**
   What a crash forfeits whatever writes fail, and however: a reservation whose write failed after the
   rename stays in the file, so the largest call made counts, at any time.
   */
  lemma CrashGapBoundAny(c: Config, start: int, run: seq<Action>, s: State, most: int)
    requires Reachable(c, start, run, s) && Modest(run, most) && s.loaded
    ensures s.up
    ensures !(Holder(s).Some? && Holder(s).value.ResetWrote?) ==>
              Forfeit(c, s) <= (if most - 1 > c.threshold then most - 1 else c.threshold) + c.segmentSize
  {
    hide Clean, Exec;
    FreshInv(c, start);
    RunNear(c, Fresh(start), run, most);
    ReachableInv(c, start, run, s);
  }
}
