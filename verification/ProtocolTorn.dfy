/**
 A reset whose flush fails after the rename (state.go:347-351) is reported as failed and leaves the
 window alone, but the file says the target. When that lets an iteration be handed out twice.
 */
module ProtocolTorn {
  import opened Int64
  import opened Reservation
  import opened Protocol
  import opened ProtocolInvariant
  import opened ProtocolTheorems
  import opened ProtocolResets
  import opened ProtocolWitness

  ghost predicate Repeats(hist: seq<Range>) {
    exists i, j, x :: 0 <= i < j < |hist| && hist[i].Has(x) && hist[j].Has(x)
  }

  /** A run without forced moves, meeting the hypotheses from here on, at whose end some iteration has been handed out twice. */
  ghost predicate RepeatsVia(c: Config, s: State, run: seq<Action>)
    requires c.Valid()
  {
    Clean(c, s, run) && UnforcedRun(c, s, run) && Exec(c, s, run).Some? && Repeats(Exec(c, s, run).value.hist)
  }

  lemma IncreasingNeverRepeats(hist: seq<Range>)
    requires Increasing(hist)
    ensures !Repeats(hist)
  {
  }

  /** One call that is served from the window: [cursor, target]. */
  lemma GoServe(c: Config, s0: State, s: State, target: int) returns (s': State)
    requires c.Valid() && Leadable(c, s0, CLEAN, s)
    requires s.up && s.loaded && s.lock.None? && !s.reserving && s.refills == map[]
    requires 0 <= s.cursor <= target < s.reservedEnd <= MAX && target <= c.maxIter
    requires target + 1 + c.threshold + c.segmentSize <= MAX
    ensures Leadable(c, s0, CLEAN, s') && s'.up && s'.mark == s.mark
    ensures s'.hist == s.hist + [Range(s.cursor, target - s.cursor + 1)]
  {
    hide Leadable, Wrap, Grow;
    var u := Unused(s.threads);
    var n := target - s.cursor + 1;
    WrapTwice(s.cursor + n, -1);
    s' := GoEnter(c, s0, CLEAN, s, u, n);
    s' := GoTake(c, s0, CLEAN, s', u, NextLoop(n, s.cursor, false), 0);
  }

  /** A first call for one iteration after a restart. */
  lemma GoFirst(c: Config, s0: State, s: State) returns (s': State)
    requires c.Valid() && Leadable(c, s0, CLEAN, s)
    requires s.up && !s.loaded && s.lock.None? && s.threads == map[] && s.refills == map[] && !s.reserving
    requires 0 <= s.mark.mem <= c.maxIter && s.mark.mem + 1 + 2 * c.segmentSize <= MAX
    ensures Leadable(c, s0, CLEAN, s') && s'.hist == s.hist + [Range(s.mark.mem, 1)]
  {
    hide Leadable, Wrap, Grow;
    WrapTwice(s.mark.mem + 1, -1);
    FirstExtension(c, s);
    s' := GoAlone(c, s0, CLEAN, s, 1);
  }

  lemma FirstExtension(c: Config, s: State)
    requires c.Valid() && s.up && !s.loaded
    requires 0 <= s.mark.mem && s.mark.mem + c.segmentSize <= MAX
    ensures Extended(c, Load(s), 1).Remaining() == c.segmentSize
    ensures Extended(c, Load(s), 1).hist == s.hist
  {
    hide Wrap, Grow;
    GrowCovers(c.segmentSize, 1);
    assert Load(s).Remaining() == Wrap(0) == 0 && Wrap(1 - 0) == 1;
    GrowOneSegment(c.segmentSize, 1);
  }

  /** The old window goes on being served up to the target; after a crash the target is handed out again. */
  lemma TornRepeats(c: Config, s: State, t: nat)
    requires c.Valid() && Inv(c, s) && Enabled(c, s, ResetWrite(t, FailedAfter))
    requires s.cursor <= s.threads[t].target < s.reservedEnd
    requires s.threads[t].target <= c.maxIter && s.threads[t].target + 1 + 2 * c.segmentSize <= MAX
    ensures exists run :: RepeatsVia(c, Apply(c, s, ResetWrite(t, FailedAfter)), run)
  {
    hide Leadable, Wrap, Grow, Contiguous, Clean, Exec, Issued, Logged;
    var target := s.threads[t].target;
    var s0 := Apply(c, s, ResetWrite(t, FailedAfter));
    assert s.loaded && s.refills == map[] by { assert ThreadOk(c, s, t, s.threads[t]); }
    Here(c, s0, CLEAN);
    var s1 := GoServe(c, s0, s0, target);
    var s2 := Go(c, s0, CLEAN, s1, Crash);
    var s3 := Go(c, s0, CLEAN, s2, Boot);
    assert s3.mark.mem == target;
    var s4 := GoFirst(c, s0, s3);
    var k := |s.hist|;
    assert s4.hist[k] == Range(s.cursor, target - s.cursor + 1) && s4.hist[k + 1] == Range(target, 1);
    assert s4.hist[k].Has(target) && s4.hist[k + 1].Has(target);
    var run := RunOf(c, s0, CLEAN, s4);
    assert RepeatsVia(c, s0, run);
  }

  /** Otherwise the failed reset is a step like the others, and nothing is ever handed out twice. */
  lemma HarmlessNeverRepeats(c: Config, s: State, t: nat, run: seq<Action>)
    requires c.Valid() && Inv(c, s) && Enabled(c, s, ResetWrite(t, FailedAfter)) && s.threads[t].target >= s.reservedEnd
    ensures !RepeatsVia(c, Apply(c, s, ResetWrite(t, FailedAfter)), run)
  {
    hide Apply, Exec, Clean, Inv, Repeats;
    var s0 := Apply(c, s, ResetWrite(t, FailedAfter));
    StepKeeps(c, s, ResetWrite(t, FailedAfter));
    if Clean(c, s0, run) {
      RunKeeps(c, s0, run);
      NoRepeat(c, Exec(c, s0, run).value);
    }
  }

  lemma NoRepeat(c: Config, s: State)
    requires Inv(c, s)
    ensures !Repeats(s.hist)
  {
    IncreasingNeverRepeats(s.hist);
  }

  /**
   Exactly when a reset that is not a move back, and whose write fails after the rename, lets an
   iteration be handed out twice: if and only if its target lies inside the reserved window.
   */
  lemma TornResetRepeatsIff(c: Config, start: int, run: seq<Action>, s: State, t: nat)
    requires Reachable(c, start, run, s) && Enabled(c, s, ResetWrite(t, FailedAfter)) && s.cursor <= s.threads[t].target
    requires s.threads[t].target <= c.maxIter && s.threads[t].target + 1 + 2 * c.segmentSize <= MAX
    ensures (exists more :: RepeatsVia(c, Apply(c, s, ResetWrite(t, FailedAfter)), more))
            <==> s.threads[t].target < s.reservedEnd
  {
    hide Exec, Clean, Inv, Apply, RepeatsVia;
    ReachableInv(c, start, run, s);
    if s.threads[t].target < s.reservedEnd {
      TornRepeats(c, s, t);
    } else {
      forall more
        ensures !RepeatsVia(c, Apply(c, s, ResetWrite(t, FailedAfter)), more)
      {
        HarmlessNeverRepeats(c, s, t, more);
      }
    }
  }
}
