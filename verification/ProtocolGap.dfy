/**
 README.md says that a crash skips at most segment_size iterations. Without writes that fail after
 the rename, and with the lock free, that is so exactly for segments of one iteration; at any point,
 exactly for segments of one iteration and calls for single IDs. With such writes there is no bound
 that does not depend on the calls. The bounds that hold are in ProtocolCrash.
 */
module ProtocolGap {
  import opened Wrappers
  import opened Int64
  import opened Reservation
  import opened Protocol
  import opened ProtocolInvariant
  import opened ProtocolTheorems
  import opened ProtocolTight
  import opened ProtocolResets
  import opened ProtocolCrash
  import opened ProtocolWitness

  // ----- segments of one iteration -----

  /** With the lock free, whatever the calls ask for. */
  lemma GapOfOne(c: Config, start: int, run: seq<Action>, s: State)
    requires Reachable(c, start, run, s) && SharpRun(run) && c.segmentSize == 1 && s.loaded && s.lock.None?
    ensures s.up && Forfeit(c, s) <= 1
  {
    hide Clean, Exec, Wrap;
    FreshInv(c, start);
    RunTight(c, Fresh(start), run);
    RunSynced(c, Fresh(start), run);
    ReachableInv(c, start, run, s);
    if s.reserving {
      var r :| r in s.refills;
      assert RefillOk(c, s, s.refills[r]);
    }
  }

  /** No reset is between its write and its update of the window: the skip is not one that was asked for. */
  ghost predicate NotResetting(s: State) {
    !(Holder(s).Some? && Holder(s).value.ResetWrote?)
  }

  /** At any point, if every call is for a single ID. */
  lemma GapOfSingles(c: Config, start: int, run: seq<Action>, s: State)
    requires Reachable(c, start, run, s) && SharpRun(run) && Modest(run, 1) && c.segmentSize == 1 && s.loaded && NotResetting(s)
    ensures s.up && Forfeit(c, s) <= 1
  {
    hide Clean, Exec, Wrap, Contiguous;
    FreshInv(c, start);
    RunTight(c, Fresh(start), run);
    RunNear(c, Fresh(start), run, 1);
    RunSynced(c, Fresh(start), run);
    ReachableInv(c, start, run, s);
    if s.reserving {
      var r :| r in s.refills;
      assert RefillOk(c, s, s.refills[r]);
    }
  }

  // ----- where it fails -----

  /** With longer segments, calls for single IDs and the write of the refill that they start are enough. */
  lemma GapOfMore(c: Config) returns (run: seq<Action>, s: State)
    requires c.Valid() && 2 <= c.segmentSize <= c.maxIter + 1 && 3 * c.segmentSize <= MAX
    ensures Reachable(c, 0, run, s) && SharpRun(run) && Modest(run, 1) && UnforcedRun(c, Fresh(0), run)
    ensures s.up && s.loaded && s.lock.None? && Forfeit(c, s) > c.segmentSize
  {
    hide Leadable, Wrap, Grow, Settled, Allowed, Apply, Enabled, Forfeit;
    Here(c, Fresh(0), SINGLES);
    FreshRested();
    s := GoFirstSegment(c, Fresh(0), SINGLES, Fresh(0), 0, 1);
    if !s.reserving {
      s := GoDown(c, Fresh(0), SINGLES, s, 1);
    }
    RefillGap(c, s);
    s := Go(c, Fresh(0), SINGLES, s, RefillWrite(0, Done));
    run := RunOf(c, Fresh(0), SINGLES, s);
  }

  lemma FreshRested()
    ensures Rested(Fresh(0), 0)
  {
  }

  /** The write of a refill, before the window has it. */
  lemma RefillGap(c: Config, s: State)
    requires c.Valid() && Settled(s) && s.reserving && s.reservedEnd + c.segmentSize <= MAX
    ensures Enabled(c, s, RefillWrite(0, Done)) && Allowed(c, s, RefillWrite(0, Done), SINGLES)
    ensures var s' := Apply(c, s, RefillWrite(0, Done));
            s'.up && s'.loaded && s'.lock.None? && Forfeit(c, s') == s.reservedEnd + c.segmentSize - s.cursor
  {
    hide Wrap;
  }

  /** Inside a call that has reserved for n, all n are skipped, whatever the segment size. */
  lemma GapInCall(c: Config, n: int) returns (run: seq<Action>, s: State)
    requires c.Valid() && 1 <= n <= c.maxIter + 1 && n + c.segmentSize - 1 <= MAX
    ensures Reachable(c, 0, run, s) && SharpRun(run) && Modest(run, n) && UnforcedRun(c, Fresh(0), run)
    ensures s.up && s.loaded && NotResetting(s) && s.hist == [] && Forfeit(c, s) == Grow(c.segmentSize, n) >= n
  {
    hide Leadable, Wrap, Grow, Benign;
    var m := Manner(true, false, true, None, Some(n));
    Here(c, Fresh(0), m);
    s := GoEnter(c, Fresh(0), m, Fresh(0), 1, n);
    GrowCovers(c.segmentSize, n);
    assert s.threads == map[1 := NextLoop(n, 0, false)] && s.Remaining() == 0;
    ReservingWrite(c, s, n, Done, m);
    s := Go(c, Fresh(0), m, s, InlineWrite(1, Done));
    run := RunOf(c, Fresh(0), m, s);
  }

  /** The first reservation of all, for n. */
  lemma ReservingWrite(c: Config, s: State, n: int, o: Outcome, m: Manner)
    requires c.Valid() && 1 <= n && n + c.segmentSize - 1 <= MAX && !m.orderly && (m.sharp ==> !o.FailedAfter?)
    requires s.up && s.loaded && s.lock == Some(1) && s.threads == map[1 := NextLoop(n, 0, false)] && !s.reserving
    requires s.cursor == 0 == s.reservedEnd && s.mark == Mark(0, 0) && s.hist == []
    ensures Enabled(c, s, InlineWrite(1, o)) && Allowed(c, s, InlineWrite(1, o), m)
    ensures var s' := Apply(c, s, InlineWrite(1, o));
            && s'.up && s'.loaded && s'.hist == [] && NotResetting(s')
            && (o.FailedAfter? ==> s'.lock.None? && s'.threads == map[])
            && (!o.FailedBefore? ==> Forfeit(c, s') == Grow(c.segmentSize, n))
  {
    hide Wrap, Grow;
    GrowCovers(c.segmentSize, n);
    assert s.threads - {1} == map[];
  }

  // ----- exactly when the promise holds -----

  /** The promise of README.md at one point of one run. */
  ghost predicate GapKept(c: Config, s: State)
    requires c.Valid()
  {
    s.up && Forfeit(c, s) <= c.segmentSize
  }

  /**
   The promise of README.md, "gap <= segment_size", over runs without writes that fail after the rename
   and with calls for at most `most`, for a crash at any point: it holds if and only if segment_size is 1
   and every call is for a single ID.
   */
  lemma GapAnywhereIff(c: Config, most: int)
    requires c.Valid() && most >= 1 && c.segmentSize <= c.maxIter + 1 && 3 * c.segmentSize <= MAX && 1 <= c.maxIter
    ensures (forall start, run, s ::
               Reachable(c, start, run, s) && SharpRun(run) && Modest(run, most) && s.loaded && NotResetting(s) ==> GapKept(c, s))
            <==> c.segmentSize == 1 && most == 1
  {
    hide Reachable, SharpRun, Forfeit, NotResetting, Modest;
    if c.segmentSize == 1 && most == 1 {
      forall start, run, s | Reachable(c, start, run, s) && SharpRun(run) && Modest(run, most) && s.loaded && NotResetting(s)
        ensures GapKept(c, s)
      {
        GapOfSingles(c, start, run, s);
      }
    } else if c.segmentSize > 1 {
      var run, s := GapOfMore(c);
      ModestMore(run, 1, most);
      FreeIsNotResetting(s);
      assert !GapKept(c, s);
    } else {
      var run, s := GapInCall(c, 2);
      ModestMore(run, 2, most);
      assert !GapKept(c, s);
    }
  }

  lemma ModestMore(run: seq<Action>, few: int, most: int)
    requires Modest(run, few) && few <= most
    ensures Modest(run, most)
  {
  }

  lemma FreeIsNotResetting(s: State)
    requires s.lock.None?
    ensures NotResetting(s)
  {
  }

  /** With the lock free, whatever the calls ask for: it holds if and only if segment_size is 1. */
  lemma GapWithinSegmentIff(c: Config)
    requires c.Valid() && c.segmentSize <= c.maxIter + 1 && 3 * c.segmentSize <= MAX
    ensures (forall start, run, s ::
               Reachable(c, start, run, s) && SharpRun(run) && s.loaded && s.lock.None? ==> GapKept(c, s))
            <==> c.segmentSize == 1
  {
    hide Reachable, SharpRun, Forfeit;
    if c.segmentSize == 1 {
      forall start, run, s | Reachable(c, start, run, s) && SharpRun(run) && s.loaded && s.lock.None?
        ensures GapKept(c, s)
      {
        GapOfOne(c, start, run, s);
      }
    } else {
      var run, s := GapOfMore(c);
      assert !GapKept(c, s);
    }
  }

  // ----- a write that fails after the rename -----

  /**
   One call for n whose reservation fails after the rename, and a crash skips all that it asked for,
   rounded up to segments, with the lock free and nothing handed out.
   */
  lemma FailedReservationGap(c: Config, n: int) returns (run: seq<Action>, s: State)
    requires c.Valid() && 1 <= n <= c.maxIter + 1 && n + c.segmentSize - 1 <= MAX
    ensures Reachable(c, 0, run, s) && UnforcedRun(c, Fresh(0), run)
    ensures s.up && s.loaded && s.lock.None? && s.threads == map[] && s.hist == []
    ensures Forfeit(c, s) == Grow(c.segmentSize, n) && n <= Forfeit(c, s) < n + c.segmentSize
  {
    hide Leadable, Wrap, Grow, Benign;
    Here(c, Fresh(0), CLEAN);
    s := GoEnter(c, Fresh(0), CLEAN, Fresh(0), 1, n);
    GrowCovers(c.segmentSize, n);
    assert s.threads == map[1 := NextLoop(n, 0, false)] && s.Remaining() == 0;
    ReservingWrite(c, s, n, FailedAfter, CLEAN);
    s := Go(c, Fresh(0), CLEAN, s, InlineWrite(1, FailedAfter));
    run := RunOf(c, Fresh(0), CLEAN, s);
  }
}
