/** Runs of the code, step by step, that break a promise when a hypothesis is dropped. */
module ProtocolCounterexamples {
  import opened Wrappers
  import opened Int64
  import opened Reservation
  import opened Protocol
  import opened ProtocolCrash
  import opened ProtocolWitness

  /** The state after a first call for n, from start 0 with segment 10 and threshold 5. */
  ghost function After(n: int): State {
    var refill := 10 - n <= 5;
    State(true, Mark(10, 10), true, 0, n, 10, refill, None, map[], if refill then map[0 := Writing(10)] else map[],
          [Range(0, n)], [Range(0, n)], 0, 0)
  }

  lemma FirstCall(c: Config, n: int, m: Manner)
    requires c.segmentSize == 10 && c.threshold == 5 && 1 <= n <= 10 && n <= c.maxIter <= MAX && m.apart.None? && m.Serves(n)
    ensures Leadable(c, Fresh(0), m, After(n))
  {
    hide Leadable, Wrap, Grow, Extended, TakeRange, After;
    FirstExtension(c, n);
    Here(c, Fresh(0), m);
    var e := Extended(c, Load(Fresh(0)), n);
    assert e.Remaining() == 10;
    var s := GoAlone(c, Fresh(0), m, Fresh(0), n);
    TakesToAfter(c, e, n);
  }

  lemma FirstExtension(c: Config, n: int)
    requires c.segmentSize == 10 && c.threshold == 5 && 1 <= n <= 10 && n <= c.maxIter <= MAX
    ensures Extended(c, Load(Fresh(0)), n) == Load(Fresh(0)).(mark := Mark(10, 10), reservedEnd := 10)
  {
    hide Wrap, Grow;
    GrowOneSegment(10, n);
    assert Load(Fresh(0)).Remaining() == Wrap(0) == 0 && Wrap(n - 0) == n;
  }

  lemma TakesToAfter(c: Config, e: State, n: int)
    requires c.segmentSize == 10 && c.threshold == 5 && 1 <= n <= 10
    requires e == Load(Fresh(0)).(mark := Mark(10, 10), reservedEnd := 10)
    ensures TakeRange(c, e, 1, n, 0) == After(n)
  {
    hide Wrap;
    assert e.hist + [Range(0, n)] == [Range(0, n)];
  }

  /**
   README.md promises that a crash skips at most segment_size iterations. The refill rule allows
   threshold + segment_size: here 15 with a segment of 10.
   */
  lemma GapExceedsSegment() returns (c: Config, s: State)
    ensures c.Valid() && Leadable(c, Fresh(0), CLEAN_SHARP, s) && s.up && s.loaded && s.lock.None? && s.threads == map[]
    ensures Forfeit(c, s) == c.threshold + c.segmentSize > c.segmentSize
  {
    hide Leadable;
    c := Config(10, 5, 1000);
    FirstCall(c, 5, CLEAN_SHARP);
    s := After(5);
    s := Go(c, Fresh(0), CLEAN_SHARP, s, RefillWrite(0, Done));
  }

  /**
   The exhaustion check is not repeated after a wait: a call for 10 that passed it, parked, and woke
   after another call took 1, hands out an iteration past the last one that fits.
   */
  lemma ParkedCallOverruns() returns (c: Config, s: State)
    ensures c.Valid() && Leadable(c, Fresh(0), CLEAN, s)
    ensures s.hist != [] && s.hist[|s.hist| - 1].End() - 1 > c.maxIter
  {
    hide Leadable, Wrap, Grow;
    c := Config(10, 5, 14);
    s := ParkedUntilRefill(c);
    s := GoEnter(c, Fresh(0), CLEAN, s, 3, 1);
    s := GoTake(c, Fresh(0), CLEAN, s, 3, NextLoop(1, 5, false), 1);
    assert s.threads == map[2 := NextWoken(10, 5)] && s.cursor == 6 && s.reservedEnd == 20;
    s := Go(c, Fresh(0), CLEAN, s, Reacquire(2));
    s := GoTake(c, Fresh(0), CLEAN, s, 2, NextLoop(10, 5, true), 2);
  }

  lemma ParkedUntilRefill(c: Config) returns (s: State)
    requires c == Config(10, 5, 14)
    ensures Leadable(c, Fresh(0), CLEAN, s)
    ensures s.up && s.loaded && s.cursor == 5 && s.reservedEnd == 20 && s.lock.None? && s.refills == map[] && !s.reserving
    ensures s.threads == map[2 := NextWoken(10, 5)]
  {
    hide Leadable;
    FirstCall(c, 5, CLEAN);
    s := After(5);
    s := GoEnter(c, Fresh(0), CLEAN, s, 2, 10);
    assert s.threads == map[2 := NextLoop(10, 5, false)] && s.mark == Mark(10, 10);
    s := Go(c, Fresh(0), CLEAN, s, Park(2));
    s := Go(c, Fresh(0), CLEAN, s, RefillWrite(0, Done));
    s := Go(c, Fresh(0), CLEAN, s, RefillFinish(0));
  }

  /**
   Without the assumption on SetMark: a reset into the reserved window whose flush fails after the
   rename is reported as failed, the old window stays in use, and after a crash it is issued again.
   */
  lemma TornResetRepeats() returns (c: Config, s: State, x: int)
    ensures c.Valid() && Leadable(c, Fresh(0), FREE, s)
    ensures |s.hist| == 3 && s.hist[1].Has(x) && s.hist[2].Has(x)
  {
    hide Leadable;
    c, x := Config(10, 5, 1000), 5;
    s := TornReset5(c);
    s := GoEnter(c, Fresh(0), FREE, s, 3, 9);
    s := GoTake(c, Fresh(0), FREE, s, 3, NextLoop(9, 1, false), 1);
    assert s.hist == [Range(0, 1), Range(1, 9)];
    s := Go(c, Fresh(0), FREE, s, Crash);
    s := Go(c, Fresh(0), FREE, s, Boot);
    s := AfterTheCrash(c, s);
  }

  lemma AfterTheCrash(c: Config, s: State) returns (s': State)
    requires c == Config(10, 5, 1000) && Leadable(c, Fresh(0), FREE, s)
    requires s.up && !s.loaded && s.lock.None? && s.threads == map[] && s.refills == map[] && !s.reserving
    requires s.mark == Mark(5, 5)
    ensures Leadable(c, Fresh(0), FREE, s') && s'.hist == s.hist + [Range(5, 1)]
  {
    hide Leadable, Wrap, Grow;
    GrowOneSegment(10, 1);
    assert Load(s).Remaining() == Wrap(0) == 0 && Wrap(1 - 0) == 1;
    s' := GoAlone(c, Fresh(0), FREE, s, 1);
  }

  lemma TornReset5(c: Config) returns (s: State)
    requires c == Config(10, 5, 1000)
    ensures Leadable(c, Fresh(0), FREE, s)
    ensures s.up && s.loaded && s.cursor == 1 && s.reservedEnd == 10 && s.lock.None? && s.refills == map[] && !s.reserving
    ensures s.threads == map[] && s.mark == Mark(10, 5) && s.hist == [Range(0, 1)]
  {
    hide Leadable;
    FirstCall(c, 1, FREE);
    s := After(1);
    s := Go(c, Fresh(0), FREE, s, CallReset(2, 5, false));
    s := Go(c, Fresh(0), FREE, s, EnterReset(2));
    assert s.threads == map[2 := ResetLoop(5, false)];
    s := Go(c, Fresh(0), FREE, s, ResetWrite(2, FailedAfter));
    assert s.threads == map[];
  }

  /**
   One inline reservation covers its window durably if and only if the new end is an int64: beyond
   that the mark stays where it was although the write is reported as done.
   */
  lemma ReservationCoversIffInRange(mark: int, grow: int)
    requires 0 <= mark <= MAX && 1 <= grow <= MAX
    ensures var (ok, m) := Raise(Mark(mark, mark), Wrap(mark + grow), Done);
            ok && (m == Mark(mark + grow, mark + grow) <==> mark + grow <= MAX)
                && (m == Mark(mark, mark) <==> mark + grow > MAX)
  {
    if mark + grow > MAX {
      WrapsNegative(mark + grow);
    }
  }
}
