/**
 Near 2^63 a reservation wraps to a negative target, which Store.RaiseMark takes for already reached:
 nothing is written, and after a crash the same iterations are handed out again. When that can happen.
 */
module ProtocolWrap {
  import opened Wrappers
  import opened Int64
  import opened Reservation
  import opened Protocol
  import opened ProtocolInvariant
  import opened ProtocolTight
  import opened ProtocolResets
  import opened ProtocolBounds
  import opened ProtocolWitness
  import opened ProtocolTorn

  /** A call that passes the check and whose reservation wraps: the range is handed out, the mark stays. */
  lemma GoUnwritten(c: Config, s0: State, s: State, mark: int, n: int) returns (s': State)
    requires c.Valid() && Leadable(c, s0, ORDERLY, s) && Rested(s, mark) && 0 <= mark <= MAX
    requires 1 <= n <= MAX_BATCH && n + c.segmentSize - 1 <= MAX
    requires Wrap(mark + n - 1) <= c.maxIter && mark + Grow(c.segmentSize, n) > MAX
    ensures Leadable(c, s0, ORDERLY, s') && s'.up && s'.mark == s.mark && s'.hist == s.hist + [Range(mark, n)]
  {
    hide Leadable, Wrap, Grow;
    WrapTwice(mark + n, -1);
    GrowCovers(c.segmentSize, n);
    WrappedExtension(c, s, mark, n);
    s' := GoAlone(c, s0, ORDERLY, s, n);
  }

  lemma WrappedExtension(c: Config, s: State, mark: int, n: int)
    requires c.Valid() && Rested(s, mark) && 0 <= mark <= MAX && 1 <= n && n + c.segmentSize - 1 <= MAX
    requires mark + Grow(c.segmentSize, n) > MAX
    ensures Extended(c, Load(s), n) == Load(s).(reservedEnd := Extended(c, Load(s), n).reservedEnd)
    ensures Extended(c, Load(s), n).Remaining() == Grow(c.segmentSize, n) >= n
  {
    hide Wrap, Grow;
    var g := Grow(c.segmentSize, n);
    GrowCovers(c.segmentSize, n);
    assert Load(s).Remaining() == Wrap(0) == 0 && Wrap(n - 0) == n;
    WrapsNegative(mark + g);
    WrapTwice(mark + g, -mark);
  }

  /** The same call before and after a crash. */
  lemma GoTwice(c: Config, s0: State, s: State, mark: int, n: int) returns (s': State)
    requires c.Valid() && Leadable(c, s0, ORDERLY, s) && Rested(s, mark) && 0 <= mark <= MAX
    requires 1 <= n <= MAX_BATCH && n + c.segmentSize - 1 <= MAX
    requires Wrap(mark + n - 1) <= c.maxIter && mark + Grow(c.segmentSize, n) > MAX
    ensures Leadable(c, s0, ORDERLY, s') && s'.hist == s.hist + [Range(mark, n), Range(mark, n)]
  {
    hide Leadable, Wrap, Grow;
    s' := GoUnwritten(c, s0, s, mark, n);
    s' := Go(c, s0, ORDERLY, s', Crash);
    s' := Go(c, s0, ORDERLY, s', Boot);
    s' := GoUnwritten(c, s0, s', mark, n);
  }

  /** In every configuration in which a reservation from the last iteration wraps, that iteration can be handed out twice. */
  lemma WrappedReservationRepeats(c: Config) returns (run: seq<Action>, s: State)
    requires c.Valid() && c.maxIter >= 0 && c.maxIter + c.segmentSize > MAX
    ensures Exec(c, Fresh(c.maxIter), run) == Some(s)
    ensures OrderlyRun(c, Fresh(c.maxIter), run, 0) && UnforcedRun(c, Fresh(c.maxIter), run)
    ensures s.hist == [Range(c.maxIter, 1), Range(c.maxIter, 1)]
  {
    hide Leadable, Wrap, Grow;
    Here(c, Fresh(c.maxIter), ORDERLY);
    GrowOneSegment(c.segmentSize, 1);
    s := GoTwice(c, Fresh(c.maxIter), Fresh(c.maxIter), c.maxIter, 1);
    run := RunOf(c, Fresh(c.maxIter), ORDERLY, s);
  }

  // ----- the highest mark -----

  /** The window ends exactly the slack past `to`, with the cursor at `to` and a refill started. */
  lemma GoUpTo(c: Config, s0: State, s: State, mark: int, to: int) returns (s': State)
    requires c.Valid() && Leadable(c, s0, ORDERLY, s) && Rested(s, mark) && 0 <= mark
    requires to <= c.maxIter + 1 && to + Slack(c) + c.segmentSize <= MAX && 3 * c.segmentSize <= MAX
    requires mark == Origin(c, to)
    ensures Leadable(c, s0, ORDERLY, s') && Settled(s') && s'.reserving
    ensures s'.cursor == to && s'.reservedEnd == to + Slack(c)
  {
    hide Leadable, Wrap, Grow;
    var need := c.segmentSize - c.threshold;
    if c.threshold < c.segmentSize {
      s' := GoFirstSegment(c, s0, ORDERLY, s, mark, if need <= MAX_BATCH then need else MAX_BATCH);
    } else {
      s' := GoFirstSegment(c, s0, ORDERLY, s, mark, 1);
      if c.segmentSize >= 2 {
        s' := GoRefill(c, s0, ORDERLY, s');
      }
    }
    if !s'.reserving {
      s' := GoDown(c, s0, ORDERLY, s', MAX_BATCH);
    }
  }

  /** Where to start so that the cursor can stop at `to`. */
  function Origin(c: Config, to: int): int {
    if c.threshold < c.segmentSize then to - (c.segmentSize - c.threshold) else to - c.segmentSize
  }

  /** The refill writes the mark, and a crash before it is used makes it the next iteration. */
  lemma GoHigh(c: Config, s0: State, s: State) returns (s': State)
    requires c.Valid() && Leadable(c, s0, ORDERLY, s) && Settled(s) && s.reserving && s.reservedEnd + c.segmentSize <= MAX
    ensures Leadable(c, s0, ORDERLY, s') && Rested(s', s.reservedEnd + c.segmentSize)
  {
    hide Leadable, Wrap, Grow;
    s' := Go(c, s0, ORDERLY, s, RefillWrite(0, Done));
    s' := Go(c, s0, ORDERLY, s', Crash);
    s' := Go(c, s0, ORDERLY, s', Boot);
  }

  /** Without the room, a batch at the highest mark passes the wrapped check and is never written. */
  lemma UnroomyRepeats(c: Config) returns (start: int, run: seq<Action>, s: State)
    requires c.Valid() && !Roomy(c, 0) && c.segmentSize <= c.maxIter + 1 && 3 * c.segmentSize <= MAX
    ensures 0 <= start <= c.maxIter && OrderlyRun(c, Fresh(start), run, 0) && UnforcedRun(c, Fresh(start), run)
    ensures Exec(c, Fresh(start), run) == Some(s) && Repeats(s.hist)
  {
    hide Leadable, Wrap, Grow;
    var to := if c.maxIter + 1 + Slack(c) + c.segmentSize <= MAX then c.maxIter + 1 else MAX - Slack(c) - c.segmentSize;
    start := Origin(c, to);
    var s0 := Fresh(start);
    Here(c, s0, ORDERLY);
    s := GoUpTo(c, s0, s0, start, to);
    s := GoHigh(c, s0, s);
    var mark := to + Slack(c) + c.segmentSize;
    WrapsNegative(mark + MAX_BATCH - 1);
    GrowCovers(c.segmentSize, MAX_BATCH);
    var k := |s.hist|;
    s := GoTwice(c, s0, s, mark, MAX_BATCH);
    assert s.hist[k] == s.hist[k + 1] == Range(mark, MAX_BATCH);
    assert s.hist[k].Has(mark) && s.hist[k + 1].Has(mark);
    run := RunOf(c, s0, ORDERLY, s);
  }

  // ----- exactly when -----

  /** Some run of batches that need not wait, unforced and from a start within the type, hands out an iteration twice. */
  ghost predicate RepeatsFrom(c: Config, start: int, run: seq<Action>)
    requires c.Valid()
  {
    && 0 <= start <= c.maxIter && OrderlyRun(c, Fresh(start), run, 0) && UnforcedRun(c, Fresh(start), run)
    && Exec(c, Fresh(start), run).Some? && Repeats(Exec(c, Fresh(start), run).value.hist)
  }

  /**
   The room that ProtocolBounds.NothingWraps asks for is exactly what uniqueness needs: without a wait,
   an iteration can be handed out twice if and only if there is no room above the highest mark for a batch.
   */
  lemma RepeatsIffNotRoomy(c: Config)
    requires c.Valid() && c.segmentSize <= c.maxIter + 1 && 3 * c.segmentSize <= MAX
    ensures (exists start, run :: RepeatsFrom(c, start, run)) <==> !Roomy(c, 0)
  {
    hide Exec, OrderlyRun, UnforcedRun, Repeats;
    if Roomy(c, 0) {
      forall start, run
        ensures !RepeatsFrom(c, start, run)
      {
        RoomyNeverRepeats(c, start, run);
      }
    } else {
      var start, run, s := UnroomyRepeats(c);
      assert RepeatsFrom(c, start, run);
    }
  }

  lemma RoomyNeverRepeats(c: Config, start: int, run: seq<Action>)
    requires c.Valid() && Roomy(c, 0)
    ensures !RepeatsFrom(c, start, run)
  {
    hide Exec, OrderlyRun, UnforcedRun, Repeats, Inv, Bounded;
    if 0 <= start <= c.maxIter && OrderlyRun(c, Fresh(start), run, 0) {
      FreshBounded(c, start, 0);
      OrderlyIsClean(c, Fresh(start), run, 0);
      NoRepeat(c, Exec(c, Fresh(start), run).value);
    }
  }
}
