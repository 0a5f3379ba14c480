/**
 Snowflake IDs as values: the packing of internal/forge, one generation step, and runs with
 failing persists, crashes and restarts, for any clock readings.
 */
module Snowflake {
  import opened Wrappers
  import opened Int64
  import opened Reservation

  const MAX_SEQUENCE: int := 4095
  const MAX_SHARD: int := 1023
  const LEASE_MS: int := 1000
  const TIME_LIMIT: int := 0x200_0000_0000
  const SHARD_UNIT: int := 0x1000
  const TIME_UNIT: int := 0x40_0000

  /** What makes an ID: a timestamp and a sequence number within it. */
  datatype Stamp = Stamp(ts: int, sequence: int) {
    predicate Before(that: Stamp) {
      ts < that.ts || (ts == that.ts && sequence < that.sequence)
    }

    /** The timestamp fits its 41 bits and the sequence its 12. */
    predicate Fits(epochMs: int) {
      0 <= ts - epochMs < TIME_LIMIT && 0 <= sequence <= MAX_SEQUENCE
    }
  }

  // ----- packing -----

  /** `(ts - epoch) << 22 | shard << 12 | sequence` in int64; the three fields share no bits. */
  function Pack(epochMs: int, shard: int, st: Stamp): int {
    Wrap(Wrap((st.ts - epochMs) * TIME_UNIT) + shard * SHARD_UNIT + st.sequence)
  }

  datatype Parsed = Parsed(ts: int, shardID: int, sequence: int)

  /** Parse: masks and arithmetic shifts, which on two's complement are floor quotients. The shard is 1-based. */
  function Parse(epochMs: int, id: int): Parsed {
    Parsed(id / TIME_UNIT + epochMs, id / SHARD_UNIT % (MAX_SHARD + 1) + 1, id % SHARD_UNIT)
  }

  lemma PackIsExact(epochMs: int, shard: int, st: Stamp)
    requires st.Fits(epochMs) && 0 <= shard <= MAX_SHARD
    ensures Pack(epochMs, shard, st) == (st.ts - epochMs) * 4194304 + shard * 4096 + st.sequence
  {
  }

  /** Parse recovers all three fields of a packed ID. */
  lemma ParseInvertsPack(epochMs: int, shard: int, st: Stamp)
    requires st.Fits(epochMs) && 0 <= shard <= MAX_SHARD
    ensures Parse(epochMs, Pack(epochMs, shard, st)) == Parsed(st.ts, shard + 1, st.sequence)
  {
    hide Pack;
    PackIsExact(epochMs, shard, st);
    var id, d := Pack(epochMs, shard, st), st.ts - epochMs;
    QuotientUnique(id, TIME_UNIT, d, shard * SHARD_UNIT + st.sequence);
    QuotientUnique(id, SHARD_UNIT, d * (MAX_SHARD + 1) + shard, st.sequence);
    QuotientUnique(d * (MAX_SHARD + 1) + shard, MAX_SHARD + 1, d, shard);
  }

  /** The numeric order of IDs is the lexicographic order of (timestamp, shard, sequence). */
  lemma PackOrder(epochMs: int, p: int, s: Stamp, q: int, t: Stamp)
    requires s.Fits(epochMs) && t.Fits(epochMs) && 0 <= p <= MAX_SHARD && 0 <= q <= MAX_SHARD
    ensures Pack(epochMs, p, s) < Pack(epochMs, q, t)
            <==> s.ts < t.ts || (s.ts == t.ts && (p < q || (p == q && s.sequence < t.sequence)))
    ensures Pack(epochMs, p, s) == Pack(epochMs, q, t) <==> p == q && s == t
  {
    PackIsExact(epochMs, p, s);
    PackIsExact(epochMs, q, t);
  }

  // ----- one generation step -----

  /** The fields of the forge that generation changes. */
  datatype Forge = Forge(last: int, sequence: int, leaseUntil: int)

  /** `ts` is a timestamp at which generation can settle, after the drift wait and the sequence wait. */
  predicate Settles(f: Forge, ts: int) {
    ts > f.last || (ts == f.last && f.sequence < MAX_SEQUENCE)
  }

  function NextSeq(f: Forge, ts: int): int {
    if ts == f.last then f.sequence + 1 else 0
  }

  lemma NextInTurn(sequence: int)
    requires 0 <= sequence <= MAX_SEQUENCE
    ensures (sequence + 1) % (MAX_SEQUENCE + 1) == if sequence < 4095 then sequence + 1 else 0
  {
  }

  predicate NeedsLease(f: Forge, ts: int) {
    ts >= f.leaseUntil
  }

  /** After settling on ts: a failed persist leaves the new sequence beside the old timestamp. */
  function After(f: Forge, ts: int, leased: bool, ok: bool): Forge {
    if !ok then f.(sequence := NextSeq(f, ts))
    else Forge(ts, NextSeq(f, ts), if leased then ts + LEASE_MS else f.leaseUntil)
  }

  // ----- runs -----

  /** One shard's forge with the durable Snowflake mark, and all the stamps issued so far. */
  datatype World = World(up: bool, f: Forge, mark: Mark, issued: seq<Stamp>)

  /** A new shard, before its first start. */
  const NEW_SHARD: World := World(false, Forge(-1, 0, 0), Mark(0, 0), [])

  datatype Action =
    | Boot
    | Generate(ts: nat, o: Outcome)
    | OtherFlush
    | Crash

  predicate Enabled(w: World, a: Action) {
    match a
    case Boot => !w.up
    case Generate(ts, _) => w.up && Settles(w.f, ts)
    case OtherFlush => w.up
    case Crash => w.up
  }

  /** New and EnableMark: the forge continues from the persisted mark. */
  function Start(mark: int): Forge {
    Forge(if mark > 0 then mark else -1, 0, 0)
  }

  function Step(w: World, a: Action): World {
    match a
    case Boot => w.(up := true, f := Start(w.mark.disk), mark := w.mark.(mem := w.mark.disk))
    case Generate(ts, o) =>
      if NeedsLease(w.f, ts) then
        var (ok, mark) := Raise(w.mark, ts + LEASE_MS, o);
        w.(f := After(w.f, ts, true, ok), mark := mark,
           issued := if ok then w.issued + [Stamp(ts, NextSeq(w.f, ts))] else w.issued)
      else w.(f := After(w.f, ts, false, true), issued := w.issued + [Stamp(ts, NextSeq(w.f, ts))])
    case OtherFlush => w.(mark := w.mark.(disk := w.mark.mem))
    case Crash => w.(up := false)
  }

  /** The last ID issued was at this timestamp with a sequence number above the present one. */
  ghost predicate Stale(w: World) {
    w.issued != [] && Stamp(w.f.last, w.f.sequence).Before(w.issued[|w.issued| - 1])
  }

  /** The clock has stepped back to the last issued timestamp after a persist failed. */
  ghost predicate StepsBack(w: World, a: Action) {
    a.Generate? && Stale(w) && a.ts == w.f.last
  }

  ghost function Run(w: World, run: seq<Action>): Option<World> {
    if run == [] then Some(w)
    else
      var last := |run| - 1;
      match Run(w, run[..last])
      case None => None
      case Some(m) => if Enabled(m, run[last]) then Some(Step(m, run[last])) else None
  }

  lemma RunNothing(w: World)
    ensures Run(w, []) == Some(w)
  {
  }

  /** No action of the run meets the clock back at a timestamp that a failed persist left behind. */
  ghost predicate Steady(w: World, run: seq<Action>) {
    run == [] ||
    var last := |run| - 1;
    Steady(w, run[..last]) && Run(w, run).Some? && !StepsBack(Run(w, run[..last]).value, run[last])
  }

  // ----- invariant -----

  ghost predicate Increasing(issued: seq<Stamp>) {
    forall i, j :: 0 <= i < j < |issued| ==> issued[i].Before(issued[j])
  }

  lemma IncreasingNothing()
    ensures Increasing([])
  {
  }

  lemma IncreasingOnce(issued: seq<Stamp>, st: Stamp)
    requires Increasing(issued) && (issued == [] || issued[|issued| - 1].Before(st))
    ensures Increasing(issued + [st])
  {
    if issued != [] {
      assert forall i :: 0 <= i < |issued| - 1 ==> issued[i].Before(issued[|issued| - 1]);
    }
  }

  /** Issued timestamps are below the lease, in the file and in memory, and not above the forge's own. */
  ghost predicate Covered(w: World) {
    && 0 <= w.mark.disk
    && (w.up ==> 0 <= w.f.leaseUntil <= w.mark.mem <= w.mark.disk && 0 <= w.f.sequence <= MAX_SEQUENCE)
    && (forall i :: 0 <= i < |w.issued| ==>
                      && 0 <= w.issued[i].ts < w.mark.disk && 0 <= w.issued[i].sequence <= MAX_SEQUENCE
                      && (w.up ==> w.issued[i].ts < w.mark.mem && w.issued[i].ts <= w.f.last))
  }

  /** Every step keeps that, whatever the clock does. */
  lemma StepCovered(w: World, a: Action)
    requires Covered(w) && Enabled(w, a)
    ensures Covered(Step(w, a))
  {
  }

  lemma {:induction false} RunCovered(w: World, run: seq<Action>)
    requires Covered(w) && Run(w, run).Some?
    ensures Covered(Run(w, run).value)
  {
    if run != [] {
      RunCovered(w, run[..|run| - 1]);
      StepCovered(Run(w, run[..|run| - 1]).value, run[|run| - 1]);
    }
  }

  ghost predicate Inv(w: World) {
    Increasing(w.issued) && Covered(w)
  }

  lemma StepInv(w: World, a: Action)
    requires Inv(w) && Enabled(w, a) && !StepsBack(w, a)
    ensures Inv(Step(w, a))
  {
    if w.issued != [] {
      var top := w.issued[|w.issued| - 1];
      assert forall i :: 0 <= i < |w.issued| ==> w.issued[i] == top || w.issued[i].Before(top);
    }
  }

  lemma {:induction false} RunInv(w: World, run: seq<Action>)
    requires Inv(w) && Steady(w, run)
    ensures Run(w, run).Some? && Inv(Run(w, run).value)
  {
    if run != [] {
      var last := |run| - 1;
      RunInv(w, run[..last]);
      StepInv(Run(w, run[..last]).value, run[last]);
    }
  }

  // ----- main results -----

  /**
   Over all the runs of a shard, with any clock readings, the stamps issued are strictly increasing,
   every one lies below the persisted mark, and so are the packed IDs.
   */
  lemma NeverRepeats(run: seq<Action>, w: World, epochMs: int, shard: int)
    requires Steady(NEW_SHARD, run) && Run(NEW_SHARD, run) == Some(w) && 0 <= shard <= MAX_SHARD
    ensures Increasing(w.issued)
    ensures forall i :: 0 <= i < |w.issued| ==> w.issued[i].ts < w.mark.disk
    ensures forall i, j :: 0 <= i < j < |w.issued| && w.issued[i].Fits(epochMs) && w.issued[j].Fits(epochMs)
                           ==> Pack(epochMs, shard, w.issued[i]) < Pack(epochMs, shard, w.issued[j])
  {
    RunInv(NEW_SHARD, run);
    forall i, j | 0 <= i < j < |w.issued| && w.issued[i].Fits(epochMs) && w.issued[j].Fits(epochMs)
      ensures Pack(epochMs, shard, w.issued[i]) < Pack(epochMs, shard, w.issued[j])
    {
      PackOrder(epochMs, shard, w.issued[i], shard, w.issued[j]);
    }
  }

  // ----- 4096 IDs a millisecond -----

  lemma {:induction false} SequenceRises(issued: seq<Stamp>, i: nat, k: nat)
    requires Increasing(issued) && i + k < |issued| && issued[i].ts == issued[i + k].ts
    ensures issued[i + k].sequence >= issued[i].sequence + k
  {
    if k > 0 {
      assert issued[i + k - 1].Before(issued[i + k]);
      assert k > 1 ==> issued[i].Before(issued[i + k - 1]);
      SequenceRises(issued, i, k - 1);
    }
  }

  /** No more than 4096 stamps of a steady history are of one millisecond. */
  lemma AtMost4096(run: seq<Action>, w: World, i: nat)
    requires Steady(NEW_SHARD, run) && Run(NEW_SHARD, run) == Some(w) && i + 4096 < |w.issued|
    ensures w.issued[i].ts < w.issued[i + 4096].ts
  {
    RunInv(NEW_SHARD, run);
    assert w.issued[i].Before(w.issued[i + 4096]);
    if w.issued[i].ts == w.issued[i + 4096].ts {
      SequenceRises(w.issued, i, 4096);
    }
  }

  /** In a new millisecond the sequence numbers go from 0 to 4095, and then that millisecond is over. */
  lemma FullMillisecond(w: World, ts: nat) returns (run: seq<Action>, w': World)
    requires w.up && ts > w.f.last
    ensures Run(w, run) == Some(w') && AllPersist(run) && w'.up
    ensures w'.issued == w.issued + seq(4096, i => Stamp(ts, i)) && !Enabled(w', Generate(ts, Done))
  {
    hide Run;
    run, w' := [], w;
    RunNothing(w);
    for n := 0 to 4096
      invariant Run(w, run) == Some(w') && AllPersist(run) && w'.up
      invariant w'.issued == w.issued + seq(n, i => Stamp(ts, i))
      invariant if n == 0 then w' == w else w'.f.last == ts && w'.f.sequence == n - 1
    {
      var a := Generate(ts, Done);
      Follow(w, run, w', a);
      run, w' := run + [a], Step(w', a);
      assert seq(n + 1, i => Stamp(ts, i)) == seq(n, i => Stamp(ts, i)) + [Stamp(ts, n)];
    }
  }

  ghost predicate AllPersist(run: seq<Action>) {
    forall i :: 0 <= i < |run| && run[i].Generate? ==> run[i].o.Done?
  }

  /** From a forge that is not stale, if every persist succeeds it never is, so the clock may step back as it likes. */
  lemma {:induction false} FreshStaysFresh(w: World, run: seq<Action>)
    requires Inv(w) && (w.up ==> !Stale(w)) && Run(w, run).Some? && AllPersist(run)
    ensures Steady(w, run) && Inv(Run(w, run).value)
    ensures Run(w, run).value.up ==> !Stale(Run(w, run).value)
  {
    if run != [] {
      var last := |run| - 1;
      FreshStaysFresh(w, run[..last]);
      StepInv(Run(w, run[..last]).value, run[last]);
    }
  }

  /** If every persist succeeds, a shard is steady from its first start on. */
  lemma PersistedRunsAreSteady(run: seq<Action>)
    requires Run(NEW_SHARD, run).Some? && AllPersist(run)
    ensures Steady(NEW_SHARD, run) && Inv(Run(NEW_SHARD, run).value)
    ensures Run(NEW_SHARD, run).value.up ==> !Stale(Run(NEW_SHARD, run).value)
  {
    FreshStaysFresh(NEW_SHARD, run);
  }

  /** After a start with mark m > 0 every stamp of that run is at m or later. */
  ghost predicate FromMark(w: World, mark: int, known: nat) {
    && known <= |w.issued|
    && (forall i :: known <= i < |w.issued| ==> w.issued[i].ts >= mark)
    && (w.up ==> w.f.last >= mark)
  }

  lemma {:induction false} NothingBeforeTheMark(w: World, run: seq<Action>)
    requires !w.up && w.mark.disk > 0
    requires Run(Step(w, Boot), run).Some? && forall i :: 0 <= i < |run| ==> !run[i].Boot?
    ensures FromMark(Run(Step(w, Boot), run).value, w.mark.disk, |w.issued|)
  {
    if run != [] {
      NothingBeforeTheMark(w, run[..|run| - 1]);
    }
  }

  /**
   Exactly when a generation stays above everything issued: not if the clock is back at the last
   issued timestamp after a failed persist reset the sequence, and always otherwise.
   */
  lemma IncreasesIffNotSteppedBack(w: World, ts: nat, o: Outcome)
    requires Inv(w) && Enabled(w, Generate(ts, o))
    requires |Step(w, Generate(ts, o)).issued| == |w.issued| + 1
    ensures Increasing(Step(w, Generate(ts, o)).issued) <==> !StepsBack(w, Generate(ts, o))
  {
    var w' := Step(w, Generate(ts, o));
    if StepsBack(w, Generate(ts, o)) {
      var k := |w.issued|;
      assert w'.issued[k - 1] == w.issued[k - 1] && w'.issued[k] == Stamp(ts, w.f.sequence + 1);
    } else {
      StepInv(w, Generate(ts, o));
    }
  }

  lemma Follow(w: World, run: seq<Action>, m: World, a: Action)
    requires Run(w, run) == Some(m) && Enabled(m, a)
    ensures Run(w, run + [a]) == Some(Step(m, a))
  {
    assert (run + [a])[..|run|] == run;
  }

  lemma {:induction false} RunFrom(w: World, a: Action, run: seq<Action>)
    requires Enabled(w, a) && Run(Step(w, a), run).Some?
    ensures Run(w, [a] + run) == Run(Step(w, a), run)
  {
    if run == [] {
      Follow(w, [], w, a);
      assert [a] + run == [] + [a];
    } else {
      var last := |run| - 1;
      RunFrom(w, a, run[..last]);
      assert ([a] + run)[..last + 1] == [a] + run[..last];
    }
  }

  /** What was issued earlier does not influence a step, it is only added to. */
  lemma StepExtends(w: World, a: Action, earlier: seq<Stamp>)
    requires w.issued == [] && Enabled(w, a)
    ensures Step(w.(issued := earlier), a) == Step(w, a).(issued := earlier + Step(w, a).issued)
  {
  }

  lemma RunOnce(w0: World, run: seq<Action>, w: World, earlier: seq<Stamp>, a: Action)
    requires Run(w0, run) == Some(w.(issued := earlier)) && w.issued == [] && Enabled(w, a)
    ensures Run(w0, run + [a]) == Some(Step(w, a).(issued := earlier + Step(w, a).issued))
  {
    StepExtends(w, a, earlier);
    Follow(w0, run, w.(issued := earlier), a);
  }

  // ----- exactly when an ID can repeat -----

  /** A continuation whose persists all succeed, at whose end some stamp has been issued twice. */
  ghost predicate RepeatsAfter(w: World, run: seq<Action>) {
    && Run(w, run).Some? && AllPersist(run)
    && exists i, j :: 0 <= i < j < |Run(w, run).value.issued| && Run(w, run).value.issued[i] == Run(w, run).value.issued[j]
  }

  /** While the clock stays at the timestamp of an issued stamp, its sequence number comes round again. */
  lemma ComesRound(w: World, k: nat) returns (run: seq<Action>)
    requires w.up && k < |w.issued| && w.issued[k].sequence <= MAX_SEQUENCE
    requires 0 <= w.f.last == w.issued[k].ts && w.f.sequence < w.issued[k].sequence
    ensures RepeatsAfter(w, run)
  {
    hide Run;
    var top := w.issued[k];
    var w' := w;
    run := [];
    RunNothing(w);
    while w'.f.sequence < top.sequence
      invariant Run(w, run) == Some(w') && AllPersist(run)
      invariant w'.up && w'.f.last == top.ts && w'.f.sequence <= top.sequence
      invariant w.issued <= w'.issued
      invariant w'.f.sequence == top.sequence ==> |w'.issued| > |w.issued| && w'.issued[|w'.issued| - 1] == top
      decreases top.sequence - w'.f.sequence
    {
      var a := Generate(top.ts, Done);
      Follow(w, run, w', a);
      run, w' := run + [a], Step(w', a);
    }
    assert w'.issued[k] == w'.issued[|w'.issued| - 1];
  }

  ghost predicate Distinct(issued: seq<Stamp>) {
    forall i, j :: 0 <= i < j < |issued| ==> issued[i] != issued[j]
  }

  /** The sequence number of an issued stamp at the forge's timestamp is still to come. */
  ghost predicate Ahead(w: World, k: nat) {
    k < |w.issued| && w.issued[k].ts == w.f.last && w.f.sequence < w.issued[k].sequence
  }

  ghost predicate Harmless(w: World) {
    Covered(w) && Distinct(w.issued) && (w.up ==> forall k :: !Ahead(w, k))
  }

  lemma StepHarmless(w: World, a: Action)
    requires Harmless(w) && Enabled(w, a) && (a.Generate? ==> a.o.Done?)
    ensures Harmless(Step(w, a))
  {
    StepCovered(w, a);
    var w' := Step(w, a);
    forall k: nat | w'.up
      ensures !Ahead(w', k)
    {
      assert !Ahead(w, k) || !w.up;
    }
    if a.Generate? {
      forall i | 0 <= i < |w.issued|
        ensures w.issued[i] != Stamp(a.ts, NextSeq(w.f, a.ts))
      {
        assert !Ahead(w, i);
      }
    }
  }

  lemma {:induction false} HarmlessNeverRepeats(w: World, run: seq<Action>)
    requires Harmless(w) && Run(w, run).Some? && AllPersist(run)
    ensures Harmless(Run(w, run).value)
  {
    if run != [] {
      HarmlessNeverRepeats(w, run[..|run| - 1]);
      StepHarmless(Run(w, run[..|run| - 1]).value, run[|run| - 1]);
    }
  }

  /**
   Exactly when an ID can repeat for the first time although every persist succeeds from here on, in any
   state that any run reaches: if and only if some stamp issued at the forge's timestamp has a sequence
   number above the forge's own, which a failed persist has set back.
   */
  lemma RepeatsIffAhead(before: seq<Action>, w: World)
    requires Run(NEW_SHARD, before) == Some(w) && w.up && Distinct(w.issued)
    ensures (exists run :: RepeatsAfter(w, run)) <==> exists k :: Ahead(w, k)
  {
    hide Run;
    RunCovered(NEW_SHARD, before);
    if k :| Ahead(w, k) {
      var run := ComesRound(w, k);
    } else {
      forall run
        ensures !RepeatsAfter(w, run)
      {
        if Run(w, run).Some? && AllPersist(run) {
          HarmlessNeverRepeats(w, run);
        }
      }
    }
  }

  /** A persist that fails and a clock that steps back: the same ID is issued twice. */
  lemma SteppingBackRepeats() returns (run: seq<Action>, w: World)
    ensures Run(NEW_SHARD, run) == Some(w)
    ensures |w.issued| == 3 && w.issued[1] == w.issued[2]
  {
    var acts := [Boot, Generate(10, Done), Generate(10, Done), Generate(2000, FailedBefore), Generate(10, Done)];
    run, w := [], NEW_SHARD;
    for i := 0 to 5
      invariant Run(NEW_SHARD, run) == Some(w)
      invariant i == 0 ==> w == NEW_SHARD
      invariant i == 1 ==> w == World(true, Forge(-1, 0, 0), Mark(0, 0), [])
      invariant i == 2 ==> w == World(true, Forge(10, 0, 1010), Mark(1010, 1010), [Stamp(10, 0)])
      invariant i == 3 ==> w == World(true, Forge(10, 1, 1010), Mark(1010, 1010), [Stamp(10, 0), Stamp(10, 1)])
      invariant i == 4 ==> w == World(true, Forge(10, 0, 1010), Mark(1010, 1010), [Stamp(10, 0), Stamp(10, 1)])
      invariant i == 5 ==> w.issued == [Stamp(10, 0), Stamp(10, 1), Stamp(10, 1)]
    {
      Follow(NEW_SHARD, run, w, acts[i]);
      run, w := run + [acts[i]], Step(w, acts[i]);
    }
  }
}
