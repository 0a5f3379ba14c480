/** What one caller's way through the protocol amounts to when no other thread is active. */
module ProtocolPaths {
  import opened Wrappers
  import opened Int64
  import opened Reservation
  import opened Protocol
  import opened ProtocolInvariant
  import opened ProtocolTheorems

  /** The actions lead from s to s', meeting the hypotheses all the way. */
  ghost predicate Leads(c: Config, s: State, acts: seq<Action>, s': State)
    requires c.Valid()
  {
    Exec(c, s, acts) == Some(s') && Clean(c, s, acts)
  }

  lemma LeadsNowhere(c: Config, s: State)
    requires c.Valid()
    ensures Leads(c, s, [], s)
  {
  }

  lemma LeadsOne(c: Config, s: State, a: Action)
    requires c.Valid() && Enabled(c, s, a) && Benign(c, s, a)
    ensures Leads(c, s, [a], Apply(c, s, a))
  {
    assert [a][..0] == [];
    assert Exec(c, s, []) == Some(s);
    assert Exec(c, s, [a]) == Some(Apply(c, s, a));
  }

  lemma {:induction false} LeadsOn(c: Config, s: State, acts: seq<Action>, m: State, more: seq<Action>, s': State)
    requires c.Valid() && Leads(c, s, acts, m) && Leads(c, m, more, s')
    ensures Leads(c, s, acts + more, s')
  {
    hide Apply, Enabled, Benign;
    if more == [] {
      assert acts + more == acts;
    } else {
      var last := |more| - 1;
      LeadsOn(c, s, acts, m, more[..last], Exec(c, m, more[..last]).value);
      assert (acts + more)[..|acts + more| - 1] == acts + more[..last];
    }
  }

  lemma LeadsTwo(c: Config, s: State, a: Action, b: Action)
    requires c.Valid() && Enabled(c, s, a) && Benign(c, s, a)
    requires Enabled(c, Apply(c, s, a), b) && Benign(c, Apply(c, s, a), b)
    ensures Leads(c, s, [a, b], Apply(c, Apply(c, s, a), b))
  {
    hide Apply, Enabled, Benign, Leads;
    LeadsOne(c, s, a);
    LeadsOne(c, Apply(c, s, a), b);
    LeadsOn(c, s, [a], Apply(c, s, a), [b], Apply(c, Apply(c, s, a), b));
    assert [a] + [b] == [a, b];
  }

  /** Nobody is in a call. */
  ghost predicate Idle(s: State) {
    s.up && s.lock.None? && s.threads == map[]
  }

  /** Thread 0 alone is in a call, at pc, and holds the lock. */
  ghost predicate Alone(s: State, pc: Pc) {
    s.up && s.loaded && s.lock == Some(0) && s.threads == map[0 := pc]
  }

  /** Entry into Next: refused if exhausted, otherwise at the loop with the lock. */
  lemma EnterPath(c: Config, s: State, n: int)
    requires c.Valid() && Inv(c, s) && Idle(s) && 1 <= n
    requires n <= MAX && s.Head() + n - 1 <= MAX
    ensures var l := Load(s);
            Leads(c, s, [CallNext(0, n), EnterNext(0)],
                  if s.Head() + n - 1 > c.maxIter then l
                  else l.(threads := map[0 := NextLoop(n, l.cursor, false)], lock := Some(0)))
  {
    hide Wrap, Grow, Inv, Exec, Clean;
    assert s.Head() >= 0 && Load(s).cursor == s.Head() by { HeadNatural(c, s); }
    WrapTwice(s.Head() + n, -1);
    var s1 := Apply(c, s, CallNext(0, n));
    assert s1 == s.(threads := map[0 := NextStart(n)]);
    LeadsTwo(c, s, CallNext(0, n), EnterNext(0));
    assert s1.threads - {0} == map[];
    assert s1.threads[0 := NextLoop(n, Load(s).cursor, false)] == map[0 := NextLoop(n, Load(s).cursor, false)];
  }

  lemma HeadNatural(c: Config, s: State)
    requires c.Valid() && Inv(c, s)
    ensures s.Head() >= 0 && (s.up ==> Load(s).cursor == s.Head())
  {
    hide Contiguous;
  }

  /** What a waiting caller finds when the refill it waited for is over. */
  function Resumed(pc: Pc): Pc {
    if pc.NextLoop? then NextLoop(pc.n, pc.checked, true) else pc
  }

  function Refilled(c: Config, s: State, o: Outcome): State {
    var (ok, mark) := Raise(s.mark, Wrap(s.reservedEnd + c.segmentSize), o);
    s.(mark := mark, reserving := false, refills := map[],
       reservedEnd := if ok then Wrap(s.reservedEnd + c.segmentSize) else s.reservedEnd)
  }

  lemma RefilledFacts(c: Config, s: State, o: Outcome)
    requires c.Valid() && 0 <= s.reservedEnd == s.mark.mem && s.reservedEnd + c.segmentSize <= MAX
    ensures var t := Refilled(c, s, o);
            && t == s.(mark := t.mark, reserving := false, refills := map[], reservedEnd := t.reservedEnd)
            && t.reservedEnd == s.reservedEnd + if o.Done? then c.segmentSize else 0
  {
  }

  /** The refill goroutine from its write to its end. */
  lemma RefillPath(c: Config, s: State, o: Outcome)
    requires c.Valid() && s.up && s.lock.None? && s.refills == map[0 := Writing(s.reservedEnd)]
    requires s.loaded
    ensures Leads(c, s, [RefillWrite(0, o), RefillFinish(0)],
                  Refilled(c, s, o).(threads := map t | t in s.threads :: s.threads[t].Woken()))
  {
    hide Wrap, Grow, Inv, Exec, Clean;
    var s1 := Apply(c, s, RefillWrite(0, o));
    assert s1.threads == s.threads && s1.Head() == s.Head();
    LeadsTwo(c, s, RefillWrite(0, o), RefillFinish(0));
    assert s1.refills - {0} == map[];
  }

  function ParkedPc(pc: Pc): Pc
    requires pc.NextLoop? || pc.ResetLoop?
  {
    if pc.NextLoop? then NextParked(pc.n, pc.checked) else ResetParked(pc.target, pc.force)
  }

  /** Going to sleep on the condition variable. */
  lemma ParkPath(c: Config, s: State, pc: Pc)
    requires c.Valid() && Alone(s, pc) && s.reserving && (Short(s, pc) || pc.ResetLoop?)
    ensures Leads(c, s, [Park(0)], s.(threads := map[0 := ParkedPc(pc)], lock := None))
  {
    hide Wrap, Exec, Clean, Leads;
    LeadsOne(c, s, Park(0));
    assert s.threads[0 := ParkedPc(pc)] == map[0 := ParkedPc(pc)];
  }

  /** Waking up: the lock comes back. */
  lemma ReacquirePath(c: Config, s: State, pc: Pc)
    requires c.Valid() && s.up && s.loaded && s.lock.None?
    requires (pc.NextLoop? || pc.ResetLoop?) && s.threads == map[0 := ParkedPc(pc).Woken()]
    ensures Leads(c, s, [Reacquire(0)], s.(threads := map[0 := Resumed(pc)], lock := Some(0)))
  {
    hide Wrap, Exec, Clean, Leads;
    LeadsOne(c, s, Reacquire(0));
    assert s.threads[0 := Resumed(pc)] == map[0 := Resumed(pc)];
  }

  /** The end of the window after an inline reservation. */
  function NewEnd(c: Config, s: State, n: int): int
    requires c.segmentSize >= 1
  {
    Wrap(s.reservedEnd + Grow(c.segmentSize, Wrap(n - s.Remaining())))
  }

  /** The inline reservation: window and mark extended, or the call has failed and left. */
  lemma InlinePath(c: Config, s: State, pc: Pc, o: Outcome)
    requires c.Valid() && Alone(s, pc) && !s.reserving && pc.NextLoop? && Short(s, pc) && NoWrap(c, s, InlineWrite(0, o))
    ensures var (ok, mark) := Raise(s.mark, NewEnd(c, s, pc.n), o);
            if ok then Leads(c, s, [InlineWrite(0, o), InlineExtend(0)], s.(mark := mark, reservedEnd := NewEnd(c, s, pc.n)))
            else Leads(c, s, [InlineWrite(0, o)], s.(mark := mark, threads := map[], lock := None))
  {
    hide Wrap, Grow, Inv, Exec, Clean, Leads;
    var grow := Grow(c.segmentSize, Wrap(pc.n - s.Remaining()));
    var (ok, mark) := Raise(s.mark, NewEnd(c, s, pc.n), o);
    var s1 := Apply(c, s, InlineWrite(0, o));
    if ok {
      assert s1 == s.(mark := mark, threads := map[0 := NextWrote(pc.n, pc.checked, pc.parked, grow)]);
      LeadsTwo(c, s, InlineWrite(0, o), InlineExtend(0));
      assert s1.threads[0 := NextLoop(pc.n, pc.checked, pc.parked)] == s.threads;
    } else {
      assert s.threads - {0} == map[];
      LeadsOne(c, s, InlineWrite(0, o));
    }
  }

  /** Taking the range, and starting a refill if the window runs low. */
  lemma TakePath(c: Config, s: State, pc: Pc)
    requires c.Valid() && Alone(s, pc) && pc.NextLoop? && !Short(s, pc) && NoWrap(c, s, Take(0, 0))
    requires s.refills.Keys <= {0} && (s.reserving <==> s.refills != map[])
    ensures var r := if s.reserving then 1 else 0;
            && Leads(c, s, [Take(0, r)], TakeRange(c, s, 0, pc.n, r))
            && Idle(TakeRange(c, s, 0, pc.n, r))
  {
    hide Wrap, Exec, Clean, Leads;
    var r := if s.reserving then 1 else 0;
    assert r !in s.refills;
    assert s.threads - {0} == map[];
    LeadsOne(c, s, Take(0, r));
  }

  /** Entry into Reset. */
  lemma EnterResetPath(c: Config, s: State, target: int, force: bool)
    requires c.Valid() && Inv(c, s) && Idle(s) && 0 <= target <= MAX
    ensures Leads(c, s, [CallReset(0, target, force), EnterReset(0)],
                  Load(s).(threads := map[0 := ResetLoop(target, force)], lock := Some(0)))
  {
    hide Wrap, Grow, Inv, Exec, Clean;
    var s1 := Apply(c, s, CallReset(0, target, force));
    assert s1 == s.(threads := map[0 := ResetStart(target, force)]);
    LeadsTwo(c, s, CallReset(0, target, force), EnterReset(0));
    assert s1.threads[0 := ResetLoop(target, force)] == map[0 := ResetLoop(target, force)];
  }

  function ResetDone(s: State, target: int): State {
    s.(mark := Mark(target, target), cursor := target, reservedEnd := target, log := [], base := target,
       loadMark := if target < s.loadMark then target else s.loadMark,
       hist := if target < s.cursor then [] else s.hist, floor := target,
       threads := map[], lock := None)
  }

  /** The rest of Reset: refused, written and applied, or failed without a torn file. */
  lemma ResetPath(c: Config, s: State, target: int, force: bool, o: Outcome)
    requires c.Valid() && Alone(s, ResetLoop(target, force)) && !s.reserving
    requires target >= s.reservedEnd || !o.FailedAfter?
    ensures !Accepts(s.cursor, target, force) ==> Leads(c, s, [RefuseReset(0)], s.(threads := map[], lock := None))
    ensures Accepts(s.cursor, target, force) && o.Done? ==>
              Leads(c, s, [ResetWrite(0, o), ResetApply(0)], ResetDone(s, target))
    ensures Accepts(s.cursor, target, force) && !o.Done? ==>
              Leads(c, s, [ResetWrite(0, o)], s.(mark := Write(s.mark, target, o).1, threads := map[], lock := None))
  {
    hide Wrap, Exec, Clean, Leads;
    assert s.threads - {0} == map[];
    if !Accepts(s.cursor, target, force) {
      LeadsOne(c, s, RefuseReset(0));
    } else if o.Done? {
      ResetDonePath(c, s, target, force);
    } else {
      LeadsOne(c, s, ResetWrite(0, o));
    }
  }

  lemma ResetDonePath(c: Config, s: State, target: int, force: bool)
    requires c.Valid() && Alone(s, ResetLoop(target, force)) && !s.reserving
    requires Accepts(s.cursor, target, force)
    ensures Leads(c, s, [ResetWrite(0, Done), ResetApply(0)], ResetDone(s, target))
  {
    hide Wrap, Exec, Clean, Leads;
    var s1 := Apply(c, s, ResetWrite(0, Done));
    assert s1.threads == map[0 := ResetWrote(target, force)];
    assert s1.threads - {0} == map[];
    LeadsTwo(c, s, ResetWrite(0, Done), ResetApply(0));
  }
}
