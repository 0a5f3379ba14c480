/** What an accepted start value or reset promises about the IDs that follow it. */
module ProtocolResets {
  import opened Reservation
  import opened Protocol
  import opened ProtocolInvariant
  import opened ProtocolTheorems

  /** Steps between an accepted reset and the next Take of the same process life. */
  ghost predicate Quiet(run: seq<Action>) {
    forall i :: 0 <= i < |run| ==> !run[i].Take? && !run[i].ResetApply? && !run[i].Crash? && !run[i].OfflineReset?
  }

  lemma {:induction false} QuietKeepsHead(c: Config, s: State, run: seq<Action>)
    requires c.Valid() && Inv(c, s) && Clean(c, s, run) && Quiet(run)
    ensures Exec(c, s, run).Some? && Exec(c, s, run).value.Head() == s.Head()
  {
    if run != [] {
      var last := |run| - 1;
      QuietKeepsHead(c, s, run[..last]);
      RunKeeps(c, s, run[..last]);
      OthersKeepHead(c, Exec(c, s, run[..last]).value, run[last]);
    }
  }

  /** After a reset completes, the next range handed out by this process starts at its target. */
  lemma NextAfterReset(c: Config, s: State, t: nat, run: seq<Action>, u: nat, r: nat)
    requires c.Valid() && Inv(c, s) && Enabled(c, s, ResetApply(t))
    requires var s1 := Apply(c, s, ResetApply(t));
             && Clean(c, s1, run) && Quiet(run) && Exec(c, s1, run).Some?
             && Enabled(c, Exec(c, s1, run).value, Take(u, r))
    ensures var m := Exec(c, Apply(c, s, ResetApply(t)), run).value;
            Apply(c, m, Take(u, r)).hist == m.hist + [Range(s.threads[t].target, m.threads[u].n)]
  {
    hide Grow, Contiguous, Exec, Clean;
    var s1 := Apply(c, s, ResetApply(t));
    StepKeeps(c, s, ResetApply(t));
    QuietKeepsHead(c, s1, run);
    RunKeeps(c, s1, run);
    var m := Exec(c, s1, run).value;
    assert m.loaded by { assert ThreadOk(c, m, u, m.threads[u]); }
  }

  /** After registration at `start` the first range handed out starts there, if no crash comes first. */
  lemma FirstAfterInit(c: Config, start: int, run: seq<Action>, m: State, u: nat, r: nat)
    requires Reachable(c, start, run, m) && Quiet(run) && Enabled(c, m, Take(u, r))
    ensures Apply(c, m, Take(u, r)).hist == m.hist + [Range(start, m.threads[u].n)]
  {
    hide Exec, Clean, Contiguous;
    FreshInv(c, start);
    QuietKeepsHead(c, Fresh(start), run);
    ReachableInv(c, start, run, m);
    assert m.loaded by { assert ThreadOk(c, m, u, m.threads[u]); }
  }

  // ----- no ID below an accepted value, until a forced move -----

  ghost predicate Unforced(s: State, a: Action) {
    && (a.ResetWrite? ==> a.t in s.threads && s.threads[a.t].ResetLoop? && !s.threads[a.t].force)
    && (a.OfflineReset? ==> !a.force)
  }

  ghost predicate UnforcedRun(c: Config, s: State, run: seq<Action>)
    requires c.Valid()
  {
    run == [] ||
    var last := |run| - 1;
    UnforcedRun(c, s, run[..last]) && Exec(c, s, run).Some? && Unforced(Exec(c, s, run[..last]).value, run[last])
  }

  /** s' continues s: nothing handed out is forgotten, and everything new is at or above v. */
  ghost predicate ContinuesAbove(s: State, s': State, v: int) {
    && s.hist <= s'.hist
    && forall i :: |s.hist| <= i < |s'.hist| ==> v <= s'.hist[i].first
  }

  lemma StepAboveFloor(c: Config, s: State, a: Action)
    requires c.Valid() && Inv(c, s) && Enabled(c, s, a) && Benign(c, s, a) && Unforced(s, a)
    ensures Apply(c, s, a).floor >= s.floor && ContinuesAbove(s, Apply(c, s, a), s.floor)
  {
    hide Grow, Contiguous;
    if a.Take? {
      assert ThreadOk(c, s, a.t, s.threads[a.t]);
    }
  }

  lemma {:induction false} RunAboveFloor(c: Config, s: State, run: seq<Action>)
    requires c.Valid() && Inv(c, s) && Clean(c, s, run) && UnforcedRun(c, s, run)
    ensures Exec(c, s, run).Some?
    ensures Exec(c, s, run).value.floor >= s.floor && ContinuesAbove(s, Exec(c, s, run).value, s.floor)
  {
    if run != [] {
      var last := |run| - 1;
      RunAboveFloor(c, s, run[..last]);
      RunKeeps(c, s, run[..last]);
      StepAboveFloor(c, Exec(c, s, run[..last]).value, run[last]);
    }
  }

  /**
   Once the mark of an accepted reset to v is written, even one that lowers the mark inside the
   reserved window, every later range starts at v or above, through crashes, restarts and offline
   resets, until a reset is forced.
   */
  lemma NothingBelowReset(c: Config, s: State, t: nat, run: seq<Action>)
    requires c.Valid() && Inv(c, s) && Enabled(c, s, ResetWrite(t, Done))
    requires var s1 := Apply(c, s, ResetWrite(t, Done));
             Clean(c, s1, run) && UnforcedRun(c, s1, run)
    ensures var s1 := Apply(c, s, ResetWrite(t, Done));
            Exec(c, s1, run).Some? && ContinuesAbove(s1, Exec(c, s1, run).value, s.threads[t].target)
  {
    StepKeeps(c, s, ResetWrite(t, Done));
    RunAboveFloor(c, Apply(c, s, ResetWrite(t, Done)), run);
  }

  /** Likewise for a start value: nothing below it is handed out until a reset is forced. */
  lemma NothingBelowStart(c: Config, start: int, run: seq<Action>, s: State)
    requires Reachable(c, start, run, s) && UnforcedRun(c, Fresh(start), run)
    ensures forall i :: 0 <= i < |s.hist| ==> start <= s.hist[i].first
  {
    FreshInv(c, start);
    RunAboveFloor(c, Fresh(start), run);
  }

  /** An offline reset without --force, made while the service is down, is a floor in the same way. */
  lemma NothingBelowOfflineReset(c: Config, s: State, target: int, run: seq<Action>)
    requires c.Valid() && Inv(c, s) && Enabled(c, s, OfflineReset(target, false, Done))
    requires var s1 := Apply(c, s, OfflineReset(target, false, Done));
             Clean(c, s1, run) && UnforcedRun(c, s1, run)
    ensures var s1 := Apply(c, s, OfflineReset(target, false, Done));
            && s1.hist == s.hist
            && Exec(c, s1, run).Some? && ContinuesAbove(s1, Exec(c, s1, run).value, target)
  {
    var a := OfflineReset(target, false, Done);
    StepKeeps(c, s, a);
    RunAboveFloor(c, Apply(c, s, a), run);
  }
}
