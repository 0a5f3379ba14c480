/** With segments of one iteration the window is empty whenever a refill starts. */
module ProtocolTight {
  import opened Int64
  import opened Reservation
  import opened Protocol
  import opened ProtocolInvariant
  import opened ProtocolTheorems

  /** The window never holds more than one iteration beyond what the call in the lock is about to take. */
  ghost predicate Tight(s: State) {
    s.loaded ==>
      && (s.reserving ==> s.reservedEnd == s.cursor)
      && (match Holder(s)
          case Some(NextLoop(n, _, _)) => s.reservedEnd - s.cursor <= 1 || s.reservedEnd - s.cursor == n
          case Some(NextWrote(n, _, _, grow)) => s.reservedEnd + grow - s.cursor == n
          case _ => s.reservedEnd - s.cursor <= 1)
  }

  lemma StepTight(c: Config, s: State, a: Action)
    requires c.Valid() && c.segmentSize == 1 && Inv(c, s) && Tight(s) && Enabled(c, s, a) && Benign(c, s, a)
    ensures Tight(Apply(c, s, a))
  {
    hide Wrap, Grow, Contiguous, Apply, Inv, Tight, Enabled, Benign;
    if a.EnterNext? || a.EnterReset? {
      EnterTight(c, s, a);
    } else if a.InlineWrite? || a.InlineExtend? || a.Take? {
      NextTight(c, s, a);
    } else if a.RefillWrite? || a.RefillFinish? || a.Park? || a.Reacquire? {
      RefillTight(c, s, a);
    } else {
      OtherTight(c, s, a);
    }
  }

  lemma EnterTight(c: Config, s: State, a: Action)
    requires c.Valid() && c.segmentSize == 1 && Inv(c, s) && Tight(s) && Enabled(c, s, a)
    requires a.EnterNext? || a.EnterReset?
    ensures Tight(Apply(c, s, a))
  {
    hide Wrap, Contiguous;
    LoadKeeps(c, s);
  }

  lemma NextTight(c: Config, s: State, a: Action)
    requires c.Valid() && c.segmentSize == 1 && Inv(c, s) && Tight(s) && Enabled(c, s, a) && Benign(c, s, a)
    requires a.InlineWrite? || a.InlineExtend? || a.Take?
    ensures Tight(Apply(c, s, a))
  {
    hide Wrap, Grow, Contiguous;
    if a.InlineWrite? {
      InlineNumbers(c, s, a.t);
    }
  }

  lemma RefillTight(c: Config, s: State, a: Action)
    requires c.Valid() && c.segmentSize == 1 && Inv(c, s) && Tight(s) && Enabled(c, s, a) && Benign(c, s, a)
    requires a.RefillWrite? || a.RefillFinish? || a.Park? || a.Reacquire?
    ensures Tight(Apply(c, s, a))
  {
    hide Wrap, Contiguous;
    if a.RefillFinish? {
      assert RefillOk(c, s, s.refills[a.r]);
    }
  }

  lemma OtherTight(c: Config, s: State, a: Action)
    requires c.Valid() && c.segmentSize == 1 && Inv(c, s) && Tight(s) && Enabled(c, s, a)
    requires a.CallNext? || a.CallReset? || a.RefuseReset? || a.ResetWrite? || a.ResetApply?
             || a.OtherFlush? || a.Crash? || a.Boot? || a.OfflineReset?
    ensures Tight(Apply(c, s, a))
  {
    hide Wrap, Contiguous;
  }

  lemma {:induction false} RunTight(c: Config, s: State, run: seq<Action>)
    requires c.Valid() && c.segmentSize == 1 && Inv(c, s) && Tight(s) && Clean(c, s, run)
    ensures Exec(c, s, run).Some? && Tight(Exec(c, s, run).value)
  {
    hide Inv, Tight;
    if run != [] {
      var last := |run| - 1;
      RunTight(c, s, run[..last]);
      RunKeeps(c, s, run[..last]);
      StepTight(c, Exec(c, s, run[..last]).value, run[last]);
    }
  }

  /** How much of the window can be left when a refill starts. */
  function Slack(c: Config): int {
    if c.segmentSize == 1 then 0 else c.threshold
  }

  ghost predicate TightIfOne(c: Config, s: State) {
    c.segmentSize == 1 ==> Tight(s)
  }

  lemma StepTightIfOne(c: Config, s: State, a: Action)
    requires c.Valid() && Inv(c, s) && TightIfOne(c, s) && Enabled(c, s, a) && Benign(c, s, a)
    ensures TightIfOne(c, Apply(c, s, a))
  {
    hide Inv, Apply, Enabled, Benign, Tight;
    if c.segmentSize == 1 {
      StepTight(c, s, a);
    }
  }

  /** A take that starts a refill leaves at most the slack. */
  lemma TakeSlack(c: Config, s: State, t: nat)
    requires c.Valid() && Inv(c, s) && TightIfOne(c, s) && s.loaded && Running(s, t) && s.threads[t].NextLoop?
    requires s.threads[t].n <= s.reservedEnd - s.cursor && s.reservedEnd - s.cursor - s.threads[t].n <= c.threshold
    ensures s.reservedEnd - s.cursor - s.threads[t].n <= Slack(c)
  {
    hide Contiguous;
    assert ThreadOk(c, s, t, s.threads[t]);
  }

  /** While a refill is in flight the window is at most the slack. */
  lemma RefillSlack(c: Config, s: State)
    requires c.Valid() && Inv(c, s) && TightIfOne(c, s) && s.reserving
    ensures s.reservedEnd - s.cursor <= Slack(c)
  {
    hide Contiguous;
  }
}
