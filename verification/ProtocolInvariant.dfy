/** The inductive invariant of the protocol, and its preservation by every step. */
module ProtocolInvariant {
  import opened Wrappers
  import opened Int64
  import opened Reservation
  import opened Protocol

  // ----- hypotheses on a run -----

  /**
   The no-wrap hypothesis, step by step: the int64 expressions of this step have their mathematical
   values. The steps not listed compute nothing that can wrap.
   */
  ghost predicate NoWrap(c: Config, s: State, a: Action)
    requires c.Valid()
  {
    match a
    case EnterNext(t) =>
      t in s.threads && s.threads[t].NextStart? ==> Load(s).cursor + s.threads[t].n - 1 <= MAX
    case InlineWrite(t, _) =>
      t in s.threads && s.threads[t].NextLoop? ==>
        var short := s.threads[t].n - (s.reservedEnd - s.cursor);
        short + c.segmentSize - 1 <= MAX && s.reservedEnd + Grow(c.segmentSize, short) <= MAX
    case Take(t, _) =>
      (t in s.threads && s.threads[t].NextLoop? && !s.reserving
       && s.reservedEnd - s.cursor - s.threads[t].n <= c.threshold) ==> s.reservedEnd + c.segmentSize <= MAX
    case _ => true
  }

  /** A reset whose flush fails after the rename, having lowered the file below the live window. */
  ghost predicate TornReset(s: State, a: Action) {
    a.ResetWrite? && a.o.FailedAfter? && a.t in s.threads && s.threads[a.t].ResetLoop?
    && s.threads[a.t].target < s.reservedEnd
  }

  ghost predicate Benign(c: Config, s: State, a: Action)
    requires c.Valid()
  {
    NoWrap(c, s, a) && !TornReset(s, a)
  }

  // ----- the invariant -----

  ghost function Holder(s: State): Option<Pc> {
    if s.lock.Some? && s.lock.value in s.threads then Some(s.threads[s.lock.value]) else None
  }

  ghost predicate ThreadOk(c: Config, s: State, t: nat, pc: Pc) {
    && (pc.Holds() ==> s.lock == Some(t))
    && (!pc.NextStart? && !pc.ResetStart? ==> s.loaded)
    && (pc.Parked() ==> s.reserving)
    && (pc.NextWrote? || pc.ResetWrote? ==> !s.reserving)
    && (pc.InNext() ==> 1 <= pc.n <= MAX)
    && (!pc.InNext() ==> 0 <= pc.target <= MAX)
    && (pc.InNext() && !pc.NextStart? ==> 0 <= pc.checked && pc.checked + pc.n - 1 <= c.maxIter)
    && ((pc.NextLoop? || pc.NextWrote?) && !pc.parked ==> pc.checked == s.cursor)
  }

  /** Who holds the lock, who waits, and that at most one refill goroutine exists. */
  ghost predicate Threads(c: Config, s: State) {
    && (forall t :: t in s.threads ==> ThreadOk(c, s, t, s.threads[t]))
    && (s.lock.Some? ==> s.lock.value in s.threads && s.threads[s.lock.value].Holds())
    && (s.reserving <==> s.refills != map[])
    && (forall r, q :: r in s.refills && q in s.refills ==> r == q)
    && (s.reserving ==> s.loaded)
    && (s.loaded ==> s.up)
    && (!s.up ==> s.threads == map[])
  }

  ghost predicate RefillOk(c: Config, s: State, refill: Refill) {
    && refill.from == s.reservedEnd && refill.from + c.segmentSize <= MAX
    && s.mark.mem == if refill.Wrote? && refill.ok then refill.from + c.segmentSize else refill.from
  }

  /** The window against the store's mark, and how far it may reach past the cursor. */
  ghost predicate Window(c: Config, s: State) {
    s.loaded ==>
      && 0 <= s.cursor <= s.reservedEnd <= MAX
      && (match Holder(s)
          case Some(NextWrote(n, _, _, grow)) =>
            && s.reservedEnd - s.cursor < n <= s.reservedEnd + grow - s.cursor < n + c.segmentSize
            && s.mark.mem == s.reservedEnd + grow
          case Some(ResetWrote(target, _)) => s.mark.mem == target
          case _ => !s.reserving ==> s.mark.mem == s.reservedEnd)
      && (forall r :: r in s.refills ==> RefillOk(c, s, s.refills[r]))
      && (s.reserving ==> s.reservedEnd - s.cursor <= c.threshold)
      && s.reservedEnd - s.cursor <= c.segmentSize + Reach(c, s)
  }

  /** The part of the bound on the window that depends on the call inside the lock. */
  ghost function Reach(c: Config, s: State): int {
    match Holder(s)
    case Some(NextLoop(n, _, _)) =>
      if n - 1 > c.threshold && s.reservedEnd - s.cursor >= n then n - 1 else c.threshold
    case _ => c.threshold
  }

  /** The file is never behind the memory of the store. */
  ghost predicate Marks(s: State) {
    && 0 <= s.mark.disk <= MAX
    && (s.up ==> 0 <= s.mark.mem <= s.mark.disk)
  }

  /** x lies below everything the entity can still hand out, now or after a crash. */
  ghost predicate Below(s: State, x: int) {
    && x <= s.mark.disk
    && (s.up ==> x <= s.mark.mem)
    && (s.loaded ==> x <= s.cursor)
  }

  ghost predicate Increasing(hist: seq<Range>) {
    forall i, j :: 0 <= i < j < |hist| ==> hist[i].End() <= hist[j].first
  }

  /** What was handed out is in increasing order and durably below what is still to come. */
  ghost predicate Issued(s: State) {
    && Increasing(s.hist)
    && (forall i :: 0 <= i < |s.hist| ==> 0 <= s.hist[i].first < s.hist[i].End() && Below(s, s.hist[i].End()))
    && (match Holder(s)
        case Some(ResetWrote(target, _)) =>
          && s.floor == target
          && (s.hist == [] || s.cursor <= target)
        case _ => Below(s, s.floor))
  }

  /** The log is one unbroken sequence of ranges from `from` to `to`. */
  ghost predicate Contiguous(log: seq<Range>, from: int, to: int) {
    if log == [] then from == to
    else
      var last := log[|log| - 1];
      last.End() == to && last.n >= 1 && Contiguous(log[..|log| - 1], from, last.first)
  }

  ghost predicate Logged(s: State) {
    s.loaded ==> Contiguous(s.log, s.base, s.cursor)
  }

  ghost predicate Inv(c: Config, s: State) {
    Threads(c, s) && Window(c, s) && Marks(s) && Issued(s) && Logged(s)
  }

  // ----- preservation -----

  lemma FreshInv(c: Config, start: int)
    requires c.Valid() && 0 <= start <= MAX
    ensures Inv(c, Fresh(start))
  {
    hide Wrap, Grow, Contiguous;
  }

  lemma CallNextKeeps(c: Config, s: State, a: Action)
    requires c.Valid() && Inv(c, s) && Enabled(c, s, a) && Benign(c, s, a) && a.CallNext?
    ensures Inv(c, Apply(c, s, a))
  {
    hide Wrap, Grow, Contiguous;
  }

  lemma LoadKeeps(c: Config, s: State)
    requires c.Valid() && Inv(c, s) && s.up && s.lock.None?
    ensures Inv(c, Load(s)) && Load(s).loaded && Load(s).lock.None? && Load(s).threads == s.threads
    ensures Load(s).cursor == s.Head()
  {
    hide Wrap, Grow;
  }

  lemma EnterNextKeeps(c: Config, s: State, a: Action)
    requires c.Valid() && Inv(c, s) && Enabled(c, s, a) && Benign(c, s, a) && a.EnterNext?
    ensures Inv(c, Apply(c, s, a))
  {
    hide Wrap, Grow;
    LoadKeeps(c, s);
    assert s.threads[a.t].InNext();
    EnterLoaded(c, Load(s), a.t, s.threads[a.t].n);
  }

  lemma EnterLoaded(c: Config, s: State, t: nat, n: int)
    requires c.Valid() && Inv(c, s) && s.loaded && Waiting(s, t) && s.threads[t] == NextStart(n)
    requires s.cursor + n - 1 <= MAX
    ensures Inv(c, Enter(c, s, t, n))
  {
    hide Wrap, Grow, Contiguous;
    WrapTwice(s.cursor + n, -1);
  }

  lemma ParkKeeps(c: Config, s: State, a: Action)
    requires c.Valid() && Inv(c, s) && Enabled(c, s, a) && Benign(c, s, a) && a.Park?
    ensures Inv(c, Apply(c, s, a))
  {
    hide Wrap, Grow, Contiguous;
  }

  lemma ReacquireKeeps(c: Config, s: State, a: Action)
    requires c.Valid() && Inv(c, s) && Enabled(c, s, a) && Benign(c, s, a) && a.Reacquire?
    ensures Inv(c, Apply(c, s, a))
  {
    hide Wrap, Grow, Contiguous;
  }

  /** The numbers of an inline reservation: the shortage, the growth, and the new end, none wrapped. */
  lemma InlineNumbers(c: Config, s: State, t: nat)
    requires c.Valid() && Inv(c, s)
    requires Running(s, t) && !s.reserving && Short(s, s.threads[t]) && NoWrap(c, s, InlineWrite(t, Done))
    ensures var n, w := s.threads[t].n, s.reservedEnd - s.cursor;
            var grow := Grow(c.segmentSize, Wrap(n - s.Remaining()));
            && n - w <= grow < n - w + c.segmentSize
            && 0 <= w < n && Wrap(s.reservedEnd + grow) == s.reservedEnd + grow
            && s.mark.mem == s.reservedEnd
  {
    hide Wrap, Grow;
    var n, w := s.threads[t].n, s.reservedEnd - s.cursor;
    assert s.threads[t].InNext();
    assert s.Remaining() == w;
    GrowCovers(c.segmentSize, n - w);
  }

  lemma InlineWriteKeeps(c: Config, s: State, a: Action)
    requires c.Valid() && Inv(c, s) && Enabled(c, s, a) && Benign(c, s, a) && a.InlineWrite?
    ensures Inv(c, Apply(c, s, a))
  {
    hide Wrap, Grow;
    InlineNumbers(c, s, a.t);
    InlineWriteThreads(c, s, a);
  }

  lemma InlineWriteThreads(c: Config, s: State, a: Action)
    requires c.Valid() && Inv(c, s) && Enabled(c, s, a) && a.InlineWrite?
    ensures Threads(c, Apply(c, s, a))
  {
    hide Wrap, Grow, Contiguous;
  }

  lemma InlineExtendKeeps(c: Config, s: State, a: Action)
    requires c.Valid() && Inv(c, s) && Enabled(c, s, a) && Benign(c, s, a) && a.InlineExtend?
    ensures Inv(c, Apply(c, s, a))
  {
    hide Wrap, Grow, Contiguous;
  }

  lemma TakeKeeps(c: Config, s: State, a: Action)
    requires c.Valid() && Inv(c, s) && Enabled(c, s, a) && Benign(c, s, a) && a.Take?
    ensures Inv(c, Apply(c, s, a))
  {
    hide Wrap, Grow;
    TakeThreads(c, s, a);
  }

  lemma TakeThreads(c: Config, s: State, a: Action)
    requires c.Valid() && Inv(c, s) && Enabled(c, s, a) && a.Take?
    ensures Threads(c, Apply(c, s, a))
  {
    hide Wrap, Grow, Contiguous;
  }

  lemma CallResetKeeps(c: Config, s: State, a: Action)
    requires c.Valid() && Inv(c, s) && Enabled(c, s, a) && Benign(c, s, a) && a.CallReset?
    ensures Inv(c, Apply(c, s, a))
  {
    hide Wrap, Grow, Contiguous;
  }

  lemma EnterResetKeeps(c: Config, s: State, a: Action)
    requires c.Valid() && Inv(c, s) && Enabled(c, s, a) && Benign(c, s, a) && a.EnterReset?
    ensures Inv(c, Apply(c, s, a))
  {
    hide Wrap, Grow;
    LoadKeeps(c, s);
  }

  lemma RefuseResetKeeps(c: Config, s: State, a: Action)
    requires c.Valid() && Inv(c, s) && Enabled(c, s, a) && Benign(c, s, a) && a.RefuseReset?
    ensures Inv(c, Apply(c, s, a))
  {
    hide Wrap, Grow, Contiguous;
  }

  lemma ResetWriteKeeps(c: Config, s: State, a: Action)
    requires c.Valid() && Inv(c, s) && Enabled(c, s, a) && Benign(c, s, a) && a.ResetWrite?
    ensures Inv(c, Apply(c, s, a))
  {
    hide Wrap, Grow;
    ResetWriteThreads(c, s, a);
  }

  lemma ResetWriteThreads(c: Config, s: State, a: Action)
    requires c.Valid() && Inv(c, s) && Enabled(c, s, a) && a.ResetWrite?
    ensures Threads(c, Apply(c, s, a))
  {
    hide Wrap, Grow, Contiguous;
  }

  lemma ResetApplyKeeps(c: Config, s: State, a: Action)
    requires c.Valid() && Inv(c, s) && Enabled(c, s, a) && Benign(c, s, a) && a.ResetApply?
    ensures Inv(c, Apply(c, s, a))
  {
    hide Wrap, Grow;
  }

  lemma RefillWriteKeeps(c: Config, s: State, a: Action)
    requires c.Valid() && Inv(c, s) && Enabled(c, s, a) && Benign(c, s, a) && a.RefillWrite?
    ensures Inv(c, Apply(c, s, a))
  {
    hide Wrap, Grow, Contiguous;
  }

  lemma RefillFinishKeeps(c: Config, s: State, a: Action)
    requires c.Valid() && Inv(c, s) && Enabled(c, s, a) && Benign(c, s, a) && a.RefillFinish?
    ensures Inv(c, Apply(c, s, a))
  {
    hide Wrap, Grow, Contiguous;
  }

  lemma OtherFlushKeeps(c: Config, s: State, a: Action)
    requires c.Valid() && Inv(c, s) && Enabled(c, s, a) && Benign(c, s, a) && a.OtherFlush?
    ensures Inv(c, Apply(c, s, a))
  {
    hide Wrap, Grow, Contiguous;
  }

  lemma CrashKeeps(c: Config, s: State, a: Action)
    requires c.Valid() && Inv(c, s) && Enabled(c, s, a) && Benign(c, s, a) && a.Crash?
    ensures Inv(c, Apply(c, s, a))
  {
    hide Wrap, Grow, Contiguous;
  }

  lemma BootKeeps(c: Config, s: State, a: Action)
    requires c.Valid() && Inv(c, s) && Enabled(c, s, a) && Benign(c, s, a) && a.Boot?
    ensures Inv(c, Apply(c, s, a))
  {
    hide Wrap, Grow, Contiguous;
  }

  lemma OfflineResetKeeps(c: Config, s: State, a: Action)
    requires c.Valid() && Inv(c, s) && Enabled(c, s, a) && Benign(c, s, a) && a.OfflineReset?
    ensures Inv(c, Apply(c, s, a))
  {
    hide Wrap, Grow, Contiguous;
  }

}
