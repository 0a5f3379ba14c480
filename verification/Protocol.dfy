/**
 One entity of internal/allocator as a concurrent, crashing protocol: any number of threads in
 Next and Reset, the condition variable, the background refill, the store and its file. A step
 is what one thread does between two points at which another thread, or a crash, can get in.
 */
module Protocol {
  import opened Wrappers
  import opened Int64
  import opened Reservation

  datatype Config = Config(segmentSize: int, threshold: int, maxIter: int) {
    predicate Valid() {
      1 <= threshold <= segmentSize <= MAX && -1 <= maxIter <= MAX
    }
  }

  /** n consecutive iterations starting at first. */
  datatype Range = Range(first: int, n: int) {
    function End(): int { first + n }
    predicate Has(x: int) { first <= x < first + n }
  }

  /**
   Where a call is. `checked` is the cursor against which allocator.go:103 tested exhaustion, `parked`
   whether the call has waited since. The Loop and Wrote states hold the entity lock.
   */
  datatype Pc =
    | NextStart(n: int)
    | NextLoop(n: int, checked: int, parked: bool)
    | NextWrote(n: int, checked: int, parked: bool, grow: int)
    | NextParked(n: int, checked: int)
    | NextWoken(n: int, checked: int)
    | ResetStart(target: int, force: bool)
    | ResetLoop(target: int, force: bool)
    | ResetWrote(target: int, force: bool)
    | ResetParked(target: int, force: bool)
    | ResetWoken(target: int, force: bool)
  {
    predicate Holds() { NextLoop? || NextWrote? || ResetLoop? || ResetWrote? }
    predicate Parked() { NextParked? || ResetParked? }
    predicate InNext() { NextStart? || NextLoop? || NextWrote? || NextParked? || NextWoken? }
    function Woken(): Pc {
      match this
      case NextParked(n, checked) => NextWoken(n, checked)
      case ResetParked(target, force) => ResetWoken(target, force)
      case _ => this
    }
  }

  /** A refill goroutine: about to write, or written and waiting for the entity lock. */
  datatype Refill = Writing(from: int) | Wrote(from: int, ok: bool)

  /**
   Program state, and three histories that the program does not keep: `hist`, every range handed
   out since the last forced backward move, across crashes; `log`, those since the entity was
   loaded or reset, which began at `base`; `floor`, the last accepted reset or start value.
   */
  datatype State = State(
    up: bool,
    mark: Mark,
    loaded: bool,
    loadMark: int,
    cursor: int,
    reservedEnd: int,
    reserving: bool,
    lock: Option<nat>,
    threads: map<nat, Pc>,
    refills: map<nat, Refill>,
    hist: seq<Range>,
    log: seq<Range>,
    base: int,
    floor: int)
  {
    /** The iteration the entity hands out next: the cursor, or the mark while not loaded. */
    function Head(): int {
      if !up then mark.disk else if loaded then cursor else mark.mem
    }

    function Remaining(): int {
      Wrap(reservedEnd - cursor)
    }

    /** The thread that holds the lock is at pc. */
    predicate At(t: nat, pc: Pc) {
      lock == Some(t) && t in threads && threads[t] == pc
    }
  }

  /** A registered entity, not yet used, whose start iteration is `start`. */
  function Fresh(start: int): State {
    State(true, Mark(start, start), false, 0, 0, 0, false, None, map[], map[], [], [], start, start)
  }

  datatype Action =
    | CallNext(t: nat, n: int)
    | EnterNext(t: nat)
    | Park(t: nat)
    | Reacquire(t: nat)
    | InlineWrite(t: nat, o: Outcome)
    | InlineExtend(t: nat)
    | Take(t: nat, r: nat)
    | CallReset(t: nat, target: int, force: bool)
    | EnterReset(t: nat)
    | RefuseReset(t: nat)
    | ResetWrite(t: nat, o: Outcome)
    | ResetApply(t: nat)
    | RefillWrite(r: nat, o: Outcome)
    | RefillFinish(r: nat)
    | OtherFlush
    | Crash
    | Boot
    | OfflineReset(target: int, force: bool, o: Outcome)

  // ----- which steps are possible -----

  predicate Waiting(s: State, t: nat) {
    s.up && t in s.threads && s.lock.None?
  }

  predicate Running(s: State, t: nat) {
    s.up && s.lock == Some(t) && t in s.threads
  }

  predicate Short(s: State, pc: Pc) {
    pc.NextLoop? && s.Remaining() < pc.n
  }

  /** Whether a reset to target goes ahead from the given counter position. */
  predicate Accepts(position: int, target: int, force: bool) {
    target >= position || force
  }

  predicate Enabled(c: Config, s: State, a: Action) {
    match a
    case CallNext(t, n) => s.up && t !in s.threads && 1 <= n <= MAX
    case EnterNext(t) => Waiting(s, t) && s.threads[t].NextStart?
    case Park(t) => Running(s, t) && s.reserving && (Short(s, s.threads[t]) || s.threads[t].ResetLoop?)
    case Reacquire(t) => Waiting(s, t) && (s.threads[t].NextWoken? || s.threads[t].ResetWoken?)
    case InlineWrite(t, _) => Running(s, t) && !s.reserving && Short(s, s.threads[t])
    case InlineExtend(t) => Running(s, t) && s.threads[t].NextWrote?
    case Take(t, r) => Running(s, t) && s.threads[t].NextLoop? && !Short(s, s.threads[t]) && r !in s.refills
    case CallReset(t, target, _) => s.up && t !in s.threads && 0 <= target <= MAX
    case EnterReset(t) => Waiting(s, t) && s.threads[t].ResetStart?
    case RefuseReset(t) =>
      && Running(s, t) && s.threads[t].ResetLoop? && !s.reserving
      && !Accepts(s.cursor, s.threads[t].target, s.threads[t].force)
    case ResetWrite(t, _) =>
      && Running(s, t) && s.threads[t].ResetLoop? && !s.reserving
      && Accepts(s.cursor, s.threads[t].target, s.threads[t].force)
    case ResetApply(t) => Running(s, t) && s.threads[t].ResetWrote?
    case RefillWrite(r, _) => s.up && r in s.refills && s.refills[r].Writing?
    case RefillFinish(r) => s.up && r in s.refills && s.refills[r].Wrote? && s.lock.None?
    case OtherFlush => s.up
    case Crash => s.up
    case Boot => !s.up
    case OfflineReset(target, force, _) => !s.up && 0 <= target <= MAX && Accepts(s.mark.disk, target, force)
  }

  // ----- what each step does -----

  /** loadLocked. */
  function Load(s: State): State {
    if s.loaded then s
    else s.(loaded := true, loadMark := s.mark.mem, cursor := s.mark.mem, reservedEnd := s.mark.mem,
            log := [], base := s.mark.mem)
  }

  function Leave(s: State, t: nat): State {
    s.(threads := s.threads - {t}, lock := None)
  }

  function Move(s: State, t: nat, pc: Pc, lock: Option<nat>): State {
    s.(threads := s.threads[t := pc], lock := lock)
  }

  function Enter(c: Config, s: State, t: nat, n: int): State {
    var l := Load(s);
    if Wrap(Wrap(l.cursor + n) - 1) > c.maxIter then Leave(l, t)
    else Move(l, t, NextLoop(n, l.cursor, false), Some(t))
  }

  function WriteInline(c: Config, s: State, t: nat, pc: Pc, o: Outcome): State
    requires c.segmentSize >= 1 && pc.NextLoop?
  {
    var grow := Grow(c.segmentSize, Wrap(pc.n - s.Remaining()));
    var (ok, mark) := Raise(s.mark, Wrap(s.reservedEnd + grow), o);
    var w := s.(mark := mark);
    if ok then Move(w, t, NextWrote(pc.n, pc.checked, pc.parked, grow), Some(t)) else Leave(w, t)
  }

  /** allocator.go:118-121, with maybeRefillLocked. */
  function TakeRange(c: Config, s: State, t: nat, n: int, r: nat): State {
    var range := Range(s.cursor, n);
    var moved := Leave(s.(cursor := Wrap(s.cursor + n), hist := s.hist + [range], log := s.log + [range]), t);
    if moved.reserving || moved.Remaining() > c.threshold then moved
    else moved.(reserving := true, refills := moved.refills[r := Writing(moved.reservedEnd)])
  }

  /** The mark was moved to target: a move below `position` starts a new uniqueness epoch. */
  function Epoch(s: State, position: int, target: int): State {
    s.(hist := if target < position then [] else s.hist, floor := target)
  }

  function WriteReset(s: State, t: nat, pc: Pc, o: Outcome): State
    requires pc.ResetLoop?
  {
    var (ok, mark) := Write(s.mark, pc.target, o);
    var w := s.(mark := mark);
    if ok then Move(Epoch(w, s.cursor, pc.target), t, ResetWrote(pc.target, pc.force), Some(t)) else Leave(w, t)
  }

  function ApplyReset(s: State, t: nat, target: int): State {
    Leave(s, t).(cursor := target, reservedEnd := target, log := [], base := target,
                 loadMark := if target < s.loadMark then target else s.loadMark)
  }

  function WriteRefill(c: Config, s: State, r: nat, from: int, o: Outcome): State {
    var (ok, mark) := Raise(s.mark, Wrap(from + c.segmentSize), o);
    s.(mark := mark, refills := s.refills[r := Wrote(from, ok)])
  }

  function FinishRefill(c: Config, s: State, r: nat, from: int, ok: bool): State {
    s.(reservedEnd := if ok then Wrap(from + c.segmentSize) else s.reservedEnd,
       reserving := false,
       refills := s.refills - {r},
       threads := map t | t in s.threads :: s.threads[t].Woken())
  }

  function Die(s: State): State {
    s.(up := false, loaded := false, reserving := false, lock := None, threads := map[], refills := map[])
  }

  function WriteOffline(s: State, target: int, o: Outcome): State {
    if o.FailedBefore? then s else Epoch(s.(mark := s.mark.(disk := target)), s.mark.disk, target)
  }

  function Apply(c: Config, s: State, a: Action): State
    requires c.Valid() && Enabled(c, s, a)
  {
    match a
    case CallNext(t, n) => s.(threads := s.threads[t := NextStart(n)])
    case EnterNext(t) => Enter(c, s, t, s.threads[t].n)
    case Park(t) =>
      var pc := s.threads[t];
      Move(s, t, if pc.NextLoop? then NextParked(pc.n, pc.checked) else ResetParked(pc.target, pc.force), None)
    case Reacquire(t) =>
      var pc := s.threads[t];
      Move(s, t, if pc.NextWoken? then NextLoop(pc.n, pc.checked, true) else ResetLoop(pc.target, pc.force), Some(t))
    case InlineWrite(t, o) => WriteInline(c, s, t, s.threads[t], o)
    case InlineExtend(t) =>
      var pc := s.threads[t];
      Move(s.(reservedEnd := Wrap(s.reservedEnd + pc.grow)), t, NextLoop(pc.n, pc.checked, pc.parked), Some(t))
    case Take(t, r) => TakeRange(c, s, t, s.threads[t].n, r)
    case CallReset(t, target, force) => s.(threads := s.threads[t := ResetStart(target, force)])
    case EnterReset(t) =>
      var pc := s.threads[t];
      Move(Load(s), t, ResetLoop(pc.target, pc.force), Some(t))
    case RefuseReset(t) => Leave(s, t)
    case ResetWrite(t, o) => WriteReset(s, t, s.threads[t], o)
    case ResetApply(t) => ApplyReset(s, t, s.threads[t].target)
    case RefillWrite(r, o) => WriteRefill(c, s, r, s.refills[r].from, o)
    case RefillFinish(r) => FinishRefill(c, s, r, s.refills[r].from, s.refills[r].ok)
    case OtherFlush => s.(mark := s.mark.(disk := s.mark.mem))
    case Crash => Die(s)
    case Boot => s.(up := true, mark := s.mark.(mem := s.mark.disk))
    case OfflineReset(target, _, o) => WriteOffline(s, target, o)
  }

  // ----- runs -----

  /** The state after a run, if every action was possible when its turn came. */
  ghost function Exec(c: Config, s: State, run: seq<Action>): Option<State>
    requires c.Valid()
  {
    if run == [] then Some(s)
    else
      var last := |run| - 1;
      match Exec(c, s, run[..last])
      case None => None
      case Some(m) => if Enabled(c, m, run[last]) then Some(Apply(c, m, run[last])) else None
  }
}
