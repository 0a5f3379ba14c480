/**
 What the sequential allocator and the concurrent protocol share: the size of a reservation and
 the effect of a durable write, which may fail before or after the new file took its place.
 */
module Reservation {
  import opened Int64

  /** How one flush of the state file ends. FailedAfter is an error reported after the rename. */
  datatype Outcome = Done | FailedBefore | FailedAfter

  /** The wrapped value of `(short + segmentSize - 1) / segmentSize * segmentSize`. */
  function Grow(segmentSize: int, short: int): int
    requires segmentSize >= 1
  {
    Wrap(Quot(Wrap(Wrap(short + segmentSize) - 1), segmentSize) * segmentSize)
  }

  /** A growth is the least multiple of the segment size that covers the shortage. */
  lemma GrowCovers(segmentSize: int, short: int)
    requires segmentSize >= 1 && short >= 1 && short + segmentSize - 1 <= MAX
    ensures short <= Grow(segmentSize, short) < short + segmentSize
    ensures Grow(segmentSize, short) % segmentSize == 0
  {
    hide Wrap;
    WrapTwice(short + segmentSize, -1);
    var a := short + segmentSize - 1;
    var q := a / segmentSize;
    assert Wrap(Wrap(short + segmentSize) - 1) == a;
    RoundDown(a, segmentSize);
  }

  /** A shortage of at most one segment grows the window by one. */
  lemma GrowOneSegment(segmentSize: int, short: int)
    requires 1 <= short <= segmentSize && short + segmentSize - 1 <= MAX
    ensures Grow(segmentSize, short) == segmentSize
  {
    hide Wrap;
    WrapTwice(short + segmentSize, -1);
    QuotientUnique(short + segmentSize - 1, segmentSize, 1, short - 1);
  }

  lemma RoundDown(a: nat, n: int)
    requires n >= 1
    ensures a - n < a / n * n <= a && (a / n * n) % n == 0
  {
    var q := a / n;
    assert a == q * n + a % n;
    QuotientUnique(q * n, n, q, 0);
  }

  /** One mark: as the store holds it in memory and as the file holds it. */
  datatype Mark = Mark(mem: int, disk: int)

  /** Store.RaiseMark: a target at or below the mark is accepted without a write. */
  function Raise(m: Mark, iter: int, o: Outcome): (bool, Mark) {
    if iter <= m.mem then (true, m) else Write(m, iter, o)
  }

  /** Setting the mark and flushing; memory is rolled back on every error. */
  function Write(m: Mark, iter: int, o: Outcome): (bool, Mark) {
    match o
    case Done => (true, Mark(iter, iter))
    case FailedBefore => (false, m)
    case FailedAfter => (false, m.(disk := iter))
  }
}
