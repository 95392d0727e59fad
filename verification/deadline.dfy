/**
 The data model of the habit tracker's deadline engine: one scheduled deadline
 (a row of the `deadlines` table), the failures the engine reports, and the
 time unit. Instants are whole microseconds on one integer time line, the
 resolution of `datetime.now()`; a calendar day is a fixed 86400 seconds, which
 is what `timedelta(days = k)` adds.
 */
module Deadline {

  /** The length of `k` seconds on the time line (10^6 microseconds each). */
  function Seconds(k: int): int {
    k * 1_000_000
  }

  /** The length of `k` days on the time line: `timedelta(days = k)`, 86400
      seconds a day. */
  function Days(k: int): int {
    k * 86_400_000_000
  }

  datatype Option<+T> = None | Some(value: T)

  /** Why an operation of the engine refused to act. */
  datatype Error =
    | InvalidConfiguration   // a habit whose period is not positive
    | NoMatchingInterval     // a check-off instant that no deadline contains

  datatype Result<+T> = Success(value: T) | Failure(error: Error)

  /** One deadline of a habit: the closed span `[from, to]`, whether it was
      checked off, and the instant it was checked off at, if it was. */
  datatype Interval = Interval(from: int, to: int, checkedOff: bool, completion: Option<int>)

  /** `t` lies in the deadline, both ends included. */
  predicate Contains(iv: Interval, t: int) {
    iv.from <= t <= iv.to
  }

  /** The state of a deadline as it is inserted: not checked off, no completion instant. */
  predicate Pending(iv: Interval) {
    !iv.checkedOff && iv.completion == None
  }

  /** The deadline after it was checked off at `t`. */
  function Completed(iv: Interval, t: int): Interval {
    iv.(checkedOff := true, completion := Some(t))
  }

  /** Both deadlines cover the same span; their check-off state may differ. */
  predicate SameSpan(a: Interval, b: Interval) {
    a.from == b.from && a.to == b.to
  }

  /** A non-positive number times a positive one is non-positive. */
  lemma NonPositiveProduct(a: int, b: int)
    requires a <= 0 < b
    ensures a * b <= 0
  {
  }

  /** Multiplying by a positive number keeps the order. */
  lemma MulMonotone(a: int, b: int, c: int)
    requires a <= b && c > 0
    ensures a * c <= b * c
  {
  }
}
