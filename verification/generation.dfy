/**
 Schedule generation (`Database.insert_habit`): a habit that starts at `start`
 and repeats every `period` days for `duration` days is given
 `duration // period + 1` back-to-back deadlines, the `i`-th spanning
 `[start + i*period days, start + (i+1)*period days]`, all of them pending.
 */
module Generation {
  import opened Deadline

  /** Each deadline ends where the next one begins. */
  predicate Contiguous(s: seq<Interval>) {
    forall i :: 0 < i < |s| ==> s[i - 1].to == s[i].from
  }

  /** No deadline ends after a later one begins: the deadlines are in time order
      and overlap at most in a shared boundary instant. */
  predicate Ordered(s: seq<Interval>) {
    forall i, j :: 0 <= i < j < |s| ==> s[i].to <= s[j].from
  }

  /** How many deadlines `range(duration // period + 1)` produces: none for a
      negative duration, otherwise the least count whose periods together
      reach past the duration. */
  function IntervalCount(period: int, duration: int): (n: nat)
    requires period > 0
    ensures n > 0 <==> duration >= 0
    ensures n > 0 ==> (n - 1) * period <= duration < n * period
  {
    var q := duration / period;
    assert q * period <= duration < (q + 1) * period;
    if q >= 0 then
      q + 1
    else
      assert (q + 1) * period <= 0 by { NonPositiveProduct(q + 1, period); }
      0
  }

  /** The `i`-th deadline of a habit, as inserted. */
  function Slot(start: int, period: int, i: int): Interval {
    Interval(start + Days(i * period), start + Days((i + 1) * period), false, None)
  }

  /** Every deadline is one period long. */
  lemma SlotLength(start: int, period: int, i: int)
    ensures Slot(start, period, i).to == Slot(start, period, i).from + Days(period)
  {
    assert (i + 1) * period == i * period + period;
  }

  /** An earlier deadline ends no later than a later one starts. */
  lemma SlotOrder(start: int, period: int, i: int, j: int)
    requires i < j && period > 0
    ensures Slot(start, period, i).to <= Slot(start, period, j).from
  {
    MulMonotone(i + 1, j, period);
  }

  /** All deadlines of a new habit, or `InvalidConfiguration` when the period
      is not positive (the count divides by it). */
  function Generate(start: int, period: int, duration: int): (r: Result<seq<Interval>>)
    ensures r.Failure? <==> period <= 0
    ensures r.Failure? ==> r.error == InvalidConfiguration
    ensures r.Success? ==> |r.value| == IntervalCount(period, duration)
    ensures r.Success? ==> forall i :: 0 <= i < |r.value| ==> Pending(r.value[i])
    ensures r.Success? ==> forall i :: 0 <= i < |r.value| ==> r.value[i].to == r.value[i].from + Days(period)
    ensures r.Success? ==> Contiguous(r.value) && Ordered(r.value)
    ensures r.Success? && |r.value| > 0 ==> r.value[0].from == start
    ensures r.Success? && |r.value| > 0 ==> r.value[|r.value| - 1].to > start + Days(duration)
  {
    if period <= 0 then
      Failure(InvalidConfiguration)
    else
      var n := IntervalCount(period, duration);
      var s := seq(n, i requires 0 <= i < n => Slot(start, period, i));
      SlotsShape(start, period, duration, s);
      Success(s)
  }

  /** The facts `Generate` promises about its slots. */
  lemma SlotsShape(start: int, period: int, duration: int, s: seq<Interval>)
    requires period > 0
    requires |s| == IntervalCount(period, duration)
    requires forall i :: 0 <= i < |s| ==> s[i] == Slot(start, period, i)
    ensures forall i :: 0 <= i < |s| ==> Pending(s[i])
    ensures forall i :: 0 <= i < |s| ==> s[i].to == s[i].from + Days(period)
    ensures Contiguous(s) && Ordered(s)
    ensures |s| > 0 ==> s[0].from == start
    ensures |s| > 0 ==> s[|s| - 1].to > start + Days(duration)
  {
    var n := |s|;
    forall i | 0 <= i < n
      ensures s[i].to == s[i].from + Days(period)
    {
      SlotLength(start, period, i);
    }
    forall i, j | 0 <= i < j < n
      ensures s[i].to <= s[j].from
    {
      SlotOrder(start, period, i, j);
    }
    forall i | 0 < i < n
      ensures s[i - 1].to == s[i].from
    {
      assert (i - 1) + 1 == i;
    }
  }

  /** `s` is the schedule of a habit: the right number of pending deadlines of
      `period` days each, back to back from `start`. */
  predicate IsSchedule(s: seq<Interval>, start: int, period: int, duration: int)
    requires period > 0
  {
    && |s| == IntervalCount(period, duration)
    && (|s| > 0 ==> s[0].from == start)
    && Contiguous(s)
    && forall i :: 0 <= i < |s| ==> s[i].to == s[i].from + Days(period) && Pending(s[i])
  }

  /** Generation produces exactly the schedule, and the schedule is unique:
      any sequence with the schedule's shape is the generated one. */
  lemma {:induction false} GenerateIsTheSchedule(start: int, period: int, duration: int, s: seq<Interval>)
    requires period > 0
    ensures Generate(start, period, duration) == Success(s) <==> IsSchedule(s, start, period, duration)
  {
    var g := Generate(start, period, duration).value;
    if IsSchedule(s, start, period, duration) {
      forall i | 0 <= i < |s|
        ensures s[i] == g[i]
      {
        ScheduleStart(s, start, period, duration, i);
        assert (i + 1) * period == i * period + period;
      }
      assert s == g;
    }
  }

  /** In a schedule the `k`-th deadline starts `k` periods after `start`. */
  lemma {:induction false} ScheduleStart(s: seq<Interval>, start: int, period: int, duration: int, k: nat)
    requires period > 0
    requires IsSchedule(s, start, period, duration)
    requires k < |s|
    ensures s[k].from == start + Days(k * period)
  {
    if k > 0 {
      ScheduleStart(s, start, period, duration, k - 1);
      assert k * period == (k - 1) * period + period;
    }
  }
}
