/**
 Check-off resolution (`Database.check_off_habit`): the deadlines of a habit
 are scanned in stored order, the first one containing the instant (both ends
 included) is marked checked off with that instant as its completion, and an
 instant no deadline contains is reported as `NoMatchingInterval`.
 */
module Resolution {
  import opened Deadline
  import opened Generation

  /** Deadline `i` is the one the scan stops at for instant `t`: it contains
      `t` and no earlier deadline does. */
  predicate SelectedBy(s: seq<Interval>, t: int, i: int) {
    && 0 <= i < |s|
    && Contains(s[i], t)
    && forall j :: 0 <= j < i ==> !Contains(s[j], t)
  }

  /** The index the scan breaks at, if any. */
  function FirstMatch(s: seq<Interval>, t: int): (r: Option<nat>)
    ensures r.Some? ==> SelectedBy(s, t, r.value)
    ensures r.None? <==> forall j :: 0 <= j < |s| ==> !Contains(s[j], t)
    decreases |s|
  {
    if |s| == 0 then
      None
    else if Contains(s[0], t) then
      Some(0)
    else
      match FirstMatch(s[1..], t)
      case None => None
      case Some(k) => Some(k + 1)
  }

  /** Check off the deadline containing `t`: the updated deadlines, or
      `NoMatchingInterval` when none contains `t` (an empty habit included). */
  function CheckOff(s: seq<Interval>, t: int): (r: Result<seq<Interval>>)
    ensures r.Failure? <==> forall j :: 0 <= j < |s| ==> !Contains(s[j], t)
    ensures r.Failure? ==> r.error == NoMatchingInterval
    ensures r.Success? ==> |r.value| == |s|
    ensures r.Success? ==> exists i :: SelectedBy(s, t, i) && r.value[i] == Completed(s[i], t)
                                        && forall j :: 0 <= j < |s| && j != i ==> r.value[j] == s[j]
  {
    match FirstMatch(s, t)
    case None => Failure(NoMatchingInterval)
    case Some(i) => Success(s[i := Completed(s[i], t)])
  }

  /** Only the check-off state changes: every deadline keeps its span, so the
      schedule's shape survives any number of check-offs. */
  lemma CheckOffKeepsSpans(s: seq<Interval>, t: int)
    requires CheckOff(s, t).Success?
    ensures forall j :: 0 <= j < |s| ==> SameSpan(CheckOff(s, t).value[j], s[j])
    ensures Contiguous(s) ==> Contiguous(CheckOff(s, t).value)
    ensures Ordered(s) ==> Ordered(CheckOff(s, t).value)
  {
  }

  /** Which deadline an instant selects depends on the spans alone. */
  lemma {:induction false} FirstMatchBySpans(s: seq<Interval>, s': seq<Interval>, t: int)
    requires |s| == |s'|
    requires forall j :: 0 <= j < |s| ==> SameSpan(s[j], s'[j])
    ensures FirstMatch(s, t) == FirstMatch(s', t)
    decreases |s|
  {
    if |s| > 0 {
      FirstMatchBySpans(s[1..], s'[1..], t);
    }
  }

  /** Checking off a deadline again only overwrites its completion instant:
      the result is as if the later check-off had been the only one. */
  lemma RecheckOverwrites(s: seq<Interval>, t1: int, t2: int, i: int)
    requires SelectedBy(s, t1, i) && SelectedBy(s, t2, i)
    ensures CheckOff(s, t1).Success?
    ensures CheckOff(CheckOff(s, t1).value, t2) == CheckOff(s, t2)
  {
    var s1 := CheckOff(s, t1).value;
    FirstMatchBySpans(s, s1, t2);
    assert s1[i := Completed(s1[i], t2)] == s[i := Completed(s[i], t2)];
  }

  /** An instant on the boundary two adjacent deadlines share resolves to the
      earlier of them. */
  lemma BoundaryResolvesEarlier(s: seq<Interval>, i: nat)
    requires 0 < i < |s| && Contiguous(s)
    requires s[i - 1].from <= s[i - 1].to
    ensures FirstMatch(s, s[i].from).Some?
    ensures FirstMatch(s, s[i].from).value < i
  {
    assert Contains(s[i - 1], s[i].from);
  }

  /** Deadline `i` spans `[start + i*step, start + (i+1)*step]`. */
  predicate Stepped(s: seq<Interval>, start: int, step: int) {
    forall i :: 0 <= i < |s| ==> s[i].from == start + i * step && s[i].to == start + (i + 1) * step
  }

  /** Generated deadlines are evenly stepped by the period in microseconds. */
  lemma GeneratedIsStepped(start: int, period: int, duration: int)
    requires period > 0
    ensures Stepped(Generate(start, period, duration).value, start, Days(period))
  {
    var s := Generate(start, period, duration).value;
    forall i | 0 <= i < |s|
      ensures s[i].from == start + i * Days(period) && s[i].to == start + (i + 1) * Days(period)
    {
      assert s[i] == Slot(start, period, i);
    }
  }

  /** Before the first start or after the last end nothing matches. */
  lemma SteppedOutside(s: seq<Interval>, start: int, step: int, t: int)
    requires step > 0 && Stepped(s, start, step)
    requires t < start || t > start + |s| * step
    ensures forall j :: 0 <= j < |s| ==> !Contains(s[j], t)
  {
    forall j | 0 <= j < |s|
      ensures !Contains(s[j], t)
    {
      if t < start {
        MulMonotone(0, j, step);
      } else {
        MulMonotone(j + 1, |s|, step);
      }
    }
  }

  /** Strictly after the first start and up to the last end, the scan stops at
      deadline `(t - start - 1) / step`. */
  lemma SteppedInside(s: seq<Interval>, start: int, step: int, t: int)
    requires step > 0 && Stepped(s, start, step)
    requires start < t <= start + |s| * step
    ensures SelectedBy(s, t, (t - start - 1) / step)
  {
    var n := |s|;
    var x := t - start - 1;
    var q := x / step;
    assert q * step <= x < (q + 1) * step;
    assert q < n by {
      if q >= n {
        MulMonotone(n, q, step);
      }
    }
    assert 0 <= q by {
      if q < 0 {
        MulMonotone(q + 1, 0, step);
      }
    }
    assert Contains(s[q], t);
    forall j | 0 <= j < q
      ensures !Contains(s[j], t)
    {
      MulMonotone(j + 1, q, step);
    }
  }

  /** In a generated schedule the instant `t` selects a deadline exactly when it
      lies between the schedule's first start and last end, and then it selects
      deadline `(t - start - 1) / period` (with the period counted in microseconds),
      except that `start` itself selects the first one. So an instant on a
      shared boundary goes to the earlier deadline. */
  lemma ResolveInSchedule(start: int, period: int, duration: int, t: int)
    requires period > 0
    ensures var s := Generate(start, period, duration).value;
            FirstMatch(s, t).Some? <==> |s| > 0 && start <= t <= start + |s| * Days(period)
    ensures var s := Generate(start, period, duration).value;
            start < t <= start + |s| * Days(period) ==>
              FirstMatch(s, t) == Some((t - start - 1) / Days(period))
    ensures var s := Generate(start, period, duration).value;
            |s| > 0 && t == start ==> FirstMatch(s, t) == Some(0)
  {
    var s := Generate(start, period, duration).value;
    GeneratedIsStepped(start, period, duration);
    if start < t <= start + |s| * Days(period) {
      SteppedInside(s, start, Days(period), t);
    } else if t < start || t > start + |s| * Days(period) {
      SteppedOutside(s, start, Days(period), t);
    } else if |s| > 0 {
      assert Contains(s[0], t);
    }
  }
}
