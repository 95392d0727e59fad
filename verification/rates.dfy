/**
 The success-rate analyzer (`Database.get_success_rate`): the share of checked-off
 deadlines among those whose end or whose start lies in the trailing window
 `[now - window days, now]`, both ends included; 0 when no deadline is kept.
 */
module Rates {
  import opened Deadline

  /** The window used when none (or 0) is asked for. */
  const DefaultWindowDays: int := 30

  /** The window length in days: the requested one, unless it is absent or 0. */
  function WindowDays(requested: Option<int>): int {
    match requested
    case None => DefaultWindowDays
    case Some(d) => if d == 0 then DefaultWindowDays else d
  }

  /** The deadline's end or its start lies in `[lo, hi]`. */
  predicate Touches(iv: Interval, lo: int, hi: int) {
    (lo <= iv.to <= hi) || (lo <= iv.from <= hi)
  }

  /** The deadlines kept by the filter, in stored order. */
  function Kept(s: seq<Interval>, lo: int, hi: int): (k: seq<Interval>)
    ensures |k| <= |s|
    ensures forall i :: 0 <= i < |k| ==> Touches(k[i], lo, hi)
    ensures forall i :: 0 <= i < |s| && Touches(s[i], lo, hi) ==> s[i] in k
  {
    if |s| == 0 then []
    else Kept(s[..|s| - 1], lo, hi) + (if Touches(s[|s| - 1], lo, hi) then [s[|s| - 1]] else [])
  }

  /** How many deadlines are checked off. */
  function CheckedCount(s: seq<Interval>): (c: nat)
    ensures c <= |s|
  {
    if |s| == 0 then 0
    else CheckedCount(s[..|s| - 1]) + (if s[|s| - 1].checkedOff then 1 else 0)
  }

  /** The positions the filter keeps. */
  function KeptPositions(s: seq<Interval>, lo: int, hi: int): set<int> {
    set i | 0 <= i < |s| && Touches(s[i], lo, hi)
  }

  /** The positions the filter keeps whose deadline is checked off. */
  function KeptCheckedPositions(s: seq<Interval>, lo: int, hi: int): set<int> {
    set i | 0 <= i < |s| && Touches(s[i], lo, hi) && s[i].checkedOff
  }

  /** The filter keeps exactly the deadlines that touch the window: as many
      as there are such positions, and as many checked off among them as there
      are checked-off such positions. */
  lemma {:induction false} KeptCounts(s: seq<Interval>, lo: int, hi: int)
    ensures |Kept(s, lo, hi)| == |KeptPositions(s, lo, hi)|
    ensures CheckedCount(Kept(s, lo, hi)) == |KeptCheckedPositions(s, lo, hi)|
  {
    if |s| == 0 {
      assert KeptPositions(s, lo, hi) == {};
      assert KeptCheckedPositions(s, lo, hi) == {};
    } else {
      var p := s[..|s| - 1];
      var last := s[|s| - 1];
      KeptCounts(p, lo, hi);
      PositionsStep(s, lo, hi);
      CheckedCountAppend(Kept(p, lo, hi), if Touches(last, lo, hi) then [last] else []);
    }
  }

  /** Adding a deadline at the end adds its position to the kept sets it belongs to. */
  lemma PositionsStep(s: seq<Interval>, lo: int, hi: int)
    requires |s| > 0
    ensures var p, n := s[..|s| - 1], |s| - 1;
            KeptPositions(s, lo, hi)
              == KeptPositions(p, lo, hi) + (if Touches(s[n], lo, hi) then {n} else {})
    ensures var p, n := s[..|s| - 1], |s| - 1;
            KeptCheckedPositions(s, lo, hi)
              == KeptCheckedPositions(p, lo, hi) + (if Touches(s[n], lo, hi) && s[n].checkedOff then {n} else {})
  {
  }

  lemma {:induction false} CheckedCountAppend(a: seq<Interval>, b: seq<Interval>)
    ensures CheckedCount(a + b) == CheckedCount(a) + CheckedCount(b)
    decreases |b|
  {
    if |b| == 0 {
      assert a + b == a;
    } else {
      CheckedCountAppend(a, b[..|b| - 1]);
      assert (a + b)[..|a + b| - 1] == a + b[..|b| - 1];
      assert (a + b)[|a + b| - 1] == b[|b| - 1];
    }
  }

  /** The success rate over the last `window` days before `now`. */
  function SuccessRate(s: seq<Interval>, window: Option<int>, now: int): (r: real)
    ensures 0.0 <= r <= 1.0
    ensures r == 0.0 <==> CheckedCount(Kept(s, now - Days(WindowDays(window)), now)) == 0
    ensures r == 1.0 <==> var k := Kept(s, now - Days(WindowDays(window)), now);
                          |k| > 0 && CheckedCount(k) == |k|
  {
    var k := Kept(s, now - Days(WindowDays(window)), now);
    var checked := CheckedCount(k);
    if |k| == 0 then 0.0 else RatioBounds(checked, |k|); checked as real / |k| as real
  }

  lemma RatioBounds(c: nat, n: nat)
    requires 0 < n && c <= n
    ensures 0.0 <= c as real / n as real <= 1.0
    ensures c as real / n as real == 0.0 <==> c == 0
    ensures c as real / n as real == 1.0 <==> c == n
  {
  }

  /** The rate, stated over positions: the checked-off share of the deadlines
      whose end or start lies in the window, 0 when there are none. */
  lemma RateOverPositions(s: seq<Interval>, window: Option<int>, now: int)
    ensures var lo := now - Days(WindowDays(window));
            var total := |KeptPositions(s, lo, now)|;
            SuccessRate(s, window, now) ==
              if total == 0 then 0.0 else |KeptCheckedPositions(s, lo, now)| as real / total as real
  {
    KeptCounts(s, now - Days(WindowDays(window)), now);
  }

  /** An absent window and a window of 0 both mean the last 30 days. */
  lemma DefaultWindow(s: seq<Interval>, now: int)
    ensures SuccessRate(s, None, now) == SuccessRate(s, Some(0), now) == SuccessRate(s, Some(30), now)
  {
  }

  /** A deadline that began before the window and ends after `now` touches
      neither bound and is not counted, although it overlaps the window. */
  lemma EnclosingDeadlineIgnored(iv: Interval, lo: int, hi: int)
    requires iv.from < lo && hi < iv.to
    ensures Kept([iv], lo, hi) == []
  {
  }
}
