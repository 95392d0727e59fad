/**
 The streak analyzer (`Database.get_streak`): the longest run of consecutive
 checked-off deadlines, scanning the habit's deadlines in stored order.
 */
module Streaks {
  import opened Deadline

  /** Deadlines `lo` up to (not including) `hi` are all checked off. */
  predicate IsRun(s: seq<Interval>, lo: int, hi: int) {
    && 0 <= lo <= hi <= |s|
    && forall k :: lo <= k < hi ==> s[k].checkedOff
  }

  /** The `n` deadlines from `lo` on are all checked off. */
  predicate RunAt(s: seq<Interval>, lo: int, n: nat) {
    IsRun(s, lo, lo + n)
  }

  /** `n` is the length of the longest run of checked-off deadlines. */
  ghost predicate IsLongestRun(s: seq<Interval>, n: nat) {
    && (exists lo :: RunAt(s, lo, n))
    && forall lo, hi :: IsRun(s, lo, hi) ==> hi - lo <= n
  }

  function Max(a: nat, b: nat): nat {
    if a < b then b else a
  }

  /** The running count of the scan once it has passed all of `s`: the number
      of checked-off deadlines at the end of `s`. */
  function TrailingRun(s: seq<Interval>): (r: nat)
    ensures r <= |s|
    ensures IsRun(s, |s| - r, |s|)
    ensures r < |s| ==> !s[|s| - 1 - r].checkedOff
  {
    if |s| == 0 || !s[|s| - 1].checkedOff then 0 else TrailingRun(s[..|s| - 1]) + 1
  }

  /** The maximum the scan has recorded once it has passed all of `s`. */
  function Streak(s: seq<Interval>): (r: nat)
    ensures r <= |s|
  {
    if |s| == 0 then 0 else Max(Streak(s[..|s| - 1]), TrailingRun(s))
  }

  /** The streak is the longest run of consecutive checked-off deadlines. */
  lemma {:induction false} StreakIsLongestRun(s: seq<Interval>)
    ensures IsLongestRun(s, Streak(s))
  {
    if |s| == 0 {
      assert RunAt(s, 0, 0);
    } else {
      var p := s[..|s| - 1];
      StreakIsLongestRun(p);
      var r := TrailingRun(s);
      if Streak(p) < r {
        assert RunAt(s, |s| - r, r);
      } else {
        var lo :| RunAt(p, lo, Streak(p));
        assert RunAt(s, lo, Streak(p));
      }
      forall lo, hi | IsRun(s, lo, hi)
        ensures hi - lo <= Streak(s)
      {
        if hi < |s| {
          assert IsRun(p, lo, hi);
        }
      }
    }
  }

  /** The source loop: a running count reset by every deadline not checked
      off, and the maximum it ever reached. */
  method GetStreak(s: seq<Interval>) returns (maxStreak: nat)
    ensures IsLongestRun(s, maxStreak)
  {
    maxStreak := 0;
    var running: nat := 0;
    for k := 0 to |s|
      invariant running == TrailingRun(s[..k])
      invariant maxStreak == Streak(s[..k])
    {
      assert s[..k + 1][..k] == s[..k];
      if s[k].checkedOff {
        running := running + 1;
        maxStreak := if maxStreak < running then running else maxStreak;
      } else {
        running := 0;
      }
    }
    assert s[..|s|] == s;
    StreakIsLongestRun(s);
  }

  /** The streak is 0 exactly when no deadline is checked off. */
  lemma StreakZeroIffNoneChecked(s: seq<Interval>)
    ensures Streak(s) == 0 <==> forall k :: 0 <= k < |s| ==> !s[k].checkedOff
  {
    StreakIsLongestRun(s);
    if exists k :: 0 <= k < |s| && s[k].checkedOff {
      var k :| 0 <= k < |s| && s[k].checkedOff;
      assert IsRun(s, k, k + 1);
    }
  }

  /** When every deadline is checked off, the streak is their number. */
  lemma {:induction false} StreakOfAllChecked(s: seq<Interval>)
    requires forall k :: 0 <= k < |s| ==> s[k].checkedOff
    ensures Streak(s) == |s|
  {
    StreakIsLongestRun(s);
    assert IsRun(s, 0, |s|);
  }

  /** A deadline not checked off resets the running count and keeps the maximum. */
  lemma UncheckedResets(s: seq<Interval>, iv: Interval)
    requires !iv.checkedOff
    ensures TrailingRun(s + [iv]) == 0
    ensures Streak(s + [iv]) == Streak(s)
  {
    assert (s + [iv])[..|s|] == s;
  }

  /** A checked-off deadline extends the running count by one, and the longest
      run afterwards is the old longest run or the extended trailing run,
      whichever is longer. */
  lemma {:induction false} CheckedExtends(s: seq<Interval>, iv: Interval)
    requires iv.checkedOff
    ensures TrailingRun(s + [iv]) == TrailingRun(s) + 1
    ensures IsLongestRun(s + [iv], Max(Streak(s), TrailingRun(s) + 1))
  {
    assert (s + [iv])[..|s|] == s;
    StreakIsLongestRun(s + [iv]);
  }

  /** Appending a checked-off deadline to fully checked-off deadlines raises
      the streak by exactly one. */
  lemma {:induction false} AppendToFullStreak(s: seq<Interval>, iv: Interval)
    requires forall k :: 0 <= k < |s| ==> s[k].checkedOff
    requires iv.checkedOff
    ensures Streak(s + [iv]) == Streak(s) + 1
  {
    StreakOfAllChecked(s);
    StreakOfAllChecked(s + [iv]);
  }

  /** More deadlines never lower the streak. */
  lemma {:induction false} StreakMonotone(s: seq<Interval>, more: seq<Interval>)
    ensures Streak(s) <= Streak(s + more)
  {
    StreakIsLongestRun(s);
    StreakIsLongestRun(s + more);
    var lo :| RunAt(s, lo, Streak(s));
    assert IsRun(s + more, lo, lo + Streak(s));
  }
}
