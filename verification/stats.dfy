/** Sums of natural-number terms over a list, and their order
    independence. */
module Sums {
  /** The sum of `f` over a list, without wrap-around. */
  function SumOf<T>(xs: seq<T>, f: T -> nat): nat
  {
    if xs == [] then 0 else SumOf(xs[..|xs| - 1], f) + f(xs[|xs| - 1])
  }

  lemma {:induction false} SumOfAppend<T>(a: seq<T>, b: seq<T>, f: T -> nat)
    ensures SumOf(a + b, f) == SumOf(a, f) + SumOf(b, f)
    decreases |b|
  {
    if b == [] {
      assert a + b == a;
    } else {
      var n := |b|;
      assert (a + b)[..|a + b| - 1] == a + b[..n - 1];
      SumOfAppend(a, b[..n - 1], f);
    }
  }

  lemma SumOfMiddle<T>(front: seq<T>, x: T, back: seq<T>, f: T -> nat)
    ensures SumOf(front + [x] + back, f) == SumOf(front + back, f) + f(x)
  {
    SumOfAppend(front + [x], back, f);
    SumOfAppend(front, [x], f);
    SumOfAppend(front, back, f);
    assert [x][..0] == [];
  }

  /** A sum does not depend on the order of its terms. */
  lemma {:induction false} SumOfPermutation<T>(a: seq<T>, b: seq<T>, f: T -> nat)
    requires multiset(a) == multiset(b)
    ensures SumOf(a, f) == SumOf(b, f)
    decreases |a|
  {
    if a == [] {
      assert |b| == |multiset(b)| == 0;
    } else {
      var x := a[0];
      assert x in multiset(b);
      var k :| 0 <= k < |b| && b[k] == x;
      var a', b' := a[1..], b[..k] + b[k + 1..];
      RemoveOne(a, b, k);
      SumOfPermutation(a', b', f);
      SumOfMiddle([], x, a', f);
      assert [] + [x] + a' == a;
      assert [] + a' == a';
      SumOfRemove(b, k, f);
    }
  }

  lemma SumOfRemove<T>(b: seq<T>, k: nat, f: T -> nat)
    requires k < |b|
    ensures SumOf(b, f) == SumOf(b[..k] + b[k + 1..], f) + f(b[k])
  {
    assert b == b[..k] + [b[k]] + b[k + 1..];
    SumOfMiddle(b[..k], b[k], b[k + 1..], f);
  }

  lemma RemoveOne<T>(a: seq<T>, b: seq<T>, k: nat)
    requires multiset(a) == multiset(b) && |a| > 0 && k < |b| && a[0] == b[k]
    ensures multiset(a[1..]) == multiset(b[..k] + b[k + 1..])
  {
    var x := a[0];
    assert a == [x] + a[1..];
    assert b == b[..k] + [x] + b[k + 1..];
    calc {
      multiset(a[1..]);
      multiset(a) - multiset{x};
      multiset(b) - multiset{x};
      { assert multiset(b) == multiset(b[..k]) + multiset{x} + multiset(b[k + 1..]); }
      multiset(b[..k]) + multiset(b[k + 1..]);
      multiset(b[..k] + b[k + 1..]);
    }
  }

  /** Sums of two lists that agree term by term are equal. */
  lemma {:induction false} SumOfPointwise<A, B>(a: seq<A>, b: seq<B>, f: A -> nat, g: B -> nat)
    requires |a| == |b|
    requires forall k :: 0 <= k < |a| ==> f(a[k]) == g(b[k])
    ensures SumOf(a, f) == SumOf(b, g)
    decreases |a|
  {
    if a != [] {
      SumOfPointwise(a[..|a| - 1], b[..|b| - 1], f, g);
    }
  }

  /** Every term lies between `lo` and `hi`, so the sum lies between
      `n * lo` and `n * hi`. */
  lemma {:induction false} SumOfBounds<T>(xs: seq<T>, f: T -> nat, lo: nat, hi: nat)
    requires forall k :: 0 <= k < |xs| ==> lo <= f(xs[k]) <= hi
    ensures |xs| * lo <= SumOf(xs, f) <= |xs| * hi
  {
    if xs != [] {
      var n := |xs| - 1;
      var init := xs[..n];
      SumOfBounds(init, f, lo, hi);
      AddBounds(n, lo, hi, SumOf(init, f), f(xs[n]));
    }
  }

  lemma AddBounds(n: nat, lo: nat, hi: nat, s: nat, x: nat)
    requires n * lo <= s <= n * hi && lo <= x <= hi
    ensures (n + 1) * lo <= s + x <= (n + 1) * hi
  {
  }
}

/** Summary statistics over parsed tasks: `calculate_stats` and
    `calculate_stats_human` of tgrp/stats.cpp, with the `ss::stats_t` and
    `ss::stats_human_t` records of tgrp/structs.hpp.

    Every counter is a `std::size_t`, so the running sum wraps modulo 2^64;
    the minimum and the maximum are only compared and never wrap. */
module Stats {
  import opened Wrappers
  import opened Text
  import opened TimeSpan
  import opened Tasks
  import opened Sums

  /** `ss::stats_t`: average, maximum, minimum and total seconds, and the
      number of tasks they were taken over. */
  datatype StatsT = StatsT(avg: nat, max: nat, min: nat, sum: nat, nrecords: nat)

  /** `ss::stats_human_t`: the same figures rendered as `HH:MM`. */
  datatype StatsHumanT = StatsHumanT(avg: string, max: string, min: string, sum: string, nrecords: nat)

  function Seconds(t: Task): nat { t.hm.inSec }

  /** Total seconds spent on the tasks, without wrap-around. */
  function TotalSeconds(ts: seq<Task>): nat
  {
    SumOf(ts, Seconds)
  }

  /** Adding to a value already reduced modulo 2^64 gives the reduction of
      the plain sum. */
  lemma ModAdd(a: nat, b: nat)
    ensures (a % SIZE_T_MODULUS + b) % SIZE_T_MODULUS == (a + b) % SIZE_T_MODULUS
  {
    var q := a / SIZE_T_MODULUS;
    assert a == SIZE_T_MODULUS * q + a % SIZE_T_MODULUS;
  }

  lemma MulMono(a: nat, b: nat, n: nat)
    requires a <= b
    ensures a * n <= b * n
  {
  }

  lemma DivBetween(t: nat, n: nat, lo: nat, hi: nat)
    requires n > 0 && n * lo <= t <= n * hi
    ensures lo <= t / n <= hi
  {
    var q := t / n;
    assert t == q * n + t % n;
    if q < lo {
      MulMono(q + 1, lo, n);
    }
    if q > hi {
      MulMono(hi + 1, q, n);
    }
  }

  /** The running maximum of `calculate_stats`, starting from zero. */
  function MaxSeconds(ts: seq<Task>): nat
  {
    if ts == [] then 0
    else
      var m := MaxSeconds(ts[..|ts| - 1]);
      var sec := ts[|ts| - 1].hm.inSec;
      if m < sec then sec else m
  }

  /** The running minimum of `calculate_stats`, starting from `first`. */
  function MinSeconds(ts: seq<Task>, first: nat): nat
  {
    if ts == [] then first
    else
      var m := MinSeconds(ts[..|ts| - 1], first);
      var sec := ts[|ts| - 1].hm.inSec;
      if m > sec then sec else m
  }

  /** The running maximum bounds every duration and, over a non-empty list,
      is one of them. */
  lemma {:induction false} MaxSecondsSpec(ts: seq<Task>)
    ensures forall k :: 0 <= k < |ts| ==> ts[k].hm.inSec <= MaxSeconds(ts)
    ensures ts != [] ==> exists k :: 0 <= k < |ts| && MaxSeconds(ts) == ts[k].hm.inSec
  {
    if ts != [] {
      var init := ts[..|ts| - 1];
      MaxSecondsSpec(init);
      assert forall k :: 0 <= k < |init| ==> ts[k] == init[k];
      if init == [] {
        assert MaxSeconds(ts) == ts[0].hm.inSec;
      }
    }
  }

  /** The running minimum bounds every duration and the start value, and is
      one of them. */
  lemma {:induction false} MinSecondsSpec(ts: seq<Task>, first: nat)
    ensures forall k :: 0 <= k < |ts| ==> MinSeconds(ts, first) <= ts[k].hm.inSec
    ensures MinSeconds(ts, first) <= first
    ensures MinSeconds(ts, first) == first || exists k :: 0 <= k < |ts| && MinSeconds(ts, first) == ts[k].hm.inSec
  {
    if ts != [] {
      var init := ts[..|ts| - 1];
      MinSecondsSpec(init, first);
      assert forall k :: 0 <= k < |init| ==> ts[k] == init[k];
    }
  }

  lemma PrefixStep(vtt: seq<Task>, i: nat)
    requires i < |vtt|
    ensures vtt[..i + 1][..i] == vtt[..i]
    ensures vtt[..i + 1][i] == vtt[i]
  {
  }

  lemma WrappedSumStep(vtt: seq<Task>, i: nat, sum: nat)
    requires i < |vtt| && sum == TotalSeconds(vtt[..i]) % SIZE_T_MODULUS
    ensures (sum + vtt[i].hm.inSec) % SIZE_T_MODULUS == TotalSeconds(vtt[..i + 1]) % SIZE_T_MODULUS
  {
    PrefixStep(vtt, i);
    ModAdd(TotalSeconds(vtt[..i]), vtt[i].hm.inSec);
  }

  /** The loop of `calculate_stats`: the wrapped running sum, the running
      maximum from zero and the running minimum from the first task's
      duration. */
  method Accumulate(vtt: seq<Task>) returns (sum: nat, max: nat, min: nat)
    requires |vtt| >= 1
    ensures sum == TotalSeconds(vtt) % SIZE_T_MODULUS
    ensures max == MaxSeconds(vtt)
    ensures min == MinSeconds(vtt, vtt[0].hm.inSec)
  {
    sum, max, min := 0, 0, vtt[0].hm.inSec;
    var i := 0;
    while i < |vtt|
      invariant 0 <= i <= |vtt|
      invariant sum == TotalSeconds(vtt[..i]) % SIZE_T_MODULUS
      invariant max == MaxSeconds(vtt[..i])
      invariant min == MinSeconds(vtt[..i], vtt[0].hm.inSec)
    {
      var sec := vtt[i].hm.inSec;
      PrefixStep(vtt, i);
      WrappedSumStep(vtt, i, sum);
      sum := (sum + sec) % SIZE_T_MODULUS;
      if max < sec {
        max := sec;
      }
      if min > sec {
        min := sec;
      }
      i := i + 1;
    }
    assert vtt[..i] == vtt;
  }

  /** `calculate_stats`: the source reads `vtt[0]` unchecked, so the list
      must not be empty.  The sum wraps as a `std::size_t`; the minimum and
      the maximum are seconds of some task and bound all of them; without
      wrap-around the average lies between them. */
  method CalculateStats(vtt: seq<Task>) returns (r: StatsT)
    requires |vtt| >= 1
    ensures r.nrecords == |vtt|
    ensures r.sum == TotalSeconds(vtt) % SIZE_T_MODULUS
    ensures r.avg == r.sum / |vtt|
    ensures forall k :: 0 <= k < |vtt| ==> r.min <= vtt[k].hm.inSec <= r.max
    ensures exists k :: 0 <= k < |vtt| && r.min == vtt[k].hm.inSec
    ensures exists k :: 0 <= k < |vtt| && r.max == vtt[k].hm.inSec
    ensures TotalSeconds(vtt) < SIZE_T_MODULUS ==> r.min <= r.avg <= r.max
  {
    var sum, max, min := Accumulate(vtt);
    RangeFacts(vtt, min, max);
    r := StatsT(sum / |vtt|, max, min, sum, |vtt|);
  }

  /** The running minimum and maximum over the whole list bound every
      duration, are durations of some task, and bound the average when the
      sum does not wrap. */
  lemma RangeFacts(vtt: seq<Task>, lo: nat, hi: nat)
    requires |vtt| >= 1
    requires lo == MinSeconds(vtt, vtt[0].hm.inSec) && hi == MaxSeconds(vtt)
    ensures forall k :: 0 <= k < |vtt| ==> lo <= vtt[k].hm.inSec <= hi
    ensures exists k :: 0 <= k < |vtt| && lo == vtt[k].hm.inSec
    ensures exists k :: 0 <= k < |vtt| && hi == vtt[k].hm.inSec
    ensures TotalSeconds(vtt) < SIZE_T_MODULUS ==> lo <= TotalSeconds(vtt) % SIZE_T_MODULUS / |vtt| <= hi
  {
    MaxSecondsSpec(vtt);
    MinSecondsSpec(vtt, vtt[0].hm.inSec);
    AverageBetween(vtt, lo, hi);
  }

  /** Without wrap-around, the average of durations that all lie between
      `lo` and `hi` lies between them too. */
  lemma AverageBetween(vtt: seq<Task>, lo: nat, hi: nat)
    requires |vtt| >= 1
    requires forall k :: 0 <= k < |vtt| ==> lo <= vtt[k].hm.inSec <= hi
    ensures TotalSeconds(vtt) < SIZE_T_MODULUS ==> lo <= TotalSeconds(vtt) % SIZE_T_MODULUS / |vtt| <= hi
  {
    if TotalSeconds(vtt) < SIZE_T_MODULUS {
      SumOfBounds(vtt, Seconds, lo, hi);
      DivBetween(TotalSeconds(vtt), |vtt|, lo, hi);
    }
  }

  /** `calculate_stats_human`: each figure rendered the way `sec_to_hm_t`
      renders a duration; the record count passes through. */
  function CalculateStatsHuman(t: StatsT): (r: StatsHumanT)
    ensures r.nrecords == t.nrecords
    ensures r.avg == SecToHmT(t.avg).str && r.max == SecToHmT(t.max).str
    ensures r.min == SecToHmT(t.min).str && r.sum == SecToHmT(t.sum).str
  {
    StatsHumanT(FormatHm(t.avg), FormatHm(t.max), FormatHm(t.min), FormatHm(t.sum), t.nrecords)
  }

  /** Each rendered figure reads back, through `split_vi`, as whole hours
      and the minutes of the last hour. */
  lemma StatsHumanReadsBack(t: StatsT)
    requires t.sum / 3600 <= INT_MAX && t.max / 3600 <= INT_MAX
    requires t.min / 3600 <= INT_MAX && t.avg / 3600 <= INT_MAX
    ensures var r := CalculateStatsHuman(t);
            && SplitVi(r.avg, ':') == Ok([t.avg / 3600, t.avg % 3600 / 60])
            && SplitVi(r.max, ':') == Ok([t.max / 3600, t.max % 3600 / 60])
            && SplitVi(r.min, ':') == Ok([t.min / 3600, t.min % 3600 / 60])
            && SplitVi(r.sum, ':') == Ok([t.sum / 3600, t.sum % 3600 / 60])
  {
    FormatHmSplitVi(t.avg);
    FormatHmSplitVi(t.max);
    FormatHmSplitVi(t.min);
    FormatHmSplitVi(t.sum);
  }
}
