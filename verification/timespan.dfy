/** Time-span arithmetic of tgrp/tgrp.cpp (`calculate_time_spent`,
    `time_spent`) and tgrp/stats.cpp (`sec_to_hm_t`, the `HH:MM` rendering),
    with the string-only variants of tgrp/tgrp.h and the tgrp.cpp prototype.

    `mktime` on a zeroed `std::tm` (31 December 1899, no daylight saving)
    makes a wall-clock time `h:m` the instant `h * 3600 + m * 60` seconds
    after that day's midnight, and adding one to `tm_mday` adds 86400
    seconds; the model uses that arithmetic directly. */
module TimeSpan {
  import opened Wrappers
  import opened Text

  const SECONDS_PER_DAY: nat := 86400
  /** `static_cast<size_t>` of a negative `int` wraps modulo 2^64. */
  const SIZE_T_MODULUS: nat := 0x1_0000_0000_0000_0000

  /** `ss::hm_t` as the engine builds and reads it: hours, minutes, elapsed
      seconds and the `HH:MM` text. */
  datatype HmT = HmT(h: int, m: int, inSec: nat, str: string)

  /** Why a line could not be parsed: the two `exit` codes of tgrp/tgrp.cpp. */
  datatype ParseError =
    | NoTaskSplit(line: string)   // dt_and_task, exit(76)
    | NoTimeSpan(line: string)    // time_spent, exit(77)
  {
    function ExitCode(): int {
      match this
      case NoTaskSplit(_) => 76
      case NoTimeSpan(_) => 77
    }
  }

  // ---------------------------------------------------------------------------
  // C++ integer division and formatting
  // ---------------------------------------------------------------------------

  /** C++ `/` on `int`: rounds toward zero. */
  function CDiv(a: int, b: int): int
    requires b > 0
  {
    if a >= 0 then a / b else -((-a) / b)
  }

  /** C++ `%` on `int`: takes the sign of the dividend. */
  function CMod(a: int, b: int): int
    requires b > 0
  {
    a - CDiv(a, b) * b
  }

  /** `fmt::format("{:02}:{:02}", sec / 3600, sec % 3600 / 60)` of unsigned
      seconds. */
  function FormatHm(sec: nat): string
  {
    Pad2(sec / 3600) + ":" + Pad2(sec % 3600 / 60)
  }

  /** `sec_to_hm_t`: hours and minutes of `sec`, the seconds kept as given. */
  function SecToHmT(sec: nat): (r: HmT)
    ensures r.inSec == sec
    ensures 0 <= r.m < 60
    ensures r.h * 3600 + r.m * 60 <= sec < r.h * 3600 + (r.m + 1) * 60
    ensures r.str == FormatHm(sec)
  {
    HmT(sec / 3600, sec % 3600 / 60, sec, FormatHm(sec))
  }

  /** Reading the rendered `HH:MM` back with `split_vi` gives the hours and
      minutes. */
  lemma {:induction false} FormatHmSplitVi(sec: nat)
    requires sec / 3600 <= INT_MAX
    ensures SplitVi(FormatHm(sec), ':') == Ok([sec / 3600, sec % 3600 / 60])
  {
    StoiPad2(sec / 3600);
    StoiPad2(sec % 3600 / 60);
    SplitViPair(Pad2(sec / 3600), Pad2(sec % 3600 / 60), FormatHm(sec), sec / 3600, sec % 3600 / 60);
  }

  /** `split_vi` on two colon-free numbers joined by `:`. */
  lemma SplitViPair(a: string, b: string, t: string, x: int, y: int)
    requires |a| > 0 && |b| > 0 && ':' !in a && ':' !in b
    requires Stoi(a) == Ok(x) && Stoi(b) == Ok(y)
    requires t == a + ":" + b
    ensures SplitVi(t, ':') == Ok([x, y])
  {
    SplitTwoFields(a, b);
    StoiAllPair(a, b);
  }

  /** Two colon-free fields joined by `:` split back into the two fields. */
  lemma SplitTwoFields(a: string, b: string)
    requires |a| > 0 && |b| > 0 && ':' !in a && ':' !in b
    ensures Split(a + ":" + b, ':') == [a, b]
  {
    var t := a + ":" + b;
    assert t[|a|] == ':';
    assert forall k :: 0 <= k < |a| ==> t[k] == a[k];
    assert IndexOf(t, ':') == |a|;
    assert t[..|a|] == a;
    assert t[|a| + 1..] == b;
    assert Split(b, ':') == [b];
  }

  lemma StoiAllPair(a: string, b: string)
    requires Stoi(a).Ok? && Stoi(b).Ok?
    ensures StoiAll([a, b]) == Ok([Stoi(a).value, Stoi(b).value])
  {
    assert [a, b][1..] == [b];
    assert [b][1..] == [];
    var x := StoiAll([b]);
    assert StoiAll([]) == Ok([]);
    assert x.Ok? && x.value == [Stoi(b).value];
    var y := StoiAll([a, b]);
    assert y.Ok? && y.value == [Stoi(a).value] + x.value;
    assert y.value == [Stoi(a).value, Stoi(b).value];
  }

  // ---------------------------------------------------------------------------
  // calculate_time_spent
  // ---------------------------------------------------------------------------

  /** A wall-clock time as a person writes it. */
  predicate ValidClock(h: int, m: int) { 0 <= h < 24 && 0 <= m < 60 }

  /** Signed seconds from `h1:m1` to `h2:m2` after the next-day correction. */
  function ElapsedSeconds(h1: int, m1: int, h2: int, m2: int): int
  {
    var diff := (h2 * 3600 + m2 * 60) - (h1 * 3600 + m1 * 60);
    if diff < 1 then diff + SECONDS_PER_DAY else diff
  }

  /** `calculate_time_spent` on the integers `split_vi` read from the two
      `HH:MM` fields: equal times short-circuit to zero; an end before the
      start is moved to the next day; the result is cast to `size_t`. */
  function CalculateTimeSpent(h1: int, m1: int, h2: int, m2: int): HmT
  {
    if (h2 * 3600 + m2 * 60) - (h1 * 3600 + m1 * 60) == 0 then HmT(0, 0, 0, "00:00")
    else
      var sec := ElapsedSeconds(h1, m1, h2, m2);
      var h := CDiv(sec, 3600);
      var m := CDiv(CMod(sec, 3600), 60);
      HmT(h, m, sec % SIZE_T_MODULUS, FormatInt02(h) + ":" + FormatInt02(m))
  }

  /** For real clock times the span is the forward distance from start to
      end within one day, and its fields agree with `sec_to_hm_t`. */
  lemma CalculateTimeSpentValid(h1: int, m1: int, h2: int, m2: int)
    requires ValidClock(h1, m1) && ValidClock(h2, m2)
    ensures var a := h1 * 3600 + m1 * 60;
            var b := h2 * 3600 + m2 * 60;
            var r := CalculateTimeSpent(h1, m1, h2, m2);
            && (a < b ==> r.inSec == b - a)
            && (a == b ==> r == HmT(0, 0, 0, "00:00"))
            && (b < a ==> r.inSec == b - a + SECONDS_PER_DAY)
            && r.inSec < SECONDS_PER_DAY
            && r == SecToHmT(r.inSec)
  {
    var a := h1 * 3600 + m1 * 60;
    var b := h2 * 3600 + m2 * 60;
    if a == b {
      assert Pad2(0) == "00";
      assert FormatHm(0) == "00:00";
    } else {
      var sec := ElapsedSeconds(h1, m1, h2, m2);
      assert 0 < sec < SECONDS_PER_DAY;
      CastWithinDay(sec);
    }
  }

  /** Within a day the C++ division and the `size_t` cast change nothing, so
      the fields agree with `sec_to_hm_t`. */
  lemma CastWithinDay(sec: int)
    requires 0 < sec < SECONDS_PER_DAY
    ensures var h := CDiv(sec, 3600);
            var m := CDiv(CMod(sec, 3600), 60);
            HmT(h, m, sec % SIZE_T_MODULUS, FormatInt02(h) + ":" + FormatInt02(m)) == SecToHmT(sec)
  {
    assert CDiv(sec, 3600) == sec / 3600;
    assert CMod(sec, 3600) == sec % 3600;
    assert CDiv(sec % 3600, 60) == sec % 3600 / 60;
    assert sec % SIZE_T_MODULUS == sec;
  }

  /** 23:53 to 00:07 crosses midnight: 840 seconds, `00:14`. */
  lemma MidnightRollover()
    ensures CalculateTimeSpent(23, 53, 0, 7) == HmT(0, 14, 840, "00:14")
  {
    assert Pad2(0) == "00";
    assert Pad2(14) == NatStr(1) + [DigitChar(4)];
  }

  /** An hour field above 23 is not rejected: a start of `25:00` and an end
      of `00:00` stay negative after the one-day correction, so the hours
      print as `-1` and the `size_t` seconds wrap around. */
  lemma OutOfRangeHourWraps()
    ensures CalculateTimeSpent(25, 0, 0, 0) == HmT(-1, 0, SIZE_T_MODULUS - 3600, "-1:00")
  {
    assert NatStr(1) == "1";
    assert Pad2(0) == "00";
  }

  /** The string-only `calculate_time_spent` of tgrp/tgrp.h and of the
      tgrp.cpp prototype. */
  function CalculateTimeSpentStr(h1: int, m1: int, h2: int, m2: int): string
  {
    if (h2 * 3600 + m2 * 60) - (h1 * 3600 + m1 * 60) == 0 then "00:00"
    else
      var sec := ElapsedSeconds(h1, m1, h2, m2);
      FormatInt02(CDiv(sec, 3600)) + ":" + FormatInt02(CDiv(CMod(sec, 3600), 60))
  }

  /** The older snapshots return exactly the `str` field of the newer one. */
  lemma CalculateTimeSpentStrAgrees(h1: int, m1: int, h2: int, m2: int)
    ensures CalculateTimeSpentStr(h1, m1, h2, m2) == CalculateTimeSpent(h1, m1, h2, m2).str
  {
  }

  // ---------------------------------------------------------------------------
  // The time-span pattern `(\d\d:\d\d).*(\d\d:\d\d)`
  // ---------------------------------------------------------------------------

  /** An `HH:MM` field (`\d\d:\d\d`) starts at `i`. */
  predicate IsHHMMAt(s: string, i: int) {
    0 <= i && i + 5 <= |s|
    && IsDigit(s[i]) && IsDigit(s[i + 1]) && s[i + 2] == ':' && IsDigit(s[i + 3]) && IsDigit(s[i + 4])
  }

  /** The pattern matches with its groups at `i` and `k`: two fields, the
      second after the first, joined by a `.*` that crosses no line end. */
  predicate SpanAt(s: string, i: int, k: int) {
    IsHHMMAt(s, i) && IsHHMMAt(s, k) && i + 5 <= k && NoLineTerm(s[i + 5..k])
  }

  /** The first line terminator at or after `from`, or `|s|`. */
  function TermFrom(s: string, from: nat): (e: nat)
    requires from <= |s|
    decreases |s| - from
    ensures from <= e <= |s|
    ensures e < |s| ==> IsLineTerm(s[e])
    ensures forall j :: from <= j < e ==> !IsLineTerm(s[j])
  {
    if from == |s| || IsLineTerm(s[from]) then from else TermFrom(s, from + 1)
  }

  /** The largest `k` in `[lo, hi]` where a field starts. */
  function LastHHMM(s: string, lo: int, hi: int): (r: Option<nat>)
    decreases hi - lo + 1
    ensures r.Some? ==> lo <= r.value <= hi && IsHHMMAt(s, r.value)
    ensures r.Some? ==> forall j :: r.value < j <= hi ==> !IsHHMMAt(s, j)
    ensures r.None? ==> forall j :: lo <= j <= hi ==> !IsHHMMAt(s, j)
  {
    if hi < lo then None
    else if IsHHMMAt(s, hi) then Some(hi)
    else LastHHMM(s, lo, hi - 1)
  }

  lemma NoLineTermSlice(s: string, lo: nat, hi: nat)
    requires lo <= hi <= |s|
    requires forall j :: lo <= j < hi ==> !IsLineTerm(s[j])
    ensures NoLineTerm(s[lo..hi])
  {
    assert forall j :: 0 <= j < hi - lo ==> s[lo..hi][j] == s[lo + j];
  }

  /** A terminator-free stretch starting at `lo` ends at or before the first
      terminator `e` after `lo`. */
  lemma NoTermBefore(s: string, lo: nat, hi: nat, e: nat)
    requires lo <= hi <= |s| && NoLineTerm(s[lo..hi])
    requires lo <= e <= |s| && (e < |s| ==> IsLineTerm(s[e]))
    ensures hi <= e || e == |s|
  {
    assert forall j :: 0 <= j < hi - lo ==> s[lo..hi][j] == s[lo + j];
  }

  /** `regex_search` for the time-span pattern from start position `from`:
      the leftmost start, then the greedy `.*` takes the last end field. */
  function SpanSearch(s: string, from: nat): (r: Option<(nat, nat)>)
    decreases |s| - from
    ensures r.Some? ==> from <= r.value.0 && SpanAt(s, r.value.0, r.value.1)
    ensures r.Some? ==> forall i, k :: from <= i < r.value.0 ==> !SpanAt(s, i, k)
    ensures r.Some? ==> forall k :: r.value.1 < k ==> !SpanAt(s, r.value.0, k)
    ensures r.None? ==> forall i, k :: from <= i ==> !SpanAt(s, i, k)
  {
    if from + 10 > |s| then
      assert forall i, k :: from <= i && SpanAt(s, i, k) ==> k + 5 <= |s|;
      None
    else
      var e := TermFrom(s, from + 5);
      SpanEndsBeforeTerm(s, from, e);
      var last := LastHHMM(s, from + 5, e);
      if IsHHMMAt(s, from) && last.Some? then
        NoLineTermSlice(s, from + 5, last.value);
        Some((from, last.value))
      else
        SpanSearch(s, from + 1)
  }

  /** A span starting at `from` ends at or before the first terminator `e`
      after the start field. */
  lemma SpanEndsBeforeTerm(s: string, from: nat, e: nat)
    requires from + 5 <= |s| && e == TermFrom(s, from + 5)
    ensures forall k :: SpanAt(s, from, k) ==> k <= e
  {
    forall k | SpanAt(s, from, k) ensures k <= e {
      NoTermBefore(s, from + 5, k, e);
    }
  }

  /** The value of the two digits at `i`. */
  function TwoDigits(s: string, i: int): nat
    requires 0 <= i && i + 2 <= |s| && IsDigit(s[i]) && IsDigit(s[i + 1])
  {
    DigitValue(s[i]) * 10 + DigitValue(s[i + 1])
  }

  /** `split_vi` on a matched `HH:MM` field gives the two-digit hours and
      minutes, so the model reads them directly. */
  lemma SplitViOfField(s: string, i: nat)
    requires IsHHMMAt(s, i)
    ensures SplitVi(s[i..i + 5], ':') == Ok([TwoDigits(s, i), TwoDigits(s, i + 3)])
  {
    var t := s[i..i + 5];
    assert t[0] == s[i] && t[1] == s[i + 1] && t[2] == s[i + 2] && t[3] == s[i + 3] && t[4] == s[i + 4];
    SplitViOfClock(t);
  }

  lemma SplitViOfClock(t: string)
    requires |t| == 5 && IsHHMMAt(t, 0)
    ensures SplitVi(t, ':') == Ok([TwoDigits(t, 0), TwoDigits(t, 3)])
  {
    assert t == [t[0], t[1], ':', t[3], t[4]];
    SplitViOfDigits(t[0], t[1], t[3], t[4]);
  }

  lemma SplitViOfDigits(h0: char, h1: char, m0: char, m1: char)
    requires IsDigit(h0) && IsDigit(h1) && IsDigit(m0) && IsDigit(m1)
    ensures SplitVi([h0, h1, ':', m0, m1], ':')
            == Ok([DigitValue(h0) * 10 + DigitValue(h1), DigitValue(m0) * 10 + DigitValue(m1)])
  {
    StoiDigitPair(h0, h1);
    StoiDigitPair(m0, m1);
    assert [h0, h1, ':', m0, m1] == [h0, h1] + ":" + [m0, m1];
    SplitViPair([h0, h1], [m0, m1], [h0, h1, ':', m0, m1],
                DigitValue(h0) * 10 + DigitValue(h1), DigitValue(m0) * 10 + DigitValue(m1));
  }

  /** `std::stoi` of two digits. */
  lemma StoiDigitPair(c0: char, c1: char)
    requires IsDigit(c0) && IsDigit(c1)
    ensures Stoi([c0, c1]) == Ok(DigitValue(c0) * 10 + DigitValue(c1))
  {
    var t := [c0, c1];
    assert SpanOf(t, IsSpace) == 0;
    assert t[0..] == t;
    assert SpanOf(t[2..], IsDigit) == 0;
    assert SpanOf(t[1..], IsDigit) == 1;
    assert SpanOf(t, IsDigit) == 2;
    assert t[..2] == t;
    assert t[..1][..0] == [];
    assert DigitsValue(t[..1]) == DigitValue(t[0]);
    assert DigitsValue(t) == DigitsValue(t[..1]) * 10 + DigitValue(t[1]);
  }

  /** `time_spent`: the span between the first `HH:MM` and the last
      `HH:MM` after it on the same line; `exit(77)` without two fields. */
  function TimeSpent(s: string): (r: Result<HmT, ParseError>)
    ensures r.Err? <==> forall i, k :: !SpanAt(s, i, k)
    ensures r.Err? ==> r.error == NoTimeSpan(s)
  {
    match SpanSearch(s, 0)
    case None => Err(NoTimeSpan(s))
    case Some((i, k)) => Ok(SpanTime(s, i, k))
  }

  /** `calculate_time_spent` of the two fields at `i` and `k`. */
  function SpanTime(s: string, i: nat, k: nat): HmT
    requires IsHHMMAt(s, i) && IsHHMMAt(s, k)
  {
    CalculateTimeSpent(TwoDigits(s, i), TwoDigits(s, i + 3), TwoDigits(s, k), TwoDigits(s, k + 3))
  }

  /** On a line without line terminators the start is the earliest field
      and the end is the last field of the whole string. */
  lemma TimeSpentFields(s: string)
    requires NoLineTerm(s)
    ensures SpanSearch(s, 0).Some? <==> exists i, k :: IsHHMMAt(s, i) && IsHHMMAt(s, k) && i + 5 <= k
    ensures SpanSearch(s, 0).Some? ==>
              var (i, k) := SpanSearch(s, 0).value;
              (forall j :: j < i ==> !IsHHMMAt(s, j)) && (forall j :: k < j ==> !IsHHMMAt(s, j))
  {
    var r := SpanSearch(s, 0);
    CleanLineSpans(s);
    if r.Some? {
      var (i, k) := r.value;
      assert IsHHMMAt(s, i) && IsHHMMAt(s, k) && i + 5 <= k;
      FieldsOutsideSpan(s, i, k);
    }
  }

  /** No field lies before the start of the leftmost span or after the end
      of its longest extension, on a line without terminators. */
  lemma FieldsOutsideSpan(s: string, i: nat, k: nat)
    requires NoLineTerm(s) && SpanAt(s, i, k)
    requires forall i', k' :: 0 <= i' < i ==> !SpanAt(s, i', k')
    requires forall k' :: k < k' ==> !SpanAt(s, i, k')
    ensures forall j :: j < i ==> !IsHHMMAt(s, j)
    ensures forall j :: k < j ==> !IsHHMMAt(s, j)
  {
    CleanLineSpans(s);
  }

  /** Without line terminators every ordered pair of fields is a span. */
  lemma CleanLineSpans(s: string)
    requires NoLineTerm(s)
    ensures forall i, k :: IsHHMMAt(s, i) && IsHHMMAt(s, k) && i + 5 <= k ==> SpanAt(s, i, k)
  {
    forall i, k | IsHHMMAt(s, i) && IsHHMMAt(s, k) && i + 5 <= k ensures SpanAt(s, i, k) {
      NoLineTermSlice(s, i + 5, k);
    }
  }

  /** `time_spent` of tgrp/tgrp.h and of the tgrp.cpp prototype: only the
      `HH:MM` text. */
  function TimeSpentStr(s: string): (r: Result<string, ParseError>)
    ensures r.Ok? <==> TimeSpent(s).Ok?
    ensures r.Ok? ==> r.value == TimeSpent(s).value.str
  {
    match SpanSearch(s, 0)
    case None => Err(NoTimeSpan(s))
    case Some((i, k)) =>
      CalculateTimeSpentStrAgrees(TwoDigits(s, i), TwoDigits(s, i + 3), TwoDigits(s, k), TwoDigits(s, k + 3));
      Ok(CalculateTimeSpentStr(TwoDigits(s, i), TwoDigits(s, i + 3), TwoDigits(s, k), TwoDigits(s, k + 3)))
  }

  /** Text around the time fields: no colon and no line terminator. */
  predicate FieldFree(s: string) {
    ':' !in s && '\n' !in s && '\r' !in s
  }

  /** The colons of a line made of two `HH:MM` fields and field-free text
      are the two field colons. */
  lemma TwoFieldColons(a: string, x: string, b: string, y: string, c: string, q: nat)
    requires |x| == 5 && IsHHMMAt(x, 0) && |y| == 5 && IsHHMMAt(y, 0)
    requires FieldFree(a) && FieldFree(b) && FieldFree(c)
    requires q < |a + x + b + y + c|
    ensures (a + x + b + y + c)[q] == ':' ==> q == |a| + 2 || q == |a| + 5 + |b| + 2
  {
    var s := a + x + b + y + c;
    if q < |a| {
      assert s[q] == a[q];
    } else if q < |a| + 5 {
      assert s[q] == x[q - |a|];
    } else if q < |a| + 5 + |b| {
      assert s[q] == b[q - |a| - 5];
    } else if q < |a| + 10 + |b| {
      assert s[q] == y[q - |a| - 5 - |b|];
    } else {
      assert s[q] == c[q - |a| - 10 - |b|];
    }
  }

  lemma TwoFieldTerms(a: string, x: string, b: string, y: string, c: string)
    requires |x| == 5 && IsHHMMAt(x, 0) && |y| == 5 && IsHHMMAt(y, 0)
    requires FieldFree(a) && FieldFree(b) && FieldFree(c)
    ensures NoLineTerm(a + x + b + y + c)
  {
    var s := a + x + b + y + c;
    forall q | 0 <= q < |s| ensures !IsLineTerm(s[q]) {
      if q < |a| {
        assert s[q] == a[q];
      } else if q < |a| + 5 {
        assert s[q] == x[q - |a|];
      } else if q < |a| + 5 + |b| {
        assert s[q] == b[q - |a| - 5];
      } else if q < |a| + 10 + |b| {
        assert s[q] == y[q - |a| - 5 - |b|];
      } else {
        assert s[q] == c[q - |a| - 10 - |b|];
      }
    }
  }

  /** On such a line the pattern matches exactly the two fields. */
  lemma {:induction false} TwoFieldSpan(a: string, x: string, b: string, y: string, c: string)
    requires |x| == 5 && IsHHMMAt(x, 0) && |y| == 5 && IsHHMMAt(y, 0)
    requires FieldFree(a) && FieldFree(b) && FieldFree(c)
    ensures SpanSearch(a + x + b + y + c, 0) == Some((|a|, |a| + 5 + |b|))
  {
    var s := a + x + b + y + c;
    var i0, k0 := |a|, |a| + 5 + |b|;
    FieldsAt(a, x, b, y, c);
    assert IsHHMMAt(s, i0) && IsHHMMAt(s, k0);
    TwoFieldTerms(a, x, b, y, c);
    forall j | IsHHMMAt(s, j) ensures j == i0 || j == k0 {
      TwoFieldColons(a, x, b, y, c, j + 2);
    }
    OnlyTwoFields(s, i0, k0);
  }

  /** A line whose only fields are at `i` and `k` matches exactly them. */
  lemma {:induction false} OnlyTwoFields(s: string, i: nat, k: nat)
    requires NoLineTerm(s) && IsHHMMAt(s, i) && IsHHMMAt(s, k) && i + 5 <= k
    requires forall j :: IsHHMMAt(s, j) ==> j == i || j == k
    ensures SpanSearch(s, 0) == Some((i, k))
  {
    TimeSpentFields(s);
  }

  lemma FieldsAt(a: string, x: string, b: string, y: string, c: string)
    requires |x| == 5 && |y| == 5
    ensures |a + x + b + y + c| == |a| + 10 + |b| + |c|
    ensures forall t :: 0 <= t < 5 ==> (a + x + b + y + c)[|a| + t] == x[t]
    ensures forall t :: 0 <= t < 5 ==> (a + x + b + y + c)[|a| + 5 + |b| + t] == y[t]
  {
  }

  /** A line with exactly two `HH:MM` fields spends the time from the first
      to the second. */
  lemma {:induction false} TimeSpentTwoFields(a: string, x: string, b: string, y: string, c: string)
    requires |x| == 5 && IsHHMMAt(x, 0) && |y| == 5 && IsHHMMAt(y, 0)
    requires FieldFree(a) && FieldFree(b) && FieldFree(c)
    ensures TimeSpent(a + x + b + y + c)
            == Ok(CalculateTimeSpent(TwoDigits(x, 0), TwoDigits(x, 3), TwoDigits(y, 0), TwoDigits(y, 3)))
  {
    var s := a + x + b + y + c;
    var i0, k0 := |a|, |a| + 5 + |b|;
    TwoFieldSpan(a, x, b, y, c);
    TimeSpentAt(s, i0, k0);
    FieldsAt(a, x, b, y, c);
    SpanTimeOf(s, i0, k0, x, y);
  }

  /** The time between fields that are copies of `x` and `y`. */
  lemma SpanTimeOf(s: string, i: nat, k: nat, x: string, y: string)
    requires |x| == 5 && IsHHMMAt(x, 0) && |y| == 5 && IsHHMMAt(y, 0)
    requires IsHHMMAt(s, i) && IsHHMMAt(s, k)
    requires forall t :: 0 <= t < 5 ==> s[i + t] == x[t]
    requires forall t :: 0 <= t < 5 ==> s[k + t] == y[t]
    ensures SpanTime(s, i, k) == CalculateTimeSpent(TwoDigits(x, 0), TwoDigits(x, 3), TwoDigits(y, 0), TwoDigits(y, 3))
  {
    SameTwoDigits(s, i, x, 0);
    SameTwoDigits(s, i + 3, x, 3);
    SameTwoDigits(s, k, y, 0);
    SameTwoDigits(s, k + 3, y, 3);
  }

  lemma {:induction false} TimeSpentAt(s: string, i: nat, k: nat)
    requires SpanSearch(s, 0) == Some((i, k))
    ensures IsHHMMAt(s, i) && IsHHMMAt(s, k)
    ensures TimeSpent(s) == Ok(SpanTime(s, i, k))
  {
  }

  lemma SameTwoDigits(s: string, i: nat, t: string, j: nat)
    requires i + 2 <= |s| && j + 2 <= |t| && s[i] == t[j] && s[i + 1] == t[j + 1]
    requires IsDigit(s[i]) && IsDigit(s[i + 1])
    ensures TwoDigits(s, i) == TwoDigits(t, j)
  {
  }

  /** Any line whose only time fields are 12:01 and 14:00, in that order,
      spent `01:59`. */
  lemma {:induction false} TwelveOneToTwoLine(a: string, b: string, c: string)
    requires FieldFree(a) && FieldFree(b) && FieldFree(c)
    ensures TimeSpentStr(a + "12:01" + b + "14:00" + c) == Ok("01:59")
  {
    var x, y := "12:01", "14:00";
    assert IsHHMMAt(x, 0) && IsHHMMAt(y, 0);
    assert TwoDigits(x, 0) == 12 && TwoDigits(x, 3) == 1;
    assert TwoDigits(y, 0) == 14 && TwoDigits(y, 3) == 0;
    TwelveOneToTwo();
    TimeSpentTwoFields(a, x, b, y, c);
  }

  lemma TwelveOneToTwo()
    ensures CalculateTimeSpent(12, 1, 14, 0) == HmT(1, 59, 7140, "01:59")
  {
  }

  /** The worked example of the tgrp.cpp prototype,
      `Saturday (2022-01-08) 12:01 → 14:00 cleaning sink pipes`. */
  const SaturdayEntry: string :=
    "Saturday (2022-01-08) " + "12:01" + " → " + "14:00" + " cleaning sink pipes"

  /** The Saturday entry, from 12:01 to 14:00, spent `01:59`. */
  lemma TimeSpentExample()
    ensures TimeSpentStr(SaturdayEntry) == Ok("01:59")
  {
    SaturdayLine("Saturday (2022-01-08) ", " → ", " cleaning sink pipes");
  }

  /** The example line, with its field-free pieces kept symbolic. */
  lemma {:induction false} SaturdayLine(a: string, b: string, c: string)
    requires a == "Saturday (2022-01-08) " && b == " → " && c == " cleaning sink pipes"
    ensures TimeSpentStr(a + "12:01" + b + "14:00" + c) == Ok("01:59")
  {
    assert FieldFree(a) && FieldFree(b) && FieldFree(c);
    TwelveOneToTwoLine(a, b, c);
  }
}
