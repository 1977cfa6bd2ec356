/** Cutting week files down to a date range and joining them:
    `remove_lines_before_date`, `remove_lines_after_date`,
    `concat_week_files` and `filter_find` of tgrp/tgrp.cpp, with the older
    snapshot of the first three in tgrp/tgrp.h.  File contents are passed in
    as strings. */
module Concat {
  import opened Wrappers
  import opened Text
  import opened Str
  import opened Calendar
  import opened WeekFiles
  import Filters

  /** `remove_lines_before` of the current snapshot, or with `older` the one
      of tgrp/tgrp.h. */
  function CutBefore(s: string, sub: string, includingLast: bool, older: bool): (r: Cut)
    ensures !HasSubstr(s, sub) <==> r == Cut(false, s)
    ensures r.found <==> HasSubstr(s, sub)
    ensures r.found ==> IsSuffix(r.text, s)
  {
    if older then RemoveLinesBeforeOld(s, sub, includingLast) else RemoveLinesBefore(s, sub, includingLast)
  }

  // ---------------------------------------------------------------------------
  // remove_lines_before_date / remove_lines_after_date
  // ---------------------------------------------------------------------------

  /** The loop of `remove_lines_before_date`: the week's dates from index `i`
      down to Monday, each cut with `including_last`; the first hit wins. */
  function BeforeFrom(s: string, dates: seq<string>, i: int, older: bool): (r: Cut)
    requires i < |dates|
    decreases i + 1
    ensures !r.found ==> r == Cut(false, s)
    ensures r.found ==> IsSuffix(r.text, s)
  {
    if i < 0 then Cut(false, s)
    else
      var c := CutBefore(s, dates[i], true, older);
      if c.found then c else BeforeFrom(s, dates, i - 1, older)
  }

  /** The latest index at or below `i` whose date occurs in `s`, or `-1`. */
  function LastHit(s: string, dates: seq<string>, i: int): (r: int)
    requires i < |dates|
    decreases i + 1
    ensures -1 <= r && (r >= 0 ==> r <= i)
    ensures r >= 0 ==> HasSubstr(s, dates[r])
    ensures forall k :: r < k <= i && 0 <= k ==> !HasSubstr(s, dates[k])
  {
    if i < 0 then -1
    else if HasSubstr(s, dates[i]) then i
    else LastHit(s, dates, i - 1)
  }

  /** The downward loop cuts at the latest date at or below `i` that occurs
      in the text, and leaves the text alone when none does. */
  lemma {:induction false} BeforeFromSpec(s: string, dates: seq<string>, i: int, older: bool)
    requires i < |dates|
    decreases i + 1
    ensures var j := LastHit(s, dates, i);
            BeforeFrom(s, dates, i, older)
              == if j < 0 then Cut(false, s) else CutBefore(s, dates[j], true, older)
  {
    if i >= 0 {
      if !HasSubstr(s, dates[i]) {
        BeforeFromSpec(s, dates, i - 1, older);
      } else {
        assert BeforeFrom(s, dates, i, older) == CutBefore(s, dates[i], true, older);
      }
    }
  }

  /** The loop of `remove_lines_after_date`: the week's dates from index `i`
      up to Sunday, each cut without `including_last`.  A negative index
      compares as a huge unsigned value, so the loop does not run. */
  function AfterFrom(s: string, dates: seq<string>, i: int): (r: Cut)
    requires i < |dates|
    decreases |dates| - i
    ensures !r.found ==> r == Cut(false, s)
    ensures r.found ==> |r.text| <= |s| && r.text == s[..|r.text|]
  {
    if i < 0 then Cut(false, s)
    else
      var c := RemoveLinesAfter(s, dates[i], false);
      if c.found || i + 1 == |dates| then c else AfterFrom(s, dates, i + 1)
  }

  /** The earliest index at or above `i` whose date occurs in `s`, or
      `|dates|`. */
  function FirstHit(s: string, dates: seq<string>, i: nat): (r: nat)
    requires i <= |dates|
    decreases |dates| - i
    ensures i <= r <= |dates|
    ensures r < |dates| ==> HasSubstr(s, dates[r])
    ensures forall k :: i <= k < r ==> !HasSubstr(s, dates[k])
  {
    if i == |dates| then i
    else if HasSubstr(s, dates[i]) then i
    else FirstHit(s, dates, i + 1)
  }

  /** The upward loop cuts at the earliest date at or above `i` that occurs
      in the text, and leaves the text alone when none does. */
  lemma {:induction false} AfterFromSpec(s: string, dates: seq<string>, i: nat)
    requires i < |dates|
    decreases |dates| - i
    ensures var j := FirstHit(s, dates, i);
            AfterFrom(s, dates, i)
              == if j == |dates| then Cut(false, s) else RemoveLinesAfter(s, dates[j], false)
  {
    if !HasSubstr(s, dates[i]) {
      if i + 1 < |dates| {
        AfterFromSpec(s, dates, i + 1);
      }
    } else {
      assert AfterFrom(s, dates, i) == RemoveLinesAfter(s, dates[i], false);
    }
  }

  /** `remove_lines_before_date`: cut before the first line with the date;
      when the date is absent, fall back to the latest earlier day of its
      week that is present.  A date string the model does not read (see
      `ParseDate`) matches none of the week's dates, so `item_index` gives
      `-1` and the loop does not run. */
  function RemoveLinesBeforeDate(s: string, dateStr: string, older: bool): (r: Cut)
    ensures HasSubstr(s, dateStr) ==> r == CutBefore(s, dateStr, false, older)
    ensures !r.found ==> r.text == s
    ensures r.found ==> IsSuffix(r.text, s)
  {
    var first := CutBefore(s, dateStr, false, older);
    if first.found then first
    else
      match ParseDate(dateStr)
      case None => Cut(false, s)
      case Some(d) => BeforeInWeek(s, DatesOfWeek(d), dateStr, older)
  }

  /** The fallback of `remove_lines_before_date` over the dates of the
      week: the downward loop from the date's own place among them. */
  function BeforeInWeek(s: string, dates: seq<string>, dateStr: string, older: bool): (r: Cut)
    ensures !r.found ==> r == Cut(false, s)
    ensures r.found ==> IsSuffix(r.text, s)
  {
    BeforeFrom(s, dates, ItemIndex(dates, dateStr), older)
  }

  /** `remove_lines_after_date`: cut after the last line with the date;
      when the date is absent, fall back to the earliest later day of its
      week that is present, cutting before that day's first line. */
  function RemoveLinesAfterDate(s: string, dateStr: string): (r: Cut)
    ensures HasSubstr(s, dateStr) ==> r == RemoveLinesAfter(s, dateStr, true)
    ensures !r.found ==> r.text == s
    ensures r.found ==> |r.text| <= |s| && r.text == s[..|r.text|]
  {
    var first := RemoveLinesAfter(s, dateStr, true);
    if first.found then first
    else
      match ParseDate(dateStr)
      case None => Cut(false, s)
      case Some(d) =>
        var dates := DatesOfWeek(d);
        var r := AfterFrom(s, dates, ItemIndex(dates, dateStr));
        r
  }

  /** A date sits in `dates_of_week` at the place of its ISO weekday, and
      at no other place. */
  lemma {:induction false} WeekIndex(d: Date)
    requires ValidDate(d)
    ensures ItemIndex(DatesOfWeek(d), FormatDate(d)) == IsoWeekday(d) - 1
  {
    var w := WeekDates(d);
    var dates := DatesOfWeek(d);
    var k0 := IsoWeekday(d) - 1;
    WeekDatesSpec(d);
    assert dates[k0] == FormatDate(d);
    var r := ItemIndex(dates, FormatDate(d));
    if r != k0 {
      assert r < k0;
      FormatDateInjective(w[r], d);
      WeekDayNumbers(d, r, k0);
    }
  }

  lemma {:induction false} WeekDayNumbers(d: Date, r: int, k0: int)
    requires ValidDate(d) && 0 <= r < k0 < 7
    ensures WeekDates(d)[r] != WeekDates(d)[k0]
  {
    WeekDatesSpec(d);
    var w := WeekDates(d);
    assert IsoWeekday(w[r]) == r + 1;
    assert IsoWeekday(w[k0]) == k0 + 1;
  }

  /** With the date itself absent, `remove_lines_before_date` tries the days
      from the date's weekday down to Monday. */
  lemma {:induction false} BeforeDateFallback(s: string, d: Date, older: bool)
    requires ValidDate(d) && 1000 <= d.year <= 9999
    requires !HasSubstr(s, FormatDate(d))
    ensures RemoveLinesBeforeDate(s, FormatDate(d), older)
            == BeforeFrom(s, DatesOfWeek(d), IsoWeekday(d) - 1, older)
  {
    ParseFormatDate(d);
    WeekIndex(d);
  }

  /** With the date itself absent, `remove_lines_after_date` tries the days
      from the date's weekday up to Sunday. */
  lemma {:induction false} AfterDateFallback(s: string, d: Date)
    requires ValidDate(d) && 1000 <= d.year <= 9999
    requires !HasSubstr(s, FormatDate(d))
    ensures RemoveLinesAfterDate(s, FormatDate(d))
            == AfterFrom(s, DatesOfWeek(d), IsoWeekday(d) - 1)
  {
    ParseFormatDate(d);
    WeekIndex(d);
  }

  // ---------------------------------------------------------------------------
  // concat_week_files
  // ---------------------------------------------------------------------------

  /** The contents of several files written one after another. */
  function Flatten(files: seq<string>): string {
    if files == [] then [] else files[0] + Flatten(files[1..])
  }

  lemma {:induction false} FlattenAppend(a: seq<string>, b: seq<string>)
    ensures Flatten(a + b) == Flatten(a) + Flatten(b)
  {
    if a != [] {
      assert (a + b)[1..] == a[1..] + b;
      FlattenAppend(a[1..], b);
    } else {
      assert a + b == b;
    }
  }

  lemma FlattenSingle(x: string)
    ensures Flatten([x]) == x
  {
    assert [x][1..] == [];
  }

  /** `concat_week_files` before its final `trim`: one file is cut at both
      ends; otherwise the first file is cut before `fr`, the last after
      `to`, and the files in between are copied whole. */
  function ConcatCut(contents: seq<string>, fr: string, to: string, older: bool): string
    requires |contents| > 0
  {
    if |contents| == 1 then
      RemoveLinesAfterDate(RemoveLinesBeforeDate(contents[0], fr, older).text, to).text
    else
      RemoveLinesBeforeDate(contents[0], fr, older).text
        + Flatten(contents[1..|contents| - 1])
        + RemoveLinesAfterDate(contents[|contents| - 1], to).text
  }

  /** `concat_week_files` of tgrp/tgrp.cpp. */
  function ConcatWeekFiles(contents: seq<string>, fr: string, to: string): (r: string)
    requires |contents| > 0
    ensures r == [] || (!IsSpace(r[0]) && !IsSpace(r[|r| - 1]))
  {
    Trim(ConcatCut(contents, fr, to, false))
  }

  /** `concat_week_files` of tgrp/tgrp.h: the older cut and no `trim`. */
  function ConcatWeekFilesOld(contents: seq<string>, fr: string, to: string): string
    requires |contents| > 0
  {
    ConcatCut(contents, fr, to, true)
  }

  function Last(files: seq<string>): string
    requires |files| > 0
  {
    files[|files| - 1]
  }

  predicate IsSuffix(b: string, s: string) { |b| <= |s| && b == s[|s| - |b|..] }

  predicate IsPrefix(a: string, s: string) { |a| <= |s| && a == s[..|a|] }

  /** Of two or more files, the result is a tail of the first, every middle
      file verbatim and in order, then a head of the last. */
  lemma {:induction false} ConcatShape(contents: seq<string>, fr: string, to: string, older: bool)
    requires |contents| >= 2
    ensures exists b, a :: IsSuffix(b, contents[0]) && IsPrefix(a, Last(contents))
                           && ConcatCut(contents, fr, to, older) == b + Flatten(contents[1..|contents| - 1]) + a
  {
    var b := RemoveLinesBeforeDate(contents[0], fr, older).text;
    var a := RemoveLinesAfterDate(contents[|contents| - 1], to).text;
    assert IsSuffix(b, contents[0]);
    assert IsPrefix(a, Last(contents));
    assert ConcatCut(contents, fr, to, older) == b + Flatten(contents[1..|contents| - 1]) + a;
  }

  /** Of a single file, the result is a piece of it. */
  lemma {:induction false} ConcatSingle(contents: seq<string>, fr: string, to: string, older: bool)
    requires |contents| == 1
    ensures exists i :: 0 <= i <= |contents[0]| &&
              IsPrefix(ConcatCut(contents, fr, to, older), contents[0][i..])
  {
    var c := contents[0];
    var b := RemoveLinesBeforeDate(c, fr, older).text;
    var a := RemoveLinesAfterDate(b, to).text;
    assert IsSuffix(b, c);
    assert IsPrefix(a, b);
    assert b == c[|c| - |b|..];
  }

  /** When neither end finds anything to cut, the files are joined whole. */
  lemma {:induction false} ConcatUncut(contents: seq<string>, fr: string, to: string, older: bool)
    requires |contents| > 0
    requires !RemoveLinesBeforeDate(contents[0], fr, older).found
    requires !RemoveLinesAfterDate(contents[|contents| - 1], to).found
    ensures ConcatCut(contents, fr, to, older) == Flatten(contents)
  {
    var n := |contents|;
    var b := RemoveLinesBeforeDate(contents[0], fr, older);
    assert b.text == contents[0];
    var a := RemoveLinesAfterDate(contents[n - 1], to);
    assert a.text == contents[n - 1];
    if n == 1 {
      assert ConcatCut(contents, fr, to, older) == RemoveLinesAfterDate(b.text, to).text;
      assert contents == [contents[0]];
      FlattenSingle(contents[0]);
    } else {
      assert ConcatCut(contents, fr, to, older) == b.text + Flatten(contents[1..n - 1]) + a.text;
      FlattenEnds(contents);
    }
  }

  lemma {:induction false} FlattenEnds(contents: seq<string>)
    requires |contents| >= 2
    ensures Flatten(contents) == contents[0] + Flatten(contents[1..|contents| - 1]) + contents[|contents| - 1]
  {
    var n := |contents|;
    var first, mid, last := [contents[0]], contents[1..n - 1], [contents[n - 1]];
    assert contents == first + mid + last;
    FlattenAppend(first + mid, last);
    FlattenAppend(first, mid);
    FlattenSingle(contents[0]);
    FlattenSingle(contents[n - 1]);
  }

  // ---------------------------------------------------------------------------
  // filter_find
  // ---------------------------------------------------------------------------

  /** `filter_find(s, re)` with the regex search abstracted into the line
      predicate `p`: every line of `s` that satisfies `p`, each followed by
      a newline. */
  function FilterFind(s: string, p: string -> bool): string {
    JoinLines(Filters.Keep(Lines(s), p))
  }

  /** Reading the output back line by line gives exactly the matching lines
      of the input, in input order. */
  lemma {:induction false} FilterFindLines(s: string, p: string -> bool)
    ensures Lines(FilterFind(s, p)) == Filters.Keep(Lines(s), p)
  {
    var f := Filters.Keep(Lines(s), p);
    forall k | 0 <= k < |f|
      ensures '\n' !in f[k]
    {
      Filters.KeepMembers(Lines(s), p, f[k]);
    }
    LinesOfJoinLines(f);
  }

  /** Filtering twice with the same predicate changes nothing more. */
  lemma {:induction false} FilterFindIdempotent(s: string, p: string -> bool)
    ensures FilterFind(FilterFind(s, p), p) == FilterFind(s, p)
  {
    FilterFindLines(s, p);
    Filters.KeepIdempotent(Lines(s), p);
  }
}
