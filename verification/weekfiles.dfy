/** Choosing week files: `week_file_name`, `vslice`, `item_index`,
    `find_week_files`, `find_week_file_by_date` and `find_week_files_in_span`
    of tgrp/tgrp.cpp (the same functions appear in tgrp/tgrp.h).  The
    recursive directory listing, in the sorted order
    `get_all_files_recursive` returns it, and today's date are parameters. */
module WeekFiles {
  import opened Wrappers
  import opened Text
  import opened Calendar
  import Filters

  // ---------------------------------------------------------------------------
  // vslice and item_index
  // ---------------------------------------------------------------------------

  /** The exclusive end `vslice` copies up to: `-1`, or a bound at or past
      the end, means the end. */
  function SliceEnd(v: seq<string>, end: int): int {
    if end == -1 || end >= |v| then |v| else end
  }

  /** `vslice(v, start, end)`.  A negative length makes the `std::vector`
      constructor throw, and a negative start with a positive length reads
      before the vector; both give `None`.  A zero length gives an empty
      slice whatever the start. */
  function VSlice(v: seq<string>, start: int, end: int): (r: Option<seq<string>>)
    ensures 0 <= start <= SliceEnd(v, end) ==> r == Some(v[start..SliceEnd(v, end)])
    ensures SliceEnd(v, end) < start ==> r == None
    ensures start < 0 && start < SliceEnd(v, end) ==> r == None
    ensures start == SliceEnd(v, end) ==> r == Some([])
  {
    var newlen := if end == -1 || end >= |v| then |v| - start else end - start;
    if newlen < 0 then None
    else if newlen == 0 then
      assert 0 <= start ==> v[start..start] == [];
      Some([])
    else if start < 0 then None
    else Some(v[start..start + newlen])
  }

  /** `vslice` is the slice of Python: for `0 <= s <= e <= |v|` it copies
      `v[s..e]`, and `-1` or a bound past the end stands for the end. */
  lemma VSliceIsSlice(v: seq<string>, s: int, e: int)
    requires 0 <= s <= |v|
    ensures s <= e <= |v| ==> VSlice(v, s, e) == Some(v[s..e])
    ensures e == -1 || e >= |v| ==> VSlice(v, s, e) == Some(v[s..])
  {
    assert v[s..] == v[s..|v|];
  }

  /** The inclusive slice `vslice(v, i, j + 1)` of two indices of `v`. */
  lemma VSliceInclusive(v: seq<string>, i: int, j: int)
    requires 0 <= i < |v| && 0 <= j < |v|
    ensures i <= j + 1 ==> VSlice(v, i, j + 1) == Some(v[i..j + 1])
    ensures j + 1 < i ==> VSlice(v, i, j + 1) == None
  {
  }

  /** `item_index`: the first index holding `item`, or `-1`. */
  function ItemIndex(v: seq<string>, item: string): (r: int)
    ensures -1 <= r < |v|
    ensures r == -1 <==> item !in v
    ensures r >= 0 ==> v[r] == item && item !in v[..r]
  {
    if v == [] then -1
    else if v[0] == item then 0
    else
      var k := ItemIndex(v[1..], item);
      assert k >= 0 ==> v[1..][..k] == v[1..k + 1];
      if k == -1 then -1 else k + 1
  }

  // ---------------------------------------------------------------------------
  // week_file_name
  // ---------------------------------------------------------------------------

  /** The argument of `week_file_name`: the literal `"now"` or a date. */
  datatype DateArg = Now | On(date: Date)

  predicate ValidArg(arg: DateArg) { arg.On? ==> ValidDate(arg.date) }

  /** Reads the argument strings the model covers: `"now"` and dates written
      `YYYY-MM-DD`. */
  function ReadDateArg(s: string): (r: Option<DateArg>)
    ensures r == Some(Now) <==> s == "now"
    ensures r.Some? && r.value.On? ==> ValidDate(r.value.date) && FormatDate(r.value.date) == s
  {
    if s == "now" then Some(Now)
    else
      match ParseDate(s)
      case None => None
      case Some(d) => Some(On(d))
  }

  /** `put_time(&tm, "week-%V-%Y.txt")`: the ISO week next to the calendar
      year, which is not the ISO week-year around New Year. */
  function WeekName(d: Date): string
    requires ValidDate(d)
  {
    "week-" + Pad2(IsoWeek(d)) + "-" + NatStr(d.year) + ".txt"
  }

  /** `week_file_name(date_str)` with the clock reading `now`: a date after
      today names the current week. */
  function WeekFileName(arg: DateArg, now: Date): (r: string)
    requires ValidDate(now) && ValidArg(arg)
    ensures arg.Now? ==> r == WeekName(now)
    ensures arg.On? && DayNumber(now) < DayNumber(arg.date) ==> r == WeekName(now)
    ensures arg.On? && DayNumber(arg.date) <= DayNumber(now) ==> r == WeekName(arg.date)
  {
    match arg
    case Now => WeekName(now)
    case On(d) => if DayNumber(now) < DayNumber(d) then WeekName(now) else WeekName(d)
  }

  /** `substr(pos, n)` of a string at least `pos` long. */
  function Substr(s: string, pos: nat, n: nat): (r: string)
    ensures pos <= |s| ==> r == s[pos..if pos + n <= |s| then pos + n else |s|]
  {
    if pos > |s| then [] else if pos + n <= |s| then s[pos..pos + n] else s[pos..]
  }

  /** The sort key of a week file name: `substr(8, 4)` (the year), then
      `substr(5, 2)` (the week). */
  function Key(s: string): (string, string) {
    (Substr(s, 8, 4), Substr(s, 5, 2))
  }

  /** The comparator handed to `std::sort` in `find_week_file_by_date`. */
  predicate KeyLess(a: string, b: string) {
    LexLess(Key(a).0, Key(b).0) || (Key(a).0 == Key(b).0 && LexLess(Key(a).1, Key(b).1))
  }

  /** A week file name is sixteen characters long and the comparator reads
      exactly its ISO week and its year. */
  lemma WeekNameFields(d: Date)
    requires ValidDate(d) && 1000 <= d.year <= 9999
    ensures |WeekName(d)| == 16
    ensures OccursAt(WeekName(d), "week-", 0)
    ensures Key(WeekName(d)) == (NatStr(d.year), Pad2(IsoWeek(d)))
  {
    var n := WeekName(d);
    NatStrFourDigits(d.year);
    assert n[..5] == "week-";
    assert n[5..7] == Pad2(IsoWeek(d));
    assert n[8..12] == NatStr(d.year);
  }

  /** On week file names the comparator orders by year, then by ISO week. */
  lemma WeekNameOrder(a: Date, b: Date)
    requires ValidDate(a) && 1000 <= a.year <= 9999
    requires ValidDate(b) && 1000 <= b.year <= 9999
    ensures KeyLess(WeekName(a), WeekName(b))
            <==> a.year < b.year || (a.year == b.year && IsoWeek(a) < IsoWeek(b))
  {
    WeekNameFields(a);
    WeekNameFields(b);
    NatStrOrder(a.year, b.year);
    Pad2Order(IsoWeek(a), IsoWeek(b));
  }

  // ---------------------------------------------------------------------------
  // std::string operator<
  // ---------------------------------------------------------------------------

  /** Lexicographic order of `std::string`: the first differing character
      decides, and a proper prefix comes first. */
  predicate LexLess(a: string, b: string)
    decreases |a|
  {
    if a == [] then b != []
    else if b == [] then false
    else if a[0] != b[0] then a[0] < b[0]
    else LexLess(a[1..], b[1..])
  }

  lemma {:induction false} LexIrreflexive(a: string)
    ensures !LexLess(a, a)
    decreases |a|
  {
    if a != [] {
      LexIrreflexive(a[1..]);
    }
  }

  lemma {:induction false} LexTransitive(a: string, b: string, c: string)
    requires LexLess(a, b) && LexLess(b, c)
    ensures LexLess(a, c)
    decreases |a|
  {
    if a != [] && a[0] == b[0] && b[0] == c[0] {
      LexTransitive(a[1..], b[1..], c[1..]);
    }
  }

  lemma {:induction false} LexTotal(a: string, b: string)
    ensures a == b || LexLess(a, b) || LexLess(b, a)
    decreases |a|
  {
    if a != [] && b != [] && a[0] == b[0] {
      LexTotal(a[1..], b[1..]);
      if a[1..] == b[1..] {
        assert a == [a[0]] + a[1..];
        assert b == [b[0]] + b[1..];
      }
    }
  }

  /** Between strings of one length, everything before the last character
      decides first, then the last character. */
  lemma {:induction false} LexLast(s: string, t: string)
    requires |s| == |t| > 0
    ensures LexLess(s, t) <==> LexLess(s[..|s| - 1], t[..|t| - 1])
                                || (s[..|s| - 1] == t[..|t| - 1] && s[|s| - 1] < t[|t| - 1])
    decreases |s|
  {
    var n := |s|;
    if n == 1 {
      assert s[..0] == [] && t[..0] == [];
      assert LexLess(s, t) <==> s[0] < t[0];
    } else if s[0] != t[0] {
      assert s[..n - 1][0] == s[0] && t[..n - 1][0] == t[0];
      assert s[..n - 1] != t[..n - 1];
    } else {
      LexLast(s[1..], t[1..]);
      assert s[1..][..n - 2] == s[..n - 1][1..];
      assert t[1..][..n - 2] == t[..n - 1][1..];
      assert s[..n - 1] == [s[0]] + s[..n - 1][1..];
      assert t[..n - 1] == [t[0]] + t[..n - 1][1..];
    }
  }

  /** Digit strings of one length compare as the numbers they write. */
  lemma {:induction false} DigitsOrder(s: string, t: string)
    requires |s| == |t| && AllDigits(s) && AllDigits(t)
    ensures LexLess(s, t) <==> DigitsValue(s) < DigitsValue(t)
    ensures s == t <==> DigitsValue(s) == DigitsValue(t)
    decreases |s|
  {
    if |s| > 0 {
      var n := |s|;
      DigitsOrder(s[..n - 1], t[..n - 1]);
      LexLast(s, t);
      assert s == s[..n - 1] + [s[n - 1]];
      assert t == t[..n - 1] + [t[n - 1]];
    }
  }

  lemma NatStrOrder(x: nat, y: nat)
    requires 1000 <= x <= 9999 && 1000 <= y <= 9999
    ensures LexLess(NatStr(x), NatStr(y)) <==> x < y
    ensures NatStr(x) == NatStr(y) <==> x == y
  {
    NatStrFourDigits(x);
    NatStrFourDigits(y);
    NatStrValue(x);
    NatStrValue(y);
    DigitsOrder(NatStr(x), NatStr(y));
  }

  lemma Pad2Order(x: nat, y: nat)
    requires x < 100 && y < 100
    ensures LexLess(Pad2(x), Pad2(y)) <==> x < y
    ensures Pad2(x) == Pad2(y) <==> x == y
  {
    Pad2Value(x);
    Pad2Value(y);
    DigitsOrder(Pad2(x), Pad2(y));
  }

  // ---------------------------------------------------------------------------
  // The comparator is a strict weak order
  // ---------------------------------------------------------------------------

  lemma KeyIrreflexive(a: string)
    ensures !KeyLess(a, a)
  {
    LexIrreflexive(Key(a).0);
    LexIrreflexive(Key(a).1);
  }

  lemma KeyTransitive(a: string, b: string, c: string)
    requires KeyLess(a, b) && KeyLess(b, c)
    ensures KeyLess(a, c)
  {
    var ka, kb, kc := Key(a), Key(b), Key(c);
    if LexLess(ka.0, kb.0) && LexLess(kb.0, kc.0) {
      LexTransitive(ka.0, kb.0, kc.0);
    } else if ka.0 == kb.0 == kc.0 {
      LexTransitive(ka.1, kb.1, kc.1);
    }
  }

  lemma KeyTotal(a: string, b: string)
    ensures KeyLess(a, b) || KeyLess(b, a) || Key(a) == Key(b)
  {
    LexTotal(Key(a).0, Key(b).0);
    LexTotal(Key(a).1, Key(b).1);
  }

  // ---------------------------------------------------------------------------
  // Sorting the names
  // ---------------------------------------------------------------------------

  predicate SortedByKey(s: seq<string>) {
    forall i, j :: 0 <= i < j < |s| ==> !KeyLess(s[j], s[i])
  }

  /** Puts `x` before the first element it is less than. */
  function InsertByKey(x: string, s: seq<string>): (r: seq<string>)
    ensures multiset(r) == multiset(s) + multiset{x}
    ensures |r| == |s| + 1
  {
    if s == [] then [x]
    else if KeyLess(x, s[0]) then [x] + s
    else
      assert s == [s[0]] + s[1..];
      [s[0]] + InsertByKey(x, s[1..])
  }

  /** An insertion sort standing in for `std::sort` with the comparator;
      the two may order names with equal keys differently. */
  function SortByKey(s: seq<string>): (r: seq<string>)
    ensures multiset(r) == multiset(s)
  {
    if s == [] then []
    else
      assert s == [s[0]] + s[1..];
      InsertByKey(s[0], SortByKey(s[1..]))
  }

  lemma {:induction false} InsertSorted(x: string, s: seq<string>)
    requires SortedByKey(s)
    ensures SortedByKey(InsertByKey(x, s))
  {
    if s != [] {
      if KeyLess(x, s[0]) {
        var r := [x] + s;
        forall i, j | 0 <= i < j < |r|
          ensures !KeyLess(r[j], r[i])
        {
          if i == 0 && KeyLess(r[j], x) {
            KeyTransitive(r[j], x, s[0]);
            KeyIrreflexive(s[0]);
          }
        }
      } else {
        InsertSorted(x, s[1..]);
        var t := InsertByKey(x, s[1..]);
        var r := [s[0]] + t;
        forall i, j | 0 <= i < j < |r|
          ensures !KeyLess(r[j], r[i])
        {
          if i == 0 {
            var y := r[j];
            assert y in multiset(t);
            if y != x {
              assert y in s[1..];
              var k :| 0 <= k < |s[1..]| && s[1..][k] == y;
              assert s[k + 1] == y;
            }
          }
        }
      }
    }
  }

  lemma {:induction false} SortByKeySorted(s: seq<string>)
    ensures SortedByKey(SortByKey(s))
  {
    if s != [] {
      SortByKeySorted(s[1..]);
      InsertSorted(s[0], SortByKey(s[1..]));
    }
  }

  // ---------------------------------------------------------------------------
  // Where the fake name lands
  // ---------------------------------------------------------------------------

  /** Number of names whose key is strictly less than the fake name's. */
  function CountLess(s: seq<string>, fake: string): (n: nat)
    ensures n <= |s|
  {
    if s == [] then 0 else (if KeyLess(s[0], fake) then 1 else 0) + CountLess(s[1..], fake)
  }

  /** No name shares the fake name's (year, week) key. */
  predicate NoTie(s: seq<string>, fake: string) {
    forall y :: y in s ==> KeyLess(y, fake) || KeyLess(fake, y)
  }

  lemma {:induction false} CountLessInsert(x: string, s: seq<string>, fake: string)
    ensures CountLess(InsertByKey(x, s), fake) == CountLess(s, fake) + (if KeyLess(x, fake) then 1 else 0)
  {
    if s != [] && !KeyLess(x, s[0]) {
      CountLessInsert(x, s[1..], fake);
      assert ([s[0]] + InsertByKey(x, s[1..]))[1..] == InsertByKey(x, s[1..]);
    } else if s != [] {
      assert ([x] + s)[1..] == s;
    }
  }

  lemma {:induction false} CountLessSort(s: seq<string>, fake: string)
    ensures CountLess(SortByKey(s), fake) == CountLess(s, fake)
  {
    if s != [] {
      CountLessSort(s[1..], fake);
      CountLessInsert(s[0], SortByKey(s[1..]), fake);
    }
  }

  lemma {:induction false} CountLessNone(s: seq<string>, fake: string)
    requires forall j :: 0 <= j < |s| ==> !KeyLess(s[j], fake)
    ensures CountLess(s, fake) == 0
  {
    if s != [] {
      CountLessNone(s[1..], fake);
    }
  }

  /** In a sorted list, everything at or after an element greater than the
      fake name is greater too. */
  lemma AboveHead(s: seq<string>, fake: string)
    requires SortedByKey(s) && |s| > 0 && KeyLess(fake, s[0])
    ensures forall j :: 0 <= j < |s| ==> !KeyLess(s[j], fake)
  {
    forall j | 0 <= j < |s|
      ensures !KeyLess(s[j], fake)
    {
      if KeyLess(s[j], fake) {
        KeyTransitive(s[j], fake, s[0]);
        KeyIrreflexive(s[0]);
      }
    }
  }

  /** Inserted into a sorted list, the fake name lands after exactly the
      names less than it. */
  lemma {:induction false} FakePosition(s: seq<string>, fake: string)
    requires SortedByKey(s) && NoTie(s, fake)
    ensures ItemIndex(InsertByKey(fake, s), fake) == CountLess(s, fake)
  {
    if s != [] {
      if KeyLess(fake, s[0]) {
        AboveHead(s, fake);
        CountLessNone(s, fake);
      } else {
        assert KeyLess(s[0], fake);
        KeyIrreflexive(fake);
        var t := InsertByKey(fake, s[1..]);
        assert fake in multiset(t);
        assert ([s[0]] + t)[1..] == t;
        FakePosition(s[1..], fake);
      }
    }
  }

  /** After `std::sort`, the fake name sits at the number of names whose
      key is less than its own, provided none shares its key. */
  lemma FakeIndex(names: seq<string>, fake: string)
    requires NoTie(names, fake)
    ensures ItemIndex(SortByKey([fake] + names), fake) == CountLess(names, fake)
  {
    var s := SortByKey(names);
    SortByKeySorted(names);
    assert ([fake] + names)[1..] == names;
    forall y | y in s
      ensures KeyLess(y, fake) || KeyLess(fake, y)
    {
      assert y in multiset(names);
    }
    FakePosition(s, fake);
    CountLessSort(names, fake);
  }

  /** When the names are already in key order, the names less than the fake
      one are exactly the first `CountLess` of them. */
  lemma {:induction false} LessPrefix(names: seq<string>, fake: string)
    requires SortedByKey(names) && NoTie(names, fake)
    ensures forall j :: 0 <= j < CountLess(names, fake) ==> KeyLess(names[j], fake)
    ensures forall j :: CountLess(names, fake) <= j < |names| ==> KeyLess(fake, names[j])
  {
    if names != [] {
      if KeyLess(fake, names[0]) {
        AboveHead(names, fake);
        CountLessNone(names, fake);
      } else {
        LessPrefix(names[1..], fake);
        assert forall j :: 1 <= j < |names| ==> names[j] == names[1..][j - 1];
      }
    }
  }

  // ---------------------------------------------------------------------------
  // find_week_files, find_week_file_by_date, find_week_files_in_span
  // ---------------------------------------------------------------------------

  /** `find_week_files(pmatch)`: the listed paths containing `pmatch`, in
      listing order. */
  function FindWeekFiles(listing: seq<string>, pmatch: string): (r: seq<string>)
    ensures forall p :: p in r <==> p in listing && HasSubstr(p, pmatch)
    ensures |r| <= |listing|
  {
    var r := Filters.Keep(listing, p => HasSubstr(p, pmatch));
    assert forall p :: p in r <==> p in listing && HasSubstr(p, pmatch) by {
      forall p {
        Filters.KeepMembers(listing, p => HasSubstr(p, pmatch), p);
      }
    }
    r
  }

  /** The search keeps the listing's order and each path's multiplicity:
      searching a listing made of two parts searches each part. */
  lemma FindWeekFilesAppend(a: seq<string>, b: seq<string>, pmatch: string)
    ensures FindWeekFiles(a + b, pmatch) == FindWeekFiles(a, pmatch) + FindWeekFiles(b, pmatch)
  {
    Filters.KeepAppend(a, b, p => HasSubstr(p, pmatch));
  }

  /** The found paths are the listing with some paths left out. */
  lemma FindWeekFilesSubseq(listing: seq<string>, pmatch: string)
    ensures Filters.IsSubseq(FindWeekFiles(listing, pmatch), listing)
  {
    Filters.KeepSubseq(listing, p => HasSubstr(p, pmatch));
  }

  /** `fs::path(p).filename()`: what follows the last `/`. */
  function FileName(p: string): (r: string)
    ensures '/' !in r
    ensures |r| <= |p| && r == p[|p| - |r|..]
    ensures |r| < |p| ==> p[|p| - |r| - 1] == '/'
  {
    if p == [] || p[|p| - 1] == '/' then []
    else
      var r := FileName(p[..|p| - 1]) + [p[|p| - 1]];
      assert p[..|p| - 1][|p| - |r|..] == p[|p| - |r|..|p| - 1];
      r
  }

  function FileNames(ps: seq<string>): (r: seq<string>)
    ensures |r| == |ps|
    ensures forall k :: 0 <= k < |ps| ==> r[k] == FileName(ps[k])
  {
    seq(|ps|, k requires 0 <= k < |ps| => FileName(ps[k]))
  }

  /** Every name sorted is long enough for `substr(8, 4)`, which throws
      `std::out_of_range` on a shorter one. */
  predicate LongNames(names: seq<string>) {
    forall k :: 0 <= k < |names| ==> |names[k]| >= 8
  }

  /** The fallback of `find_week_file_by_date`: sort the fake name among the
      week file names and take the path at its index.  An index past the
      paths reads outside the vector and gives `None`. */
  function Fallback(fpaths: seq<string>, fake: string): (r: Option<string>)
    ensures r.Some? ==> r.value in fpaths
  {
    var fnames := [fake] + FileNames(fpaths);
    if |fnames| > 1 && !LongNames(fnames) then None
    else
      var index := ItemIndex(SortByKey(fnames), fake);
      if 0 <= index < |fpaths| then Some(fpaths[index]) else None
  }

  /** The fallback picks the path at the number of week files whose name
      has a smaller (year, week) key than the fake name; when that is every
      file there is none. */
  lemma FallbackIndex(fpaths: seq<string>, fake: string)
    requires |fpaths| > 0 ==> |fake| >= 8 && LongNames(FileNames(fpaths))
    requires NoTie(FileNames(fpaths), fake)
    ensures var k := CountLess(FileNames(fpaths), fake);
            Fallback(fpaths, fake) == if k < |fpaths| then Some(fpaths[k]) else None
  {
    var names := FileNames(fpaths);
    var fnames := [fake] + names;
    LongWithFake(names, fake);
    FakeIndex(names, fake);
  }

  lemma LongWithFake(names: seq<string>, fake: string)
    requires |names| > 0 ==> |fake| >= 8 && LongNames(names)
    ensures |[fake] + names| > 1 ==> LongNames([fake] + names)
  {
    var fnames := [fake] + names;
    if |fnames| > 1 {
      forall k | 0 <= k < |fnames|
        ensures |fnames[k]| >= 8
      {
        if k > 0 {
          assert fnames[k] == names[k - 1];
        }
      }
    }
  }

  /** When the paths are listed in (year, week) order of their names, the
      fallback is the first week file after the requested week: every
      earlier file belongs to an earlier week. */
  lemma FallbackIsNextWeek(fpaths: seq<string>, fake: string)
    requires |fpaths| > 0 ==> |fake| >= 8 && LongNames(FileNames(fpaths))
    requires NoTie(FileNames(fpaths), fake)
    requires SortedByKey(FileNames(fpaths))
    ensures var k := CountLess(FileNames(fpaths), fake);
            k < |fpaths| ==>
              Fallback(fpaths, fake) == Some(fpaths[k])
              && KeyLess(fake, FileName(fpaths[k]))
              && forall i :: 0 <= i < k ==> KeyLess(FileName(fpaths[i]), fake)
  {
    var names := FileNames(fpaths);
    var k := CountLess(names, fake);
    FallbackIndex(fpaths, fake);
    LessPrefix(names, fake);
    if k < |fpaths| {
      assert KeyLess(fake, names[k]);
      forall i | 0 <= i < k
        ensures KeyLess(FileName(fpaths[i]), fake)
      {
        assert KeyLess(names[i], fake);
      }
    }
  }

  /** `find_week_file_by_date`: the first week file with the requested week's
      name in its path, or else the fallback among all week files. */
  function FindWeekFileByDate(listing: seq<string>, arg: DateArg, now: Date): (r: Option<string>)
    requires ValidDate(now) && ValidArg(arg)
  {
    var fake := WeekFileName(arg, now);
    var found := FindWeekFiles(listing, fake);
    if found != [] then Some(found[0])
    else Fallback(FindWeekFiles(listing, "week-"), fake)
  }

  lemma SubstrTransitive(a: string, b: string, c: string)
    requires HasSubstr(a, b) && HasSubstr(b, c)
    ensures HasSubstr(a, c)
  {
    var i :| 0 <= i <= |a| && OccursAt(a, b, i);
    var j :| 0 <= j <= |b| && OccursAt(b, c, j);
    var sa := a[i..i + |b|];
    forall k | 0 <= k < |c|
      ensures a[i + j + k] == c[k]
    {
      assert sa[j + k] == a[i + j + k];
      assert b[j..j + |c|][k] == b[j + k];
    }
    assert a[i + j..i + j + |c|] == c;
    assert OccursAt(a, c, i + j);
  }

  /** The path `find_week_file_by_date` returns is a week file: one whose
      path holds `week-`, so `item_index` finds it among them. */
  lemma FoundIsWeekFile(listing: seq<string>, arg: DateArg, now: Date)
    requires ValidDate(now) && ValidArg(arg)
    requires FindWeekFileByDate(listing, arg, now).Some?
    requires 1000 <= now.year <= 9999 && (arg.On? ==> 1000 <= arg.date.year <= 9999)
    ensures FindWeekFileByDate(listing, arg, now).value in FindWeekFiles(listing, "week-")
  {
    var fake := WeekFileName(arg, now);
    var found := FindWeekFiles(listing, fake);
    if found != [] {
      var p := found[0];
      assert p in found;
      if arg.On? && DayNumber(arg.date) <= DayNumber(now) {
        WeekNameFields(arg.date);
      } else {
        WeekNameFields(now);
      }
      SubstrTransitive(p, fake, "week-");
    }
  }

  /** `find_week_files_in_span`: the week files from the one holding `fr`
      to the one holding `to`, both included. */
  function FindWeekFilesInSpan(listing: seq<string>, fr: DateArg, to: DateArg, now: Date): (r: Option<seq<string>>)
    requires ValidDate(now) && ValidArg(fr) && ValidArg(to)
  {
    var frPath :- FindWeekFileByDate(listing, fr, now);
    var toPath :- FindWeekFileByDate(listing, to, now);
    Span(FindWeekFiles(listing, "week-"), frPath, toPath)
  }

  /** `vslice(fpaths, item_index(fpaths, p), item_index(fpaths, q) + 1)`. */
  function Span(fpaths: seq<string>, p: string, q: string): (r: Option<seq<string>>)
  {
    VSlice(fpaths, ItemIndex(fpaths, p), ItemIndex(fpaths, q) + 1)
  }

  /** Between two listed paths, the span runs from the first to the second,
      both included; a second path listed more than one place before the
      first gives a negative length and no span. */
  lemma SpanInclusive(fpaths: seq<string>, p: string, q: string)
    requires p in fpaths && q in fpaths
    ensures var i := ItemIndex(fpaths, p);
            var j := ItemIndex(fpaths, q);
            0 <= i < |fpaths| && 0 <= j < |fpaths|
            && (i <= j + 1 ==> Span(fpaths, p, q) == Some(fpaths[i..j + 1]))
            && (j + 1 < i ==> Span(fpaths, p, q) == None)
  {
    VSliceInclusive(fpaths, ItemIndex(fpaths, p), ItemIndex(fpaths, q));
  }

  /** Both ends of a span are week files, so the span is the inclusive run
      of week files between the two found ones. */
  lemma InSpanInclusive(listing: seq<string>, fr: DateArg, to: DateArg, now: Date)
    requires ValidDate(now) && ValidArg(fr) && ValidArg(to)
    requires 1000 <= now.year <= 9999
    requires fr.On? ==> 1000 <= fr.date.year <= 9999
    requires to.On? ==> 1000 <= to.date.year <= 9999
    requires FindWeekFileByDate(listing, fr, now).Some?
    requires FindWeekFileByDate(listing, to, now).Some?
    ensures var fpaths := FindWeekFiles(listing, "week-");
            var p := FindWeekFileByDate(listing, fr, now).value;
            var q := FindWeekFileByDate(listing, to, now).value;
            p in fpaths && q in fpaths
            && FindWeekFilesInSpan(listing, fr, to, now) == Span(fpaths, p, q)
  {
    FoundIsWeekFile(listing, fr, now);
    FoundIsWeekFile(listing, to, now);
  }

  /** A string holds another of its own length only when the two are
      equal. */
  lemma SameLengthSubstr(a: string, b: string)
    requires |a| == |b|
    ensures HasSubstr(a, b) <==> a == b
  {
    if a == b {
      assert a[0..|b|] == b;
      assert OccursAt(a, b, 0);
    }
  }

  /** With `%Y` in the names, the week file of a day early in January can
      sort before the one of a later day: 2021-01-01 lies in ISO week 53 and
      2021-01-04 in week 1, both named with the year 2021.  The span between
      them is then empty, and `concat_week_files` is handed no files. */
  lemma EmptySpanReachable()
    ensures ValidDate(Date(2021, 1, 1)) && ValidDate(Date(2021, 1, 4)) && ValidDate(Date(2022, 1, 1))
    ensures FindWeekFilesInSpan(["week-01-2021.txt", "week-53-2021.txt"],
                                On(Date(2021, 1, 1)), On(Date(2021, 1, 4)), Date(2022, 1, 1))
            == Some([])
  {
    var a := "week-01-2021.txt";
    var b := "week-53-2021.txt";
    var listing := [a, b];
    var now := Date(2022, 1, 1);
    WeekNames2021();
    assert WeekFileName(On(Date(2021, 1, 1)), now) == b;
    assert WeekFileName(On(Date(2021, 1, 4)), now) == a;
    FoundInPair(a, b, b);
    FoundInPair(a, b, a);
    FoundInPair(a, b, "week-");
    assert FindWeekFileByDate(listing, On(Date(2021, 1, 1)), now) == Some(b);
    assert FindWeekFileByDate(listing, On(Date(2021, 1, 4)), now) == Some(a);
  }

  /** The names of the two January 2021 week files. */
  lemma WeekNames2021()
    ensures ValidDate(Date(2021, 1, 1)) && ValidDate(Date(2021, 1, 4))
    ensures WeekName(Date(2021, 1, 1)) == "week-53-2021.txt"
    ensures WeekName(Date(2021, 1, 4)) == "week-01-2021.txt"
  {
    IsoWeeksJanuary2021();
    Digits2021();
  }

  lemma IsoWeeksJanuary2021()
    ensures ValidDate(Date(2021, 1, 1)) && ValidDate(Date(2021, 1, 4))
    ensures IsoWeek(Date(2021, 1, 1)) == 53 && IsoWeek(Date(2021, 1, 4)) == 1
  {
  }

  lemma Digits2021()
    ensures NatStr(2021) == "2021" && Pad2(53) == "53" && Pad2(1) == "01"
  {
    assert NatStr(20) == "20";
    assert NatStr(202) == "202";
  }

  /** Searching the pair of names for either name, or for `week-`. */
  lemma FoundInPair(a: string, b: string, pmatch: string)
    requires a == "week-01-2021.txt" && b == "week-53-2021.txt"
    requires pmatch == a || pmatch == b || pmatch == "week-"
    ensures pmatch == a ==> FindWeekFiles([a, b], pmatch) == [a]
    ensures pmatch == b ==> FindWeekFiles([a, b], pmatch) == [b]
    ensures pmatch == "week-" ==> FindWeekFiles([a, b], pmatch) == [a, b]
  {
    assert [a, b] == [a] + [b];
    FindWeekFilesAppend([a], [b], pmatch);
    if pmatch == "week-" {
      assert a[0..5] == pmatch && b[0..5] == pmatch;
      assert OccursAt(a, pmatch, 0) && OccursAt(b, pmatch, 0);
    } else {
      SameLengthSubstr(a, pmatch);
      SameLengthSubstr(b, pmatch);
    }
  }
}
