/** Line parsing of tgrp/tgrp.cpp: `dt_and_task`, `projects_of_task`,
    `parse_tasks` and `tasks_to_mulstr` (with the text-only variant of
    tgrp/tgrp.h), and the task record of tgrp/structs.hpp.

    The three fixed regular expressions are ECMAScript patterns; each is
    replaced by a scanner whose contract states the match the regex engine
    picks (leftmost start, greedy `.*`, `.` never crossing a line end). */
module Tasks {
  import opened Wrappers
  import opened Text
  import opened Str
  import opened TimeSpan

  /** `ss::task_t`: the date-and-times prefix, the task text, its time span,
      words, `[project]` tags, the id `getID` gave it and the set of merged
      occurrences (kept sorted by id, as `std::set` with `operator<` on ids
      keeps it). */
  datatype Task = Task(dt: string, text: string, hm: HmT, words: seq<string>,
                       tproj: seq<string>, id: nat, subt: seq<Task>)

  // ---------------------------------------------------------------------------
  // dt_and_task
  // ---------------------------------------------------------------------------

  /** First index at or after `from` where an `HH:MM` field starts. */
  function FirstHHMM(s: string, from: nat): (r: Option<nat>)
    decreases |s| - from
    ensures r.Some? ==> from <= r.value && IsHHMMAt(s, r.value)
    ensures r.Some? ==> forall j :: from <= j < r.value ==> !IsHHMMAt(s, j)
    ensures r.None? ==> forall j :: from <= j ==> !IsHHMMAt(s, j)
  {
    if from + 5 > |s| then None
    else if IsHHMMAt(s, from) then Some(from)
    else FirstHHMM(s, from + 1)
  }

  /** A space at `p` right after an `HH:MM` field. */
  predicate SplitPointAt(s: string, p: int) {
    10 <= p < |s| && s[p] == ' ' && IsHHMMAt(s, p - 5)
  }

  /** `(^.*\d\d:\d\d.*\d\d:\d\d) (.*$)` can match with its space at `p`:
      a field ends at `p` and another one ends at or before its start. */
  predicate ValidSplit(s: string, p: int) {
    SplitPointAt(s, p) && exists i :: 0 <= i <= p - 10 && IsHHMMAt(s, i)
  }

  /** The largest `p` in `[lo, hi]` that is a split point. */
  function LastSplitPoint(s: string, lo: int, hi: int): (r: Option<nat>)
    decreases hi - lo + 1
    ensures r.Some? ==> lo <= r.value <= hi && SplitPointAt(s, r.value)
    ensures r.Some? ==> forall p :: r.value < p <= hi ==> !SplitPointAt(s, p)
    ensures r.None? ==> forall p :: lo <= p <= hi ==> !SplitPointAt(s, p)
  {
    if hi < lo then None
    else if SplitPointAt(s, hi) then Some(hi)
    else LastSplitPoint(s, lo, hi - 1)
  }

  /** `dt_and_task`: the line cut at the space of the regex match into the
      date-and-times prefix and the task text; `exit(76)` when the pattern
      does not match.  The anchors and `.` admit no line terminator, and the
      greedy first `.*` puts the cut at the last possible space. */
  function DtAndTask(s: string): (r: Result<(string, string), ParseError>)
    ensures r.Ok? <==> NoLineTerm(s) && exists p :: ValidSplit(s, p)
    ensures r.Ok? ==> r.value.0 + " " + r.value.1 == s
    ensures r.Ok? ==> ValidSplit(s, |r.value.0|)
    ensures r.Ok? ==> forall p :: |r.value.0| < p ==> !ValidSplit(s, p)
    ensures r.Err? ==> r.error == NoTaskSplit(s)
  {
    if !NoLineTerm(s) then Err(NoTaskSplit(s))
    else
      match FirstHHMM(s, 0)
      case None => Err(NoTaskSplit(s))
      case Some(f) =>
        match LastSplitPoint(s, f + 10, |s| - 1)
        case None => Err(NoTaskSplit(s))
        case Some(p) =>
          assert s[..p] + " " + s[p + 1..] == s;
          assert ValidSplit(s, p);
          Ok((s[..p], s[p + 1..]))
  }

  /** The prefix `dt_and_task` returns always holds the time span
      `time_spent` needs, so `exit(77)` cannot follow a successful split:
      the span runs from the first field of the line to the field that
      ends the prefix. */
  lemma DtAndTaskTimeSpent(s: string)
    requires DtAndTask(s).Ok?
    ensures var dt := DtAndTask(s).value.0;
            var f := FirstHHMM(s, 0);
            && f.Some? && f.value + 10 <= |dt|
            && SpanSearch(dt, 0) == Some((f.value, |dt| - 5))
            && TimeSpent(dt).Ok?
  {
    var dt := DtAndTask(s).value.0;
    var p := |dt|;
    var f := FirstHHMM(s, 0).value;
    assert dt == s[..p];
    assert ValidSplit(s, p);
    PrefixSpan(s, p, f);
  }

  /** In a terminator-free prefix that ends with a field, the time span runs
      from the first field of the whole string to that last one. */
  lemma PrefixSpan(s: string, p: nat, f: nat)
    requires NoLineTerm(s) && p <= |s| && f + 10 <= p
    requires IsHHMMAt(s, f) && IsHHMMAt(s, p - 5)
    requires forall j :: 0 <= j < f ==> !IsHHMMAt(s, j)
    ensures SpanSearch(s[..p], 0) == Some((f, p - 5))
  {
    var dt := s[..p];
    assert forall j :: 0 <= j < p ==> dt[j] == s[j];
    assert NoLineTerm(dt);
    assert IsHHMMAt(dt, f) && IsHHMMAt(dt, p - 5);
    TimeSpentFields(dt);
    var (i, k) := SpanSearch(dt, 0).value;
    assert IsHHMMAt(s, i);
  }

  // ---------------------------------------------------------------------------
  // projects_of_task
  // ---------------------------------------------------------------------------

  /** `[\[\]]`: the separators `projects_of_task` splits the tags on. */
  predicate IsBracket(c: char) { c == '[' || c == ']' }

  /** `(\[.*\])` matches from `i` to `j`: a `[` and a later `]` with no line
      end between them. */
  predicate BracketSpanAt(s: string, i: int, j: int) {
    0 <= i < j < |s| && s[i] == '[' && s[j] == ']' && NoLineTerm(s[i + 1..j])
  }

  /** The largest `j` in `[lo, hi]` holding a `]`. */
  function LastClose(s: string, lo: nat, hi: int): (r: Option<nat>)
    requires hi < |s|
    decreases hi - lo + 1
    ensures r.Some? ==> lo <= r.value <= hi && s[r.value] == ']'
    ensures r.Some? ==> forall j :: r.value < j <= hi ==> s[j] != ']'
    ensures r.None? ==> forall j :: lo <= j <= hi ==> s[j] != ']'
  {
    if hi < lo then None
    else if s[hi] == ']' then Some(hi)
    else LastClose(s, lo, hi - 1)
  }

  /** A bracket span starting at `from` ends before the first line end. */
  lemma BracketEndsBeforeTerm(s: string, from: nat, e: nat)
    requires from < |s| && e == TermFrom(s, from + 1)
    ensures forall j :: BracketSpanAt(s, from, j) ==> j < e
  {
    forall j | BracketSpanAt(s, from, j) ensures j < e {
      NoTermBefore(s, from + 1, j, e);
    }
  }

  /** `regex_search` for `(\[.*\])` from position `from`: the leftmost `[`
      that has a `]` after it on its line, and the greedy `.*` takes the last
      such `]`. */
  function BracketSearch(s: string, from: nat): (r: Option<(nat, nat)>)
    decreases |s| - from
    ensures r.Some? ==> from <= r.value.0 && BracketSpanAt(s, r.value.0, r.value.1)
    ensures r.Some? ==> forall i, j :: from <= i < r.value.0 ==> !BracketSpanAt(s, i, j)
    ensures r.Some? ==> forall j :: r.value.1 < j ==> !BracketSpanAt(s, r.value.0, j)
    ensures r.None? ==> forall i, j :: from <= i ==> !BracketSpanAt(s, i, j)
  {
    if from >= |s| then None
    else
      var e := TermFrom(s, from + 1);
      BracketEndsBeforeTerm(s, from, e);
      var last := LastClose(s, from + 1, e - 1);
      if s[from] == '[' && last.Some? then
        NoLineTermSlice(s, from + 1, last.value);
        Some((from, last.value))
      else
        SpanSearchBracketsMiss(s, from, e, last);
        BracketSearch(s, from + 1)
  }

  lemma SpanSearchBracketsMiss(s: string, from: nat, e: nat, last: Option<nat>)
    requires from < |s| && e == TermFrom(s, from + 1)
    requires last == LastClose(s, from + 1, e - 1)
    requires !(s[from] == '[' && last.Some?)
    ensures forall j :: !BracketSpanAt(s, from, j)
  {
    BracketEndsBeforeTerm(s, from, e);
  }

  /** `projects_of_task`: the text of the bracket match split on brackets,
      blank tokens dropped (`[nvim][lsp]` gives `nvim` and `lsp`); nothing
      when no `[` has a `]` after it on its line. */
  function ProjectsOfTask(s: string): (r: seq<string>)
    ensures (forall i, j :: !BracketSpanAt(s, i, j)) ==> r == []
    ensures forall k :: 0 <= k < |r| ==> !IsBlank(r[k]) && NoSep(r[k], IsBracket)
  {
    match BracketSearch(s, 0)
    case None => []
    case Some((i, j)) => Resplit(s[i..j + 1], IsBracket)
  }

  /** On a line without line ends, the bracket match runs from the first
      `[` to the last `]` whenever the first comes before the last, so the
      projects are what lies between them split on brackets; otherwise
      there are none. */
  lemma ProjectsOfLine(s: string)
    requires NoLineTerm(s)
    ensures var i := Find(s, "["); var j := RFind(s, "]");
            ProjectsOfTask(s)
              == if i.Some? && j.Some? && i.value < j.value
                 then Resplit(s[i.value..j.value + 1], IsBracket)
                 else []
  {
    SearchFindsEnds(s);
    EndsGiveSearch(s);
  }

  /** A bracket match on a line without line ends runs from the first `[`
      to the last `]`. */
  lemma SearchFindsEnds(s: string)
    requires NoLineTerm(s)
    ensures BracketSearch(s, 0).Some? ==>
              Find(s, "[") == Some(BracketSearch(s, 0).value.0)
              && RFind(s, "]") == Some(BracketSearch(s, 0).value.1)
  {
    var r := BracketSearch(s, 0);
    if r.Some? {
      MatchStartsAtFirst(s, r.value.0, r.value.1);
      MatchEndsAtLast(s, r.value.0, r.value.1);
    }
  }

  /** `c` occurs in `s` at `q` exactly when `s[q]` is `c`. */
  lemma OccursChar(s: string, c: char, q: int)
    ensures OccursAt(s, [c], q) <==> 0 <= q < |s| && s[q] == c
  {
    if 0 <= q < |s| && s[q] == c {
      assert s[q..q + 1] == [c];
    }
  }

  lemma MatchStartsAtFirst(s: string, a: nat, b: nat)
    requires NoLineTerm(s) && BracketSpanAt(s, a, b)
    requires forall i, j :: 0 <= i < a ==> !BracketSpanAt(s, i, j)
    ensures Find(s, "[") == Some(a)
  {
    OccursChar(s, '[', a);
    assert HasSubstr(s, "[");
    var i := Find(s, "[").value;
    OccursChar(s, '[', i);
    NoLineTermSlice(s, i + 1, b);
    assert i < a ==> BracketSpanAt(s, i, b);
  }

  lemma MatchEndsAtLast(s: string, a: nat, b: nat)
    requires NoLineTerm(s) && BracketSpanAt(s, a, b)
    requires forall j :: b < j ==> !BracketSpanAt(s, a, j)
    ensures RFind(s, "]") == Some(b)
  {
    OccursChar(s, ']', b);
    assert HasSubstr(s, "]");
    var j := RFind(s, "]").value;
    OccursChar(s, ']', j);
    NoLineTermSlice(s, a + 1, j);
    assert b < j ==> BracketSpanAt(s, a, j);
  }

  /** A first `[` before a last `]` on a line without line ends is a bracket
      match. */
  lemma EndsGiveSearch(s: string)
    requires NoLineTerm(s)
    ensures var i := Find(s, "["); var j := RFind(s, "]");
            i.Some? && j.Some? && i.value < j.value ==> BracketSearch(s, 0).Some?
  {
    var i := Find(s, "[");
    var j := RFind(s, "]");
    if i.Some? && j.Some? && i.value < j.value {
      OccursChar(s, '[', i.value);
      OccursChar(s, ']', j.value);
      NoLineTermSlice(s, i.value + 1, j.value);
      assert BracketSpanAt(s, i.value, j.value);
    }
  }

  /** Tags written back to back come out one by one: the projects of
      `[a][b]` are `a` and `b`. */
  lemma ProjectsOfTwoTags(a: string, b: string)
    requires NoSep(a, IsBracket) && NoSep(b, IsBracket) && !IsBlank(a) && !IsBlank(b)
    requires NoLineTerm(a) && NoLineTerm(b)
    ensures ProjectsOfTask("[" + a + "][" + b + "]") == [a, b]
  {
    var s := "[" + a + "][" + b + "]";
    var n := |s| - 1;
    assert s[0] == '[' && s[n] == ']';
    NoLineTermSlice(s, 1, n);
    assert BracketSpanAt(s, 0, n);
    assert s[0..n + 1] == s;
    ResplitTwoTags(a, b);
  }

  lemma ResplitTwoTags(a: string, b: string)
    requires NoSep(a, IsBracket) && NoSep(b, IsBracket) && !IsBlank(a) && !IsBlank(b)
    ensures Resplit("[" + a + "][" + b + "]", IsBracket) == [a, b]
  {
    var tail := "[" + b + "]";
    assert "[" + a + "][" + b + "]" == [] + ['['] + (a + [']'] + tail);
    ResplitAppend([], '[', a + [']'] + tail, IsBracket);
    ResplitAppend(a, ']', tail, IsBracket);
    ResplitToken(a, IsBracket);
    ResplitOneTag(b);
  }

  lemma ResplitOneTag(b: string)
    requires NoSep(b, IsBracket) && !IsBlank(b)
    ensures Resplit("[" + b + "]", IsBracket) == [b]
  {
    assert "[" + b + "]" == [] + ['['] + (b + [']'] + []);
    ResplitAppend([], '[', b + [']'] + [], IsBracket);
    ResplitAppend(b, ']', [], IsBracket);
    ResplitToken(b, IsBracket);
    assert Resplit([], IsBracket) == [];
  }

  // ---------------------------------------------------------------------------
  // parse_tasks
  // ---------------------------------------------------------------------------

  /** One loop turn of `parse_tasks`: split the line, read the time span of
      its prefix, the words and tags of its text.  `id` is the value `getID`
      hands the new `task_t`; a new task has no sub-tasks. */
  function ParseLine(line: string, id: nat): (r: Result<Task, ParseError>)
    ensures r.Ok? <==> DtAndTask(line).Ok?
    ensures r.Err? ==> r.error == NoTaskSplit(line)
    ensures r.Ok? ==> r.value.dt + " " + r.value.text == line
    ensures r.Ok? ==> r.value.id == id && r.value.subt == []
    ensures r.Ok? ==> TimeSpent(r.value.dt) == Ok(r.value.hm)
  {
    match DtAndTask(line)
    case Err(e) => Err(e)
    case Ok((dt, text)) =>
      DtAndTaskTimeSpent(line);
      Ok(Task(dt, text, TimeSpent(dt).value, SplitOnWords(text), ProjectsOfTask(text), id, []))
  }

  /** `parse_tasks` over a list of lines, the ids counting up from `id`: the
      first line that does not split aborts the whole parse. */
  function ParseLines(lines: seq<string>, id: nat): Result<seq<Task>, ParseError>
  {
    MapNumbered(lines, ParseLine, id)
  }

  /** Every line parses, and then line `k` becomes task `k` with id
      `id + k`; or the parse reports the first line that fails. */
  lemma ParseLinesSpec(lines: seq<string>, id: nat)
    ensures var r := ParseLines(lines, id);
            && (r.Ok? <==> forall k :: 0 <= k < |lines| ==> ParseLine(lines[k], id + k).Ok?)
            && (r.Ok? ==> |r.value| == |lines|)
            && (r.Ok? ==> forall k :: 0 <= k < |lines| ==> Ok(r.value[k]) == ParseLine(lines[k], id + k))
            && (r.Err? ==> exists k :: 0 <= k < |lines| && Err(r.error) == ParseLine(lines[k], id + k)
                                       && forall j :: 0 <= j < k ==> ParseLine(lines[j], id + j).Ok?)
  {
    MapNumberedSpec(lines, ParseLine, id);
  }

  /** `f` over `xs`, the `k`-th call numbered `id + k`, stopping at the first
      failure. */
  function MapNumbered<A, B, E>(xs: seq<A>, f: (A, nat) -> Result<B, E>, id: nat): (r: Result<seq<B>, E>)
    decreases |xs|
  {
    if xs == [] then Ok([])
    else
      match f(xs[0], id)
      case Err(e) => Err(e)
      case Ok(y) =>
        match MapNumbered(xs[1..], f, id + 1)
        case Err(e) => Err(e)
        case Ok(ys) => Ok([y] + ys)
  }

  /** The numbered map succeeds exactly when every call does, then holds
      every call's result in order; otherwise it reports the first failure. */
  lemma MapNumberedSpec<A, B, E>(xs: seq<A>, f: (A, nat) -> Result<B, E>, id: nat)
    ensures var r := MapNumbered(xs, f, id);
            && (r.Ok? <==> forall k :: 0 <= k < |xs| ==> f(xs[k], id + k).Ok?)
            && (r.Ok? ==> |r.value| == |xs|)
            && (r.Ok? ==> forall k :: 0 <= k < |xs| ==> Ok(r.value[k]) == f(xs[k], id + k))
            && (r.Err? ==> exists k :: 0 <= k < |xs| && Err(r.error) == f(xs[k], id + k)
                                       && forall j :: 0 <= j < k ==> f(xs[j], id + j).Ok?)
  {
    MapNumberedOk(xs, f, id);
    MapNumberedErr(xs, f, id);
  }

  lemma {:induction false} MapNumberedOk<A, B, E>(xs: seq<A>, f: (A, nat) -> Result<B, E>, id: nat)
    decreases |xs|
    ensures var r := MapNumbered(xs, f, id);
            && (r.Ok? <==> forall k :: 0 <= k < |xs| ==> f(xs[k], id + k).Ok?)
            && (r.Ok? ==> |r.value| == |xs|)
            && (r.Ok? ==> forall k :: 0 <= k < |xs| ==> Ok(r.value[k]) == f(xs[k], id + k))
  {
    if xs != [] {
      MapNumberedOk(xs[1..], f, id + 1);
      AllSucceedShifts(xs, f, id);
      match f(xs[0], id)
      case Err(e) =>
      case Ok(y) =>
        match MapNumbered(xs[1..], f, id + 1)
        case Err(e) =>
        case Ok(ys) =>
          ConsValues(xs, f, id, y, ys);
    }
  }

  lemma ConsValues<A, B, E>(xs: seq<A>, f: (A, nat) -> Result<B, E>, id: nat, y: B, ys: seq<B>)
    requires |xs| > 0 && f(xs[0], id) == Ok(y) && |ys| == |xs| - 1
    requires forall k :: 0 <= k < |xs| - 1 ==> Ok(ys[k]) == f(xs[1..][k], id + 1 + k)
    ensures forall k :: 0 <= k < |xs| ==> Ok(([y] + ys)[k]) == f(xs[k], id + k)
  {
    forall k | 0 <= k < |xs| ensures Ok(([y] + ys)[k]) == f(xs[k], id + k) {
      if k > 0 {
        assert ([y] + ys)[k] == ys[k - 1] && xs[k] == xs[1..][k - 1];
      }
    }
  }

  lemma {:induction false} MapNumberedErr<A, B, E>(xs: seq<A>, f: (A, nat) -> Result<B, E>, id: nat)
    decreases |xs|
    ensures var r := MapNumbered(xs, f, id);
            r.Err? ==> exists k :: 0 <= k < |xs| && Err(r.error) == f(xs[k], id + k)
                                   && forall j :: 0 <= j < k ==> f(xs[j], id + j).Ok?
  {
    if xs != [] {
      MapNumberedErr(xs[1..], f, id + 1);
      match f(xs[0], id)
      case Err(e) =>
      case Ok(y) =>
        match MapNumbered(xs[1..], f, id + 1)
        case Err(e) =>
          FirstFailureShifts(xs, f, id, e);
        case Ok(ys) =>
    }
  }

  lemma FirstFailureShifts<A, B, E>(xs: seq<A>, f: (A, nat) -> Result<B, E>, id: nat, e: E)
    requires |xs| > 0 && f(xs[0], id).Ok?
    requires exists k :: 0 <= k < |xs| - 1 && Err(e) == f(xs[1..][k], id + 1 + k)
                         && forall j :: 0 <= j < k ==> f(xs[1..][j], id + 1 + j).Ok?
    ensures exists k :: 0 <= k < |xs| && Err(e) == f(xs[k], id + k)
                        && forall j :: 0 <= j < k ==> f(xs[j], id + j).Ok?
  {
    var k :| 0 <= k < |xs| - 1 && Err(e) == f(xs[1..][k], id + 1 + k)
             && forall j :: 0 <= j < k ==> f(xs[1..][j], id + 1 + j).Ok?;
    assert Err(e) == f(xs[k + 1], id + (k + 1));
    forall j | 0 <= j < k + 1 ensures f(xs[j], id + j).Ok? {
      if j > 0 {
        assert xs[j] == xs[1..][j - 1];
      }
    }
  }

  lemma AllSucceedShifts<A, B, E>(xs: seq<A>, f: (A, nat) -> Result<B, E>, id: nat)
    requires |xs| > 0
    ensures (forall k :: 0 <= k < |xs| ==> f(xs[k], id + k).Ok?)
            <==> f(xs[0], id).Ok? && forall k :: 0 <= k < |xs| - 1 ==> f(xs[1..][k], id + 1 + k).Ok?
  {
    if forall k :: 0 <= k < |xs| ==> f(xs[k], id + k).Ok? {
      forall k | 0 <= k < |xs| - 1 ensures f(xs[1..][k], id + 1 + k).Ok? {
        assert xs[1..][k] == xs[k + 1];
      }
    }
    if f(xs[0], id).Ok? && forall k :: 0 <= k < |xs| - 1 ==> f(xs[1..][k], id + 1 + k).Ok? {
      forall k | 0 <= k < |xs| ensures f(xs[k], id + k).Ok? {
        if k > 0 {
          assert xs[k] == xs[1..][k - 1];
        }
      }
    }
  }

  /** Two parses one after the other: the first failure wins, otherwise
      the tasks are concatenated in order. */
  function JoinResults<B, E>(x: Result<seq<B>, E>, y: Result<seq<B>, E>): (r: Result<seq<B>, E>)
    ensures r.Ok? <==> x.Ok? && y.Ok?
    ensures r.Ok? ==> r.value == x.value + y.value
    ensures r.Err? ==> r.error == (if x.Err? then x.error else y.error)
  {
    match x
    case Err(e) => Err(e)
    case Ok(xs) =>
      match y
      case Err(e) => Err(e)
      case Ok(ys) => Ok(xs + ys)
  }

  /** One call's result as a result list of length one. */
  function Single<B, E>(x: Result<B, E>): (r: Result<seq<B>, E>)
    ensures r.Ok? <==> x.Ok?
    ensures r.Ok? ==> r.value == [x.value]
    ensures r.Err? ==> r.error == x.error
  {
    match x
    case Err(e) => Err(e)
    case Ok(v) => Ok([v])
  }

  lemma JoinResultsAssoc<B, E>(x: Result<seq<B>, E>, y: Result<seq<B>, E>, z: Result<seq<B>, E>)
    ensures JoinResults(JoinResults(x, y), z) == JoinResults(x, JoinResults(y, z))
  {
    if x.Ok? && y.Ok? && z.Ok? {
      assert (x.value + y.value) + z.value == x.value + (y.value + z.value);
    }
  }

  lemma MapNumberedStep<A, B, E>(xs: seq<A>, f: (A, nat) -> Result<B, E>, id: nat)
    requires |xs| > 0
    ensures MapNumbered(xs, f, id) == JoinResults(Single(f(xs[0], id)), MapNumbered(xs[1..], f, id + 1))
  {
  }

  /** Numbering `a + b` from `id` is numbering `a` from `id` and `b` from
      `id + |a|`, the first failure winning. */
  lemma {:induction false} MapNumberedAppend<A, B, E>(a: seq<A>, b: seq<A>, f: (A, nat) -> Result<B, E>, id: nat)
    decreases |a|
    ensures MapNumbered(a + b, f, id) == JoinResults(MapNumbered(a, f, id), MapNumbered(b, f, id + |a|))
  {
    if a == [] {
      assert a + b == b;
      var mb := MapNumbered(b, f, id);
      if mb.Ok? {
        assert [] + mb.value == mb.value;
      }
    } else {
      var ab := a + b;
      assert ab[0] == a[0] && ab[1..] == a[1..] + b;
      MapNumberedStep(ab, f, id);
      MapNumberedStep(a, f, id);
      MapNumberedAppend(a[1..], b, f, id + 1);
      JoinResultsAssoc(Single(f(a[0], id)), MapNumbered(a[1..], f, id + 1), MapNumbered(b, f, id + 1 + |a[1..]|));
    }
  }

  /** `parse_tasks(s)`: one task per `std::getline` line. */
  function ParseTasks(s: string, id: nat): Result<seq<Task>, ParseError>
  {
    ParseLines(Lines(s), id)
  }

  /** A successful parse has one task per line, in line order: the task's
      prefix and text rejoin to the line and its id counts up from `id`. */
  lemma ParseTasksSpec(s: string, id: nat)
    ensures var r := ParseTasks(s, id);
            && (r.Ok? ==> |r.value| == |Lines(s)|)
            && (r.Ok? ==> forall k :: 0 <= k < |r.value| ==>
                            r.value[k].dt + " " + r.value[k].text == Lines(s)[k] && r.value[k].id == id + k)
  {
    ParseLinesSpec(Lines(s), id);
  }

  /** A blank line anywhere, or a line without the time span, makes the
      whole parse fail. */
  lemma ParseTasksAllOrNothing(s: string, id: nat)
    ensures ParseTasks(s, id).Ok? <==> forall k :: 0 <= k < |Lines(s)| ==> DtAndTask(Lines(s)[k]).Ok?
    ensures [] in Lines(s) ==> ParseTasks(s, id).Err?
  {
    ParseLinesSpec(Lines(s), id);
    if [] in Lines(s) {
      var k :| 0 <= k < |Lines(s)| && Lines(s)[k] == [];
      assert !ValidSplit(Lines(s)[k], 0);
    }
  }

  /** Sequential parsing hands out strictly increasing ids in line order. */
  lemma ParseTasksIdsIncrease(s: string, id: nat)
    requires ParseTasks(s, id).Ok?
    ensures var ts := ParseTasks(s, id).value;
            forall i, j :: 0 <= i < j < |ts| ==> ts[i].id < ts[j].id
  {
    ParseTasksSpec(s, id);
  }

  // ---------------------------------------------------------------------------
  // tasks_to_mulstr
  // ---------------------------------------------------------------------------

  /** The line `tasks_to_mulstr` writes for one task. */
  function TaskLine(t: Task): string {
    t.dt + " <" + t.hm.str + "> " + t.text
  }

  function TaskLines(ts: seq<Task>): (r: seq<string>)
    ensures |r| == |ts|
    ensures forall k :: 0 <= k < |ts| ==> r[k] == TaskLine(ts[k])
  {
    if ts == [] then [] else [TaskLine(ts[0])] + TaskLines(ts[1..])
  }

  /** `tasks_to_mulstr` of tgrp/str.cpp and tgrp/tgrp.cpp. */
  function TasksToMulstr(ts: seq<Task>): string
  {
    JoinLines(TaskLines(ts))
  }

  lemma TaskLinesAppend(a: seq<Task>, b: seq<Task>)
    ensures TaskLines(a + b) == TaskLines(a) + TaskLines(b)
  {
  }

  /** `tasks_to_mulstr` writes one line per task, in order, and the lines
      read back with `std::getline` are exactly the task lines. */
  lemma TasksToMulstrLines(ts: seq<Task>)
    requires forall k :: 0 <= k < |ts| ==> '\n' !in TaskLine(ts[k])
    ensures Lines(TasksToMulstr(ts)) == TaskLines(ts)
    ensures Count(TasksToMulstr(ts), '\n') == |ts|
  {
    LinesOfJoinLines(TaskLines(ts));
    JoinLinesCount(TaskLines(ts));
  }

  /** The text of every task occurs in the `tasks_to_mulstr` output. */
  lemma TasksToMulstrHasText(ts: seq<Task>, k: nat)
    requires k < |ts|
    ensures HasSubstr(TasksToMulstr(ts), ts[k].text)
  {
    var ls := TaskLines(ts);
    assert ls == ls[..k] + [ls[k]] + ls[k + 1..];
    JoinLinesAppend(ls[..k] + [ls[k]], ls[k + 1..]);
    JoinLinesAppend(ls[..k], [ls[k]]);
    var t := ts[k];
    var before := JoinLines(ls[..k]) + t.dt + " <" + t.hm.str + "> ";
    var after := "\n" + JoinLines(ls[k + 1..]);
    assert TasksToMulstr(ts) == before + t.text + after;
    OccursBetween(before, t.text, after);
  }

  /** `tasks_to_mulstr` of tgrp/tgrp.h: only the text of each task. */
  function TasksToMulstrOld(ts: seq<Task>): string
  {
    if ts == [] then [] else ts[0].text + "\n" + TasksToMulstrOld(ts[1..])
  }

  /** The older rendering is the newer one with the prefix and the time span
      left out of every line. */
  lemma TasksToMulstrOldTexts(ts: seq<Task>)
    ensures TasksToMulstrOld(ts) == JoinLines(Texts(ts))
  {
    if ts != [] {
      assert Texts(ts)[1..] == Texts(ts[1..]);
      TasksToMulstrOldTexts(ts[1..]);
    }
  }

  function Texts(ts: seq<Task>): (r: seq<string>)
    ensures |r| == |ts|
    ensures forall k :: 0 <= k < |ts| ==> r[k] == ts[k].text
  {
    if ts == [] then [] else [ts[0].text] + Texts(ts[1..])
  }
}
