/** The chunking of `parse_tasks_parallel` (tgrp/tgrp.cpp): the text is cut
    into `T - 1` equal runs of lines plus a remainder run, each run is parsed
    on its own and the results are joined in run order.  Threads, futures and
    `hardware_concurrency` are not modelled: `T` is a parameter and every
    run is parsed in turn.  The ids a run's tasks receive depend on how the
    threads interleave their `getID` calls; `base(c)` is the id the first
    task of run `c` receives and the rest of the run counts up from it
    without gaps.  RangesDisjoint states what the shared counter does
    guarantee, that no two runs' ids coincide. */
module Parallel {
  import opened Wrappers
  import opened Text
  import opened Str
  import opened TimeSpan
  import opened Tasks

  /** Below this many newlines the text is parsed on the calling thread. */
  const PARALLEL_MIN_NEWLINES: nat := 101

  /** `threads_total < 2 || nl < 101`. */
  predicate Sequential(s: string, threads: nat) {
    threads < 2 || Count(s, '\n') < PARALLEL_MIN_NEWLINES
  }

  /** Lines per thread: `nl / (T - 1)`. */
  function LinesPerThread(s: string, threads: nat): nat
    requires threads >= 2
  {
    Count(s, '\n') / (threads - 1)
  }

  /** `count` futures, the first starting at line `lo`, each taking `lpt`
      lines: future `i` parses `run(lo + lpt * i, lo + lpt * (i + 1))`. */
  function Runs(run: (nat, nat) -> string, lo: nat, lpt: nat, count: nat): (r: seq<string>)
    decreases count
    ensures |r| == count
  {
    if count == 0 then [] else [run(lo, lo + lpt)] + Runs(run, lo + lpt, lpt, count - 1)
  }

  /** One past the last line of `count` runs of `lpt` lines from `lo`. */
  function RunsEnd(lo: nat, lpt: nat, count: nat): (e: nat)
    decreases count
    ensures lo <= e
  {
    if count == 0 then lo else RunsEnd(lo + lpt, lpt, count - 1)
  }

  lemma {:induction false} RunsEndValue(lo: nat, lpt: nat, count: nat)
    decreases count
    ensures RunsEnd(lo, lpt, count) == lo + lpt * count
  {
    if count > 0 {
      RunsEndValue(lo + lpt, lpt, count - 1);
      assert lpt * count == lpt + lpt * (count - 1);
    }
  }

  /** The text of the run over lines `[b, e)`: `lines_between(lines, b, e)`. */
  function RunText(lines: seq<string>): (nat, nat) -> string
  {
    (b: nat, e: nat) => LinesBetween(lines, b, e)
  }

  /** The texts of `n` runs of `lpt` lines, and, when `tail` holds, of one
      more run from `lpt * n` to the end (`lines_between(lines, lpt * n, -1)`). */
  function Chunking(lines: seq<string>, lpt: nat, n: nat, tail: bool): (r: seq<string>)
    ensures |r| == if tail then n + 1 else n
  {
    Runs(RunText(lines), 0, lpt, n)
      + (if tail then [LinesBetween(lines, lpt * n, -1)] else [])
  }

  /** The texts the futures parse, in the order they are joined: the
      remainder run is added when `nl % (T - 1) != 0`. */
  function ChunkTexts(s: string, threads: nat): (r: seq<string>)
    requires threads >= 2
    ensures |r| == threads - 1 || |r| == threads
  {
    var n := threads - 1;
    Chunking(Lines(s), LinesPerThread(s, threads), n, Count(s, '\n') % n != 0)
  }

  /** Each chunk split into lines and every line mapped by `f`, the ids of
      chunk `c` counting up from `base(c)`; the results are joined in chunk
      order, and a failure reports the first failing chunk's error. */
  function MapChunks<B, E>(split: string -> seq<string>, f: (string, nat) -> Result<B, E>,
                           chunks: seq<string>, base: nat -> nat, c: nat): Result<seq<B>, E>
    decreases |chunks|
  {
    if chunks == [] then Ok([])
    else JoinResults(MapNumbered(split(chunks[0]), f, base(c)), MapChunks(split, f, chunks[1..], base, c + 1))
  }

  /** Each run parsed by `parse_tasks`, its ids counting up from `base(c)`,
      and the results joined in run order as the `future.get()` loop joins
      them.  A line without a time span makes `dt_and_task` end the whole
      process from inside its thread; the model reports the first failing
      run's line, which is the line the source prints only when that run's
      thread reaches its bad line first. */
  function ParseChunks(chunks: seq<string>, base: nat -> nat, c: nat): Result<seq<Task>, ParseError>
  {
    MapChunks(Lines, ParseLine, chunks, base, c)
  }

  /** `parse_tasks_parallel(s)` with `T` hardware threads. */
  function ParseTasksParallel(s: string, threads: nat, base: nat -> nat): Result<seq<Task>, ParseError>
  {
    if Sequential(s, threads) then ParseTasks(s, base(0))
    else ParseChunks(ChunkTexts(s, threads), base, 0)
  }

  // ---------------------------------------------------------------------------
  // Which lines the runs cover
  // ---------------------------------------------------------------------------

  /** `f` applied to every chunk, the results concatenated in order. */
  function FlatMap(f: string -> seq<string>, chunks: seq<string>): seq<string>
    decreases |chunks|
  {
    if chunks == [] then [] else f(chunks[0]) + FlatMap(f, chunks[1..])
  }

  lemma FlatMapCons(f: string -> seq<string>, x: string, rest: seq<string>)
    ensures FlatMap(f, [x] + rest) == f(x) + FlatMap(f, rest)
  {
    assert ([x] + rest)[1..] == rest;
  }

  lemma {:induction false} FlatMapAppend(f: string -> seq<string>, a: seq<string>, b: seq<string>)
    decreases |a|
    ensures FlatMap(f, a + b) == FlatMap(f, a) + FlatMap(f, b)
  {
    if a == [] {
      assert a + b == b;
    } else {
      assert a + b == [a[0]] + (a[1..] + b);
      FlatMapCons(f, a[0], a[1..] + b);
      FlatMapAppend(f, a[1..], b);
      assert a == [a[0]] + a[1..];
      FlatMapCons(f, a[0], a[1..]);
    }
  }

  /** The lines the futures parse, in the order their results are joined. */
  function CoveredLines(s: string, threads: nat): seq<string>
    requires threads >= 2
  {
    FlatMap(Lines, ChunkTexts(s, threads))
  }

  /** `n` runs of `lpt` lines, and, when `tail` holds, the run from `lpt * n`
      to line `len`. */
  function RunChunks(run: (nat, nat) -> string, len: nat, lpt: nat, n: nat, tail: bool): seq<string>
  {
    Runs(run, 0, lpt, n) + (if tail then [run(lpt * n, len)] else [])
  }

  /** `lines_between(lines, b, -1)` is the run from `b` to the last line. */
  lemma ChunkingIsRunChunks(lines: seq<string>, lpt: nat, n: nat, tail: bool)
    ensures Chunking(lines, lpt, n, tail) == RunChunks(RunText(lines), |lines|, lpt, n, tail)
  {
    assert LinesBetween(lines, lpt * n, -1) == RunText(lines)(lpt * n, |lines|);
  }

  /** Splitting the run over `[b, e)` gives back lines `b` to `e - 1`. */
  predicate GivesBack(split: string -> seq<string>, run: (nat, nat) -> string, lines: seq<string>) {
    forall b: nat, e: nat :: b <= e <= |lines| ==> split(run(b, e)) == lines[b..e]
  }

  /** A run handed to `parse_tasks` gives back its own lines. */
  lemma RunLines(lines: seq<string>, a: nat, b: nat)
    requires a <= b <= |lines|
    requires forall k :: 0 <= k < |lines| ==> '\n' !in lines[k]
    ensures Lines(LinesBetween(lines, a, b)) == lines[a..b]
  {
    if a < b {
      LinesOfJoinLines(lines[a..b]);
    }
  }

  lemma LinesGiveBack(lines: seq<string>)
    requires forall k :: 0 <= k < |lines| ==> '\n' !in lines[k]
    ensures GivesBack(Lines, RunText(lines), lines)
  {
    forall b: nat, e: nat | b <= e <= |lines| ensures Lines(RunText(lines)(b, e)) == lines[b..e] {
      RunLines(lines, b, e);
    }
  }

  /** `count` runs of `lpt` lines from `lo` tile `[lo, lo + lpt * count)`. */
  lemma {:induction false} RunsTile(split: string -> seq<string>, run: (nat, nat) -> string, lines: seq<string>,
                                    lo: nat, lpt: nat, count: nat)
    requires GivesBack(split, run, lines) && RunsEnd(lo, lpt, count) <= |lines|
    decreases count
    ensures FlatMap(split, Runs(run, lo, lpt, count)) == lines[lo..RunsEnd(lo, lpt, count)]
  {
    if count > 0 {
      var hi := RunsEnd(lo, lpt, count);
      assert hi == RunsEnd(lo + lpt, lpt, count - 1);
      RunsTile(split, run, lines, lo + lpt, lpt, count - 1);
      FlatMapCons(split, run(lo, lo + lpt), Runs(run, lo + lpt, lpt, count - 1));
      assert split(run(lo, lo + lpt)) == lines[lo..lo + lpt];
      assert lines[lo..lo + lpt] + lines[lo + lpt..hi] == lines[lo..hi];
    }
  }

  /** The runs cover the first `lpt * n` lines, and the remainder run, when
      there is one, covers the rest. */
  lemma RunChunksCover(split: string -> seq<string>, run: (nat, nat) -> string, lines: seq<string>, lpt: nat, n: nat, tail: bool)
    requires GivesBack(split, run, lines) && lpt * n <= |lines|
    ensures FlatMap(split, RunChunks(run, |lines|, lpt, n, tail)) == if tail then lines else lines[..lpt * n]
  {
    var runs := Runs(run, 0, lpt, n);
    var rest: seq<string> := if tail then [run(lpt * n, |lines|)] else [];
    RunsEndValue(0, lpt, n);
    RunsTile(split, run, lines, 0, lpt, n);
    FlatMapAppend(split, runs, rest);
    if tail {
      FlatMapCons(split, rest[0], []);
      assert [rest[0]] + [] == rest;
      assert split(rest[0]) == lines[lpt * n..];
      assert lines[..lpt * n] + lines[lpt * n..] == lines;
    } else {
      assert lines[..lpt * n] + [] == lines[..lpt * n];
    }
  }

  lemma DivFloor(a: nat, n: nat)
    requires n > 0
    ensures (a / n) * n <= a
    ensures a % n == 0 ==> (a / n) * n == a
  {
  }

  /** With `nl` newlines and `nl` or `nl + 1` lines, `T - 1` runs of
      `nl / (T - 1)` lines and a remainder run when `nl % (T - 1) != 0`
      miss the last line exactly when it has no newline and the remainder
      run is not started. */
  lemma ChunkingCoverCount(lines: seq<string>, nl: nat, n: nat)
    requires forall k :: 0 <= k < |lines| ==> '\n' !in lines[k]
    requires n > 0 && nl <= |lines| <= nl + 1
    ensures nl % n == 0 && |lines| == nl + 1
            ==> FlatMap(Lines, Chunking(lines, nl / n, n, nl % n != 0)) == lines[..|lines| - 1]
    ensures nl % n != 0 || |lines| == nl
            ==> FlatMap(Lines, Chunking(lines, nl / n, n, nl % n != 0)) == lines
  {
    DivFloor(nl, n);
    LinesGiveBack(lines);
    ChunkingIsRunChunks(lines, nl / n, n, nl % n != 0);
    RunChunksCover(Lines, RunText(lines), lines, nl / n, n, nl % n != 0);
    if nl % n == 0 && |lines| == nl {
      assert lines[..nl] == lines;
    }
  }

  /** A text has as many lines as newlines, one more when its last line is
      not terminated. */
  lemma LinesShape(s: string)
    ensures Count(s, '\n') <= |Lines(s)| <= Count(s, '\n') + 1
    ensures |Lines(s)| == Count(s, '\n') <==> s == [] || EndsWithNewline(s)
  {
    LinesCount(s);
  }

  /** The text ends in a newline, or the remainder run is started. */
  predicate LastLineCovered(s: string, threads: nat)
    requires threads >= 2
  {
    s == [] || EndsWithNewline(s) || Count(s, '\n') % (threads - 1) != 0
  }

  /** As written, the futures miss the last line exactly when the text does
      not end in a newline and `nl` is a multiple of `T - 1`; otherwise they
      cover every line, in order. */
  lemma ChunkTextsCover(s: string, threads: nat)
    requires threads >= 2
    ensures !LastLineCovered(s, threads)
            ==> |Lines(s)| > 0 && CoveredLines(s, threads) == Lines(s)[..|Lines(s)| - 1]
    ensures LastLineCovered(s, threads) ==> CoveredLines(s, threads) == Lines(s)
  {
    LinesShape(s);
    ChunkingCoverCount(Lines(s), Count(s, '\n'), threads - 1);
  }

  // ---------------------------------------------------------------------------
  // The corrected chunking
  // ---------------------------------------------------------------------------

  /** The chunking with the remainder run added whenever lines are left after
      the `T - 1` equal runs. */
  function ChunkTextsFixed(s: string, threads: nat): (r: seq<string>)
    requires threads >= 2
    ensures |r| == threads - 1 || |r| == threads
  {
    var n := threads - 1;
    var lpt := LinesPerThread(s, threads);
    Chunking(Lines(s), lpt, n, lpt * n < |Lines(s)|)
  }

  function ParseTasksParallelFixed(s: string, threads: nat, base: nat -> nat): Result<seq<Task>, ParseError>
  {
    if Sequential(s, threads) then ParseTasks(s, base(0))
    else ParseChunks(ChunkTextsFixed(s, threads), base, 0)
  }

  /** The corrected runs cover every line of the text, in order. */
  lemma ChunkTextsFixedCover(s: string, threads: nat)
    requires threads >= 2
    ensures FlatMap(Lines, ChunkTextsFixed(s, threads)) == Lines(s)
  {
    var n := threads - 1;
    var nl := Count(s, '\n');
    var lines := Lines(s);
    var lpt := LinesPerThread(s, threads);
    LinesCount(s);
    DivFloor(nl, n);
    LinesGiveBack(lines);
    ChunkingIsRunChunks(lines, lpt, n, lpt * n < |lines|);
    RunChunksCover(Lines, RunText(lines), lines, lpt, n, lpt * n < |lines|);
    if lpt * n == |lines| {
      assert lines[..lpt * n] == lines;
    }
  }

  // ---------------------------------------------------------------------------
  // Joining the runs' results
  // ---------------------------------------------------------------------------

  /** Run `c` numbers its tasks from `id`, run `c + 1` from where run `c`
      stopped, and so on: the ids a single thread would hand out. */
  predicate ContiguousBases(split: string -> seq<string>, chunks: seq<string>, base: nat -> nat, c: nat, id: nat)
    decreases |chunks|
  {
    chunks == [] || (base(c) == id && ContiguousBases(split, chunks[1..], base, c + 1, id + |split(chunks[0])|))
  }

  lemma ContiguousCons(split: string -> seq<string>, x: string, rest: seq<string>, base: nat -> nat, c: nat, id: nat)
    requires base(c) == id && ContiguousBases(split, rest, base, c + 1, id + |split(x)|)
    ensures ContiguousBases(split, [x] + rest, base, c, id)
  {
    assert ([x] + rest)[1..] == rest;
  }

  /** The first run is `parse_tasks` of its text; the others follow it. */
  lemma ParseChunksFirst(chunks: seq<string>, base: nat -> nat, c: nat)
    requires chunks != []
    ensures ParseChunks(chunks, base, c) == JoinResults(ParseTasks(chunks[0], base(c)), ParseChunks(chunks[1..], base, c + 1))
  {
  }

  /** Mapping the chunks and joining the results in chunk order is mapping
      their lines one after the other. */
  lemma {:induction false} MapChunksSequential<B, E>(split: string -> seq<string>, f: (string, nat) -> Result<B, E>,
                                                     chunks: seq<string>, base: nat -> nat, c: nat, id: nat)
    requires ContiguousBases(split, chunks, base, c, id)
    decreases |chunks|
    ensures MapChunks(split, f, chunks, base, c) == MapNumbered(FlatMap(split, chunks), f, id)
  {
    if chunks != [] {
      var first := split(chunks[0]);
      var later := FlatMap(split, chunks[1..]);
      MapChunksSequential(split, f, chunks[1..], base, c + 1, id + |first|);
      MapNumberedAppend(first, later, f, id);
    }
  }

  /** Parsing the runs and joining the results in run order is parsing
      their lines one after the other. */
  lemma ParseChunksSequential(chunks: seq<string>, base: nat -> nat, c: nat, id: nat)
    requires ContiguousBases(Lines, chunks, base, c, id)
    ensures ParseChunks(chunks, base, c) == ParseLines(FlatMap(Lines, chunks), id)
  {
    MapChunksSequential(Lines, ParseLine, chunks, base, c, id);
  }

  /** Runs `c` to `c + count - 1` number their tasks from `id`, `id + lpt`,
      `id + 2 * lpt`, ... */
  predicate UniformBases(base: nat -> nat, c: nat, count: nat, id: nat, lpt: nat)
    decreases count
  {
    count == 0 || (base(c) == id && UniformBases(base, c + 1, count - 1, id + lpt, lpt))
  }

  /** Each of the `count` runs from `lo` splits into `lpt` lines. */
  predicate UniformRuns(split: string -> seq<string>, run: (nat, nat) -> string, lo: nat, lpt: nat, count: nat)
    decreases count
  {
    count == 0 || (|split(run(lo, lo + lpt))| == lpt && UniformRuns(split, run, lo + lpt, lpt, count - 1))
  }

  /** Runs of `lpt` lines whose ids start `lpt` apart are numbered as one
      thread would number them. */
  lemma {:induction false} RunsContiguous(split: string -> seq<string>, run: (nat, nat) -> string, lo: nat, lpt: nat, count: nat,
                                          rest: seq<string>, base: nat -> nat, c: nat, id: nat)
    requires UniformRuns(split, run, lo, lpt, count)
    requires UniformBases(base, c, count, id, lpt)
    requires ContiguousBases(split, rest, base, c + count, RunsEnd(id, lpt, count))
    decreases count
    ensures ContiguousBases(split, Runs(run, lo, lpt, count) + rest, base, c, id)
  {
    if count > 0 {
      var first := run(lo, lo + lpt);
      var later := Runs(run, lo + lpt, lpt, count - 1);
      assert Runs(run, lo, lpt, count) + rest == [first] + (later + rest);
      assert RunsEnd(id, lpt, count) == RunsEnd(id + lpt, lpt, count - 1);
      RunsContiguous(split, run, lo + lpt, lpt, count - 1, rest, base, c + 1, id + lpt);
      ContiguousCons(split, first, later + rest, base, c, id);
    } else {
      assert Runs(run, lo, lpt, count) + rest == rest;
    }
  }

  /** Every run of `lpt` lines gives back `lpt` lines. */
  lemma {:induction false} GivesBackUniform(split: string -> seq<string>, run: (nat, nat) -> string, lines: seq<string>,
                                            lo: nat, lpt: nat, count: nat)
    requires GivesBack(split, run, lines) && RunsEnd(lo, lpt, count) <= |lines|
    decreases count
    ensures UniformRuns(split, run, lo, lpt, count)
  {
    if count > 0 {
      assert RunsEnd(lo, lpt, count) == RunsEnd(lo + lpt, lpt, count - 1);
      assert split(run(lo, lo + lpt)) == lines[lo..lo + lpt];
      GivesBackUniform(split, run, lines, lo + lpt, lpt, count - 1);
    }
  }

  /** Ids handed out `lpt` apart from `id` on. */
  lemma {:induction false} LinearBases(base: nat -> nat, c: nat, count: nat, id: nat, lpt: nat)
    requires forall j: nat :: c <= j < c + count ==> base(j) == id + lpt * (j - c)
    decreases count
    ensures UniformBases(base, c, count, id, lpt)
  {
    if count > 0 {
      forall j: nat | c + 1 <= j < c + count ensures base(j) == id + lpt + lpt * (j - (c + 1)) {
        assert lpt * (j - c) == lpt + lpt * (j - (c + 1));
      }
      LinearBases(base, c + 1, count - 1, id + lpt, lpt);
    }
  }

  /** With run `c` numbered from `id + lpt * c`, the runs number their
      tasks as one thread would. */
  lemma RunChunksContiguous(split: string -> seq<string>, run: (nat, nat) -> string, lines: seq<string>,
                            lpt: nat, n: nat, tail: bool, base: nat -> nat, id: nat)
    requires GivesBack(split, run, lines) && lpt * n <= |lines|
    requires forall j: nat :: j <= n ==> base(j) == id + lpt * j
    ensures ContiguousBases(split, RunChunks(run, |lines|, lpt, n, tail), base, 0, id)
  {
    RunsEndValue(0, lpt, n);
    RunsEndValue(id, lpt, n);
    GivesBackUniform(split, run, lines, 0, lpt, n);
    LinearBases(base, 0, n, id, lpt);
    var rest: seq<string> := if tail then [run(lpt * n, |lines|)] else [];
    if tail {
      assert base(n) == RunsEnd(id, lpt, n);
      ContiguousCons(split, rest[0], [], base, n, RunsEnd(id, lpt, n));
      assert [rest[0]] + [] == rest;
    }
    RunsContiguous(split, run, 0, lpt, n, rest, base, 0, id);
  }

  // ---------------------------------------------------------------------------
  // Parallel parsing against sequential parsing
  // ---------------------------------------------------------------------------

  /** The ids a single thread would hand out: run `c` starts at `id + lpt * c`. */
  predicate SequentialIds(s: string, threads: nat, base: nat -> nat, id: nat) {
    base(0) == id
    && (threads >= 2 ==> forall j: nat :: j < threads ==> base(j) == id + LinesPerThread(s, threads) * j)
  }

  /** Parsing the chunking's runs, numbered `lpt` apart, is parsing the
      lines they cover. */
  lemma ChunkingParse(lines: seq<string>, lpt: nat, n: nat, tail: bool, base: nat -> nat, id: nat)
    requires forall k :: 0 <= k < |lines| ==> '\n' !in lines[k]
    requires lpt * n <= |lines|
    requires forall j: nat :: j <= n ==> base(j) == id + lpt * j
    ensures ParseChunks(Chunking(lines, lpt, n, tail), base, 0) == ParseLines(FlatMap(Lines, Chunking(lines, lpt, n, tail)), id)
  {
    LinesGiveBack(lines);
    ChunkingIsRunChunks(lines, lpt, n, tail);
    RunChunksContiguous(Lines, RunText(lines), lines, lpt, n, tail, base, id);
    ParseChunksSequential(Chunking(lines, lpt, n, tail), base, 0, id);
  }

  /** With the corrected chunking, parallel parsing is sequential parsing:
      the same tasks in the same order, or the same first error. */
  lemma ParallelFixedAgrees(s: string, threads: nat, base: nat -> nat, id: nat)
    requires SequentialIds(s, threads, base, id)
    ensures ParseTasksParallelFixed(s, threads, base) == ParseTasks(s, id)
  {
    if !Sequential(s, threads) {
      var lines := Lines(s);
      var lpt := LinesPerThread(s, threads);
      LinesShape(s);
      DivFloor(Count(s, '\n'), threads - 1);
      ChunkingParse(lines, lpt, threads - 1, lpt * (threads - 1) < |lines|, base, id);
      ChunkTextsFixedCover(s, threads);
    }
  }

  /** As written, parallel parsing is sequential parsing whenever the last
      line is covered. */
  lemma ParallelAgreesWhenCovered(s: string, threads: nat, base: nat -> nat, id: nat)
    requires SequentialIds(s, threads, base, id)
    requires threads >= 2 ==> LastLineCovered(s, threads)
    ensures ParseTasksParallel(s, threads, base) == ParseTasks(s, id)
  {
    if !Sequential(s, threads) {
      var lines := Lines(s);
      var lpt := LinesPerThread(s, threads);
      LinesShape(s);
      DivFloor(Count(s, '\n'), threads - 1);
      ChunkingParse(lines, lpt, threads - 1, Count(s, '\n') % (threads - 1) != 0, base, id);
      ChunkTextsCover(s, threads);
    }
  }

  /** As written, on two hardware threads a text of 101 or more lines whose
      last line has no newline loses that line: the single run stops at
      line `nl` and no remainder run is started. */
  lemma ParallelDropsLastLine(s: string, base: nat -> nat, id: nat)
    requires Count(s, '\n') >= PARALLEL_MIN_NEWLINES && !EndsWithNewline(s)
    requires SequentialIds(s, 2, base, id)
    ensures |Lines(s)| == Count(s, '\n') + 1
    ensures ParseTasksParallel(s, 2, base) == ParseLines(Lines(s)[..|Lines(s)| - 1], id)
  {
    var nl := Count(s, '\n');
    LinesShape(s);
    assert nl % 1 == 0 && nl / 1 == nl;
    ChunkingParse(Lines(s), nl, 1, false, base, id);
    ChunkTextsCover(s, 2);
  }

  /** Losing the last line loses the last task. */
  lemma DropLastParse(lines: seq<string>, id: nat)
    requires |lines| > 0
    ensures ParseLines(lines, id).Ok? ==> ParseLines(lines[..|lines| - 1], id).Ok?
                                          && |ParseLines(lines[..|lines| - 1], id).value| == |ParseLines(lines, id).value| - 1
  {
    ParseLinesSpec(lines, id);
    ParseLinesSpec(lines[..|lines| - 1], id);
    assert forall k :: 0 <= k < |lines| - 1 ==> lines[..|lines| - 1][k] == lines[k];
  }

  // ---------------------------------------------------------------------------
  // Ids across runs
  // ---------------------------------------------------------------------------

  /** Id `x` is one of the `n` ids from `b`. */
  predicate InRange(x: nat, b: nat, n: nat) { b <= x < b + n }

  /** Run `i` takes the `|Lines(chunks[i])|` ids from `base(c + i)`, and no
      two runs' ranges overlap: the runs draw their ids from one shared
      counter, in whatever order the threads reach it. */
  predicate RangesDisjoint(chunks: seq<string>, base: nat -> nat, c: nat) {
    forall i, j :: 0 <= i < j < |chunks| ==>
      base(c + i) + |Lines(chunks[i])| <= base(c + j) || base(c + j) + |Lines(chunks[j])| <= base(c + i)
  }

  /** The runs after the first keep their ranges apart. */
  lemma RangesDisjointTail(chunks: seq<string>, base: nat -> nat, c: nat)
    requires chunks != [] && RangesDisjoint(chunks, base, c)
    ensures RangesDisjoint(chunks[1..], base, c + 1)
  {
    forall i, j | 0 <= i < j < |chunks[1..]|
      ensures base(c + 1 + i) + |Lines(chunks[1..][i])| <= base(c + 1 + j)
              || base(c + 1 + j) + |Lines(chunks[1..][j])| <= base(c + 1 + i)
    {
      assert chunks[1..][i] == chunks[i + 1] && chunks[1..][j] == chunks[j + 1];
      assert c + 1 + i == c + (i + 1) && c + 1 + j == c + (j + 1);
    }
  }

  /** An id in the range of a later run is outside the first run's range. */
  lemma LaterRun(chunks: seq<string>, base: nat -> nat, c: nat, x: nat)
    requires chunks != [] && RangesDisjoint(chunks, base, c)
    requires exists i :: 0 <= i < |chunks[1..]| && InRange(x, base(c + 1 + i), |Lines(chunks[1..][i])|)
    ensures exists i :: 0 <= i < |chunks| && InRange(x, base(c + i), |Lines(chunks[i])|)
    ensures !InRange(x, base(c), |Lines(chunks[0])|)
  {
    var i :| 0 <= i < |chunks[1..]| && InRange(x, base(c + 1 + i), |Lines(chunks[1..][i])|);
    assert chunks[1..][i] == chunks[i + 1];
    assert c + 1 + i == c + (i + 1);
    assert c + 0 == c;
    assert InRange(x, base(c + (i + 1)), |Lines(chunks[i + 1])|);
  }

  /** No task has sub-tasks yet. */
  predicate NoSubtasks(v: seq<Task>) {
    forall k :: 0 <= k < |v| ==> v[k].subt == []
  }

  /** No two tasks share an id. */
  predicate IdsApart(v: seq<Task>) {
    forall k, l :: 0 <= k < l < |v| ==> v[k].id != v[l].id
  }

  /** Every task's id lies in the range of one of the runs. */
  predicate IdsInRuns(v: seq<Task>, chunks: seq<string>, base: nat -> nat, c: nat) {
    forall k :: 0 <= k < |v| ==>
      exists i :: 0 <= i < |chunks| && InRange(v[k].id, base(c + i), |Lines(chunks[i])|)
  }

  /** One run's tasks carry the ids from `b` in line order. */
  lemma RunIds(chunk: string, b: nat)
    requires MapNumbered(Lines(chunk), ParseLine, b).Ok?
    ensures var xs := MapNumbered(Lines(chunk), ParseLine, b).value;
            && |xs| == |Lines(chunk)| && NoSubtasks(xs)
            && forall k :: 0 <= k < |xs| ==> xs[k].id == b + k
  {
    var xs := MapNumbered(Lines(chunk), ParseLine, b).value;
    MapNumberedSpec(Lines(chunk), ParseLine, b);
    forall k | 0 <= k < |xs|
      ensures xs[k].subt == [] && xs[k].id == b + k
    {
      assert Ok(xs[k]) == ParseLine(Lines(chunk)[k], b + k);
    }
  }

  /** Ids counting up from `b`, followed by distinct ids outside that
      range, are distinct. */
  lemma JoinApart(xs: seq<Task>, ys: seq<Task>, b: nat)
    requires forall k :: 0 <= k < |xs| ==> xs[k].id == b + k
    requires IdsApart(ys)
    requires forall l :: 0 <= l < |ys| ==> !InRange(ys[l].id, b, |xs|)
    ensures IdsApart(xs + ys)
  {
    var v := xs + ys;
    forall k, l | 0 <= k < l < |v|
      ensures v[k].id != v[l].id
    {
      if l < |xs| {
      } else if k < |xs| {
        assert v[l] == ys[l - |xs|];
      } else {
        assert v[k] == ys[k - |xs|] && v[l] == ys[l - |xs|];
      }
    }
  }

  /** The first run's ids and the later runs' ids all lie in some run. */
  lemma JoinInRuns(xs: seq<Task>, ys: seq<Task>, chunks: seq<string>, base: nat -> nat, c: nat)
    requires chunks != [] && |xs| == |Lines(chunks[0])|
    requires forall k :: 0 <= k < |xs| ==> xs[k].id == base(c) + k
    requires IdsInRuns(ys, chunks[1..], base, c + 1)
    requires RangesDisjoint(chunks, base, c)
    ensures IdsInRuns(xs + ys, chunks, base, c)
    ensures forall l :: 0 <= l < |ys| ==> !InRange(ys[l].id, base(c), |xs|)
  {
    var v := xs + ys;
    forall l | 0 <= l < |ys|
      ensures exists i :: 0 <= i < |chunks| && InRange(ys[l].id, base(c + i), |Lines(chunks[i])|)
      ensures !InRange(ys[l].id, base(c), |xs|)
    {
      LaterRun(chunks, base, c, ys[l].id);
    }
    forall k | 0 <= k < |v|
      ensures exists i :: 0 <= i < |chunks| && InRange(v[k].id, base(c + i), |Lines(chunks[i])|)
    {
      if k < |xs| {
        assert c + 0 == c;
        assert InRange(v[k].id, base(c + 0), |Lines(chunks[0])|);
      } else {
        assert v[k] == ys[k - |xs|];
      }
    }
  }

  /** With the runs' id ranges apart, the parsed tasks have no sub-tasks
      and pairwise distinct ids, each drawn from its own run's range. */
  lemma {:induction false} ParseChunksFresh(chunks: seq<string>, base: nat -> nat, c: nat)
    requires ParseChunks(chunks, base, c).Ok?
    requires RangesDisjoint(chunks, base, c)
    decreases |chunks|
    ensures var v := ParseChunks(chunks, base, c).value;
            NoSubtasks(v) && IdsApart(v) && IdsInRuns(v, chunks, base, c)
  {
    if chunks != [] {
      var x := MapNumbered(Lines(chunks[0]), ParseLine, base(c));
      var rest := ParseChunks(chunks[1..], base, c + 1);
      assert ParseChunks(chunks, base, c) == JoinResults(x, rest);
      RunIds(chunks[0], base(c));
      RangesDisjointTail(chunks, base, c);
      ParseChunksFresh(chunks[1..], base, c + 1);
      JoinInRuns(x.value, rest.value, chunks, base, c);
      JoinApart(x.value, rest.value, base(c));
      assert NoSubtasks(x.value + rest.value);
    }
  }
}
