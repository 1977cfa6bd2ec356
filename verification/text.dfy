/** Character classes, substring search, `std::getline` splitting, `std::stoi`
    and the `{:02}` number formatting shared by the whole engine.  Strings are
    `seq<char>`; one `char` stands for one byte of the original `std::string`. */
module Text {
  import opened Wrappers

  // ---------------------------------------------------------------------------
  // Character classes (the "C" locale)
  // ---------------------------------------------------------------------------

  /** `\d` of an ECMAScript regex. */
  predicate IsDigit(c: char) { '0' <= c <= '9' }

  /** `\s` of an ECMAScript regex and `isspace` of the "C" locale. */
  predicate IsSpace(c: char) {
    c == ' ' || c == '\t' || c == '\n' || c == '\U{000B}' || c == '\U{000C}' || c == '\r'
  }

  /** The characters an ECMAScript `.` refuses to match. */
  predicate IsLineTerm(c: char) { c == '\n' || c == '\r' }

  /** `[:punct:]` of the "C" locale: the printable ASCII characters that are
      neither letters, digits nor the space. */
  predicate IsPunct(c: char) {
    ('!' <= c <= '/') || (':' <= c <= '@') || ('[' <= c <= '`') || ('{' <= c <= '~')
  }

  predicate NoLineTerm(s: string) {
    forall k :: 0 <= k < |s| ==> !IsLineTerm(s[k])
  }

  function DigitChar(d: nat): (c: char)
    requires d < 10
    ensures IsDigit(c)
  {
    "0123456789"[d]
  }

  function DigitValue(c: char): (d: nat)
    requires IsDigit(c)
    ensures d < 10
  {
    (c as int - '0' as int) as nat
  }

  lemma DigitRoundTrip(d: nat)
    requires d < 10
    ensures DigitValue(DigitChar(d)) == d
  {
  }

  // ---------------------------------------------------------------------------
  // Substring search: `find`, `rfind`, `has_substr`
  // ---------------------------------------------------------------------------

  /** `sub` occurs in `s` starting at index `i`. */
  predicate OccursAt(s: string, sub: string, i: int) {
    0 <= i && i + |sub| <= |s| && s[i..i + |sub|] == sub
  }

  predicate HasSubstr(s: string, sub: string) {
    exists i :: 0 <= i <= |s| && OccursAt(s, sub, i)
  }

  /** First occurrence of `sub` at or after `from` (`std::string::find`). */
  function FindFrom(s: string, sub: string, from: nat): (r: Option<nat>)
    decreases |s| - from
    ensures r.Some? ==> from <= r.value && OccursAt(s, sub, r.value)
    ensures r.Some? ==> forall q :: from <= q < r.value ==> !OccursAt(s, sub, q)
    ensures r.None? ==> forall q :: from <= q ==> !OccursAt(s, sub, q)
  {
    if from + |sub| > |s| then None
    else if s[from..from + |sub|] == sub then Some(from)
    else FindFrom(s, sub, from + 1)
  }

  function Find(s: string, sub: string): (r: Option<nat>)
    ensures r.Some? <==> HasSubstr(s, sub)
    ensures r.Some? ==> OccursAt(s, sub, r.value)
    ensures r.Some? ==> forall q :: 0 <= q < r.value ==> !OccursAt(s, sub, q)
  {
    FindFrom(s, sub, 0)
  }

  /** Last occurrence of `sub` starting at or before `upto` (`std::string::rfind`). */
  function RFindUpTo(s: string, sub: string, upto: int): (r: Option<nat>)
    decreases upto + 1
    ensures r.Some? ==> r.value <= upto && OccursAt(s, sub, r.value)
    ensures r.Some? ==> forall q :: r.value < q <= upto ==> !OccursAt(s, sub, q)
    ensures r.None? ==> forall q :: q <= upto ==> !OccursAt(s, sub, q)
  {
    if upto < 0 then None
    else if OccursAt(s, sub, upto) then Some(upto)
    else RFindUpTo(s, sub, upto - 1)
  }

  function RFind(s: string, sub: string): (r: Option<nat>)
    ensures r.Some? <==> HasSubstr(s, sub)
    ensures r.Some? ==> OccursAt(s, sub, r.value)
    ensures r.Some? ==> forall q :: r.value < q ==> !OccursAt(s, sub, q)
  {
    RFindUpTo(s, sub, |s| - |sub|)
  }

  /** `sub` occurs in `a + sub + b` right after `a`. */
  lemma OccursBetween(a: string, sub: string, b: string)
    ensures OccursAt(a + sub + b, sub, |a|)
    ensures HasSubstr(a + sub + b, sub)
  {
    assert (a + sub + b)[|a|..|a| + |sub|] == sub;
    assert OccursAt(a + sub + b, sub, |a|);
  }

  /** An occurrence inside a slice is an occurrence in the whole string. */
  lemma OccursInSlice(s: string, sub: string, lo: nat, hi: nat, i: int)
    requires lo <= hi <= |s|
    requires OccursAt(s[lo..hi], sub, i)
    ensures OccursAt(s, sub, lo + i)
  {
    var t := s[lo..hi];
    assert forall k :: 0 <= k < |t| ==> t[k] == s[lo + k];
    assert s[lo + i..lo + i + |sub|] == t[i..i + |sub|];
  }

  // ---------------------------------------------------------------------------
  // `std::getline` splitting and joining lines
  // ---------------------------------------------------------------------------

  /** Index of the first `c` in `s`, or `|s|` when there is none. */
  function IndexOf(s: string, c: char): (i: nat)
    ensures i <= |s|
    ensures i < |s| ==> s[i] == c
    ensures forall k :: 0 <= k < i ==> s[k] != c
  {
    if s == [] then 0
    else if s[0] == c then 0
    else 1 + IndexOf(s[1..], c)
  }

  /** The tokens repeated `std::getline(stream, token, d)` calls extract:
      a final delimiter does not start another (empty) token, and the empty
      string has no tokens. */
  function Split(s: string, d: char): (r: seq<string>)
    decreases |s|
    ensures forall k :: 0 <= k < |r| ==> d !in r[k]
  {
    if s == [] then []
    else
      var i := IndexOf(s, d);
      if i == |s| then [s] else [s[..i]] + Split(s[i + 1..], d)
  }

  /** The lines `std::getline(stream, line)` yields. */
  function Lines(s: string): (r: seq<string>)
    ensures forall k :: 0 <= k < |r| ==> '\n' !in r[k]
  {
    Split(s, '\n')
  }

  /** Each line followed by a newline, in order (an `ostringstream` written
      with `line << '\n'`). */
  function JoinLines(ls: seq<string>): string
  {
    if ls == [] then [] else ls[0] + "\n" + JoinLines(ls[1..])
  }

  /** Number of occurrences of `c` in `s` (`std::count`). */
  function Count(s: string, c: char): nat
  {
    if s == [] then 0 else (if s[0] == c then 1 else 0) + Count(s[1..], c)
  }

  predicate EndsWithNewline(s: string) { |s| > 0 && s[|s| - 1] == '\n' }

  lemma JoinLinesAppend(a: seq<string>, b: seq<string>)
    ensures JoinLines(a + b) == JoinLines(a) + JoinLines(b)
  {
    if a == [] {
      assert a + b == b;
    } else {
      assert (a + b)[1..] == a[1..] + b;
      JoinLinesAppend(a[1..], b);
    }
  }

  lemma CountAppend(a: string, b: string, c: char)
    ensures Count(a + b, c) == Count(a, c) + Count(b, c)
  {
    if a == [] {
      assert a + b == b;
    } else {
      assert (a + b)[1..] == a[1..] + b;
      CountAppend(a[1..], b, c);
    }
  }

  lemma CountAbsent(s: string, c: char)
    requires c !in s
    ensures Count(s, c) == 0
  {
    if s != [] {
      CountAbsent(s[1..], c);
    }
  }

  /** Joining the lines of a text gives the text back, with a newline added
      when the text did not end in one. */
  lemma {:induction false} JoinLinesOfLines(s: string)
    ensures s == [] || EndsWithNewline(s) ==> JoinLines(Lines(s)) == s
    ensures s != [] && !EndsWithNewline(s) ==> JoinLines(Lines(s)) == s + "\n"
    decreases |s|
  {
    if s != [] {
      var i := IndexOf(s, '\n');
      if i == |s| {
        assert Lines(s) == [s];
        assert JoinLines([s]) == s + "\n" + JoinLines([]);
        assert '\n' !in s;
      } else {
        var rest := s[i + 1..];
        assert Lines(s) == [s[..i]] + Lines(rest);
        JoinLinesOfLines(rest);
        assert s == s[..i] + "\n" + rest;
        if rest != [] {
          assert rest[|rest| - 1] == s[|s| - 1];
        }
      }
    }
  }

  /** Splitting joined newline-free lines recovers them. */
  lemma {:induction false} LinesOfJoinLines(ls: seq<string>)
    requires forall k :: 0 <= k < |ls| ==> '\n' !in ls[k]
    ensures Lines(JoinLines(ls)) == ls
  {
    if ls != [] {
      var s := JoinLines(ls);
      var l := ls[0];
      assert s == l + "\n" + JoinLines(ls[1..]);
      assert s[|l|] == '\n';
      assert forall k :: 0 <= k < |l| ==> s[k] == l[k];
      assert IndexOf(s, '\n') == |l|;
      assert s[..|l|] == l;
      assert s[|l| + 1..] == JoinLines(ls[1..]);
      LinesOfJoinLines(ls[1..]);
    }
  }

  /** Joined newline-free lines hold one newline per line. */
  lemma {:induction false} JoinLinesCount(ls: seq<string>)
    requires forall k :: 0 <= k < |ls| ==> '\n' !in ls[k]
    ensures Count(JoinLines(ls), '\n') == |ls|
  {
    if ls != [] {
      JoinLinesCount(ls[1..]);
      CountAbsent(ls[0], '\n');
      CountAppend(ls[0], "\n" + JoinLines(ls[1..]), '\n');
      assert ls[0] + "\n" + JoinLines(ls[1..]) == ls[0] + ("\n" + JoinLines(ls[1..]));
      assert ("\n" + JoinLines(ls[1..]))[1..] == JoinLines(ls[1..]);
    }
  }

  /** The number of lines is the number of newlines, plus one for an
      unterminated last line. */
  lemma {:induction false} LinesCount(s: string)
    ensures s == [] || EndsWithNewline(s) ==> |Lines(s)| == Count(s, '\n')
    ensures s != [] && !EndsWithNewline(s) ==> |Lines(s)| == Count(s, '\n') + 1
    decreases |s|
  {
    if s != [] {
      var i := IndexOf(s, '\n');
      if i == |s| {
        CountAbsent(s, '\n');
      } else {
        var rest := s[i + 1..];
        LinesCount(rest);
        assert s == s[..i] + ("\n" + rest);
        CountAppend(s[..i], "\n" + rest, '\n');
        CountAbsent(s[..i], '\n');
        assert ("\n" + rest)[1..] == rest;
        if rest != [] {
          assert rest[|rest| - 1] == s[|s| - 1];
        }
      }
    }
  }

  // ---------------------------------------------------------------------------
  // `std::stoi` and `split_vi`
  // ---------------------------------------------------------------------------

  /** The two exceptions `std::stoi` throws. */
  datatype StoiError = InvalidArgument | OutOfRange

  const INT_MIN: int := -0x8000_0000
  const INT_MAX: int := 0x7FFF_FFFF

  /** Value of a string of decimal digits. */
  function DigitsValue(ds: string): nat
    requires forall k :: 0 <= k < |ds| ==> IsDigit(ds[k])
  {
    if ds == [] then 0
    else DigitsValue(ds[..|ds| - 1]) * 10 + DigitValue(ds[|ds| - 1])
  }

  /** Length of the run of characters satisfying `p` at the front of `s`. */
  function SpanOf(s: string, p: char -> bool): (n: nat)
    ensures n <= |s|
    ensures forall k :: 0 <= k < n ==> p(s[k])
    ensures n < |s| ==> !p(s[n])
  {
    if s == [] || !p(s[0]) then 0 else 1 + SpanOf(s[1..], p)
  }

  /** `std::stoi(token)`: leading white space, an optional sign, at least one
      digit; whatever follows the digits is ignored. */
  function Stoi(tok: string): (r: Result<int, StoiError>)
    ensures r.Ok? ==> INT_MIN <= r.value <= INT_MAX
  {
    var ws := SpanOf(tok, IsSpace);
    var rest := tok[ws..];
    var neg := |rest| > 0 && rest[0] == '-';
    var signed := |rest| > 0 && (rest[0] == '-' || rest[0] == '+');
    var body := if signed then rest[1..] else rest;
    var n := SpanOf(body, IsDigit);
    if n == 0 then Err(InvalidArgument)
    else
      var v: int := DigitsValue(body[..n]);
      var value: int := if neg then -v else v;
      if value < INT_MIN || INT_MAX < value then Err(OutOfRange) else Ok(value)
  }

  /** Every `std::getline` token parsed by `std::stoi`; the first exception
      aborts. */
  function StoiAll(toks: seq<string>): (r: Result<seq<int>, StoiError>)
    ensures r.Ok? ==> |r.value| == |toks|
  {
    if toks == [] then Ok([])
    else
      match Stoi(toks[0])
      case Err(e) => Err(e)
      case Ok(v) =>
        match StoiAll(toks[1..])
        case Err(e) => Err(e)
        case Ok(vs) => Ok([v] + vs)
  }

  /** `split_vi`: the integers of the `d`-separated tokens of `s`. */
  function SplitVi(s: string, d: char): Result<seq<int>, StoiError>
  {
    StoiAll(Split(s, d))
  }

  // ---------------------------------------------------------------------------
  // `{:02}` formatting
  // ---------------------------------------------------------------------------

  /** Decimal digits of `n`, without leading zeros. */
  function NatStr(n: nat): (r: string)
    ensures |r| >= 1
    ensures n < 10 <==> |r| == 1
    ensures n < 100 ==> |r| <= 2
    ensures forall k :: 0 <= k < |r| ==> IsDigit(r[k])
  {
    if n < 10 then [DigitChar(n)] else NatStr(n / 10) + [DigitChar(n % 10)]
  }

  /** `fmt::format("{:02}", n)` for a non-negative `n`: at least two digits. */
  function Pad2(n: nat): (r: string)
    ensures |r| >= 2
    ensures n < 100 ==> |r| == 2
    ensures forall k :: 0 <= k < |r| ==> IsDigit(r[k])
  {
    if n < 10 then ['0', DigitChar(n)] else NatStr(n)
  }

  /** `fmt::format("{:02}", i)` for any `int`: a negative number is its
      sign followed by its digits (the width of two is already met). */
  function FormatInt02(i: int): string
  {
    if i < 0 then "-" + NatStr(-i) else Pad2(i)
  }

  lemma {:induction false} NatStrValue(n: nat)
    ensures DigitsValue(NatStr(n)) == n
  {
    if n >= 10 {
      var r := NatStr(n);
      NatStrValue(n / 10);
      assert r[..|r| - 1] == NatStr(n / 10);
      DigitRoundTrip(n % 10);
    } else {
      DigitRoundTrip(n);
      assert NatStr(n)[..0] == [];
    }
  }

  lemma Pad2Value(n: nat)
    ensures DigitsValue(Pad2(n)) == n
  {
    if n < 10 {
      var r := Pad2(n);
      assert r[..1] == ['0'];
      assert ['0'][..0] == [];
      assert DigitsValue(['0']) == 0;
      DigitRoundTrip(n);
      assert DigitsValue(r) == DigitsValue(r[..1]) * 10 + DigitValue(r[1]);
    } else {
      NatStrValue(n);
    }
  }

  /** Reading a zero-padded number back with `std::stoi` gives the number. */
  lemma StoiPad2(n: nat)
    requires n <= INT_MAX
    ensures Stoi(Pad2(n)) == Ok(n)
  {
    var t := Pad2(n);
    assert SpanOf(t, IsSpace) == 0;
    assert t[0..] == t;
    assert SpanOf(t, IsDigit) == |t|;
    assert t[..|t|] == t;
    Pad2Value(n);
  }

  /** Two-digit padding is injective below 100. */
  lemma Pad2Injective(a: nat, b: nat)
    requires Pad2(a) == Pad2(b)
    ensures a == b
  {
    Pad2Value(a);
    Pad2Value(b);
  }
}
