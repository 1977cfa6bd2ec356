/** The `str` namespace of tgrp/str.cpp (and the older copies of the same
    helpers in tgrp/tgrp.h): trimming, regex splitting, slicing lines and
    cutting a multi-line text at the line that holds a substring. */
module Str {
  import opened Wrappers
  import opened Text

  // ---------------------------------------------------------------------------
  // trim_right / trim_left / trim
  // ---------------------------------------------------------------------------

  predicate AllSpace(s: string) {
    forall k :: 0 <= k < |s| ==> IsSpace(s[k])
  }

  /** Where the trailing run of white space of `s[..e]` starts. */
  function TrailingSpace(s: string, e: nat): (n: nat)
    requires e <= |s|
    ensures n <= e
    ensures forall k :: n <= k < e ==> IsSpace(s[k])
    ensures n == 0 || !IsSpace(s[n - 1])
  {
    if e > 0 && IsSpace(s[e - 1]) then TrailingSpace(s, e - 1) else e
  }

  /** Where the leading run of white space of `s[b..]` ends. */
  function LeadingSpace(s: string, b: nat): (n: nat)
    requires b <= |s|
    decreases |s| - b
    ensures b <= n <= |s|
    ensures forall k :: b <= k < n ==> IsSpace(s[k])
    ensures n == |s| || !IsSpace(s[n])
  {
    if b < |s| && IsSpace(s[b]) then LeadingSpace(s, b + 1) else b
  }

  /** `regex_replace(s, "\\s+$", "")`: the trailing run of white space goes. */
  function TrimRight(s: string): (r: string)
    ensures |r| <= |s| && r == s[..|r|]
    ensures AllSpace(s[|r|..])
    ensures r == [] || !IsSpace(r[|r| - 1])
  {
    var n := TrailingSpace(s, |s|);
    assert forall k :: 0 <= k < |s| - n ==> s[n..][k] == s[n + k];
    s[..n]
  }

  /** `regex_replace(s, "^\\s+", "")`: the leading run of white space goes. */
  function TrimLeft(s: string): (r: string)
    ensures |r| <= |s| && r == s[|s| - |r|..]
    ensures AllSpace(s[..|s| - |r|])
    ensures r == [] || !IsSpace(r[0])
  {
    var n := LeadingSpace(s, 0);
    s[n..]
  }

  /** `str::trim`: `s` without its leading and trailing white space. */
  function Trim(s: string): (r: string)
    ensures r == [] || (!IsSpace(r[0]) && !IsSpace(r[|r| - 1]))
    ensures exists i :: 0 <= i <= |s| - |r| && s[i..i + |r|] == r
                        && AllSpace(s[..i]) && AllSpace(s[i + |r|..])
    ensures AllSpace(s) ==> r == []
  {
    var right := TrimRight(s);
    var r := TrimLeft(right);
    var i := |right| - |r|;
    assert s[i..i + |r|] == r;
    assert s[i + |r|..] == s[|right|..];
    assert s[..i] == right[..i];
    r
  }

  lemma TrimIdempotent(s: string)
    ensures Trim(Trim(s)) == Trim(s)
  {
    var t := Trim(s);
    if t != [] {
      assert TrimRight(t) == t;
      assert TrimLeft(t) == t;
    }
  }

  // ---------------------------------------------------------------------------
  // resplit / split_on_words
  // ---------------------------------------------------------------------------

  /** `find_first_not_of(" \t") == npos`: empty, or only blanks and tabs. */
  predicate IsBlank(t: string) {
    forall k :: 0 <= k < |t| ==> t[k] == ' ' || t[k] == '\t'
  }

  predicate NoSep(t: string, sep: char -> bool) {
    forall k :: 0 <= k < |t| ==> !sep(t[k])
  }

  /** Index of the first separator in `s`, or `|s|`. */
  function FirstSep(s: string, sep: char -> bool): (i: nat)
    ensures i <= |s|
    ensures i < |s| ==> sep(s[i])
    ensures NoSep(s[..i], sep)
  {
    if s == [] then 0
    else if sep(s[0]) then 0
    else
      var i := 1 + FirstSep(s[1..], sep);
      assert s[..i] == [s[0]] + s[1..][..i - 1];
      i
  }

  /** `str::resplit`: the text between separator matches, in order, with the
      empty and blank tokens removed.  A regex matching a run of separators
      and one matching a single separator give the same tokens once empty
      tokens are dropped, so the separator is a character class here. */
  function Resplit(s: string, sep: char -> bool): (r: seq<string>)
    decreases |s|
    ensures forall k :: 0 <= k < |r| ==> !IsBlank(r[k]) && NoSep(r[k], sep)
  {
    var i := FirstSep(s, sep);
    var head := if IsBlank(s[..i]) then [] else [s[..i]];
    if i == |s| then head else head + Resplit(s[i + 1..], sep)
  }

  /** A separator-free text is one token, unless it is blank. */
  lemma ResplitToken(s: string, sep: char -> bool)
    requires NoSep(s, sep)
    ensures Resplit(s, sep) == if IsBlank(s) then [] else [s]
  {
    assert s[..|s|] == s;
  }

  /** Splitting distributes over a separator: the tokens of `a + [c] + b`
      are those of `a` followed by those of `b`. */
  lemma ResplitAppend(a: string, c: char, b: string, sep: char -> bool)
    requires sep(c)
    ensures Resplit(a + [c] + b, sep) == Resplit(a, sep) + Resplit(b, sep)
  {
    ResplitJoin(a, [c] + b, sep);
    assert a + [c] + b == a + ([c] + b);
    assert ([c] + b)[1..] == b;
  }

  /** `ResplitAppend` with the separator and the rest as one string. */
  lemma {:induction false} ResplitJoin(a: string, t: string, sep: char -> bool)
    requires |t| > 0 && sep(t[0])
    ensures Resplit(a + t, sep) == Resplit(a, sep) + Resplit(t[1..], sep)
    decreases |a|
  {
    var i := FirstSep(a, sep);
    if i == |a| {
      var s := a + t;
      assert a[..|a|] == a;
      assert s[..|a|] == a;
      FirstSepBound(s, sep, |a|);
      assert s[|a| + 1..] == t[1..];
      ResplitStep(s, sep, |a|);
    } else {
      ResplitJoin(a[i + 1..], t, sep);
      ResplitShared(a, t, sep, i);
      ResplitStep(a, sep, i);
      Regroup(Resplit(a[..i], sep), Resplit(a[i + 1..], sep), Resplit(t[1..], sep),
              Resplit(a + t, sep), Resplit(a, sep), Resplit(a[i + 1..] + t, sep));
    }
  }

  /** Associativity with every intermediate named, so the solver does not
      look inside the parts. */
  lemma Regroup<T>(x: seq<T>, y: seq<T>, z: seq<T>, p: seq<T>, q: seq<T>, r: seq<T>)
    requires p == x + r && r == y + z && q == x + y
    ensures p == q + z
  {
    assert x + (y + z) == (x + y) + z;
  }

  /** The token before the first separator of `a` is the first token of
      any extension of `a`. */
  lemma ResplitShared(a: string, t: string, sep: char -> bool, i: nat)
    requires i < |a| && FirstSep(a, sep) == i
    ensures Resplit(a + t, sep) == Resplit(a[..i], sep) + Resplit(a[i + 1..] + t, sep)
  {
    var s := a + t;
    FirstSepPrefix(a, t, sep);
    assert s[..i] == a[..i];
    assert s[i + 1..] == a[i + 1..] + t;
    ResplitStep(s, sep, i);
  }

  /** One step of the split: the token before the first separator, then
      the rest. */
  lemma ResplitStep(s: string, sep: char -> bool, i: nat)
    requires i < |s| && FirstSep(s, sep) == i
    ensures Resplit(s, sep) == Resplit(s[..i], sep) + Resplit(s[i + 1..], sep)
  {
    ResplitToken(s[..i], sep);
  }

  /** The base case: the first separator is the one joining the parts. */
  lemma ResplitAtFirst(a: string, c: char, b: string, sep: char -> bool)
    requires sep(c) && FirstSep(a, sep) == |a|
    ensures Resplit(a + [c] + b, sep) == Resplit(a, sep) + Resplit(b, sep)
  {
    var s := a + [c] + b;
    assert a[..|a|] == a;
    assert s[..|a|] == a;
    FirstSepBound(s, sep, |a|);
    assert s[|a| + 1..] == b;
    ResplitStep(s, sep, |a|);
    ResplitToken(a, sep);
  }

  lemma FirstSepBound(s: string, sep: char -> bool, j: nat)
    requires j < |s| && sep(s[j]) && NoSep(s[..j], sep)
    ensures FirstSep(s, sep) == j
  {
    var i := FirstSep(s, sep);
    assert forall k :: 0 <= k < j ==> s[..j][k] == s[k];
    assert forall k :: 0 <= k < i ==> s[..i][k] == s[k];
  }

  lemma FirstSepPrefix(a: string, b: string, sep: char -> bool)
    requires FirstSep(a, sep) < |a|
    ensures FirstSep(a + b, sep) == FirstSep(a, sep)
  {
    var i := FirstSep(a, sep);
    assert (a + b)[..i] == a[..i];
    FirstSepBound(a + b, sep, i);
  }

  /** `[ [:punct:]]`: the word separators of `split_on_words`. */
  predicate IsWordSep(c: char) { c == ' ' || IsPunct(c) }

  /** `str::split_on_words`: no word holds a space or a punctuation mark. */
  function SplitOnWords(s: string): (r: seq<string>)
    ensures forall k, j :: 0 <= k < |r| && 0 <= j < |r[k]| ==> r[k][j] != ' ' && !IsPunct(r[k][j])
    ensures forall k :: 0 <= k < |r| ==> !IsBlank(r[k])
  {
    var r := Resplit(s, IsWordSep);
    assert forall k :: 0 <= k < |r| ==> NoSep(r[k], IsWordSep);
    r
  }

  // ---------------------------------------------------------------------------
  // lines_between
  // ---------------------------------------------------------------------------

  /** The loop of `lines_between`: `lines[i] + "\n"` for `i` in `[i, e)`. */
  function LinesFrom(lines: seq<string>, i: nat, e: nat): (r: string)
    requires i <= e <= |lines|
    decreases e - i
    ensures r == JoinLines(lines[i..e])
  {
    if i == e then []
    else
      assert lines[i..e][1..] == lines[i + 1..e];
      lines[i] + "\n" + LinesFrom(lines, i + 1, e)
  }

  /** First index `lines_between` copies: a negative start means 0. */
  function ClampBegin(b: int): nat { if b < 0 then 0 else b }

  /** One past the last index `lines_between` copies: `-1`, and any other
      negative `int` (it turns into a huge `size_t` in the comparison), or a
      bound past the end, mean the end. */
  function ClampEnd(lines: seq<string>, e: int): (r: nat)
    ensures r <= |lines|
  {
    if e < 0 || e > |lines| then |lines| else e
  }

  /** `str::lines_between(lines, b, e)`: the lines in `[max(b, 0), e)` each
      followed by a newline. */
  function LinesBetween(lines: seq<string>, b: int, e: int): (r: string)
    ensures ClampBegin(b) < ClampEnd(lines, e) ==> r == JoinLines(lines[ClampBegin(b)..ClampEnd(lines, e)])
    ensures ClampEnd(lines, e) <= ClampBegin(b) ==> r == []
  {
    var lo := ClampBegin(b);
    var hi := ClampEnd(lines, e);
    if lo < hi then LinesFrom(lines, lo, hi) else []
  }

  // ---------------------------------------------------------------------------
  // fnl_substr / remove_lines_before / remove_lines_after
  // ---------------------------------------------------------------------------

  /** The first `'\n'` at or after `pos`, or `|s|`. */
  function NextNewline(s: string, pos: nat): (q: nat)
    requires pos <= |s|
    decreases |s| - pos
    ensures pos <= q <= |s|
    ensures q < |s| ==> s[q] == '\n'
    ensures forall k :: pos <= k < q ==> s[k] != '\n'
  {
    if pos == |s| || s[pos] == '\n' then pos else NextNewline(s, pos + 1)
  }

  /** Walking down from `pos` to the first `'\n'`, stopping at 0 (the
      character at index `|s|` reads as `'\0'`). */
  function PrevNewline(s: string, pos: nat): (q: nat)
    requires pos <= |s|
    ensures q <= pos
    ensures q > 0 ==> q < |s| && s[q] == '\n'
    ensures forall k :: q < k <= pos && k < |s| ==> s[k] != '\n'
  {
    if pos == 0 then 0
    else if pos < |s| && s[pos] == '\n' then pos
    else PrevNewline(s, pos - 1)
  }

  /** `str::fnl_substr`: with `includingLast`, the newline ending the line of
      the LAST occurrence of `sub` (or `|s|`); otherwise the newline before
      the line of the FIRST occurrence (or 0).  `None` stands for `npos`. */
  function FnlSubstr(s: string, sub: string, includingLast: bool): (r: Option<nat>)
    ensures r.Some? <==> HasSubstr(s, sub)
    ensures r.Some? ==> r.value <= |s|
    ensures r.Some? && includingLast ==>
              var p := RFind(s, sub).value;
              p <= r.value && (r.value == |s| || s[r.value] == '\n')
              && forall k :: p <= k < r.value ==> s[k] != '\n'
    ensures r.Some? && !includingLast ==>
              var p := Find(s, sub).value;
              r.value <= p && (r.value == 0 || s[r.value] == '\n')
              && forall k :: r.value < k <= p && k < |s| ==> s[k] != '\n'
  {
    if includingLast then
      var p :- RFind(s, sub);
      Some(NextNewline(s, p))
    else
      var p :- Find(s, sub);
      Some(PrevNewline(s, p))
  }

  /** The outcome of an in-place cut: whether `sub` was found, and the text. */
  datatype Cut = Cut(found: bool, text: string)

  /** `str::remove_lines_before` (tgrp/str.cpp): erase `[0, pos)`. */
  function RemoveLinesBefore(s: string, sub: string, includingLast: bool): (r: Cut)
    ensures !HasSubstr(s, sub) <==> r == Cut(false, s)
    ensures r.found <==> HasSubstr(s, sub)
    ensures r.found ==> |r.text| <= |s| && r.text == s[|s| - |r.text|..]
    ensures r.found && !includingLast ==>
              HasSubstr(r.text, sub) && (r.text == s || (|r.text| > 0 && r.text[0] == '\n'))
    ensures r.found && includingLast ==> r.text == [] || r.text[0] == '\n'
    ensures r.found && includingLast && |sub| > 0 && '\n' !in sub ==> !HasSubstr(r.text, sub)
    // where the cut falls: at the newline before the first occurrence's line
    // (or 0), or at the newline ending the last occurrence's line (or |s|)
    ensures r.found && !includingLast ==>
              var c, p := |s| - |r.text|, Find(s, sub).value;
              c <= p && (c == 0 || s[c] == '\n')
              && forall k :: c < k <= p && k < |s| ==> s[k] != '\n'
    ensures r.found && includingLast ==>
              var c, p := |s| - |r.text|, RFind(s, sub).value;
              p <= c && (c == |s| || s[c] == '\n')
              && forall k :: p <= k < c ==> s[k] != '\n'
  {
    match FnlSubstr(s, sub, includingLast)
    case None => Cut(false, s)
    case Some(pos) =>
      BeforeCutFacts(s, sub, includingLast, pos);
      Cut(true, s[pos..])
  }

  /** The same helper in tgrp/tgrp.h, which erases `[0, pos + 1)`. */
  function RemoveLinesBeforeOld(s: string, sub: string, includingLast: bool): (r: Cut)
    ensures !HasSubstr(s, sub) <==> r == Cut(false, s)
    ensures r.found <==> HasSubstr(s, sub)
    ensures r.found ==> |r.text| < |s| || s == []
    ensures r.found ==> |r.text| <= |s| && r.text == s[|s| - |r.text|..]
  {
    match FnlSubstr(s, sub, includingLast)
    case None => Cut(false, s)
    case Some(pos) => Cut(true, if pos + 1 <= |s| then s[pos + 1..] else [])
  }

  /** `str::remove_lines_after` (identical in both snapshots): erase from
      `pos` to the end. */
  function RemoveLinesAfter(s: string, sub: string, includingLast: bool): (r: Cut)
    ensures !HasSubstr(s, sub) <==> r == Cut(false, s)
    ensures r.found <==> HasSubstr(s, sub)
    ensures r.found ==> |r.text| <= |s| && r.text == s[..|r.text|]
    ensures r.found && includingLast ==> |r.text| == |s| || s[|r.text|] == '\n'
    ensures r.found && includingLast && '\n' !in sub ==> HasSubstr(r.text, sub)
    ensures r.found && !includingLast ==> r.text == [] || (|r.text| < |s| && s[|r.text|] == '\n')
    ensures r.found && !includingLast && |sub| > 0 ==> !HasSubstr(r.text, sub)
    // where the cut falls, as in RemoveLinesBefore with c the kept length
    ensures r.found && !includingLast ==>
              var c, p := |r.text|, Find(s, sub).value;
              c <= p && (c == 0 || s[c] == '\n')
              && forall k :: c < k <= p && k < |s| ==> s[k] != '\n'
    ensures r.found && includingLast ==>
              var c, p := |r.text|, RFind(s, sub).value;
              p <= c && (c == |s| || s[c] == '\n')
              && forall k :: p <= k < c ==> s[k] != '\n'
  {
    match FnlSubstr(s, sub, includingLast)
    case None => Cut(false, s)
    case Some(pos) =>
      AfterCutFacts(s, sub, includingLast, pos);
      Cut(true, s[..pos])
  }

  lemma BeforeCutFacts(s: string, sub: string, includingLast: bool, pos: nat)
    requires FnlSubstr(s, sub, includingLast) == Some(pos)
    ensures !includingLast ==> HasSubstr(s[pos..], sub)
    ensures includingLast && |sub| > 0 && '\n' !in sub ==> !HasSubstr(s[pos..], sub)
  {
    if includingLast {
      NoOccurrenceAfterLast(s, sub, pos);
    } else {
      OccursInSuffix(s, sub, pos, Find(s, sub).value);
    }
  }

  lemma AfterCutFacts(s: string, sub: string, includingLast: bool, pos: nat)
    requires FnlSubstr(s, sub, includingLast) == Some(pos)
    ensures includingLast && '\n' !in sub ==> HasSubstr(s[..pos], sub)
    ensures !includingLast && |sub| > 0 ==> !HasSubstr(s[..pos], sub)
  {
    var t := s[..pos];
    if includingLast {
      var p := RFind(s, sub).value;
      OccurrenceBeforeNewline(s, sub, p, pos);
      if '\n' !in sub {
        assert t[p..p + |sub|] == s[p..p + |sub|];
        assert OccursAt(t, sub, p);
      }
    } else {
      NoOccurrenceBeforeFirst(s, sub, pos, Find(s, sub).value);
    }
  }

  /** The first occurrence, at `p`, lies in the suffix starting at `pos <= p`. */
  lemma OccursInSuffix(s: string, sub: string, pos: nat, p: nat)
    requires pos <= p && OccursAt(s, sub, p)
    ensures HasSubstr(s[pos..], sub)
  {
    assert s[pos..][p - pos..p - pos + |sub|] == s[p..p + |sub|];
    assert OccursAt(s[pos..], sub, p - pos);
  }

  /** Nothing of a non-empty, newline-free `sub` starts after its last
      occurrence `p`, so nothing starts at or after the newline `q >= p`. */
  lemma NoOccurrenceAfterLast(s: string, sub: string, q: nat)
    requires q <= |s|
    requires RFind(s, sub).Some?
    requires RFind(s, sub).value <= q
    requires q == |s| || s[q] == '\n'
    ensures |sub| > 0 && '\n' !in sub ==> !HasSubstr(s[q..], sub)
  {
    if |sub| > 0 && '\n' !in sub && HasSubstr(s[q..], sub) {
      var p := RFind(s, sub).value;
      var i :| 0 <= i <= |s[q..]| && OccursAt(s[q..], sub, i);
      assert s[q..] == s[q..|s|];
      OccursInSlice(s, sub, q, |s|, i);
      assert false;
    }
  }

  /** A newline-free occurrence at `p` ends before the newline `q >= p`. */
  lemma OccurrenceBeforeNewline(s: string, sub: string, p: nat, q: nat)
    requires OccursAt(s, sub, p) && p <= q <= |s|
    requires forall k :: p <= k < q ==> s[k] != '\n'
    requires q == |s| || s[q] == '\n'
    ensures '\n' !in sub ==> p + |sub| <= q
  {
  }

  /** A non-empty occurrence inside `s[..q]` with `q <= p` would precede the
      first one, at `p`. */
  lemma NoOccurrenceBeforeFirst(s: string, sub: string, q: nat, p: nat)
    requires q <= p <= |s|
    requires Find(s, sub) == Some(p)
    ensures |sub| > 0 ==> !HasSubstr(s[..q], sub)
  {
    if |sub| > 0 && HasSubstr(s[..q], sub) {
      var i :| 0 <= i <= q && OccursAt(s[..q], sub, i);
      OccursInSlice(s, sub, 0, q, i);
      assert false;
    }
  }

  /** The older `remove_lines_before` keeps one character less than the
      current one: the newline it cuts at, or, when no newline precedes the
      first occurrence, the first character of the text itself. */
  lemma RemoveLinesBeforeOldDropsOne(s: string, sub: string, includingLast: bool)
    ensures var cur := RemoveLinesBefore(s, sub, includingLast);
            var older := RemoveLinesBeforeOld(s, sub, includingLast);
            older.found == cur.found
            && (cur.found ==> older.text == if cur.text == [] then [] else cur.text[1..])
  {
  }

  /** When the first occurrence sits on the first line the older helper
      deletes the first character of that line. */
  lemma RemoveLinesBeforeOldFirstLine(s: string, sub: string)
    requires Find(s, sub).Some?
    requires Find(s, sub).value < |s|
    requires '\n' !in s[..Find(s, sub).value + 1]
    ensures RemoveLinesBeforeOld(s, sub, false) == Cut(true, s[1..])
  {
    var p := Find(s, sub).value;
    assert forall k :: 0 <= k <= p ==> s[..p + 1][k] == s[k];
  }
}
