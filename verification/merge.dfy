/** A set ordered by a natural-number key, as `std::set` with a comparator
    on that key keeps it: the list of its elements in ascending key order,
    one element per key. */
module OrderedSets {
  predicate KeySorted<T>(s: seq<T>, key: T -> nat) {
    forall i, j :: 0 <= i < j < |s| ==> key(s[i]) < key(s[j])
  }

  /** The key of every element, in order. */
  function Keys<T, K>(s: seq<T>, key: T -> K): (r: seq<K>)
    ensures |r| == |s|
    ensures forall k :: 0 <= k < |s| ==> r[k] == key(s[k])
  {
    if s == [] then [] else [key(s[0])] + Keys(s[1..], key)
  }

  /** `insert`: an element whose key is already present is dropped;
      otherwise it goes where its key belongs. */
  function SetInsert<T>(s: seq<T>, t: T, key: T -> nat): seq<T>
    decreases |s|
  {
    if s == [] then [t]
    else if key(t) < key(s[0]) then [t] + s
    else if key(t) == key(s[0]) then s
    else [s[0]] + SetInsert(s[1..], t, key)
  }

  /** `insert(first, last)`: the elements inserted one by one. */
  function SetInsertAll<T>(s: seq<T>, ts: seq<T>, key: T -> nat): seq<T>
    decreases |ts|
  {
    if ts == [] then s else SetInsertAll(SetInsert(s, ts[0], key), ts[1..], key)
  }

  predicate KeysAbove<T>(s: seq<T>, key: T -> nat, b: nat) {
    forall k :: 0 <= k < |s| ==> b < key(s[k])
  }

  lemma {:induction false} SetInsertAbove<T>(s: seq<T>, t: T, key: T -> nat, b: nat)
    requires KeysAbove(s, key, b) && b < key(t)
    ensures KeysAbove(SetInsert(s, t, key), key, b)
    decreases |s|
  {
    if s != [] && key(t) > key(s[0]) {
      SetInsertAbove(s[1..], t, key, b);
    }
  }

  /** Inserting keeps the keys ascending. */
  lemma {:induction false} SetInsertSorted<T>(s: seq<T>, t: T, key: T -> nat)
    requires KeySorted(s, key)
    ensures KeySorted(SetInsert(s, t, key), key)
    decreases |s|
  {
    if s != [] && key(t) > key(s[0]) {
      SetInsertSorted(s[1..], t, key);
      SetInsertAbove(s[1..], t, key, key(s[0]));
    }
  }

  /** An element whose key is present leaves the set unchanged. */
  lemma {:induction false} SetInsertPresent<T>(s: seq<T>, t: T, key: T -> nat)
    requires KeySorted(s, key) && key(t) in Keys(s, key)
    ensures SetInsert(s, t, key) == s
    decreases |s|
  {
    assert s != [];
    assert Keys(s, key) == [key(s[0])] + Keys(s[1..], key);
    if key(t) > key(s[0]) {
      SetInsertPresent(s[1..], t, key);
      assert s == [s[0]] + s[1..];
    }
  }

  /** An element with a new key is added, and nothing else changes. */
  lemma {:induction false} SetInsertNew<T>(s: seq<T>, t: T, key: T -> nat)
    requires key(t) !in Keys(s, key)
    ensures multiset(SetInsert(s, t, key)) == multiset(s) + multiset{t}
    decreases |s|
  {
    if s != [] {
      KeysCons(s, key);
      if key(t) > key(s[0]) {
        SetInsertNew(s[1..], t, key);
        ConsMultiset(s, SetInsert(s[1..], t, key), t);
      }
    }
  }

  lemma KeysCons<T>(s: seq<T>, key: T -> nat)
    requires s != []
    ensures Keys(s, key) == [key(s[0])] + Keys(s[1..], key)
  {
  }

  lemma ConsMultiset<T>(s: seq<T>, rest: seq<T>, t: T)
    requires s != [] && multiset(rest) == multiset(s[1..]) + multiset{t}
    ensures multiset([s[0]] + rest) == multiset(s) + multiset{t}
  {
    assert s == [s[0]] + s[1..];
  }

  lemma {:induction false} SetInsertAllSorted<T>(s: seq<T>, ts: seq<T>, key: T -> nat)
    requires KeySorted(s, key)
    ensures KeySorted(SetInsertAll(s, ts, key), key)
    decreases |ts|
  {
    if ts != [] {
      SetInsertSorted(s, ts[0], key);
      SetInsertAllSorted(SetInsert(s, ts[0], key), ts[1..], key);
    }
  }

  /** After an insertion the keys are the old ones and the new element's. */
  lemma {:induction false} SetInsertKeys<T>(s: seq<T>, t: T, key: T -> nat, x: nat)
    requires x in Keys(SetInsert(s, t, key), key)
    ensures x in Keys(s, key) || x == key(t)
    decreases |s|
  {
    if s != [] {
      KeysCons(s, key);
      if key(t) < key(s[0]) {
        KeysCons([t] + s, key);
        assert ([t] + s)[1..] == s;
      } else if key(t) > key(s[0]) {
        var rest := SetInsert(s[1..], t, key);
        KeysCons([s[0]] + rest, key);
        assert ([s[0]] + rest)[1..] == rest;
        if x != key(s[0]) {
          SetInsertKeys(s[1..], t, key, x);
        }
      }
    }
  }

  predicate DistinctKeys<T>(ts: seq<T>, key: T -> nat) {
    forall i, j :: 0 <= i < j < |ts| ==> key(ts[i]) != key(ts[j])
  }

  /** Inserting elements whose keys are distinct and new adds all of them. */
  lemma DistinctCons<T>(t: T, rest: seq<T>, key: T -> nat)
    requires DistinctKeys(rest, key)
    requires forall k :: 0 <= k < |rest| ==> key(rest[k]) != key(t)
    ensures DistinctKeys([t] + rest, key)
  {
    var s := [t] + rest;
    forall i, j | 0 <= i < j < |s|
      ensures key(s[i]) != key(s[j])
    {
      assert s[j] == rest[j - 1];
      if i > 0 {
        assert s[i] == rest[i - 1];
      }
    }
  }

  /** Strictly increasing keys are distinct. */
  lemma SortedDistinct<T>(s: seq<T>, key: T -> nat)
    requires KeySorted(s, key)
    ensures DistinctKeys(s, key)
  {
  }

  lemma {:induction false} SetInsertAllNew<T>(s: seq<T>, ts: seq<T>, key: T -> nat)
    requires DistinctKeys(ts, key)
    requires forall k :: 0 <= k < |ts| ==> key(ts[k]) !in Keys(s, key)
    ensures multiset(SetInsertAll(s, ts, key)) == multiset(s) + multiset(ts)
    decreases |ts|
  {
    if ts != [] {
      var t, rest := ts[0], ts[1..];
      TailFacts(s, ts, key);
      SetInsertNew(s, t, key);
      FreshAfterInsert(s, t, rest, key);
      SetInsertAllNew(SetInsert(s, t, key), rest, key);
      HeadMultiset(ts);
    }
  }

  lemma TailFacts<T>(s: seq<T>, ts: seq<T>, key: T -> nat)
    requires ts != [] && DistinctKeys(ts, key)
    requires forall k :: 0 <= k < |ts| ==> key(ts[k]) !in Keys(s, key)
    ensures DistinctKeys(ts[1..], key)
    ensures key(ts[0]) !in Keys(s, key)
    ensures forall k :: 0 <= k < |ts| - 1 ==> key(ts[1..][k]) != key(ts[0]) && key(ts[1..][k]) !in Keys(s, key)
  {
    assert forall k :: 0 <= k < |ts| - 1 ==> ts[1..][k] == ts[k + 1];
  }

  lemma FreshAfterInsert<T>(s: seq<T>, t: T, rest: seq<T>, key: T -> nat)
    requires forall k :: 0 <= k < |rest| ==> key(rest[k]) != key(t) && key(rest[k]) !in Keys(s, key)
    ensures forall k :: 0 <= k < |rest| ==> key(rest[k]) !in Keys(SetInsert(s, t, key), key)
  {
    forall k | 0 <= k < |rest|
      ensures key(rest[k]) !in Keys(SetInsert(s, t, key), key)
    {
      if key(rest[k]) in Keys(SetInsert(s, t, key), key) {
        SetInsertKeys(s, t, key, key(rest[k]));
      }
    }
  }

  lemma HeadMultiset<T>(ts: seq<T>)
    requires ts != []
    ensures multiset(ts) == multiset{ts[0]} + multiset(ts[1..])
  {
    assert ts == [ts[0]] + ts[1..];
  }
}

/** Removing the elements that fail a test from a list, both as the
    erase-while-iterating loop of `merge_tasks` does it and as intended. */
module Filters {
  import opened OrderedSets

  /** The erase loop is defined: it never erases the last element it
      visits, which would step its iterator past the end. */
  predicate WalkDefined<T>(v: seq<T>, keep: T -> bool)
    decreases |v|
  {
    if v == [] then true
    else if keep(v[0]) then WalkDefined(v[1..], keep)
    else |v| >= 2 && WalkDefined(v[2..], keep)
  }

  /** The erase loop as written.  By the C++ standard `erase(it)`
      invalidates `it`, so every `++it` after an erase is undefined
      behaviour.  The model assumes what a contiguous `std::vector` does in
      practice: `it` is left on the element that moved into the erased
      slot, `++it` steps over that element, and so the element after each
      erased one is kept without being examined. */
  function SkipWalk<T>(v: seq<T>, keep: T -> bool): (r: seq<T>)
    requires WalkDefined(v, keep)
    decreases |v|
  {
    if v == [] then []
    else if keep(v[0]) then [v[0]] + SkipWalk(v[1..], keep)
    else [v[1]] + SkipWalk(v[2..], keep)
  }

  /** The elements that pass the test, in order. */
  function Keep<T>(v: seq<T>, keep: T -> bool): (r: seq<T>)
    ensures |r| <= |v|
    ensures forall k :: 0 <= k < |r| ==> keep(r[k])
    decreases |v|
  {
    if v == [] then []
    else if keep(v[0]) then [v[0]] + Keep(v[1..], keep)
    else Keep(v[1..], keep)
  }

  /** `a` is `b` with some elements left out. */
  predicate IsSubseq<T(==)>(a: seq<T>, b: seq<T>)
    decreases |b|
  {
    if a == [] then true
    else if b == [] then false
    else (a[0] == b[0] && IsSubseq(a[1..], b[1..])) || IsSubseq(a, b[1..])
  }

  /** The loop only removes elements. */
  lemma {:induction false} SkipWalkSubseq<T>(v: seq<T>, keep: T -> bool)
    requires WalkDefined(v, keep)
    ensures IsSubseq(SkipWalk(v, keep), v)
    decreases |v|
  {
    if v != [] {
      var r := SkipWalk(v, keep);
      if keep(v[0]) {
        SkipWalkSubseq(v[1..], keep);
        assert r[1..] == SkipWalk(v[1..], keep);
      } else {
        SkipWalkSubseq(v[2..], keep);
        assert r[1..] == SkipWalk(v[2..], keep);
        assert v[1..][1..] == v[2..];
        assert IsSubseq(r, v[1..]);
      }
    }
  }

  /** The loop never removes an element that passes the test. */
  lemma {:induction false} KeepSubseqSkipWalk<T>(v: seq<T>, keep: T -> bool)
    requires WalkDefined(v, keep)
    ensures IsSubseq(Keep(v, keep), SkipWalk(v, keep))
    decreases |v|
  {
    if v != [] {
      var r := SkipWalk(v, keep);
      if keep(v[0]) {
        KeepSubseqSkipWalk(v[1..], keep);
        assert r[1..] == SkipWalk(v[1..], keep);
        assert Keep(v, keep)[1..] == Keep(v[1..], keep);
      } else {
        KeepSubseqSkipWalk(v[2..], keep);
        assert r[1..] == SkipWalk(v[2..], keep);
        assert v[1..][1..] == v[2..];
        if keep(v[1]) {
          assert Keep(v, keep) == [v[1]] + Keep(v[2..], keep);
        } else {
          assert Keep(v, keep) == Keep(v[2..], keep);
          SubseqCons(Keep(v[2..], keep), SkipWalk(v[2..], keep), v[1]);
        }
      }
    }
  }

  lemma SubseqCons<T>(a: seq<T>, b: seq<T>, x: T)
    requires IsSubseq(a, b)
    ensures IsSubseq(a, [x] + b)
  {
    assert ([x] + b)[1..] == b;
  }

  lemma {:induction false} SubseqMembers<T>(a: seq<T>, b: seq<T>, x: T)
    requires IsSubseq(a, b) && x in a
    ensures x in b
    decreases |b|
  {
    if a[0] == b[0] && IsSubseq(a[1..], b[1..]) {
      if x != a[0] {
        assert x in a[1..];
        SubseqMembers(a[1..], b[1..], x);
      }
    } else {
      SubseqMembers(a, b[1..], x);
    }
  }

  /** Leaving elements out keeps keys distinct. */
  lemma {:induction false} SubseqDistinct<T>(a: seq<T>, b: seq<T>, key: T -> nat)
    requires IsSubseq(a, b) && DistinctKeys(b, key)
    ensures DistinctKeys(a, key)
    decreases |b|
  {
    if a != [] {
      assert DistinctKeys(b[1..], key);
      if a[0] == b[0] && IsSubseq(a[1..], b[1..]) {
        SubseqDistinct(a[1..], b[1..], key);
        forall k | 0 <= k < |a[1..]|
          ensures key(a[1..][k]) != key(a[0])
        {
          SubseqMembers(a[1..], b[1..], a[1..][k]);
          var j :| 0 <= j < |b[1..]| && b[1..][j] == a[1..][k];
          assert b[j + 1] == a[1..][k];
        }
        DistinctCons(a[0], a[1..], key);
        assert a == [a[0]] + a[1..];
      } else {
        SubseqDistinct(a, b[1..], key);
      }
    }
  }

  /** When every element passes, the loop is defined and keeps everything. */
  lemma {:induction false} SkipWalkAllKept<T>(v: seq<T>, keep: T -> bool)
    requires forall k :: 0 <= k < |v| ==> keep(v[k])
    ensures WalkDefined(v, keep) && SkipWalk(v, keep) == v
    decreases |v|
  {
    if v != [] {
      assert keep(v[0]);
      SkipWalkAllKept(v[1..], keep);
      assert v == [v[0]] + v[1..];
    }
  }

  /** When every element passes, nothing is removed. */
  lemma {:induction false} KeepAllKept<T>(v: seq<T>, keep: T -> bool)
    requires forall k :: 0 <= k < |v| ==> keep(v[k])
    ensures Keep(v, keep) == v
    decreases |v|
  {
    if v != [] {
      assert keep(v[0]);
      KeepAllKept(v[1..], keep);
      assert v == [v[0]] + v[1..];
    }
  }

  /** Removing elements keeps keys distinct. */
  lemma {:induction false} KeepDistinct<T>(v: seq<T>, keep: T -> bool, key: T -> nat)
    requires DistinctKeys(v, key)
    ensures DistinctKeys(Keep(v, keep), key)
    decreases |v|
  {
    if v != [] {
      assert DistinctKeys(v[1..], key);
      KeepDistinct(v[1..], keep, key);
      var rest := Keep(v[1..], keep);
      if keep(v[0]) {
        forall k | 0 <= k < |rest|
          ensures key(rest[k]) != key(v[0])
        {
          KeepMembers(v[1..], keep, rest[k]);
          var j :| 0 <= j < |v[1..]| && v[1..][j] == rest[k];
          assert v[j + 1] == rest[k];
        }
        DistinctCons(v[0], rest, key);
      }
    }
  }

  /** An element is kept exactly when it is in the list and passes. */
  lemma {:induction false} KeepMembers<T>(v: seq<T>, keep: T -> bool, x: T)
    ensures x in Keep(v, keep) <==> x in v && keep(x)
    decreases |v|
  {
    if v != [] {
      KeepMembers(v[1..], keep, x);
      assert v == [v[0]] + v[1..];
    }
  }

  /** Filtering a concatenation filters each part. */
  lemma {:induction false} KeepAppend<T>(a: seq<T>, b: seq<T>, keep: T -> bool)
    ensures Keep(a + b, keep) == Keep(a, keep) + Keep(b, keep)
    decreases |a|
  {
    if a == [] {
      assert a + b == b;
    } else {
      assert (a + b)[1..] == a[1..] + b;
      KeepAppend(a[1..], b, keep);
    }
  }

  /** Filtering twice with the same test removes nothing more. */
  lemma {:induction false} KeepIdempotent<T>(v: seq<T>, keep: T -> bool)
    ensures Keep(Keep(v, keep), keep) == Keep(v, keep)
    decreases |v|
  {
    if v != [] {
      KeepIdempotent(v[1..], keep);
      var rest := Keep(v[1..], keep);
      if keep(v[0]) {
        assert ([v[0]] + rest)[1..] == rest;
      }
    }
  }

  /** The kept elements appear in the list, in the list's order. */
  lemma {:induction false} KeepSubseq<T>(v: seq<T>, keep: T -> bool)
    ensures IsSubseq(Keep(v, keep), v)
    decreases |v|
  {
    if v != [] {
      KeepSubseq(v[1..], keep);
      var r := Keep(v, keep);
      if keep(v[0]) {
        assert r[1..] == Keep(v[1..], keep);
      } else if r != [] {
        assert IsSubseq(r, v[1..]);
      }
    }
  }
}

/** Grouping a list by a key, as the nested loops of `merge_tasks` do: the
    first element with a given key heads a bucket holding every element with
    that key, and the later ones leave the list. */
module Grouping {
  import opened Sums
  import opened OrderedSets

  /** The elements whose key is `x`, in order. */
  function SameKey<T, K(==)>(v: seq<T>, f: T -> K, x: K): (r: seq<T>)
    ensures |r| <= |v|
    ensures forall k :: 0 <= k < |r| ==> f(r[k]) == x
    decreases |v|
  {
    if v == [] then []
    else if f(v[0]) == x then [v[0]] + SameKey(v[1..], f, x)
    else SameKey(v[1..], f, x)
  }

  /** The elements whose key is not in `seen`, in order. */
  function NotIn<T, K(==)>(v: seq<T>, f: T -> K, seen: set<K>): (r: seq<T>)
    ensures |r| <= |v|
    ensures forall k :: 0 <= k < |r| ==> f(r[k]) !in seen
    decreases |v|
  {
    if v == [] then []
    else if f(v[0]) in seen then NotIn(v[1..], f, seen)
    else [v[0]] + NotIn(v[1..], f, seen)
  }

  lemma {:induction false} SameKeyMembers<T, K>(v: seq<T>, f: T -> K, x: K, y: T)
    ensures y in SameKey(v, f, x) <==> y in v && f(y) == x
    decreases |v|
  {
    if v != [] {
      SameKeyMembers(v[1..], f, x, y);
      assert v == [v[0]] + v[1..];
    }
  }

  /** Picking out one key keeps distinct ids distinct. */
  lemma {:induction false} SameKeyDistinct<T, K>(v: seq<T>, f: T -> K, x: K, key: T -> nat)
    requires DistinctKeys(v, key)
    ensures DistinctKeys(SameKey(v, f, x), key)
    decreases |v|
  {
    if v != [] {
      assert DistinctKeys(v[1..], key);
      SameKeyDistinct(v[1..], f, x, key);
      var rest := SameKey(v[1..], f, x);
      if f(v[0]) == x {
        forall k | 0 <= k < |rest|
          ensures key(rest[k]) != key(v[0])
        {
          SameKeyMembers(v[1..], f, x, rest[k]);
          var j :| 0 <= j < |v[1..]| && v[1..][j] == rest[k];
          assert v[j + 1] == rest[k];
        }
        DistinctCons(v[0], rest, key);
      }
    }
  }

  /** The buckets in the order the outer loop visits their heads: the head
      collects every element with its key, and the rest of the list loses
      them before the next head is taken. */
  function Buckets<T, K(==)>(v: seq<T>, f: T -> K): (r: seq<seq<T>>)
    ensures forall k :: 0 <= k < |r| ==> r[k] != []
    decreases |v|
  {
    if v == [] then []
    else [SameKey(v, f, f(v[0]))] + Buckets(NotIn(v[1..], f, {f(v[0])}), f)
  }

  /** Reference definition: the keys in order of first occurrence, each
      once, skipping those already `seen`. */
  function FirstKeys<T, K(==)>(v: seq<T>, f: T -> K, seen: set<K>): (r: seq<K>)
    decreases |v|
  {
    if v == [] then []
    else if f(v[0]) in seen then FirstKeys(v[1..], f, seen)
    else [f(v[0])] + FirstKeys(v[1..], f, seen + {f(v[0])})
  }

  lemma {:induction false} NotInNotIn<T, K>(v: seq<T>, f: T -> K, a: set<K>, b: set<K>)
    ensures NotIn(NotIn(v, f, a), f, b) == NotIn(v, f, a + b)
    decreases |v|
  {
    if v != [] {
      NotInNotIn(v[1..], f, a, b);
      if f(v[0]) !in a {
        assert NotIn(v, f, a) == [v[0]] + NotIn(v[1..], f, a);
        assert NotIn(v, f, a)[1..] == NotIn(v[1..], f, a);
      }
    }
  }

  /** Removing other keys does not change the elements with key `x`. */
  lemma {:induction false} SameKeyNotIn<T, K>(v: seq<T>, f: T -> K, a: set<K>, x: K)
    requires x !in a
    ensures SameKey(NotIn(v, f, a), f, x) == SameKey(v, f, x)
    decreases |v|
  {
    if v != [] {
      SameKeyNotIn(v[1..], f, a, x);
      if f(v[0]) !in a {
        assert NotIn(v, f, a)[1..] == NotIn(v[1..], f, a);
      }
    }
  }

  /** The first keys are fresh and pairwise distinct. */
  lemma {:induction false} FirstKeysDistinct<T, K>(v: seq<T>, f: T -> K, seen: set<K>)
    ensures forall k :: 0 <= k < |FirstKeys(v, f, seen)| ==> FirstKeys(v, f, seen)[k] !in seen
    ensures forall i, j :: 0 <= i < j < |FirstKeys(v, f, seen)| ==> FirstKeys(v, f, seen)[i] != FirstKeys(v, f, seen)[j]
    decreases |v|
  {
    if v != [] {
      var x := f(v[0]);
      var r := FirstKeys(v, f, seen);
      if x in seen {
        FirstKeysDistinct(v[1..], f, seen);
        assert r == FirstKeys(v[1..], f, seen);
      } else {
        FirstKeysDistinct(v[1..], f, seen + {x});
        assert r[1..] == FirstKeys(v[1..], f, seen + {x});
        forall k | 0 <= k < |r|
          ensures r[k] !in seen
        {
          if k > 0 {
            assert r[k] == r[1..][k - 1];
          }
        }
        forall i, j | 0 <= i < j < |r|
          ensures r[i] != r[j]
        {
          assert r[j] == r[1..][j - 1];
          if i > 0 {
            assert r[i] == r[1..][i - 1];
          }
        }
      }
    }
  }

  /** Every key not already seen occurs among the first keys. */
  lemma {:induction false} FirstKeysMembers<T, K>(v: seq<T>, f: T -> K, seen: set<K>, x: K)
    ensures x in FirstKeys(v, f, seen) <==> x in Keys(v, f) && x !in seen
    decreases |v|
  {
    if v != [] {
      assert Keys(v, f) == [f(v[0])] + Keys(v[1..], f);
      if f(v[0]) in seen {
        FirstKeysMembers(v[1..], f, seen, x);
      } else {
        FirstKeysMembers(v[1..], f, seen + {f(v[0])}, x);
      }
    }
  }

  /** Bucket `k` holds every element whose key is the `k`th first key. */
  lemma {:induction false} BucketsSpec<T, K>(v: seq<T>, f: T -> K, seen: set<K>)
    ensures var bs := Buckets(NotIn(v, f, seen), f);
            var ks := FirstKeys(v, f, seen);
            |bs| == |ks| && forall k :: 0 <= k < |bs| ==> bs[k] == SameKey(v, f, ks[k])
    decreases |v|
  {
    if v != [] {
      var x := f(v[0]);
      if x in seen {
        BucketsSpec(v[1..], f, seen);
        FirstKeysDistinct(v[1..], f, seen);
      } else {
        var seen' := seen + {x};
        BucketsSpec(v[1..], f, seen');
        FirstKeysDistinct(v[1..], f, seen');
        var w := NotIn(v, f, seen);
        assert w == [v[0]] + NotIn(v[1..], f, seen);
        assert w[1..] == NotIn(v[1..], f, seen);
        NotInNotIn(v[1..], f, seen, {x});
        assert SameKey(w, f, x) == [v[0]] + SameKey(NotIn(v[1..], f, seen), f, x);
        SameKeyNotIn(v[1..], f, seen, x);
      }
    }
  }

  /** The sum over the elements with key `x` plus the sum over the rest is
      the sum over the whole list. */
  lemma {:induction false} SumPartition<T, K>(v: seq<T>, f: T -> K, x: K, g: T -> nat)
    ensures SumOf(v, g) == SumOf(SameKey(v, f, x), g) + SumOf(NotIn(v, f, {x}), g)
    decreases |v|
  {
    if v != [] {
      SumPartition(v[1..], f, x, g);
      assert v == [v[0]] + v[1..];
      SumOfAppend([v[0]], v[1..], g);
      var same := SameKey(v[1..], f, x);
      var rest := NotIn(v[1..], f, {x});
      if f(v[0]) == x {
        SumOfAppend([v[0]], same, g);
      } else {
        SumOfAppend([v[0]], rest, g);
      }
    }
  }

  /** The sum of a bucket, as a function of the bucket. */
  function BucketSum<T>(g: T -> nat): seq<T> -> nat {
    b => SumOf(b, g)
  }

  /** The buckets partition the list: their sums add up to the list's. */
  lemma {:induction false} BucketsSum<T, K>(v: seq<T>, f: T -> K, g: T -> nat)
    ensures SumOf(Buckets(v, f), BucketSum(g)) == SumOf(v, g)
    decreases |v|
  {
    if v != [] {
      var x := f(v[0]);
      var rest := NotIn(v[1..], f, {x});
      BucketsSum(rest, f, g);
      SumPartition(v, f, x, g);
      assert NotIn(v, f, {x}) == rest;
      SumOfAppend([SameKey(v, f, x)], Buckets(rest, f), BucketSum(g));
    }
  }

  lemma {:induction false} NotInNothing<T, K>(v: seq<T>, f: T -> K)
    ensures NotIn(v, f, {}) == v
    decreases |v|
  {
    if v != [] {
      NotInNothing(v[1..], f);
      assert v == [v[0]] + v[1..];
    }
  }
}

/** Task identity and merging: `getID`, `operator<` on `task_t` and the
    `stasks_t` set of tgrp/structs.hpp, and `merge_tasks` of
    tgrp/stats.cpp.

    A `std::set<task_t>` ordered by `operator<` keeps one task per id in
    ascending id order; it is modelled as the list it iterates over. */
module Merge {
  import opened Wrappers
  import opened Text
  import opened TimeSpan
  import opened Tasks
  import opened Sums
  import opened Stats
  import opened OrderedSets
  import opened Filters
  import opened Grouping
  import Parallel

  /** `std::uint32_t` arithmetic wraps modulo 2^32. */
  const UINT32_MODULUS: nat := 0x1_0000_0000

  // ---------------------------------------------------------------------------
  // getID
  // ---------------------------------------------------------------------------

  /** The ids `n` successive `getID` calls hand out when the counter holds
      `uid`: `fetch_add(1)` returns the old value, and the counter wraps. */
  function GetIds(uid: nat, n: nat): (r: seq<nat>)
    requires uid < UINT32_MODULUS
    ensures |r| == n
    ensures forall k :: 0 <= k < n ==> r[k] < UINT32_MODULUS
    decreases n
  {
    if n == 0 then [] else [uid] + GetIds((uid + 1) % UINT32_MODULUS, n - 1)
  }

  /** Short of wrap-around, the ids count up from the counter, so they are
      strictly increasing and pairwise distinct. */
  lemma {:induction false} GetIdsIncrease(uid: nat, n: nat)
    requires uid < UINT32_MODULUS && uid + n <= UINT32_MODULUS
    ensures forall k :: 0 <= k < n ==> GetIds(uid, n)[k] == uid + k
    ensures forall i, j :: 0 <= i < j < n ==> GetIds(uid, n)[i] < GetIds(uid, n)[j]
    decreases n
  {
    if n > 1 {
      GetIdsIncrease(uid + 1, n - 1);
    }
  }

  /** At the top of the range the counter wraps and hands out 0 again. */
  lemma GetIdsWrap()
    ensures GetIds(UINT32_MODULUS - 1, 2) == [UINT32_MODULUS - 1, 0]
  {
    assert GetIds(0, 1) == [0] + GetIds(1, 0);
  }

  /** Parsing numbers its tasks with the ids that successive `getID` calls
      return, as long as the counter does not wrap. */
  lemma ParseTasksIds(s: string, uid: nat)
    requires ParseTasks(s, uid).Ok?
    requires uid + |ParseTasks(s, uid).value| <= UINT32_MODULUS
    ensures var ts := ParseTasks(s, uid).value;
            forall k :: 0 <= k < |ts| ==> ts[k].id == GetIds(uid, |ts|)[k]
  {
    ParseTasksSpec(s, uid);
    var n := |ParseTasks(s, uid).value|;
    if n > 0 {
      GetIdsIncrease(uid, n);
    }
  }

  // ---------------------------------------------------------------------------
  // operator< and stasks_t
  // ---------------------------------------------------------------------------

  /** `operator<` on `task_t`: by id alone. */
  predicate TaskLess(a: Task, b: Task) {
    a.id < b.id
  }

  function IdOf(t: Task): nat { t.id }

  /** The iteration order of a `std::set<task_t>`: ascending ids, hence at
      most one task per id. */
  predicate IdSorted(s: seq<Task>) {
    KeySorted(s, IdOf)
  }

  /** Inserting tasks one at a time into an empty `std::set<task_t>`, in
      any order, leaves them ascending by `operator<`. */
  lemma TaskSetOrder(ts: seq<Task>)
    ensures IdSorted(SetInsertAll([], ts, IdOf))
    ensures forall i, j :: 0 <= i < j < |SetInsertAll([], ts, IdOf)| ==>
              TaskLess(SetInsertAll([], ts, IdOf)[i], SetInsertAll([], ts, IdOf)[j])
  {
    SetInsertAllSorted([], ts, IdOf);
  }

  // ---------------------------------------------------------------------------
  // merge_tasks: reconciliation
  // ---------------------------------------------------------------------------

  /** The condition of the reconciliation loop: the task's text occurs in the
      multi-line string. */
  function InMulstr(mulstr: string): Task -> bool {
    (t: Task) => HasSubstr(mulstr, t.text)
  }

  /** The reconciliation loop as written: the task after each erased one is
      kept unexamined, and the loop is only defined when it never erases the
      last task it visits. */
  function Reconcile(vtt: seq<Task>, mulstr: string): (r: seq<Task>)
    requires WalkDefined(vtt, InMulstr(mulstr))
    ensures IsSubseq(r, vtt)
    ensures IsSubseq(Present(vtt, mulstr), r)
  {
    SkipWalkSubseq(vtt, InMulstr(mulstr));
    KeepSubseqSkipWalk(vtt, InMulstr(mulstr));
    SkipWalk(vtt, InMulstr(mulstr))
  }

  /** The reconciliation as intended: the tasks whose text occurs in the
      multi-line string, in order. */
  function Present(vtt: seq<Task>, mulstr: string): (r: seq<Task>)
    ensures |r| <= |vtt|
    ensures forall k :: 0 <= k < |r| ==> HasSubstr(mulstr, r[k].text)
  {
    Keep(vtt, InMulstr(mulstr))
  }

  /** A task survives exactly when it was in the list and its text occurs. */
  lemma PresentMembers(vtt: seq<Task>, mulstr: string, t: Task)
    ensures t in Present(vtt, mulstr) <==> t in vtt && HasSubstr(mulstr, t.text)
  {
    KeepMembers(vtt, InMulstr(mulstr), t);
  }

  /** Reconciling against the rendering of the same list removes nothing,
      which is how the main window calls it. */
  lemma ReconcileIdentity(vtt: seq<Task>)
    ensures WalkDefined(vtt, InMulstr(TasksToMulstr(vtt)))
    ensures Reconcile(vtt, TasksToMulstr(vtt)) == vtt
    ensures Present(vtt, TasksToMulstr(vtt)) == vtt
  {
    var keep := InMulstr(TasksToMulstr(vtt));
    forall k | 0 <= k < |vtt|
      ensures keep(vtt[k])
    {
      TasksToMulstrHasText(vtt, k);
    }
    SkipWalkAllKept(vtt, keep);
    KeepAllKept(vtt, keep);
  }

  function Plain(text: string, id: nat): Task {
    Task("", text, HmT(0, 0, 0, "00:00"), [], [], id, [])
  }

  /** Two missing tasks in a row followed by a present one: the loop erases
      the first, steps over the second and keeps it, though its text does not
      occur. */
  lemma ReconcileSkips()
    ensures var v := [Plain("a", 0), Plain("b", 1), Plain("c", 2)];
            WalkDefined(v, InMulstr("c"))
            && Reconcile(v, "c") == [Plain("b", 1), Plain("c", 2)]
            && Present(v, "c") == [Plain("c", 2)]
  {
    var v := [Plain("a", 0), Plain("b", 1), Plain("c", 2)];
    assert OccursAt("c", "c", 0);
    assert !HasSubstr("c", "a") by {
      forall i | 0 <= i <= 1 ensures !OccursAt("c", "a", i) {
        if i == 0 {
          assert "c"[0..1][0] == 'c';
        }
      }
    }
    assert !HasSubstr("c", "b") by {
      forall i | 0 <= i <= 1 ensures !OccursAt("c", "b", i) {
        if i == 0 {
          assert "c"[0..1][0] == 'c';
        }
      }
    }
    assert v[1..] == [Plain("b", 1), Plain("c", 2)];
    assert v[2..] == [Plain("c", 2)];
    assert v[1..][1..] == v[2..];
    assert v[2..][1..] == [];
  }

  // ---------------------------------------------------------------------------
  // merge_tasks: grouping
  // ---------------------------------------------------------------------------

  function TextOf(t: Task): string { t.text }

  /** The tasks carrying `text`, in order. */
  function SameText(v: seq<Task>, text: string): seq<Task> {
    SameKey(v, TextOf, text)
  }

  /** Tasks as parsing leaves them: no subtasks yet and pairwise distinct
      ids. */
  predicate Fresh(v: seq<Task>) {
    (forall k :: 0 <= k < |v| ==> v[k].subt == []) && DistinctKeys(v, IdOf)
  }

  /** The main task of a bucket: its head, whose `subt_t` receives the set
      collected from the bucket, the head itself included. */
  function MainTask(b: seq<Task>): (r: Task)
    requires b != []
  {
    b[0].(subt := SetInsertAll(b[0].subt, SetInsertAll([], b, IdOf), IdOf))
  }

  function MainTasks(bs: seq<seq<Task>>): (r: seq<Task>)
    requires forall k :: 0 <= k < |bs| ==> bs[k] != []
    ensures |r| == |bs|
    ensures forall k :: 0 <= k < |bs| ==> r[k] == MainTask(bs[k])
    decreases |bs|
  {
    if bs == [] then [] else [MainTask(bs[0])] + MainTasks(bs[1..])
  }

  /** The two grouping loops: the first task with each text becomes a main
      task and the later ones move into its `subt_t`. */
  function Group(v: seq<Task>): seq<Task> {
    MainTasks(Buckets(v, TextOf))
  }

  /** Bucket `k` is the list of tasks with the `k`th distinct text. */
  lemma GroupBuckets(v: seq<Task>)
    ensures |Buckets(v, TextOf)| == |FirstKeys(v, TextOf, {})|
    ensures forall k :: 0 <= k < |Buckets(v, TextOf)| ==>
              Buckets(v, TextOf)[k] == SameText(v, FirstKeys(v, TextOf, {})[k])
  {
    NotInNothing(v, TextOf);
    BucketsSpec(v, TextOf, {});
  }

  /** After grouping the texts are pairwise distinct, every text of the
      input appears, and they come in order of first occurrence. */
  lemma GroupTexts(v: seq<Task>)
    ensures Texts(Group(v)) == FirstKeys(v, TextOf, {})
    ensures forall i, j :: 0 <= i < j < |Group(v)| ==> Group(v)[i].text != Group(v)[j].text
    ensures forall x :: x in Texts(Group(v)) <==> x in Texts(v)
  {
    var bs: seq<seq<Task>> := Buckets(v, TextOf);
    var ks := FirstKeys(v, TextOf, {});
    GroupBuckets(v);
    forall k | 0 <= k < |bs|
      ensures Group(v)[k].text == ks[k]
    {
      assert bs[k][0].text == TextOf(bs[k][0]);
    }
    FirstKeysDistinct(v, TextOf, {});
    assert Keys(v, TextOf) == Texts(v);
    forall x
      ensures x in ks <==> x in Texts(v)
    {
      FirstKeysMembers(v, TextOf, {}, x);
    }
  }

  /** The tasks with one text, taken from fresh tasks, are fresh. */
  lemma SameTextFresh(v: seq<Task>, text: string)
    requires Fresh(v)
    ensures Fresh(SameText(v, text))
  {
    var b := SameText(v, text);
    forall k | 0 <= k < |b|
      ensures b[k].subt == []
    {
      SameKeyMembers(v, TextOf, text, b[k]);
    }
    SameKeyDistinct(v, TextOf, text, IdOf);
  }

  /** A fresh bucket's main task holds the whole bucket, ordered by id. */
  lemma MainTaskSubtasks(b: seq<Task>)
    requires b != [] && Fresh(b)
    ensures IdSorted(MainTask(b).subt)
    ensures multiset(MainTask(b).subt) == multiset(b)
  {
    var x := SetInsertAll([], b, IdOf);
    SetInsertAllNew([], b, IdOf);
    SetInsertAllSorted([], b, IdOf);
    SortedDistinct(x, IdOf);
    SetInsertAllNew([], x, IdOf);
    SetInsertAllSorted([], x, IdOf);
  }

  // ---------------------------------------------------------------------------
  // merge_tasks: durations
  // ---------------------------------------------------------------------------

  /** The duration loop over one main task's subtasks: `std::size_t`
      addition, which wraps at every step. */
  function SizeSum(ts: seq<Task>): (r: nat)
    ensures r < SIZE_T_MODULUS
  {
    if ts == [] then 0
    else (SizeSum(ts[..|ts| - 1]) + Seconds(ts[|ts| - 1])) % SIZE_T_MODULUS
  }

  /** Wrapping at every step is the same as wrapping the exact total once. */
  lemma {:induction false} SizeSumTotal(ts: seq<Task>)
    ensures SizeSum(ts) == TotalSeconds(ts) % SIZE_T_MODULUS
    decreases |ts|
  {
    if ts != [] {
      SizeSumTotal(ts[..|ts| - 1]);
      ModAdd(TotalSeconds(ts[..|ts| - 1]), Seconds(ts[|ts| - 1]));
    }
  }

  /** A main task after the duration loop: `sec_to_hm_t` of its subtasks'
      seconds. */
  function Summed(t: Task): Task {
    t.(hm := SecToHmT(SizeSum(t.subt)))
  }

  function SumDurations(v: seq<Task>): (r: seq<Task>)
    ensures |r| == |v|
    ensures forall k :: 0 <= k < |v| ==> r[k] == Summed(v[k])
    decreases |v|
  {
    if v == [] then [] else [Summed(v[0])] + SumDurations(v[1..])
  }

  /** The grouping and the duration loop of `merge_tasks`, applied to the
      reconciled list. */
  function MergeGroups(p: seq<Task>): seq<Task> {
    SumDurations(Group(p))
  }

  /** `merge_tasks` as written: the skipping reconciliation loop, then
      grouping and summing; the string returned is the rendering of the
      merged list. */
  function MergeTasks(vtt: seq<Task>, mulstr: string): (r: (seq<Task>, string))
    requires WalkDefined(vtt, InMulstr(mulstr))
    ensures r.1 == TasksToMulstr(r.0)
  {
    var v := MergeGroups(Reconcile(vtt, mulstr));
    (v, TasksToMulstr(v))
  }

  /** `merge_tasks` with the reconciliation it intends. */
  function MergeTasksFixed(vtt: seq<Task>, mulstr: string): (r: (seq<Task>, string))
    ensures r.1 == TasksToMulstr(r.0)
  {
    var v := MergeGroups(Present(vtt, mulstr));
    (v, TasksToMulstr(v))
  }

  /** What a main task of the merged list holds, relative to the reconciled
      list `p`: it is the first task with its text, its subtasks are all the
      tasks with its text ordered by id, and its time span is their total. */
  predicate MainOf(p: seq<Task>, t: Task) {
    && SameText(p, t.text) != []
    && t.id == SameText(p, t.text)[0].id
    && IdSorted(t.subt)
    && multiset(t.subt) == multiset(SameText(p, t.text))
    && t.hm == SecToHmT(TotalSeconds(SameText(p, t.text)) % SIZE_T_MODULUS)
  }

  /** The `k`th merged task is the main task of the `k`th bucket. */
  lemma MergeBucket(p: seq<Task>, k: nat)
    requires Fresh(p) && k < |MergeGroups(p)|
    ensures MainOf(p, MergeGroups(p)[k])
  {
    var bs: seq<seq<Task>> := Buckets(p, TextOf);
    var ks := FirstKeys(p, TextOf, {});
    GroupBuckets(p);
    var b := bs[k];
    assert b == SameText(p, ks[k]);
    assert b[0].text == TextOf(b[0]);
    SameTextFresh(p, ks[k]);
    MainTaskSubtasks(b);
    var m := MainTask(b);
    SumOfPermutation(m.subt, b, Seconds);
    SizeSumTotal(m.subt);
  }

  /** Every merged task is a main task as described by `MainOf`. */
  lemma MergeSubtasks(p: seq<Task>)
    requires Fresh(p)
    ensures forall k :: 0 <= k < |MergeGroups(p)| ==> MainOf(p, MergeGroups(p)[k])
  {
    forall k | 0 <= k < |MergeGroups(p)|
      ensures MainOf(p, MergeGroups(p)[k])
    {
      MergeBucket(p, k);
    }
  }

  /** The merged list has one task per distinct text of the reconciled list,
      in order of first occurrence. */
  lemma MergeTexts(p: seq<Task>)
    ensures Texts(MergeGroups(p)) == FirstKeys(p, TextOf, {})
    ensures forall i, j :: 0 <= i < j < |MergeGroups(p)| ==> MergeGroups(p)[i].text != MergeGroups(p)[j].text
    ensures forall x :: x in Texts(MergeGroups(p)) <==> x in Texts(p)
  {
    GroupTexts(p);
    assert Texts(MergeGroups(p)) == Texts(Group(p));
  }

  /** The seconds of the `k`th merged task are the total of the `k`th
      bucket, taken modulo 2^64. */
  lemma MergeBucketSeconds(p: seq<Task>, k: nat)
    requires Fresh(p)
    requires k < |Buckets(p, TextOf)|
    ensures Seconds(MergeGroups(p)[k]) == TotalSeconds(Buckets(p, TextOf)[k]) % SIZE_T_MODULUS
  {
    var b := Buckets(p, TextOf)[k];
    var m := MergeGroups(p)[k];
    MergeBucket(p, k);
    GroupBuckets(p);
    assert b == SameText(p, FirstKeys(p, TextOf, {})[k]);
    assert m.text == b[0].text;
    assert b[0].text == TextOf(b[0]);
  }

  lemma TotalSecondsSingle(t: Task)
    ensures TotalSeconds([t]) == t.hm.inSec
  {
    assert [t][..0] == [];
    assert SumOf([t], Seconds) == SumOf([], Seconds) + Seconds(t);
  }

  lemma NoWrap(x: nat)
    requires x < SIZE_T_MODULUS
    ensures x % SIZE_T_MODULUS == x
  {
  }

  /** Short of `std::size_t` wrap-around, merging conserves the total time
      spent on the reconciled tasks. */
  lemma MergeConserves(p: seq<Task>)
    requires Fresh(p)
    requires TotalSeconds(p) < SIZE_T_MODULUS
    ensures TotalSeconds(MergeGroups(p)) == TotalSeconds(p)
  {
    var bs: seq<seq<Task>> := Buckets(p, TextOf);
    var out := MergeGroups(p);
    var h := BucketSum(Seconds);
    BucketsSum(p, TextOf, Seconds);
    assert |out| == |bs|;
    forall k | 0 <= k < |out|
      ensures Seconds(out[k]) == h(bs[k])
    {
      MergeBucketSeconds(p, k);
      SumOfRemove(bs, k, h);
      assert h(bs[k]) == TotalSeconds(bs[k]);
      NoWrap(TotalSeconds(bs[k]));
    }
    SumOfPointwise(out, bs, Seconds, h);
  }

  /** A task whose text occurs once keeps its id and time span through the
      merge. */
  lemma MergeSingle(p: seq<Task>, t: Task)
    requires Fresh(p)
    requires SameText(p, t.text) == [t]
    requires t.hm == SecToHmT(t.hm.inSec) && t.hm.inSec < SIZE_T_MODULUS
    ensures t.text in Texts(MergeGroups(p))
    ensures forall k :: 0 <= k < |MergeGroups(p)| && MergeGroups(p)[k].text == t.text ==>
              MergeGroups(p)[k].id == t.id && MergeGroups(p)[k].hm == t.hm
  {
    SameKeyMembers(p, TextOf, t.text, t);
    var k :| 0 <= k < |p| && p[k] == t;
    assert Texts(p)[k] == t.text;
    MergeTexts(p);
    TotalSecondsSingle(t);
    NoWrap(t.hm.inSec);
    var out := MergeGroups(p);
    forall k | 0 <= k < |out| && out[k].text == t.text
      ensures out[k].id == t.id && out[k].hm == t.hm
    {
      MergeBucket(p, k);
    }
  }

  // ---------------------------------------------------------------------------
  // merge_tasks: the reconciled list
  // ---------------------------------------------------------------------------

  lemma PresentFresh(vtt: seq<Task>, mulstr: string)
    requires Fresh(vtt)
    ensures Fresh(Present(vtt, mulstr))
  {
    var p := Present(vtt, mulstr);
    forall k | 0 <= k < |p|
      ensures p[k].subt == []
    {
      KeepMembers(vtt, InMulstr(mulstr), p[k]);
    }
    KeepDistinct(vtt, InMulstr(mulstr), IdOf);
  }

  lemma ReconcileFresh(vtt: seq<Task>, mulstr: string)
    requires WalkDefined(vtt, InMulstr(mulstr)) && Fresh(vtt)
    ensures Fresh(Reconcile(vtt, mulstr))
  {
    var r := Reconcile(vtt, mulstr);
    forall k | 0 <= k < |r|
      ensures r[k].subt == []
    {
      SubseqMembers(r, vtt, r[k]);
    }
    SubseqDistinct(r, vtt, IdOf);
  }

  /** A text survives the intended reconciliation exactly when it occurs in
      the multi-line string. */
  lemma PresentTexts(vtt: seq<Task>, mulstr: string, x: string)
    ensures x in Texts(Present(vtt, mulstr)) <==> x in Texts(vtt) && HasSubstr(mulstr, x)
  {
    var p := Present(vtt, mulstr);
    if x in Texts(p) {
      var k :| 0 <= k < |p| && Texts(p)[k] == x;
      PresentMembers(vtt, mulstr, p[k]);
      var j :| 0 <= j < |vtt| && vtt[j] == p[k];
      assert Texts(vtt)[j] == x;
    }
    if x in Texts(vtt) && HasSubstr(mulstr, x) {
      var j :| 0 <= j < |vtt| && Texts(vtt)[j] == x;
      PresentMembers(vtt, mulstr, vtt[j]);
      var k :| 0 <= k < |p| && p[k] == vtt[j];
      assert Texts(p)[k] == x;
    }
  }

  /** With the intended reconciliation, the merged list has one task per
      distinct text that occurs in the multi-line string. */
  lemma MergeFixedTexts(vtt: seq<Task>, mulstr: string)
    ensures forall x :: x in Texts(MergeTasksFixed(vtt, mulstr).0) <==> x in Texts(vtt) && HasSubstr(mulstr, x)
  {
    var p := Present(vtt, mulstr);
    MergeTexts(p);
    forall x
      ensures x in Texts(p) <==> x in Texts(vtt) && HasSubstr(mulstr, x)
    {
      PresentTexts(vtt, mulstr, x);
    }
  }

  /** As written, `merge_tasks` keeps every text that occurs in the
      multi-line string, and invents none. */
  lemma MergeTasksTexts(vtt: seq<Task>, mulstr: string, x: string)
    requires WalkDefined(vtt, InMulstr(mulstr))
    ensures x in Texts(vtt) && HasSubstr(mulstr, x) ==> x in Texts(MergeTasks(vtt, mulstr).0)
    ensures x in Texts(MergeTasks(vtt, mulstr).0) ==> x in Texts(vtt)
  {
    var r := Reconcile(vtt, mulstr);
    MergeTexts(r);
    if x in Texts(vtt) && HasSubstr(mulstr, x) {
      var j :| 0 <= j < |vtt| && Texts(vtt)[j] == x;
      PresentMembers(vtt, mulstr, vtt[j]);
      SubseqMembers(Present(vtt, mulstr), r, vtt[j]);
      var k :| 0 <= k < |r| && r[k] == vtt[j];
      assert Texts(r)[k] == x;
    }
    if x in Texts(r) {
      var k :| 0 <= k < |r| && Texts(r)[k] == x;
      SubseqMembers(r, vtt, r[k]);
      var j :| 0 <= j < |vtt| && vtt[j] == r[k];
      assert Texts(vtt)[j] == x;
    }
  }

  /** As the main window calls it, against the rendering of the same list,
      `merge_tasks` is defined, reconciles nothing away, and agrees with the
      corrected version. */
  lemma MergeTasksOwnRendering(vtt: seq<Task>)
    ensures WalkDefined(vtt, InMulstr(TasksToMulstr(vtt)))
    ensures MergeTasks(vtt, TasksToMulstr(vtt)) == MergeTasksFixed(vtt, TasksToMulstr(vtt))
    ensures MergeTasks(vtt, TasksToMulstr(vtt)).0 == MergeGroups(vtt)
  {
    ReconcileIdentity(vtt);
  }

  /** Parsed tasks are fresh, so the merge lemmas apply to the list the main
      window hands to `merge_tasks`. */
  lemma ParseTasksFresh(s: string, uid: nat)
    requires ParseTasks(s, uid).Ok?
    ensures Fresh(ParseTasks(s, uid).value)
  {
    var ts := ParseTasks(s, uid).value;
    ParseLinesSpec(Lines(s), uid);
    forall k | 0 <= k < |ts|
      ensures ts[k].subt == [] && ts[k].id == uid + k
    {
      assert Ok(ts[k]) == ParseLine(Lines(s)[k], uid + k);
    }
  }

  /** The parallel parse also leaves tasks fresh, as long as the runs draw
      disjoint id ranges from the shared counter; so its result, which the
      main window hands to the merge, meets MergeSubtasks' assumption. */
  lemma ParallelFresh(s: string, threads: nat, base: nat -> nat)
    requires Parallel.ParseTasksParallel(s, threads, base).Ok?
    requires !Parallel.Sequential(s, threads) ==>
               Parallel.RangesDisjoint(Parallel.ChunkTexts(s, threads), base, 0)
    ensures Fresh(Parallel.ParseTasksParallel(s, threads, base).value)
  {
    if Parallel.Sequential(s, threads) {
      ParseTasksFresh(s, base(0));
    } else {
      Parallel.ParseChunksFresh(Parallel.ChunkTexts(s, threads), base, 0);
    }
  }
}
