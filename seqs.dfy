/**
 * `Array.prototype.filter` and the first-occurrence de-duplication that the
 * browser scripts write out with a `Set` of seen keys, with the facts that
 * characterise them.
 */
module Seqs {

  /** `s.filter(p)`: the elements satisfying `p`, in their input order. */
  function Filter<T>(s: seq<T>, p: T -> bool): (r: seq<T>)
    ensures |r| <= |s|
    ensures forall x :: x in r ==> x in s && p(x)
  {
    if s == [] then [] else Filter(s[..|s| - 1], p) + (if p(s[|s| - 1]) then [s[|s| - 1]] else [])
  }

  lemma FilterSnoc<T>(s: seq<T>, x: T, p: T -> bool)
    ensures Filter(s + [x], p) == Filter(s, p) + (if p(x) then [x] else [])
  {
    assert (s + [x])[..|s + [x]| - 1] == s;
  }

  lemma {:induction false} FilterContains<T>(s: seq<T>, p: T -> bool, x: T)
    requires x in s && p(x)
    ensures x in Filter(s, p)
  {
    var init := s[..|s| - 1];
    if x != s[|s| - 1] {
      assert s == init + [s[|s| - 1]];
      FilterContains(init, p, x);
    }
  }

  /**
   * Filter keeps exactly the elements satisfying `p`, in their order: the
   * result is `s` read at the strictly increasing indices `idx`, which are
   * all the indices whose element satisfies `p`.
   */
  lemma {:induction false} FilterIndices<T>(s: seq<T>, p: T -> bool) returns (idx: seq<nat>)
    ensures FilterIndexed(s, p, idx)
  {
    if s == [] {
      idx := [];
    } else {
      var init, x := s[..|s| - 1], s[|s| - 1];
      var pre := FilterIndices(init, p);
      assert s == init + [x];
      FilterSnoc(init, x, p);
      if p(x) {
        idx := IndicesKept(init, x, p, pre);
      } else {
        idx := IndicesDropped(init, x, p, pre);
      }
    }
  }

  /**
   * `Filter(s, p)` is `s` read at the strictly increasing indices `idx`,
   * which are all the indices whose element satisfies `p`.
   */
  ghost predicate FilterIndexed<T>(s: seq<T>, p: T -> bool, idx: seq<nat>) {
    && |idx| == |Filter(s, p)|
    && (forall t :: 0 <= t < |idx| ==> idx[t] < |s| && s[idx[t]] == Filter(s, p)[t] && p(s[idx[t]]))
    && (forall t, u :: 0 <= t < u < |idx| ==> idx[t] < idx[u])
    && (forall k :: 0 <= k < |s| && p(s[k]) ==> k in idx)
  }

  lemma IndicesKept<T>(init: seq<T>, x: T, p: T -> bool, pre: seq<nat>) returns (idx: seq<nat>)
    requires FilterIndexed(init, p, pre) && p(x)
    requires Filter(init + [x], p) == Filter(init, p) + [x]
    ensures FilterIndexed(init + [x], p, idx)
  {
    var s := init + [x];
    var r := Filter(init, p) + [x];
    idx := pre + [|init|];
    forall t | 0 <= t < |idx| ensures idx[t] < |s| && s[idx[t]] == r[t] && p(s[idx[t]]) {
      if t < |pre| {
        assert idx[t] == pre[t] && s[pre[t]] == init[pre[t]] && r[t] == Filter(init, p)[t];
      } else {
        assert idx[t] == |init| && s[|init|] == x && r[t] == x;
      }
    }
    forall t, u | 0 <= t < u < |idx| ensures idx[t] < idx[u] {
      assert idx[t] == pre[t];
      if u == |pre| {
        assert idx[u] == |init|;
      } else {
        assert idx[u] == pre[u];
      }
    }
    forall k | 0 <= k < |s| && p(s[k]) ensures k in idx {
      if k < |init| {
        assert init[k] == s[k];
      } else {
        assert idx[|pre|] == k;
      }
    }
  }

  lemma IndicesDropped<T>(init: seq<T>, x: T, p: T -> bool, pre: seq<nat>) returns (idx: seq<nat>)
    requires FilterIndexed(init, p, pre) && !p(x)
    requires Filter(init + [x], p) == Filter(init, p)
    ensures FilterIndexed(init + [x], p, idx)
  {
    var s := init + [x];
    idx := pre;
    forall t | 0 <= t < |idx| ensures idx[t] < |s| && s[idx[t]] == Filter(s, p)[t] && p(s[idx[t]]) {
      assert s[pre[t]] == init[pre[t]];
    }
    forall k | 0 <= k < |s| && p(s[k]) ensures k in idx {
      assert init[k] == s[k];
    }
  }

  /** Splitting by `p` and by its negation loses and duplicates nothing. */
  lemma {:induction false} FilterPartition<T>(s: seq<T>, p: T -> bool, q: T -> bool)
    requires forall x :: q(x) == !p(x)
    ensures multiset(Filter(s, p)) + multiset(Filter(s, q)) == multiset(s)
    ensures |Filter(s, p)| + |Filter(s, q)| == |s|
  {
    if s != [] {
      var init := s[..|s| - 1];
      assert s == init + [s[|s| - 1]];
      FilterPartition(init, p, q);
    }
  }

  // ----- first-occurrence de-duplication -----

  /** The keys of the elements of `s`. */
  function KeysOf<T, K(==)>(s: seq<T>, key: T -> K): set<K> {
    set i | 0 <= i < |s| :: key(s[i])
  }

  /** `s[k]` is the first element of `s` with its key. */
  predicate IsFirst<T, K(==)>(s: seq<T>, key: T -> K, k: int) {
    0 <= k < |s| && forall j :: 0 <= j < k ==> key(s[j]) != key(s[k])
  }

  /**
   * What a loop that pushes an element only when its key is not yet in a
   * `seen` set, and then adds the key, leaves behind.
   */
  function KeepFirst<T, K(==)>(s: seq<T>, key: T -> K): seq<T> {
    if s == [] then []
    else
      var init := s[..|s| - 1];
      KeepFirst(init, key) + (if key(s[|s| - 1]) in KeysOf(init, key) then [] else [s[|s| - 1]])
  }

  lemma KeysOfSnoc<T, K>(s: seq<T>, x: T, key: T -> K)
    ensures KeysOf(s + [x], key) == KeysOf(s, key) + {key(x)}
  {
    var t := s + [x];
    forall k | k in KeysOf(t, key) ensures k in KeysOf(s, key) + {key(x)} {
      var i :| 0 <= i < |t| && key(t[i]) == k;
      if i < |s| {
        assert t[i] == s[i];
      }
    }
    forall k | k in KeysOf(s, key) ensures k in KeysOf(t, key) {
      var i :| 0 <= i < |s| && key(s[i]) == k;
      assert t[i] == s[i];
    }
    assert key(t[|s|]) in KeysOf(t, key);
  }

  lemma KeepFirstSnoc<T, K>(s: seq<T>, x: T, key: T -> K)
    ensures KeepFirst(s + [x], key) == KeepFirst(s, key) + (if key(x) in KeysOf(s, key) then [] else [x])
  {
    assert (s + [x])[..|s + [x]| - 1] == s;
  }

  /** One step of the loop that keeps the first element of each key and records the keys seen. */
  lemma KeepFirstStep<T, K>(s: seq<T>, i: int, key: T -> K, kept: seq<T>, seen: set<K>)
    requires 0 <= i < |s| && kept == KeepFirst(s[..i], key) && seen == KeysOf(s[..i], key)
    ensures KeepFirst(s[..i + 1], key) == kept + (if key(s[i]) in seen then [] else [s[i]])
    ensures KeysOf(s[..i + 1], key) == seen + {key(s[i])}
  {
    assert s[..i + 1] == s[..i] + [s[i]];
    KeepFirstSnoc(s[..i], s[i], key);
    KeysOfSnoc(s[..i], s[i], key);
  }

  /** Every kept element is a first occurrence, and all first occurrences are kept, in order. */
  lemma {:induction false} KeepFirstIndices<T, K>(s: seq<T>, key: T -> K) returns (idx: seq<nat>)
    ensures |idx| == |KeepFirst(s, key)|
    ensures forall t :: 0 <= t < |idx| ==> idx[t] < |s| && s[idx[t]] == KeepFirst(s, key)[t] && IsFirst(s, key, idx[t])
    ensures forall t, u :: 0 <= t < u < |idx| ==> idx[t] < idx[u]
    ensures forall k :: IsFirst(s, key, k) ==> k in idx
  {
    if s == [] {
      idx := [];
    } else {
      var init := s[..|s| - 1];
      var x := s[|s| - 1];
      var pre := KeepFirstIndices(init, key);
      assert s == init + [x];
      KeepFirstSnoc(init, x, key);
      forall t | 0 <= t < |pre| ensures IsFirst(s, key, pre[t]) {
        assert IsFirst(init, key, pre[t]);
      }
      forall k | IsFirst(s, key, k) && k < |init| ensures IsFirst(init, key, k) {
      }
      if key(x) in KeysOf(init, key) {
        var j :| 0 <= j < |init| && key(init[j]) == key(x);
        assert !IsFirst(s, key, |s| - 1) by { assert key(s[j]) == key(s[|s| - 1]); }
        idx := pre;
      } else {
        forall j | 0 <= j < |init| ensures key(s[j]) != key(x) {
          assert key(init[j]) in KeysOf(init, key);
        }
        idx := pre + [|s| - 1];
      }
    }
  }

  /** Kept elements have pairwise distinct keys. */
  lemma {:induction false} KeepFirstDistinct<T, K>(s: seq<T>, key: T -> K)
    ensures forall i, j :: 0 <= i < j < |KeepFirst(s, key)| ==> key(KeepFirst(s, key)[i]) != key(KeepFirst(s, key)[j])
  {
    if s != [] {
      var init := s[..|s| - 1];
      var x := s[|s| - 1];
      assert s == init + [x];
      KeepFirstDistinct(init, key);
      KeepFirstKeys(init, key);
      KeepFirstSnoc(init, x, key);
      var r := KeepFirst(init, key);
      if key(x) !in KeysOf(init, key) {
        forall i | 0 <= i < |r| ensures key(r[i]) != key(x) {
          assert key(r[i]) in KeysOf(r, key);
        }
      }
    }
  }

  /** Every key of the input is represented in the output. */
  lemma {:induction false} KeepFirstKeys<T, K>(s: seq<T>, key: T -> K)
    ensures KeysOf(KeepFirst(s, key), key) == KeysOf(s, key)
  {
    if s != [] {
      var init := s[..|s| - 1];
      var x := s[|s| - 1];
      assert s == init + [x];
      KeepFirstKeys(init, key);
      KeysOfSnoc(init, x, key);
      KeepFirstSnoc(init, x, key);
      var r := KeepFirst(init, key);
      if key(x) !in KeysOf(init, key) {
        KeysOfSnoc(r, x, key);
        assert KeepFirst(s, key) == r + [x];
      } else {
        assert KeepFirst(s, key) == r;
        assert KeysOf(s, key) == KeysOf(init, key);
      }
    }
  }

  // ----- counting -----

  /** Occurrences of `x` in `s`. */
  function Count<T(==)>(s: seq<T>, x: T): nat {
    if s == [] then 0 else Count(s[..|s| - 1], x) + (if s[|s| - 1] == x then 1 else 0)
  }

  lemma CountSnoc<T>(s: seq<T>, y: T, x: T)
    ensures Count(s + [y], x) == Count(s, x) + (if y == x then 1 else 0)
  {
    assert (s + [y])[..|s + [y]| - 1] == s;
  }

  lemma {:induction false} CountPositive<T>(s: seq<T>, x: T)
    ensures Count(s, x) > 0 <==> x in s
  {
    if s != [] {
      var init := s[..|s| - 1];
      assert s == init + [s[|s| - 1]];
      CountPositive(init, x);
    }
  }

  /** The sum of `Count(s, k)` over the keys `ks`. */
  function SumCounts<T(==)>(ks: seq<T>, s: seq<T>): nat {
    if ks == [] then 0 else Count(s, ks[0]) + SumCounts(ks[1..], s)
  }

  lemma {:induction false} SumCountsSnoc<T>(ks: seq<T>, s: seq<T>, y: T)
    ensures SumCounts(ks, s + [y]) == SumCounts(ks, s) + Count(ks, y)
  {
    if ks != [] {
      SumCountsSnoc(ks[1..], s, y);
      CountSnoc(s, y, ks[0]);
      CountFront(ks, y);
    }
  }

  lemma {:induction false} CountFront<T>(s: seq<T>, x: T)
    requires s != []
    ensures Count(s, x) == (if s[0] == x then 1 else 0) + Count(s[1..], x)
  {
    if |s| > 1 {
      var init := s[..|s| - 1];
      CountFront(init, x);
      assert init[1..] == s[1..][..|s[1..]| - 1];
    } else {
      assert s[1..] == [];
    }
  }

  lemma {:induction false} CountDistinct<T>(ks: seq<T>, x: T)
    requires x in ks
    requires forall i, j :: 0 <= i < j < |ks| ==> ks[i] != ks[j]
    ensures Count(ks, x) == 1
  {
    CountFront(ks, x);
    if ks[0] == x {
      CountPositive(ks[1..], x);
    } else {
      CountDistinct(ks[1..], x);
    }
  }

  /**
   * Counting each distinct element once over a list of distinct keys that
   * covers `s` accounts for every element of `s` exactly once.
   */
  lemma {:induction false} SumCountsTotal<T>(ks: seq<T>, s: seq<T>)
    requires forall i, j :: 0 <= i < j < |ks| ==> ks[i] != ks[j]
    requires forall x :: x in s ==> x in ks
    ensures SumCounts(ks, s) == |s|
  {
    if s == [] {
      SumCountsEmpty(ks);
    } else {
      var init := s[..|s| - 1];
      var y := s[|s| - 1];
      assert s == init + [y];
      SumCountsTotal(ks, init);
      SumCountsSnoc(ks, init, y);
      CountDistinct(ks, y);
    }
  }

  lemma {:induction false} SumCountsEmpty<T>(ks: seq<T>)
    ensures SumCounts(ks, []) == 0
  {
    if ks != [] {
      SumCountsEmpty(ks[1..]);
    }
  }
}
