/**
 * Ordering rows by a text column, as `ORDER BY` does under SQLite's
 * default binary collation: code point by code point, a proper prefix
 * first.
 */
module Sorting {
  import opened Text

  /** `s` is in ascending order of `key`. */
  ghost predicate SortedBy<T>(s: seq<T>, key: T -> string) {
    forall i, j :: 0 <= i < j < |s| ==> LessEq(key(s[i]), key(s[j]))
  }

  /** Every element of `s` has a key at least `k`. */
  ghost predicate AllAtLeast<T>(s: seq<T>, key: T -> string, k: string) {
    forall i :: 0 <= i < |s| ==> LessEq(k, key(s[i]))
  }

  /** A key no greater than the head of a sorted sequence is no greater than any of its keys. */
  lemma HeadBound<T>(s: seq<T>, key: T -> string, k: string)
    requires SortedBy(s, key) && (s != [] ==> LessEq(k, key(s[0])))
    ensures AllAtLeast(s, key, k)
  {
    forall i | 0 <= i < |s| ensures LessEq(k, key(s[i])) {
      if i > 0 {
        LessEqTransitive(k, key(s[0]), key(s[i]));
      }
    }
  }

  /** `x` placed in front of the first element whose key is not below its own. */
  function Insert<T>(s: seq<T>, x: T, key: T -> string): (r: seq<T>)
    requires SortedBy(s, key)
    ensures SortedBy(r, key)
    ensures multiset(r) == multiset(s) + multiset{x}
    ensures |r| == |s| + 1
    ensures AllAtLeast(s, key, key(x)) ==> r == [x] + s
  {
    if s == [] || LessEq(key(x), key(s[0])) then
      HeadBound(s, key, key(x));
      [x] + s
    else
      var rest := Insert(s[1..], x, key);
      LessEqIsLessOrEqual(key(x), key(s[0]));
      LessTrichotomy(key(x), key(s[0]));
      assert LessEq(key(s[0]), key(x));
      TailBound(s, key, x, rest);
      assert s == [s[0]] + s[1..];
      [s[0]] + rest
  }

  /** Inserting a key no smaller than the head into the tail keeps every key at least the head's. */
  lemma TailBound<T>(s: seq<T>, key: T -> string, x: T, rest: seq<T>)
    requires SortedBy(s, key) && s != [] && LessEq(key(s[0]), key(x))
    requires multiset(rest) == multiset(s[1..]) + multiset{x}
    ensures AllAtLeast(rest, key, key(s[0]))
  {
    forall i | 0 <= i < |rest| ensures LessEq(key(s[0]), key(rest[i])) {
      assert rest[i] in multiset(rest);
      if rest[i] != x {
        assert rest[i] in multiset(s[1..]);
        var j :| 1 <= j < |s| && s[j] == rest[i];
      }
    }
  }
}
