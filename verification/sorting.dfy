/** `ORDER BY` as the queries use it: a stable insertion sort of rows by an
    integer key, specified as a sorted permutation of its input. */
module Sorting {

  /** Keys never decrease along `s`. */
  predicate SortedBy<T>(s: seq<T>, key: T -> int)
  {
    forall i, j :: 0 <= i < j < |s| ==> key(s[i]) <= key(s[j])
  }

  /** Keys strictly increase along `s`. */
  predicate StrictlySortedBy<T>(s: seq<T>, key: T -> int)
  {
    forall i, j :: 0 <= i < j < |s| ==> key(s[i]) < key(s[j])
  }

  /** No two positions of `s` carry the same key. */
  predicate DistinctKeys<T>(s: seq<T>, key: T -> int)
  {
    forall i, j :: 0 <= i < j < |s| ==> key(s[i]) != key(s[j])
  }

  /** Every key in `s` is at least `k`. */
  predicate AllAtLeast<T>(s: seq<T>, key: T -> int, k: int)
  {
    forall i :: 0 <= i < |s| ==> k <= key(s[i])
  }

  /** Every key in `s` differs from `k`. */
  predicate AllOtherThan<T>(s: seq<T>, key: T -> int, k: int)
  {
    forall i :: 0 <= i < |s| ==> key(s[i]) != k
  }

  lemma ConsSorted<T>(a: T, s: seq<T>, key: T -> int)
    requires SortedBy(s, key) && AllAtLeast(s, key, key(a))
    ensures SortedBy([a] + s, key)
  {
    var r := [a] + s;
    forall i, j | 0 <= i < j < |r| ensures key(r[i]) <= key(r[j]) {
      assert r[j] == s[j - 1];
      if i > 0 { assert r[i] == s[i - 1]; }
    }
  }

  lemma ConsStrictlySorted<T>(a: T, s: seq<T>, key: T -> int)
    requires StrictlySortedBy(s, key) && AllAtLeast(s, key, key(a)) && AllOtherThan(s, key, key(a))
    ensures StrictlySortedBy([a] + s, key)
  {
    var r := [a] + s;
    forall i, j | 0 <= i < j < |r| ensures key(r[i]) < key(r[j]) {
      assert r[j] == s[j - 1];
      if i > 0 { assert r[i] == s[i - 1]; }
    }
  }

  lemma ConsDistinct<T>(a: T, s: seq<T>, key: T -> int)
    requires DistinctKeys(s, key) && AllOtherThan(s, key, key(a))
    ensures DistinctKeys([a] + s, key)
  {
    var r := [a] + s;
    forall i, j | 0 <= i < j < |r| ensures key(r[i]) != key(r[j]) {
      assert r[j] == s[j - 1];
      if i > 0 { assert r[i] == s[i - 1]; }
    }
  }

  lemma TailDistinct<T>(s: seq<T>, key: T -> int)
    requires DistinctKeys(s, key) && |s| > 0
    ensures DistinctKeys(s[1..], key) && AllOtherThan(s[1..], key, key(s[0]))
  {
    var t := s[1..];
    assert forall i :: 0 <= i < |t| ==> t[i] == s[i + 1];
  }

  /** `x` placed into the sorted `s` before the first element whose key is
      not smaller. */
  function Insert<T>(x: T, s: seq<T>, key: T -> int): (r: seq<T>)
    requires SortedBy(s, key)
    ensures |r| == |s| + 1
    ensures SortedBy(r, key)
    ensures multiset(r) == multiset(s) + multiset{x}
  {
    if |s| == 0 then [x]
    else if key(x) <= key(s[0]) then
      ConsSorted(x, s, key);
      [x] + s
    else
      var tail := s[1..];
      assert s == [s[0]] + tail;
      var rest := Insert(x, tail, key);
      assert AllAtLeast(rest, key, key(s[0])) by {
        forall j | 0 <= j < |rest| ensures key(s[0]) <= key(rest[j]) {
          assert rest[j] in multiset(rest);
          assert rest[j] == x || rest[j] in multiset(tail);
        }
      }
      ConsSorted(s[0], rest, key);
      assert multiset([s[0]] + rest) == multiset{s[0]} + multiset(rest);
      [s[0]] + rest
  }

  /** A lower bound on the keys survives insertion of an element above it. */
  lemma {:induction false} InsertAtLeast<T>(x: T, s: seq<T>, key: T -> int, k: int)
    requires SortedBy(s, key) && AllAtLeast(s, key, k) && k <= key(x)
    ensures AllAtLeast(Insert(x, s, key), key, k)
  {
    if |s| > 0 && key(x) > key(s[0]) {
      InsertAtLeast(x, s[1..], key, k);
    }
  }

  /** A key that occurs neither in `s` nor as `x` does not occur after
      insertion either. */
  lemma {:induction false} InsertOtherThan<T>(x: T, s: seq<T>, key: T -> int, k: int)
    requires SortedBy(s, key) && AllOtherThan(s, key, k) && key(x) != k
    ensures AllOtherThan(Insert(x, s, key), key, k)
  {
    if |s| > 0 && key(x) > key(s[0]) {
      InsertOtherThan(x, s[1..], key, k);
    }
  }

  /** Inserting a new key into a strictly sorted sequence keeps it strictly
      sorted. */
  lemma {:induction false} InsertStrict<T>(x: T, s: seq<T>, key: T -> int)
    requires StrictlySortedBy(s, key) && AllOtherThan(s, key, key(x))
    ensures StrictlySortedBy(Insert(x, s, key), key)
  {
    if |s| == 0 {
    } else if key(x) <= key(s[0]) {
      ConsStrictlySorted(x, s, key);
    } else {
      var tail := s[1..];
      InsertStrict(x, tail, key);
      InsertAtLeast(x, tail, key, key(s[0]));
      InsertOtherThan(x, tail, key, key(s[0]));
      ConsStrictlySorted(s[0], Insert(x, tail, key), key);
    }
  }

  /** The elements of `s` ordered by `key`. */
  function SortBy<T>(s: seq<T>, key: T -> int): (r: seq<T>)
    ensures |r| == |s|
    ensures SortedBy(r, key)
    ensures multiset(r) == multiset(s)
  {
    if |s| == 0 then []
    else
      assert s == [s[0]] + s[1..];
      Insert(s[0], SortBy(s[1..], key), key)
  }

  /** Sorting keeps a key that `s` lacks out of the result. */
  lemma {:induction false} SortByOtherThan<T>(s: seq<T>, key: T -> int, k: int)
    requires AllOtherThan(s, key, k)
    ensures AllOtherThan(SortBy(s, key), key, k)
  {
    if |s| > 0 {
      SortByOtherThan(s[1..], key, k);
      InsertOtherThan(s[0], SortBy(s[1..], key), key, k);
    }
  }

  /** Sorting rows whose keys are pairwise distinct orders them strictly. */
  lemma {:induction false} SortByStrict<T>(s: seq<T>, key: T -> int)
    requires DistinctKeys(s, key)
    ensures StrictlySortedBy(SortBy(s, key), key)
  {
    if |s| > 0 {
      var tail := s[1..];
      SortByStrict(tail, key);
      SortByOtherThan(tail, key, key(s[0]));
      InsertStrict(s[0], SortBy(tail, key), key);
    }
  }

  /** A prefix of a sorted sequence holds its smallest keys: whatever is
      left out has a key at least as large as every key kept. */
  lemma PrefixHoldsSmallest<T>(s: seq<T>, key: T -> int, n: nat)
    requires SortedBy(s, key) && n <= |s|
    ensures multiset(s[..n]) <= multiset(s)
    ensures forall e, i :: e in multiset(s) - multiset(s[..n]) && 0 <= i < n ==> key(s[i]) <= key(e)
  {
    var front, back := s[..n], s[n..];
    assert s == front + back;
    assert multiset(s) == multiset(front) + multiset(back);
    assert multiset(s) - multiset(front) == multiset(back);
    forall e, i | e in multiset(back) && 0 <= i < n ensures key(s[i]) <= key(e) {
      var m :| 0 <= m < |back| && back[m] == e;
      assert back[m] == s[n + m];
    }
  }

  /** The `n` elements of `s` with the smallest keys, in key order
      (`ORDER BY key LIMIT n`). */
  function Smallest<T>(s: seq<T>, key: T -> int, n: nat): (r: seq<T>)
    ensures |r| == if n <= |s| then n else |s|
    ensures SortedBy(r, key)
    ensures multiset(r) <= multiset(s)
    ensures forall e, i :: e in multiset(s) - multiset(r) && 0 <= i < |r| ==> key(r[i]) <= key(e)
  {
    var sorted := SortBy(s, key);
    var m := if n <= |sorted| then n else |sorted|;
    PrefixHoldsSmallest(sorted, key, m);
    var r := sorted[..m];
    forall i, j | 0 <= i < j < |r| ensures key(r[i]) <= key(r[j]) {
      assert r[i] == sorted[i] && r[j] == sorted[j];
    }
    r
  }
}
