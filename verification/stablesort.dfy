/** Python's `list.sort(key=...)` and `sorted(..., key=...)`: a stable sort
    in ascending key order. Modelled as insertion sort on sequences; what
    the callers rely on is stated as three properties (ordered, a
    permutation, stable) and proved here once. */
module StableSort {

  /** Ascending by `key`. */
  predicate SortedBy<T>(s: seq<T>, key: T -> int) {
    forall i, j :: 0 <= i < j < |s| ==> key(s[i]) <= key(s[j])
  }

  /** The elements of `s` whose key is `k`, in their order in `s`. */
  function KeyFilter<T>(s: seq<T>, key: T -> int, k: int): seq<T> {
    if |s| == 0 then []
    else (if key(s[0]) == k then [s[0]] else []) + KeyFilter(s[1..], key, k)
  }

  /** Inserts `x` into sorted `s` before the first element whose key is not
      smaller, so `x` precedes the elements with an equal key. */
  function Insert<T>(x: T, s: seq<T>, key: T -> int): (r: seq<T>)
    requires SortedBy(s, key)
    ensures SortedBy(r, key)
    ensures multiset(r) == multiset(s) + multiset{x}
  {
    if |s| == 0 || key(x) <= key(s[0]) then [x] + s
    else
      var rest := Insert(x, s[1..], key);
      BelowRest(x, s, rest, key);
      ConsSorted(s[0], rest, key);
      assert s == [s[0]] + s[1..];
      [s[0]] + rest
  }

  /** The head of sorted `s` is a lower bound of the rest with `x` added,
      when `x` does not go first. */
  lemma BelowRest<T>(x: T, s: seq<T>, rest: seq<T>, key: T -> int)
    requires SortedBy(s, key) && |s| > 0 && key(s[0]) < key(x)
    requires multiset(rest) == multiset(s[1..]) + multiset{x}
    ensures forall e :: e in rest ==> key(s[0]) <= key(e)
  {
    forall e | e in rest
      ensures key(s[0]) <= key(e)
    {
      assert e in multiset(rest);
      if e != x {
        assert e in multiset(s[1..]);
        var j :| 0 <= j < |s[1..]| && s[1..][j] == e;
        assert s[j + 1] == e;
      }
    }
  }

  /** A lower bound put before a sorted sequence keeps it sorted. */
  lemma ConsSorted<T>(h: T, rest: seq<T>, key: T -> int)
    requires SortedBy(rest, key) && forall e :: e in rest ==> key(h) <= key(e)
    ensures SortedBy([h] + rest, key)
  {
    var r := [h] + rest;
    forall i, j | 0 <= i < j < |r|
      ensures key(r[i]) <= key(r[j])
    {
      assert r[j] == rest[j - 1] && r[j] in rest;
      if i > 0 {
        assert r[i] == rest[i - 1];
      }
    }
  }

  /** `sorted(s, key=key)` */
  function SortBy<T>(s: seq<T>, key: T -> int): (r: seq<T>)
    ensures SortedBy(r, key)
    ensures multiset(r) == multiset(s)
  {
    if |s| == 0 then []
    else
      assert s == [s[0]] + s[1..];
      Insert(s[0], SortBy(s[1..], key), key)
  }

  /** Insertion places `x` somewhere in `s` and leaves the rest in order. */
  lemma {:induction false} InsertSplits<T>(x: T, s: seq<T>, key: T -> int) returns (i: nat)
    requires SortedBy(s, key)
    ensures i <= |s| && Insert(x, s, key) == s[..i] + [x] + s[i..]
  {
    if |s| == 0 || key(x) <= key(s[0]) {
      i := 0;
    } else {
      var j := InsertSplits(x, s[1..], key);
      i := j + 1;
      assert s[..i] == [s[0]] + s[1..][..j];
      assert s[i..] == s[1..][j..];
    }
  }

  lemma {:induction false} KeyFilterCons<T>(x: T, s: seq<T>, key: T -> int, k: int)
    ensures KeyFilter([x] + s, key, k) == (if key(x) == k then [x] else []) + KeyFilter(s, key, k)
  {
    assert ([x] + s)[1..] == s;
  }

  lemma {:induction false} InsertStable<T>(x: T, s: seq<T>, key: T -> int, k: int)
    requires SortedBy(s, key)
    ensures KeyFilter(Insert(x, s, key), key, k) == (if key(x) == k then [x] else []) + KeyFilter(s, key, k)
  {
    if |s| == 0 || key(x) <= key(s[0]) {
      KeyFilterCons(x, s, key, k);
    } else {
      InsertStable(x, s[1..], key, k);
      KeyFilterCons(s[0], Insert(x, s[1..], key), key, k);
      KeyFilterCons(s[0], s[1..], key, k);
      assert [s[0]] + s[1..] == s;
    }
  }

  /** Stability: among elements with equal keys the input order survives. */
  lemma {:induction false} SortStable<T>(s: seq<T>, key: T -> int, k: int)
    ensures KeyFilter(SortBy(s, key), key, k) == KeyFilter(s, key, k)
  {
    if |s| > 0 {
      SortStable(s[1..], key, k);
      InsertStable(s[0], SortBy(s[1..], key), key, k);
      KeyFilterCons(s[0], s[1..], key, k);
      assert [s[0]] + s[1..] == s;
    }
  }
}
