/**
 * Stream.sorted with a comparator that orders by a natural-number key,
 * largest first. Java sorts object streams with a stable merge sort, so
 * elements with equal keys keep their stream order; it is modelled here by
 * insertion sort, which produces the same (unique) stable order.
 */
module StableSort {
  import opened Streams

  /** Keys never increase from left to right. */
  ghost predicate SortedDescending<T>(s: seq<T>, key: T -> nat) {
    forall i, j :: 0 <= i < j < |s| ==> key(s[i]) >= key(s[j])
  }

  /** The filter that keeps the elements whose key is `k`. */
  function KeyIs<T>(key: T -> nat, k: nat): T -> bool {
    x => key(x) == k
  }

  /** For every key, the elements with that key appear in `a` in the same order as in `b`. */
  ghost predicate SameOrderWithinKeys<T(!new)>(a: seq<T>, b: seq<T>, key: T -> nat) {
    forall k: nat :: Filter(a, KeyIs(key, k)) == Filter(b, KeyIs(key, k))
  }

  lemma SortedCons<T>(h: T, t: seq<T>, key: T -> nat)
    requires SortedDescending(t, key)
    requires t != [] ==> key(h) >= key(t[0])
    ensures SortedDescending([h] + t, key)
  {
    forall i, j | 0 <= i < j < |[h] + t| ensures key(([h] + t)[i]) >= key(([h] + t)[j]) {
      if i == 0 && j > 1 {
        assert key(t[0]) >= key(t[j - 1]);
      }
    }
  }

  /** Puts `x` in front of the first element whose key is not larger than its own. */
  function Insert<T(==)>(x: T, s: seq<T>, key: T -> nat): (r: seq<T>)
    requires SortedDescending(s, key)
    ensures |r| == |s| + 1 && (r[0] == x || (s != [] && r[0] == s[0]))
    ensures SortedDescending(r, key)
    ensures multiset(r) == multiset(s) + multiset{x}
    decreases |s|
  {
    if s == [] || key(s[0]) <= key(x) then
      SortedCons(x, s, key);
      [x] + s
    else
      var rest := Insert(x, s[1..], key);
      assert s == [s[0]] + s[1..];
      SortedCons(s[0], rest, key);
      [s[0]] + rest
  }

  /**
   * Inserting `x` keeps it ahead of every element that `p` keeps along with
   * it; `p` stands for a filter on one key value.
   */
  lemma {:induction false} InsertKeepsOrderWithinKeys<T(!new)>(x: T, s: seq<T>, key: T -> nat, p: T -> bool)
    requires SortedDescending(s, key)
    requires forall y :: p(x) && p(y) ==> key(y) == key(x)
    ensures Filter(Insert(x, s, key), p) == Filter([x] + s, p)
    decreases |s|
  {
    var u := [x] + s;
    assert u[0] == x && u[1..] == s;
    if s != [] && key(s[0]) > key(x) {
      var rest := Insert(x, s[1..], key);
      var r := [s[0]] + rest;
      assert r[0] == s[0] && r[1..] == rest;
      var v := [x] + s[1..];
      assert v[0] == x && v[1..] == s[1..];
      InsertKeepsOrderWithinKeys(x, s[1..], key, p);
      assert Filter(rest, p) == Filter(v, p);
    }
  }

  /** The stable descending sort of `s` by `key`. */
  function SortDescending<T(==,!new)>(s: seq<T>, key: T -> nat): (r: seq<T>)
    ensures SortedDescending(r, key)
    ensures multiset(r) == multiset(s)
    ensures SameOrderWithinKeys(r, s, key)
  {
    if s == [] then []
    else
      var rest := SortDescending(s[1..], key);
      assert s == [s[0]] + s[1..];
      forall k: nat ensures Filter(Insert(s[0], rest, key), KeyIs(key, k)) == Filter(s, KeyIs(key, k)) {
        var p := KeyIs(key, k);
        InsertKeepsOrderWithinKeys(s[0], rest, key, p);
        var u := [s[0]] + rest;
        assert u[0] == s[0] && u[1..] == rest;
      }
      Insert(s[0], rest, key)
  }

  /** Sorting a sequence that is already in descending order leaves it as it is. */
  lemma {:induction false} SortOfSorted<T(!new)>(s: seq<T>, key: T -> nat)
    requires SortedDescending(s, key)
    ensures SortDescending(s, key) == s
  {
    if s != [] {
      var t := s[1..];
      assert SortedDescending(t, key);
      SortOfSorted(t, key);
      assert t != [] ==> key(t[0]) <= key(s[0]);
      assert [s[0]] + t == s;
    }
  }

  /** Sorting twice gives the same as sorting once. */
  lemma SortIdempotent<T(!new)>(s: seq<T>, key: T -> nat)
    ensures SortDescending(SortDescending(s, key), key) == SortDescending(s, key)
  {
    SortOfSorted(SortDescending(s, key), key);
  }

  /** Cutting a descending sequence leaves nothing behind that outranks what was kept. */
  lemma TakeOutranksDrop<T>(r: seq<T>, key: T -> nat, n: nat)
    requires SortedDescending(r, key) && n <= |r|
    ensures forall v, w :: v in r[..n] && w in r[n..] ==> key(w) <= key(v)
  {
    forall v, w | v in r[..n] && w in r[n..] ensures key(w) <= key(v) {
      var i :| 0 <= i < n && r[..n][i] == v;
      var j :| 0 <= j < |r| - n && r[n..][j] == w;
      assert r[i] == v && r[n + j] == w;
    }
  }

  /** Cutting a sequence splits its multiset into what is kept and what is dropped. */
  lemma TakeSplitsMultiset<T>(s: seq<T>, r: seq<T>, n: nat)
    requires multiset(r) == multiset(s) && n <= |r|
    ensures multiset(r[..n]) <= multiset(s)
    ensures multiset(s) - multiset(r[..n]) == multiset(r[n..])
  {
    assert r == r[..n] + r[n..];
  }

  /** Cutting keeps, for every key, a prefix of the elements with that key. */
  lemma TakeKeepsKeyPrefix<T(!new)>(s: seq<T>, r: seq<T>, key: T -> nat, n: nat)
    requires SameOrderWithinKeys(r, s, key) && n <= |r|
    ensures forall k: nat :: Filter(r[..n], KeyIs(key, k)) <= Filter(s, KeyIs(key, k))
  {
    assert r == r[..n] + r[n..];
    forall k: nat ensures Filter(r[..n], KeyIs(key, k)) <= Filter(s, KeyIs(key, k)) {
      FilterConcat(r[..n], r[n..], KeyIs(key, k));
    }
  }

  /**
   * The first `n` elements of a stable descending sort of `s`: sorted, drawn
   * from `s`, none outranked by an element left out, and for each key the
   * earliest elements of `s` with that key.
   */
  lemma TakeOfSorted<T(!new)>(s: seq<T>, r: seq<T>, key: T -> nat, n: nat)
    requires SortedDescending(r, key) && multiset(r) == multiset(s)
    requires SameOrderWithinKeys(r, s, key)
    requires n <= |r|
    ensures SortedDescending(r[..n], key)
    ensures multiset(r[..n]) <= multiset(s)
    ensures forall v, w :: v in r[..n] && w in multiset(s) - multiset(r[..n]) ==> key(w) <= key(v)
    ensures forall k: nat :: Filter(r[..n], KeyIs(key, k)) <= Filter(s, KeyIs(key, k))
  {
    TakeSplitsMultiset(s, r, n);
    assert forall w :: w in multiset(r[n..]) ==> w in r[n..];
    TakeOutranksDrop(r, key, n);
    TakeKeepsKeyPrefix(s, r, key, n);
  }
}
