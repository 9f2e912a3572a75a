/**
 * The java.util.stream operations the query layer is built from, on finite
 * sequential (ordered) streams: filter, map, count, flatMap and distinct,
 * with the facts about them that the queries rely on.
 */
module Streams {

  /** `a` can be obtained from `b` by deleting elements: same order, no reordering. */
  ghost predicate IsSubsequence<T>(a: seq<T>, b: seq<T>)
    decreases |b|
  {
    if a == [] then true
    else if b == [] then false
    else (a[0] == b[0] && IsSubsequence(a[1..], b[1..])) || IsSubsequence(a, b[1..])
  }

  lemma {:induction false} SubsequenceLength<T>(a: seq<T>, b: seq<T>)
    requires IsSubsequence(a, b)
    ensures |a| <= |b|
    decreases |b|
  {
    if a != [] {
      if a[0] == b[0] && IsSubsequence(a[1..], b[1..]) {
        SubsequenceLength(a[1..], b[1..]);
      } else {
        SubsequenceLength(a, b[1..]);
      }
    }
  }

  /** No element occurs twice. */
  ghost predicate NoDuplicates<T>(s: seq<T>) {
    forall i, j :: 0 <= i < j < |s| ==> s[i] != s[j]
  }

  /** The position of the first occurrence of `x` in `s`. */
  function IndexOf<T(==)>(s: seq<T>, x: T): (i: nat)
    requires x in s
    ensures i < |s| && s[i] == x && x !in s[..i]
  {
    if s[0] == x then 0 else 1 + IndexOf(s[1..], x)
  }

  /** Number of elements of `s` satisfying `p`. */
  function Count<T>(s: seq<T>, p: T -> bool): nat {
    if s == [] then 0 else (if p(s[0]) then 1 else 0) + Count(s[1..], p)
  }

  /** Stream.filter: the elements of `s` satisfying `p`, in stream order. */
  function Filter<T(==,!new)>(s: seq<T>, p: T -> bool): (r: seq<T>)
    ensures |r| == Count(s, p) <= |s|
    ensures forall x :: x in r <==> x in s && p(x)
    ensures IsSubsequence(r, s)
  {
    if s == [] then []
    else if p(s[0]) then [s[0]] + Filter(s[1..], p)
    else Filter(s[1..], p)
  }

  /** Filtering distributes over concatenation. */
  lemma {:induction false} FilterConcat<T(!new)>(a: seq<T>, b: seq<T>, p: T -> bool)
    ensures Filter(a + b, p) == Filter(a, p) + Filter(b, p)
  {
    if a == [] {
      assert a + b == b;
    } else {
      assert (a + b)[0] == a[0] && (a + b)[1..] == a[1..] + b;
      FilterConcat(a[1..], b, p);
    }
  }

  /** A weaker predicate keeps everything a stronger one keeps, in the same order. */
  lemma {:induction false} FilterWeaker<T(!new)>(s: seq<T>, p: T -> bool, q: T -> bool)
    requires forall x :: p(x) ==> q(x)
    ensures IsSubsequence(Filter(s, p), Filter(s, q))
  {
    if s != [] {
      FilterWeaker(s[1..], p, q);
      var fp, fq := Filter(s[1..], p), Filter(s[1..], q);
      if p(s[0]) {
        assert Filter(s, p) == [s[0]] + fp && Filter(s, q) == [s[0]] + fq;
        assert ([s[0]] + fp)[1..] == fp && ([s[0]] + fq)[1..] == fq;
      } else if q(s[0]) {
        assert Filter(s, q) == [s[0]] + fq && ([s[0]] + fq)[1..] == fq;
      }
    }
  }

  /** Stream.map: `f` applied to every element, in stream order. */
  function Map<T, U>(s: seq<T>, f: T -> U): (r: seq<U>)
    ensures |r| == |s|
    ensures forall i :: 0 <= i < |s| ==> r[i] == f(s[i])
  {
    if s == [] then [] else [f(s[0])] + Map(s[1..], f)
  }

  lemma {:induction false} MapMembership<T, U>(s: seq<T>, f: T -> U, y: U)
    ensures y in Map(s, f) <==> exists x :: x in s && f(x) == y
  {
    if y in Map(s, f) {
      var i :| 0 <= i < |s| && Map(s, f)[i] == y;
      assert s[i] in s;
    }
    if exists x :: x in s && f(x) == y {
      var x :| x in s && f(x) == y;
      var i :| 0 <= i < |s| && s[i] == x;
      assert Map(s, f)[i] == y;
    }
  }

  /** Every element satisfies `p` exactly when all of them are counted. */
  lemma {:induction false} CountAll<T>(s: seq<T>, p: T -> bool)
    ensures Count(s, p) <= |s|
    ensures Count(s, p) == |s| <==> forall i :: 0 <= i < |s| ==> p(s[i])
  {
    if s != [] {
      CountAll(s[1..], p);
      assert forall i :: 0 < i < |s| ==> s[i] == s[1..][i - 1];
    }
  }

  lemma {:induction false} MapSubsequence<T, U>(a: seq<T>, b: seq<T>, f: T -> U)
    requires IsSubsequence(a, b)
    ensures IsSubsequence(Map(a, f), Map(b, f))
    decreases |b|
  {
    if a != [] {
      assert Map(a, f)[1..] == Map(a[1..], f) && Map(b, f)[1..] == Map(b[1..], f);
      if a[0] == b[0] && IsSubsequence(a[1..], b[1..]) {
        MapSubsequence(a[1..], b[1..], f);
      } else {
        MapSubsequence(a, b[1..], f);
      }
    }
  }

  /** `filter(p).map(f)`: the images under `f` of the elements satisfying `p`, in order. */
  function Select<T(==,!new), U(==,!new)>(s: seq<T>, p: T -> bool, f: T -> U): (r: seq<U>)
    ensures |r| == Count(s, p)
    ensures forall y :: y in r <==> exists x :: x in s && p(x) && f(x) == y
    ensures IsSubsequence(r, Map(s, f))
    ensures |r| == |Filter(s, p)| && forall i :: 0 <= i < |r| ==> r[i] == f(Filter(s, p)[i])
  {
    var kept := Filter(s, p);
    MapSubsequence(kept, s, f);
    assert forall y :: y in Map(kept, f) ==> exists x :: x in s && p(x) && f(x) == y by {
      forall y | y in Map(kept, f) ensures exists x :: x in s && p(x) && f(x) == y {
        var i :| 0 <= i < |kept| && Map(kept, f)[i] == y;
        assert kept[i] in kept;
      }
    }
    assert forall x :: x in s && p(x) ==> f(x) in Map(kept, f) by {
      forall x | x in s && p(x) ensures f(x) in Map(kept, f) {
        var i :| 0 <= i < |kept| && kept[i] == x;
        assert Map(kept, f)[i] == f(x);
      }
    }
    Map(kept, f)
  }

  /** Stream.flatMap over already-mapped pieces: the pieces one after another. */
  function Flatten<T(==,!new)>(ss: seq<seq<T>>): (r: seq<T>)
    ensures forall x :: x in r <==> exists i :: 0 <= i < |ss| && x in ss[i]
  {
    if ss == [] then []
    else
      var rest := Flatten(ss[1..]);
      assert forall i :: 0 < i < |ss| ==> ss[i] == ss[1..][i - 1];
      ss[0] + rest
  }

  /** flatMap distributes over concatenation. */
  lemma {:induction false} FlattenConcat<T(!new)>(a: seq<seq<T>>, b: seq<seq<T>>)
    ensures Flatten(a + b) == Flatten(a) + Flatten(b)
  {
    if a == [] {
      assert a + b == b;
    } else {
      assert (a + b)[0] == a[0] && (a + b)[1..] == a[1..] + b;
      FlattenConcat(a[1..], b);
    }
  }

  /**
   * The pieces come one after another: piece `i` follows directly the
   * flattening of the pieces before it.
   */
  lemma FlattenOrder<T(!new)>(ss: seq<seq<T>>)
    ensures forall i :: 0 <= i < |ss| ==> Flatten(ss[..i + 1]) == Flatten(ss[..i]) + ss[i]
    ensures forall i :: 0 <= i < |ss| ==> Flatten(ss[..i]) + ss[i] <= Flatten(ss)
  {
    forall i | 0 <= i < |ss|
      ensures Flatten(ss[..i + 1]) == Flatten(ss[..i]) + ss[i]
      ensures Flatten(ss[..i]) + ss[i] <= Flatten(ss)
    {
      assert ss[..i + 1] == ss[..i] + [ss[i]];
      assert ss == ss[..i + 1] + ss[i + 1..];
      FlattenConcat(ss[..i], [ss[i]]);
      FlattenConcat(ss[..i + 1], ss[i + 1..]);
      assert Flatten([ss[i]]) == ss[i] + Flatten([]);
    }
  }

  lemma {:induction false} IndexOfPrefix<T>(s: seq<T>, t: seq<T>, x: T)
    requires x in s
    ensures IndexOf(s + t, x) == IndexOf(s, x)
  {
    if s[0] != x {
      assert (s + t)[0] == s[0] && (s + t)[1..] == s[1..] + t;
      IndexOfPrefix(s[1..], t, x);
    }
  }

  /**
   * Stream.distinct on an ordered stream: every element once, each in the
   * place of its first occurrence.
   */
  function Distinct<T(==,!new)>(s: seq<T>): (r: seq<T>)
    ensures NoDuplicates(r)
    ensures forall x :: x in r <==> x in s
    ensures forall i, j :: 0 <= i < j < |r| ==> IndexOf(s, r[i]) < IndexOf(s, r[j])
    decreases |s|
  {
    if s == [] then []
    else
      var init, last := s[..|s| - 1], s[|s| - 1];
      assert s == init + [last];
      var d := Distinct(init);
      forall x | x in init ensures IndexOf(s, x) == IndexOf(init, x) {
        IndexOfPrefix(init, [last], x);
      }
      if last in d then d
      else
        assert IndexOf(s, last) == |s| - 1;
        d + [last]
  }

  /**
   * Stream.max(comparing(key)) as the reduction Java performs: a later
   * element replaces the running maximum only when its key is strictly
   * larger, so among ties the earliest wins.
   */
  function MaxBy<T>(best: T, rest: seq<T>, key: T -> nat): (r: T)
    ensures r == best || r in rest
    ensures key(best) <= key(r)
    ensures forall x :: x in rest ==> key(x) <= key(r)
    decreases |rest|
  {
    if rest == [] then best
    else MaxBy(if key(best) >= key(rest[0]) then best else rest[0], rest[1..], key)
  }

  /** `r` sits at position `k` of `s`, has the largest key, and everything before it a smaller one. */
  ghost predicate FirstMaximumAt<T>(s: seq<T>, key: T -> nat, r: T, k: int) {
    && 0 <= k < |s| && s[k] == r
    && (forall j :: 0 <= j < |s| ==> key(s[j]) <= key(r))
    && (forall j :: 0 <= j < k ==> key(s[j]) < key(r))
  }

  lemma {:induction false} MaxByIsFirst<T>(best: T, rest: seq<T>, key: T -> nat) returns (k: nat)
    ensures FirstMaximumAt([best] + rest, key, MaxBy(best, rest, key), k)
    decreases |rest|
  {
    var s := [best] + rest;
    var r := MaxBy(best, rest, key);
    if rest == [] {
      k := 0;
    } else {
      var next := if key(best) >= key(rest[0]) then best else rest[0];
      var s' := [next] + rest[1..];
      var k' := MaxByIsFirst(next, rest[1..], key);
      assert MaxBy(next, rest[1..], key) == r;
      assert s[0] == best && s[1] == rest[0] && s'[0] == next;
      assert forall j :: 1 <= j < |s'| ==> s'[j] == s[j + 1];
      if k' > 0 {
        k := k' + 1;
        forall j | 0 <= j < |s| ensures key(s[j]) <= key(r) {
          if j >= 2 { assert s[j] == s'[j - 1]; }
        }
        forall j | 0 <= j < k ensures key(s[j]) < key(r) {
          if j >= 2 { assert s[j] == s'[j - 1]; }
        }
      } else if key(best) >= key(rest[0]) {
        k := 0;
        forall j | 0 <= j < |s| ensures key(s[j]) <= key(r) {
          if j >= 2 { assert s[j] == s'[j - 1]; }
        }
      } else {
        k := 1;
        forall j | 0 <= j < |s| ensures key(s[j]) <= key(r) {
          if j >= 2 { assert s[j] == s'[j - 1]; }
        }
      }
    }
  }
}
