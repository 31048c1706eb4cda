/** Sequence utilities used across the model. */
module Seqs {

  /** Concatenation of a sequence of sequences (Python's `itertools.chain`). */
  function Flatten<T>(ss: seq<seq<T>>): seq<T>
  {
    if |ss| == 0 then [] else ss[0] + Flatten(ss[1..])
  }

  lemma {:induction false} FlattenAppend<T>(a: seq<seq<T>>, b: seq<seq<T>>)
    ensures Flatten(a + b) == Flatten(a) + Flatten(b)
  {
    if |a| == 0 {
      assert a + b == b;
    } else {
      assert (a + b)[1..] == a[1..] + b;
      FlattenAppend(a[1..], b);
    }
  }

  /** `chain(*map(f, xs))`: apply `f` to each element and concatenate. */
  function FlatMap<A, B>(f: A -> seq<B>, xs: seq<A>): seq<B>
  {
    if |xs| == 0 then [] else f(xs[0]) + FlatMap(f, xs[1..])
  }

  lemma FlatMapStep<A, B>(f: A -> seq<B>, xs: seq<A>, i: int)
    requires 0 <= i < |xs|
    ensures FlatMap(f, xs[i..]) == f(xs[i]) + FlatMap(f, xs[i + 1..])
  {
    assert xs[i..][1..] == xs[i + 1..];
  }

  /** The loop `for x in xs: out.extend(f(x))`. */
  method ExtendLoop<A, B>(f: A -> seq<B>, xs: seq<A>) returns (out: seq<B>)
    ensures out == FlatMap(f, xs)
  {
    out := [];
    var i := 0;
    assert xs[i..] == xs;
    while i < |xs|
      invariant 0 <= i <= |xs|
      invariant out + FlatMap(f, xs[i..]) == FlatMap(f, xs)
    {
      FlatMapStep(f, xs, i);
      out := out + f(xs[i]);
      i := i + 1;
    }
    assert out + [] == out;
  }

  /** No element occurs twice. */
  predicate NoDup<T(==)>(s: seq<T>)
  {
    forall i, j :: 0 <= i < j < |s| ==> s[i] != s[j]
  }

  function Elems<T>(s: seq<T>): set<T>
  {
    set x | x in s
  }

  /** A duplicate-free sequence has as many distinct elements as positions. */
  lemma {:induction false} NoDupCard<T>(s: seq<T>)
    requires NoDup(s)
    ensures |Elems(s)| == |s|
  {
    if |s| > 0 {
      assert Elems(s) == {s[0]} + Elems(s[1..]);
      assert s[0] !in Elems(s[1..]);
      NoDupCard(s[1..]);
    }
  }

  /** The distinct elements of `s` in order of first appearance (pandas'
      `unique`). */
  function Distinct<T(==, !new)>(s: seq<T>): (r: seq<T>)
    ensures NoDup(r)
    ensures forall x :: x in r <==> x in s
    ensures |r| <= |s|
  {
    if |s| == 0 then []
    else
      var prev := Distinct(s[..|s| - 1]);
      var last := s[|s| - 1];
      assert s == s[..|s| - 1] + [last];
      if last in prev then prev else prev + [last]
  }

  function Sum(s: seq<int>): int
  {
    if |s| == 0 then 0 else s[0] + Sum(s[1..])
  }

  lemma {:induction false} SumAppend(a: seq<int>, b: seq<int>)
    ensures Sum(a + b) == Sum(a) + Sum(b)
  {
    if |a| == 0 {
      assert a + b == b;
    } else {
      assert (a + b)[1..] == a[1..] + b;
      SumAppend(a[1..], b);
    }
  }

  /** `s` starts with `p`. */
  predicate StartsWith<T(==)>(s: seq<T>, p: seq<T>)
  {
    |p| <= |s| && s[..|p|] == p
  }

  /** Keys never decrease along `s`. */
  predicate SortedBy<T>(s: seq<T>, key: T -> int)
  {
    forall i, j :: 0 <= i < j < |s| ==> key(s[i]) <= key(s[j])
  }

  function InsertBy<T(!new)>(x: T, s: seq<T>, key: T -> int): (r: seq<T>)
    requires SortedBy(s, key)
    ensures SortedBy(r, key)
    ensures multiset(r) == multiset(s) + multiset{x}
    ensures forall y :: y in r <==> y in s || y == x
  {
    if |s| == 0 then [x]
    else if key(x) <= key(s[0]) then [x] + s
    else
      var rest := InsertBy(x, s[1..], key);
      assert s == [s[0]] + s[1..];
      assert forall i :: 0 <= i < |rest| ==> key(s[0]) <= key(rest[i]) by {
        forall i | 0 <= i < |rest| ensures key(s[0]) <= key(rest[i]) {
          assert rest[i] in rest;
          if rest[i] != x {
            var j :| 0 <= j < |s[1..]| && s[1..][j] == rest[i];
            assert s[j + 1] == rest[i];
          }
        }
      }
      [s[0]] + rest
  }

  /** Insertion sort by an integer key: a sorted permutation of `s`. */
  function SortBy<T(!new)>(s: seq<T>, key: T -> int): (r: seq<T>)
    ensures SortedBy(r, key)
    ensures multiset(r) == multiset(s)
  {
    if |s| == 0 then []
    else
      assert s == [s[0]] + s[1..];
      InsertBy(s[0], SortBy(s[1..], key), key)
  }

  lemma {:induction false} NoDupCounts<T>(s: seq<T>, x: T)
    requires NoDup(s)
    ensures multiset(s)[x] <= 1
  {
    if |s| > 0 {
      assert s == [s[0]] + s[1..];
      NoDupCounts(s[1..], x);
      if s[0] == x {
        assert x !in s[1..];
      }
    }
  }

  /** A permutation of a duplicate-free sequence is duplicate-free. */
  lemma PermutationNoDup<T>(a: seq<T>, b: seq<T>)
    requires NoDup(a) && multiset(a) == multiset(b)
    ensures NoDup(b)
  {
    forall i, j | 0 <= i < j < |b| ensures b[i] != b[j] {
      var x := b[i];
      NoDupCounts(a, x);
      assert b == b[..j] + [b[j]] + b[j + 1..];
      assert x in b[..j];
      assert multiset(b)[x] == multiset(b[..j])[x] + multiset([b[j]])[x] + multiset(b[j + 1..])[x];
    }
  }

  lemma {:induction false} SubsetCard<T>(a: set<T>, b: set<T>)
    requires a <= b
    ensures |a| <= |b|
  {
    if a != {} {
      var x :| x in a;
      SubsetCard(a - {x}, b - {x});
    }
  }

  /** The elements of `s` whose key is below `v`. */
  function KeysBelow<T>(s: seq<T>, key: T -> int, v: int): set<T>
  {
    set x | x in s && key(x) < v
  }

  /** The elements of `s` whose key is at most `v`. */
  function KeysAtMost<T>(s: seq<T>, key: T -> int, v: int): set<T>
  {
    set x | x in s && key(x) <= v
  }

  /** The elements of `s` whose key is at least `v`. */
  function KeysAtLeast<T>(s: seq<T>, key: T -> int, v: int): set<T>
  {
    set x | x in s && key(x) >= v
  }

  /** In a duplicate-free sequence sorted by `key`, at most `k` elements have
      a key strictly below the key at position `k`. */
  lemma RankStrictlyBelow<T>(s: seq<T>, key: T -> int, k: int)
    requires NoDup(s) && SortedBy(s, key) && 0 <= k < |s|
    ensures |KeysBelow(s, key, key(s[k]))| <= k
  {
    var below := KeysBelow(s, key, key(s[k]));
    forall x | x in below ensures x in Elems(s[..k]) {
      var i :| 0 <= i < |s| && s[i] == x;
      assert s[..k][i] == x;
    }
    assert NoDup(s[..k]);
    NoDupCard(s[..k]);
    SubsetCard(below, Elems(s[..k]));
  }

  /** ... and at least `k + 1` elements have a key at or below it. */
  lemma RankAtOrBelow<T>(s: seq<T>, key: T -> int, k: int)
    requires NoDup(s) && SortedBy(s, key) && 0 <= k < |s|
    ensures |KeysAtMost(s, key, key(s[k]))| >= k + 1
  {
    var atOrBelow := KeysAtMost(s, key, key(s[k]));
    forall x | x in Elems(s[..k + 1]) ensures x in atOrBelow {
      var i :| 0 <= i < k + 1 && s[..k + 1][i] == x;
      assert s[i] == x;
    }
    assert NoDup(s[..k + 1]);
    NoDupCard(s[..k + 1]);
    SubsetCard(Elems(s[..k + 1]), atOrBelow);
  }

  /** ... and at least `|s| - k` elements have a key at or above it. */
  lemma RankAtOrAbove<T>(s: seq<T>, key: T -> int, k: int)
    requires NoDup(s) && SortedBy(s, key) && 0 <= k < |s|
    ensures |KeysAtLeast(s, key, key(s[k]))| >= |s| - k
  {
    var atOrAbove := KeysAtLeast(s, key, key(s[k]));
    forall x | x in Elems(s[k..]) ensures x in atOrAbove {
      var i :| 0 <= i < |s| - k && s[k..][i] == x;
      assert s[k + i] == x;
    }
    assert NoDup(s[k..]);
    NoDupCard(s[k..]);
    SubsetCard(Elems(s[k..]), atOrAbove);
  }

  /** When keys strictly increase along `s`, exactly `k` elements have a key
      below the key at position `k`. */
  lemma RankStrictlyBelowExact<T>(s: seq<T>, key: T -> int, k: int)
    requires forall i, j :: 0 <= i < j < |s| ==> key(s[i]) < key(s[j])
    requires 0 <= k < |s|
    ensures |KeysBelow(s, key, key(s[k]))| == k
  {
    assert NoDup(s);
    RankStrictlyBelow(s, key, k);
    var below := KeysBelow(s, key, key(s[k]));
    forall x | x in Elems(s[..k]) ensures x in below {
      var i :| 0 <= i < k && s[..k][i] == x;
      assert s[i] == x;
    }
    assert NoDup(s[..k]);
    NoDupCard(s[..k]);
    SubsetCard(Elems(s[..k]), below);
  }
}
