/** The transition graph of a log: the state-to-index enumeration, the
    transition frequency matrix, node degrees, density and the cycle
    detector based on matrix powers. States are any type with equality. */
module Graph {
  import opened Wrappers
  import opened Seqs

  type Matrix = seq<seq<int>>

  /** `m` is an `n` by `n` matrix. */
  predicate IsSquare(m: Matrix, n: nat)
  {
    |m| == n && forall i :: 0 <= i < n ==> |m[i]| == n
  }

  predicate NonNegative(m: Matrix)
  {
    forall i, j :: 0 <= i < |m| && 0 <= j < |m[i]| ==> m[i][j] >= 0
  }

  // ---------------------------------------------------------------------
  // State enumeration

  /** `stoi`: each state of the enumeration `order` to its position. The
      enumeration order of the Python set is a parameter. */
  function Stoi<S>(order: seq<S>): map<S, int>
    requires NoDup(order)
  {
    map i | 0 <= i < |order| :: order[i] := i
  }

  /** `itos`: each position to its state. */
  function Itos<S>(order: seq<S>): map<int, S>
  {
    map i | 0 <= i < |order| :: order[i]
  }

  /** `stoi` maps the states bijectively onto 0..|S|-1 and `itos` is its
      inverse. */
  lemma StoiItosInverse<S>(order: seq<S>)
    requires NoDup(order)
    ensures Stoi(order).Keys == Elems(order)
    ensures forall i :: i in Itos(order) <==> 0 <= i < |order|
    ensures forall s :: s in Stoi(order) ==> 0 <= Stoi(order)[s] < |order| && Itos(order)[Stoi(order)[s]] == s
    ensures forall i :: i in Itos(order) ==> Itos(order)[i] in Stoi(order) && Stoi(order)[Itos(order)[i]] == i
  {
    forall s | s in Stoi(order) ensures 0 <= Stoi(order)[s] < |order| && Itos(order)[Stoi(order)[s]] == s {
      var i :| 0 <= i < |order| && order[i] == s;
    }
  }

  // ---------------------------------------------------------------------
  // Transitions

  /** `zip(trace, trace[1:])`: the consecutive pairs of one trace. */
  function Pairs<S>(tr: seq<S>): (ps: seq<(S, S)>)
    ensures |ps| == if |tr| == 0 then 0 else |tr| - 1
    ensures forall k :: 0 <= k < |ps| ==> ps[k] == (tr[k], tr[k + 1])
  {
    if |tr| <= 1 then [] else seq(|tr| - 1, k requires 0 <= k < |tr| - 1 => (tr[k], tr[k + 1]))
  }

  /** All transitions of all traces, in loop order. */
  function Transitions<S>(traces: seq<seq<S>>): seq<(S, S)>
  {
    FlatMap(Pairs, traces)
  }

  /** Both states of a transition occur in one and the same trace. */
  lemma {:induction false} TransitionMembers<S>(traces: seq<seq<S>>, p: (S, S))
    requires p in Transitions(traces)
    ensures exists k :: 0 <= k < |traces| && p.0 in traces[k] && p.1 in traces[k]
  {
    assert |traces| > 0;
    var ps := Pairs(traces[0]);
    assert Transitions(traces) == ps + Transitions(traces[1..]);
    if p in ps {
      var j :| 0 <= j < |ps| && ps[j] == p;
      assert traces[0][j] == p.0 && traces[0][j + 1] == p.1;
    } else {
      TransitionMembers(traces[1..], p);
      var k :| 0 <= k < |traces[1..]| && p.0 in traces[1..][k] && p.1 in traces[1..][k];
      assert traces[k + 1] == traces[1..][k];
    }
  }

  /** Sum over traces of max(len - 1, 0). */
  function TransitionCount<S>(traces: seq<seq<S>>): nat
  {
    if |traces| == 0 then 0
    else (if |traces[0]| == 0 then 0 else |traces[0]| - 1) + TransitionCount(traces[1..])
  }

  lemma {:induction false} TransitionsLength<S>(traces: seq<seq<S>>)
    ensures |Transitions(traces)| == TransitionCount(traces)
  {
    if |traces| > 0 {
      TransitionsLength(traces[1..]);
    }
  }

  /** Cell (i, j) counts the occurrences of the pair (order[i], order[j]) in
      `ps`. */
  function CountMatrix<S(==)>(ps: seq<(S, S)>, order: seq<S>): (m: Matrix)
    ensures IsSquare(m, |order|)
  {
    var ms := multiset(ps);
    seq(|order|, i requires 0 <= i < |order| => seq(|order|, j requires 0 <= j < |order| => ms[(order[i], order[j])]))
  }

  /** The reference frequency matrix: cell (i, j) counts the transitions from
      state i to state j of the enumeration. */
  function TransitionMatrix<S(==)>(traces: seq<seq<S>>, order: seq<S>): (m: Matrix)
    ensures IsSquare(m, |order|)
  {
    CountMatrix(Transitions(traces), order)
  }

  /** Every state that occurs in some transition is enumerated. */
  predicate Covered<S(==)>(traces: seq<seq<S>>, order: seq<S>)
  {
    forall p :: p in Transitions(traces) ==> p.0 in order && p.1 in order
  }

  // ---------------------------------------------------------------------
  // Matrix sums

  function MatrixSum(m: Matrix): int
  {
    if |m| == 0 then 0 else Sum(m[0]) + MatrixSum(m[1..])
  }

  lemma {:induction false} SumUpdate(s: seq<int>, j: int, v: int)
    requires 0 <= j < |s|
    ensures Sum(s[j := v]) == Sum(s) - s[j] + v
  {
    if j > 0 {
      SumUpdate(s[1..], j - 1, v);
      assert s[j := v][1..] == s[1..][j - 1 := v];
    }
  }

  lemma {:induction false} MatrixSumUpdate(m: Matrix, i: int, row: seq<int>)
    requires 0 <= i < |m|
    ensures MatrixSum(m[i := row]) == MatrixSum(m) - Sum(m[i]) + Sum(row)
  {
    if i > 0 {
      MatrixSumUpdate(m[1..], i - 1, row);
      assert m[i := row][1..] == m[1..][i - 1 := row];
    }
  }

  /** Add one to cell (i, j). */
  function Bump(m: Matrix, i: int, j: int): (r: Matrix)
    requires 0 <= i < |m| && 0 <= j < |m[i]|
  {
    m[i := m[i][j := m[i][j] + 1]]
  }

  lemma BumpSum(m: Matrix, i: int, j: int)
    requires 0 <= i < |m| && 0 <= j < |m[i]|
    ensures MatrixSum(Bump(m, i, j)) == MatrixSum(m) + 1
  {
    SumUpdate(m[i], j, m[i][j] + 1);
    MatrixSumUpdate(m, i, m[i][j := m[i][j] + 1]);
  }

  function Zeros(n: nat): (m: Matrix)
    ensures IsSquare(m, n)
  {
    seq(n, i => seq(n, j => 0))
  }

  lemma {:induction false} ZerosSum(m: Matrix)
    requires forall i, j :: 0 <= i < |m| && 0 <= j < |m[i]| ==> m[i][j] == 0
    ensures MatrixSum(m) == 0
  {
    if |m| > 0 {
      ZeroRowSum(m[0]);
      ZerosSum(m[1..]);
    }
  }

  lemma {:induction false} ZeroRowSum(s: seq<int>)
    requires forall j :: 0 <= j < |s| ==> s[j] == 0
    ensures Sum(s) == 0
  {
    if |s| > 0 {
      ZeroRowSum(s[1..]);
    }
  }

  // ---------------------------------------------------------------------
  // frequency_matrix

  /** Looking a state up in `stoi`. */
  lemma StoiLookup<S>(order: seq<S>, a: S)
    requires NoDup(order)
    ensures a in Stoi(order) <==> a in order
    ensures a in Stoi(order) ==> 0 <= Stoi(order)[a] < |order| && order[Stoi(order)[a]] == a
  {
    StoiItosInverse(order);
    if a in order {
      var i :| 0 <= i < |order| && order[i] == a;
      assert a in Stoi(order);
    }
  }

  /** Counting one more pair bumps exactly its cell. */
  lemma CountMatrixSnoc<S>(ps: seq<(S, S)>, p: (S, S), order: seq<S>, i: int, j: int)
    requires NoDup(order)
    requires 0 <= i < |order| && 0 <= j < |order| && order[i] == p.0 && order[j] == p.1
    ensures CountMatrix(ps + [p], order) == Bump(CountMatrix(ps, order), i, j)
  {
    var a, b := CountMatrix(ps + [p], order), Bump(CountMatrix(ps, order), i, j);
    assert multiset(ps + [p]) == multiset(ps) + multiset{p};
    forall x | 0 <= x < |order| ensures a[x] == b[x] {
      forall y | 0 <= y < |order| ensures a[x][y] == b[x][y] {
        if (order[x], order[y]) == p {
          assert x == i && y == j;
        }
      }
    }
  }

  /** Before any transition every cell is zero. */
  lemma CountMatrixEmpty<S>(order: seq<S>)
    ensures CountMatrix([], order) == Zeros(|order|)
  {
    var a, b := CountMatrix([], order), Zeros(|order|);
    forall x | 0 <= x < |order| ensures a[x] == b[x] {
    }
  }

  /** Counting transition k of `ts` into the matrix of the first k. */
  lemma CountStep<S>(ts: seq<(S, S)>, order: seq<S>, k: nat, m: Matrix, i: int, j: int)
    requires NoDup(order) && k < |ts|
    requires m == CountMatrix(ts[..k], order) && MatrixSum(m) == k
    requires 0 <= i < |order| && 0 <= j < |order| && order[i] == ts[k].0 && order[j] == ts[k].1
    ensures Bump(m, i, j) == CountMatrix(ts[..k + 1], order)
    ensures MatrixSum(Bump(m, i, j)) == k + 1
  {
    BumpSum(m, i, j);
    assert ts[..k + 1] == ts[..k] + [ts[k]];
    CountMatrixSnoc(ts[..k], ts[k], order, i, j);
  }

  /** `frequency_matrix`: start from zeros and bump the cell of every
      transition; a state missing from `stoi` raises KeyError. The nested
      loops over traces and their pairs visit exactly the transitions of
      `Transitions`, in that order. */
  method FrequencyMatrix<S(==)>(traces: seq<seq<S>>, order: seq<S>) returns (r: Result<Matrix>)
    requires NoDup(order)
    ensures r.Success? <==> Covered(traces, order)
    ensures r.Failure? ==> r.error == KeyError
    ensures r.Success? ==> r.value == TransitionMatrix(traces, order)
    ensures r.Success? ==> MatrixSum(r.value) == TransitionCount(traces)
  {
    var stoi := Stoi(order);
    var ts := Transitions(traces);
    var m := Zeros(|order|);
    ZerosSum(m);
    CountMatrixEmpty(order);
    assert ts[..0] == [];
    var k := 0;
    while k < |ts|
      invariant 0 <= k <= |ts|
      invariant forall p :: p in ts[..k] ==> p.0 in order && p.1 in order
      invariant m == CountMatrix(ts[..k], order)
      invariant MatrixSum(m) == k
    {
      var (a, b) := ts[k];
      StoiLookup(order, a);
      StoiLookup(order, b);
      if a !in stoi || b !in stoi {
        assert ts[k] in ts;
        return Failure(KeyError);
      }
      var i, j := stoi[a], stoi[b];
      CountStep(ts, order, k, m, i, j);
      m := Bump(m, i, j);
      k := k + 1;
    }
    assert ts[..k] == ts;
    TransitionsLength(traces);
    r := Success(m);
  }

  // ---------------------------------------------------------------------
  // node_degree and density

  /** Column `j` of `m`. */
  function Column(m: Matrix, j: int): (c: seq<int>)
    requires 0 <= j
    requires forall i :: 0 <= i < |m| ==> j < |m[i]|
    ensures |c| == |m|
  {
    seq(|m|, i requires 0 <= i < |m| => m[i][j])
  }

  /** `sum(axis=0)`: the in-degree of each node. */
  function InDegree(m: Matrix): (d: seq<int>)
    requires IsSquare(m, |m|)
    ensures |d| == |m|
  {
    seq(|m|, j requires 0 <= j < |m| => Sum(Column(m, j)))
  }

  /** `sum(axis=1)`: the out-degree of each node. */
  function OutDegree(m: Matrix): (d: seq<int>)
    ensures |d| == |m|
  {
    seq(|m|, i requires 0 <= i < |m| => Sum(m[i]))
  }

  /** The column sums of the rows of `m`, each of width `n`. */
  function ColumnSums(m: Matrix, n: nat): (d: seq<int>)
    requires forall i :: 0 <= i < |m| ==> |m[i]| == n
    ensures |d| == n
  {
    if |m| == 0 then seq(n, j => 0)
    else
      var rest := ColumnSums(m[1..], n);
      seq(n, j requires 0 <= j < n => m[0][j] + rest[j])
  }

  lemma {:induction false} SumAdd(a: seq<int>, b: seq<int>)
    requires |a| == |b|
    ensures Sum(seq(|a|, j requires 0 <= j < |a| => a[j] + b[j])) == Sum(a) + Sum(b)
  {
    if |a| > 0 {
      SumAdd(a[1..], b[1..]);
      var s := seq(|a|, j requires 0 <= j < |a| => a[j] + b[j]);
      assert s[1..] == seq(|a[1..]|, j requires 0 <= j < |a[1..]| => a[1..][j] + b[1..][j]);
    }
  }

  lemma {:induction false} ColumnSumsSpec(m: Matrix, n: nat)
    requires forall i :: 0 <= i < |m| ==> |m[i]| == n
    ensures forall j :: 0 <= j < n ==> ColumnSums(m, n)[j] == Sum(Column(m, j))
    ensures Sum(ColumnSums(m, n)) == MatrixSum(m)
  {
    if |m| == 0 {
      ZeroRowSum(ColumnSums(m, n));
    } else {
      ColumnSumsSpec(m[1..], n);
      forall j | 0 <= j < n ensures ColumnSums(m, n)[j] == Sum(Column(m, j)) {
        assert Column(m, j)[1..] == Column(m[1..], j);
      }
      SumAdd(m[0], ColumnSums(m[1..], n));
    }
  }

  lemma {:induction false} OutDegreeSum(m: Matrix)
    ensures Sum(OutDegree(m)) == MatrixSum(m)
  {
    if |m| > 0 {
      OutDegreeSum(m[1..]);
      assert OutDegree(m)[1..] == OutDegree(m[1..]);
    }
  }

  /** The in-degrees and the out-degrees both add up to the total number of
      transitions. */
  lemma DegreeSums(m: Matrix)
    requires IsSquare(m, |m|)
    ensures Sum(InDegree(m)) == MatrixSum(m)
    ensures Sum(OutDegree(m)) == MatrixSum(m)
  {
    ColumnSumsSpec(m, |m|);
    assert InDegree(m) == ColumnSums(m, |m|);
    OutDegreeSum(m);
  }

  /** `density`: transitions over n(n - 1); `None` where numpy divides by
      zero (fewer than two nodes). */
  function Density(m: Matrix): Option<real>
  {
    var n := |m|;
    if n * (n - 1) == 0 then None
    else Some(MatrixSum(m) as real / (n * (n - 1)) as real)
  }

  /** A row of zeros and ones with a zero at position i sums to at most its
      length minus one. */
  lemma {:induction false} SimpleRowSum(s: seq<int>, i: int)
    requires 0 <= i < |s| && s[i] == 0
    requires forall j :: 0 <= j < |s| ==> 0 <= s[j] <= 1
    ensures 0 <= Sum(s) <= |s| - 1
  {
    if i > 0 {
      SimpleRowSum(s[1..], i - 1);
    } else {
      BoundedRowSum(s[1..]);
    }
  }

  lemma {:induction false} BoundedRowSum(s: seq<int>)
    requires forall j :: 0 <= j < |s| ==> 0 <= s[j] <= 1
    ensures 0 <= Sum(s) <= |s|
  {
    if |s| > 0 {
      BoundedRowSum(s[1..]);
    }
  }

  /** A simple graph: each edge at most once and no self-loops. */
  predicate Simple(m: Matrix)
  {
    IsSquare(m, |m|)
    && (forall i, j :: 0 <= i < |m| && 0 <= j < |m| ==> 0 <= m[i][j] <= 1)
    && forall i :: 0 <= i < |m| ==> m[i][i] == 0
  }

  lemma {:induction false} SimpleSum(m: Matrix, n: nat, d: nat)
    requires |m| + d == n
    requires forall i :: 0 <= i < |m| ==> |m[i]| == n && m[i][i + d] == 0
    requires forall i, j :: 0 <= i < |m| && 0 <= j < n ==> 0 <= m[i][j] <= 1
    ensures 0 <= MatrixSum(m) <= |m| * (n - 1)
  {
    if |m| > 0 {
      SimpleRowSum(m[0], d);
      SimpleSum(m[1..], n, d + 1);
      assert MatrixSum(m) == Sum(m[0]) + MatrixSum(m[1..]);
      assert |m| * (n - 1) == (n - 1) + (|m| - 1) * (n - 1);
    }
  }

  /** The density of a simple graph with at least two nodes lies in [0, 1]. */
  lemma SimpleDensityBounds(m: Matrix)
    requires Simple(m) && |m| >= 2
    ensures Density(m).Some? && 0.0 <= Density(m).value <= 1.0
  {
    SimpleSum(m, |m|, 0);
  }

  // ---------------------------------------------------------------------
  // nodes_in_cycles

  function Dot(a: seq<int>, b: seq<int>): int
    requires |a| == |b|
  {
    if |a| == 0 then 0 else a[0] * b[0] + Dot(a[1..], b[1..])
  }

  /** The matrix product of two `n` by `n` matrices. */
  function MatMul(a: Matrix, b: Matrix, n: nat): (c: Matrix)
    requires IsSquare(a, n) && IsSquare(b, n)
    ensures IsSquare(c, n)
  {
    seq(n, i requires 0 <= i < n => seq(n, j requires 0 <= j < n => Dot(a[i], Column(b, j))))
  }

  /** `matrix_power(m, k)` for k >= 1. */
  function MatPow(m: Matrix, k: nat): (p: Matrix)
    requires IsSquare(m, |m|) && k >= 1
    ensures IsSquare(p, |m|)
  {
    if k == 1 then m else MatMul(m, MatPow(m, k - 1), |m|)
  }

  /** Mark every node with a positive diagonal entry in `p`. */
  function Mark(flags: seq<bool>, p: Matrix): (r: seq<bool>)
    requires IsSquare(p, |flags|)
    ensures |r| == |flags|
  {
    seq(|flags|, i requires 0 <= i < |flags| => flags[i] || p[i][i] > 0)
  }

  /** The loop over powers k, ..., maxLen. */
  function MarkFrom(m: Matrix, k: nat, maxLen: int, flags: seq<bool>): (r: seq<bool>)
    requires IsSquare(m, |m|) && |flags| == |m| && k >= 2
    ensures |r| == |m|
    decreases maxLen - k
  {
    if k > maxLen then flags else MarkFrom(m, k + 1, maxLen, Mark(flags, MatPow(m, k)))
  }

  /** `nodes_in_cycles`: one flag per node. */
  function NodesInCycles(m: Matrix, maxLen: int): (r: seq<bool>)
    requires IsSquare(m, |m|)
    ensures |r| == |m|
  {
    MarkFrom(m, 2, maxLen, seq(|m|, i => false))
  }

  /** Some power of `m` between `lo` and `hi` has a positive entry (i, i). */
  predicate ReturnsWithin(m: Matrix, i: int, lo: nat, hi: int)
    requires IsSquare(m, |m|) && 0 <= i < |m| && lo >= 1
  {
    exists k :: lo <= k <= hi && MatPow(m, k)[i][i] > 0
  }

  lemma {:induction false} MarkFromSpec(m: Matrix, k: nat, maxLen: int, flags: seq<bool>, i: int)
    requires IsSquare(m, |m|) && |flags| == |m| && k >= 2 && 0 <= i < |m|
    ensures MarkFrom(m, k, maxLen, flags)[i] <==> flags[i] || ReturnsWithin(m, i, k, maxLen)
    decreases maxLen - k
  {
    if k <= maxLen {
      MarkFromSpec(m, k + 1, maxLen, Mark(flags, MatPow(m, k)), i);
      if ReturnsWithin(m, i, k, maxLen) && !(MatPow(m, k)[i][i] > 0) {
        var k' :| k <= k' <= maxLen && MatPow(m, k')[i][i] > 0;
        assert k + 1 <= k';
      }
    }
  }

  /** Node i is flagged iff some power 2..maxLen of the matrix has a positive
      diagonal entry at i. */
  lemma NodesInCyclesSpec(m: Matrix, maxLen: int, i: int)
    requires IsSquare(m, |m|) && 0 <= i < |m|
    ensures NodesInCycles(m, maxLen)[i] <==> ReturnsWithin(m, i, 2, maxLen)
  {
    MarkFromSpec(m, 2, maxLen, seq(|m|, i => false), i);
  }

  /** With a maximum length below 2 no node is flagged. */
  lemma ShortMaxFlagsNothing(m: Matrix, maxLen: int)
    requires IsSquare(m, |m|) && maxLen < 2
    ensures forall i :: 0 <= i < |m| ==> !NodesInCycles(m, maxLen)[i]
  {
  }

  lemma {:induction false} DotAtLeastTerm(a: seq<int>, b: seq<int>, k: int)
    requires |a| == |b| && 0 <= k < |a|
    requires forall j :: 0 <= j < |a| ==> a[j] >= 0 && b[j] >= 0
    ensures Dot(a, b) >= a[k] * b[k]
  {
    DotNonNegative(a[1..], b[1..]);
    if k > 0 {
      DotAtLeastTerm(a[1..], b[1..], k - 1);
    }
  }

  lemma {:induction false} DotNonNegative(a: seq<int>, b: seq<int>)
    requires |a| == |b|
    requires forall j :: 0 <= j < |a| ==> a[j] >= 0 && b[j] >= 0
    ensures Dot(a, b) >= 0
  {
    if |a| > 0 {
      DotNonNegative(a[1..], b[1..]);
    }
  }

  /** A self-loop IS reported once maxLen >= 2: with non-negative counts,
      (M^2)[i][i] >= M[i][i]^2 > 0. */
  lemma SelfLoopReported(m: Matrix, maxLen: int, i: int)
    requires IsSquare(m, |m|) && NonNegative(m)
    requires 0 <= i < |m| && m[i][i] > 0 && maxLen >= 2
    ensures NodesInCycles(m, maxLen)[i]
  {
    var c := Column(m, i);
    DotAtLeastTerm(m[i], c, i);
    assert MatPow(m, 2)[i][i] == Dot(m[i], c);
    NodesInCyclesSpec(m, maxLen, i);
  }

  // ---------------------------------------------------------------------
  // Examples

  /** The transition matrix of traces [1,2,3] and [1,2,3,4]. */
  const Example: Matrix := [[0, 2, 0, 0], [0, 0, 2, 0], [0, 0, 0, 1], [0, 0, 0, 0]]

  lemma ExampleTransitions(traces: seq<seq<int>>)
    requires traces == [[1, 2, 3], [1, 2, 3, 4]]
    ensures Transitions(traces) == ExamplePairs
  {
    var p0, p1 := Pairs(traces[0]), Pairs(traces[1]);
    assert p0 == [(1, 2), (2, 3)];
    assert p1 == [(1, 2), (2, 3), (3, 4)];
    assert traces[1..][1..] == [];
    assert FlatMap(Pairs, traces[1..]) == p1 + FlatMap(Pairs, traces[1..][1..]);
    assert Transitions(traces) == p0 + p1;
  }

  /** The matrix after the first k transitions of the example. */
  function ExampleStage(k: nat): Matrix
  {
    match k
    case 0 => [[0, 0, 0, 0], [0, 0, 0, 0], [0, 0, 0, 0], [0, 0, 0, 0]]
    case 1 => [[0, 1, 0, 0], [0, 0, 0, 0], [0, 0, 0, 0], [0, 0, 0, 0]]
    case 2 => [[0, 1, 0, 0], [0, 0, 1, 0], [0, 0, 0, 0], [0, 0, 0, 0]]
    case 3 => [[0, 2, 0, 0], [0, 0, 1, 0], [0, 0, 0, 0], [0, 0, 0, 0]]
    case 4 => [[0, 2, 0, 0], [0, 0, 2, 0], [0, 0, 0, 0], [0, 0, 0, 0]]
    case _ => Example
  }

  const ExampleOrder: seq<int> := [1, 2, 3, 4]
  const ExamplePairs: seq<(int, int)> := [(1, 2), (2, 3), (1, 2), (2, 3), (3, 4)]

  lemma ExampleBump(k: nat)
    requires k < 5
    ensures var (a, b) := ExamplePairs[k];
      Bump(ExampleStage(k), a - 1, b - 1) == ExampleStage(k + 1)
  {
    match k
    case 0 => assert ExampleStage(0)[0][1 := 1] == ExampleStage(1)[0];
    case 1 => assert ExampleStage(1)[1][2 := 1] == ExampleStage(2)[1];
    case 2 => assert ExampleStage(2)[0][1 := 2] == ExampleStage(3)[0];
    case 3 => assert ExampleStage(3)[1][2 := 2] == ExampleStage(4)[1];
    case 4 => assert ExampleStage(4)[2][3 := 1] == ExampleStage(5)[2];
  }

  /** One counting step of the example. */
  lemma ExampleStep(k: nat)
    requires k < 5
    requires CountMatrix(ExamplePairs[..k], ExampleOrder) == ExampleStage(k)
    ensures CountMatrix(ExamplePairs[..k + 1], ExampleOrder) == ExampleStage(k + 1)
  {
    var ts := ExamplePairs;
    assert ts[..k + 1] == ts[..k] + [ts[k]];
    var (a, b) := ts[k];
    assert 1 <= a <= 4 && 1 <= b <= 4;
    CountMatrixSnoc(ts[..k], ts[k], ExampleOrder, a - 1, b - 1);
    ExampleBump(k);
  }

  lemma ExampleStart()
    ensures CountMatrix(ExamplePairs[..0], ExampleOrder) == ExampleStage(0)
  {
    CountMatrixEmpty(ExampleOrder);
    assert ExamplePairs[..0] == [];
    var z := Zeros(4);
    assert forall i :: 0 <= i < 4 ==> z[i] == [0, 0, 0, 0];
  }

  /** Counting the first k transitions of the example one at a time. */
  lemma {:induction false} ExampleUpTo(k: nat)
    requires k <= 5
    ensures CountMatrix(ExamplePairs[..k], ExampleOrder) == ExampleStage(k)
  {
    if k == 0 {
      ExampleStart();
    } else {
      ExampleUpTo(k - 1);
      ExampleStep(k - 1);
    }
  }

  lemma ExampleFrequencyMatrix(traces: seq<seq<int>>)
    requires traces == [[1, 2, 3], [1, 2, 3, 4]]
    ensures TransitionMatrix(traces, ExampleOrder) == Example
  {
    ExampleTransitions(traces);
    ExampleUpTo(5);
    assert ExamplePairs[..5] == ExamplePairs;
  }

  lemma ExampleDegrees()
    ensures InDegree(Example) == [0, 2, 2, 1]
    ensures OutDegree(Example) == [2, 2, 1, 0]
  {
    assert Column(Example, 0) == [0, 0, 0, 0];
    assert Column(Example, 1) == [2, 0, 0, 0];
    assert Column(Example, 2) == [0, 2, 0, 0];
    assert Column(Example, 3) == [0, 0, 1, 0];
    assert Sum([0, 0, 0, 0]) == 0;
    assert Sum([2, 0, 0, 0]) == 2;
    assert Sum([0, 2, 0, 0]) == 2;
    assert Sum([0, 0, 1, 0]) == 1;
  }

  lemma ExampleDensity()
    ensures Density(Example) == Some(5.0 / 12.0)
  {
    assert MatrixSum(Example) == 5;
  }

  /** The 3-cycle 0 -> 1 -> 2 -> 0. */
  const Cycle3: Matrix := [[0, 1, 0], [0, 0, 1], [1, 0, 0]]

  lemma Dot3(a: seq<int>, b: seq<int>)
    requires |a| == 3 && |b| == 3
    ensures Dot(a, b) == a[0] * b[0] + a[1] * b[1] + a[2] * b[2]
  {
    var a1, b1 := a[1..], b[1..];
    var a2, b2 := a1[1..], b1[1..];
    assert Dot(a2[1..], b2[1..]) == 0;
    assert Dot(a2, b2) == a[2] * b[2];
    assert Dot(a1, b1) == a[1] * b[1] + a[2] * b[2];
  }

  /** The product of two 3 by 3 matrices, cell by cell. */
  lemma MatMul3(a: Matrix, b: Matrix, c: Matrix)
    requires IsSquare(a, 3) && IsSquare(b, 3) && IsSquare(c, 3)
    requires forall i, j :: 0 <= i < 3 && 0 <= j < 3 ==> c[i][j] == a[i][0] * b[0][j] + a[i][1] * b[1][j] + a[i][2] * b[2][j]
    ensures MatMul(a, b, 3) == c
  {
    var p := MatMul(a, b, 3);
    forall i, j | 0 <= i < 3 && 0 <= j < 3 ensures p[i][j] == c[i][j] {
      Dot3(a[i], Column(b, j));
    }
    assert forall i :: 0 <= i < 3 ==> p[i] == c[i];
  }

  lemma Cycle3Cube()
    ensures MatPow(Cycle3, 3) == [[1, 0, 0], [0, 1, 0], [0, 0, 1]]
  {
    var c := Cycle3;
    var sq := [[0, 0, 1], [1, 0, 0], [0, 1, 0]];
    MatMul3(c, c, sq);
    assert MatPow(c, 2) == sq;
    MatMul3(c, sq, [[1, 0, 0], [0, 1, 0], [0, 0, 1]]);
  }

  lemma Cycle3AllInCycles()
    ensures NodesInCycles(Cycle3, 3) == [true, true, true]
  {
    Cycle3Cube();
    forall i | 0 <= i < 3 ensures NodesInCycles(Cycle3, 3)[i] {
      NodesInCyclesSpec(Cycle3, 3, i);
      assert MatPow(Cycle3, 3)[i][i] > 0;
    }
  }
}
