/** The directed-graph feature extractor: `fit` groups the activities of each
    case into a trace and builds the transition frequency matrix over the
    activity set; `transform` returns that matrix as a labelled frame. The
    graph helpers of the extractor are the algorithms of the graph module. */
module Digraph {
  import opened Wrappers
  import opened Seqs
  import opened EventTable
  import Graph
  import Validation

  // ---------------------------------------------------------------------
  // The graph helpers of the extractor

  /** `_frequency_matrix`: the matrix, `stoi` and `itos`; KeyError when a
      trace holds a state outside the enumeration. */
  method FrequencyMatrix(traces: seq<seq<string>>, order: seq<string>)
    returns (r: Result<(Graph.Matrix, map<string, int>, map<int, string>)>)
    requires NoDup(order)
    ensures r.Success? <==> Graph.Covered(traces, order)
    ensures r.Failure? ==> r.error == KeyError
    ensures r.Success? ==> r.value.0 == Graph.TransitionMatrix(traces, order)
    ensures r.Success? ==> Graph.MatrixSum(r.value.0) == Graph.TransitionCount(traces)
    ensures r.Success? ==> forall s :: s in r.value.1 <==> s in order
    ensures r.Success? ==> r.value.1 == Graph.Stoi(order) && r.value.2 == Graph.Itos(order)
    ensures r.Success? ==> forall s :: s in r.value.1 ==> r.value.1[s] in r.value.2 && r.value.2[r.value.1[s]] == s
  {
    var m := Graph.FrequencyMatrix(traces, order);
    if m.Failure? {
      return Failure(m.error);
    }
    Graph.StoiItosInverse(order);
    r := Success((m.value, Graph.Stoi(order), Graph.Itos(order)));
  }

  /** `node_degree`: in-degrees and out-degrees, each adding up to the number
      of transitions. */
  function NodeDegree(m: Graph.Matrix): (r: (seq<int>, seq<int>))
    requires Graph.IsSquare(m, |m|)
    ensures |r.0| == |m| && |r.1| == |m|
    ensures Sum(r.0) == Graph.MatrixSum(m) && Sum(r.1) == Graph.MatrixSum(m)
  {
    Graph.DegreeSums(m);
    (Graph.InDegree(m), Graph.OutDegree(m))
  }

  /** `density`: defined exactly when there are at least two nodes, and then
      the number of transitions over n(n - 1). */
  function Density(m: Graph.Matrix): (r: Option<real>)
    ensures r.Some? <==> |m| >= 2
    ensures r.Some? ==> r.value * (|m| * (|m| - 1)) as real == Graph.MatrixSum(m) as real
  {
    Graph.Density(m)
  }

  /** `nodes_in_cycles`: node i is flagged iff some power 2..maxLen of the
      matrix has a positive diagonal entry at i. */
  function NodesInCycles(m: Graph.Matrix, maxLen: int): (r: seq<bool>)
    requires Graph.IsSquare(m, |m|)
    ensures |r| == |m|
    ensures forall i :: 0 <= i < |m| ==> (r[i] <==> Graph.ReturnsWithin(m, i, 2, maxLen))
  {
    var r := Graph.NodesInCycles(m, maxLen);
    forall i | 0 <= i < |m| ensures r[i] <==> Graph.ReturnsWithin(m, i, 2, maxLen) {
      Graph.NodesInCyclesSpec(m, maxLen, i);
    }
    r
  }

  // ---------------------------------------------------------------------
  // Traces of a log

  function Activities(rows: seq<Row>): (r: seq<string>)
    ensures |r| == |rows|
    ensures forall i :: 0 <= i < |rows| ==> r[i] == rows[i].activity
  {
    seq(|rows|, i requires 0 <= i < |rows| => rows[i].activity)
  }

  /** The activity set of the log. */
  function States(t: seq<Row>): set<string>
  {
    set r | r in t :: r.activity
  }

  /** The activity list of each listed case, its rows in table order. */
  function CaseTraces(t: seq<Row>, order: seq<string>): (r: seq<seq<string>>)
    ensures |r| == |order|
  {
    seq(|order|, i requires 0 <= i < |order| => Activities(RowsOf(t, order[i])))
  }

  /** One activity list per case. */
  function Traces(t: seq<Row>): (r: seq<seq<string>>)
    ensures |r| == |CaseIds(t)|
  {
    var cs := CaseOrder(t);
    NoDupCard(cs);
    assert Elems(cs) == CaseIds(t);
    CaseTraces(t, cs)
  }

  lemma ActivitiesAppend(a: seq<Row>, b: seq<Row>)
    ensures Activities(a + b) == Activities(a) + Activities(b)
  {
  }

  /** Rearranging rows rearranges their activities the same way. */
  lemma {:induction false} ActivitiesPermutation(x: seq<Row>, y: seq<Row>)
    requires multiset(x) == multiset(y)
    ensures multiset(Activities(x)) == multiset(Activities(y))
    decreases |x|
  {
    if |x| > 0 {
      assert x[0] in multiset(y);
      var j :| 0 <= j < |y| && y[j] == x[0];
      var y' := y[..j] + y[j + 1..];
      assert y == y[..j] + [y[j]] + y[j + 1..];
      assert x == [x[0]] + x[1..];
      assert multiset(y) == multiset(y[..j]) + multiset{y[j]} + multiset(y[j + 1..]);
      assert multiset(x) == multiset{x[0]} + multiset(x[1..]);
      assert multiset(y') == multiset(y[..j]) + multiset(y[j + 1..]);
      assert multiset(x[1..]) == multiset(x) - multiset{x[0]};
      assert multiset(y') == multiset(y) - multiset{y[j]};
      ActivitiesPermutation(x[1..], y');
      ActivitiesAppend([x[0]], x[1..]);
      ActivitiesAppend(y[..j] + [y[j]], y[j + 1..]);
      ActivitiesAppend(y[..j], [y[j]]);
      ActivitiesAppend(y[..j], y[j + 1..]);
    } else {
      assert y == [];
    }
  }

  /** Flattening the traces of the listed cases gives the activities of the
      grouped rows. */
  lemma {:induction false} CaseTracesFlatten(t: seq<Row>, order: seq<string>)
    ensures Flatten(CaseTraces(t, order)) == Activities(GroupedRows(t, order))
  {
    if |order| > 0 {
      CaseTracesFlatten(t, order[1..]);
      assert CaseTraces(t, order)[1..] == CaseTraces(t, order[1..]);
      ActivitiesAppend(RowsOf(t, order[0]), GroupedRows(t, order[1..]));
    }
  }

  /** The traces hold every activity of the log once per event: their
      concatenation is a permutation of the activity column. */
  lemma TracesPermutation(t: seq<Row>)
    ensures multiset(Flatten(Traces(t))) == multiset(Activities(t))
  {
    var cs := CaseOrder(t);
    assert Elems(cs) == CaseIds(t);
    CaseTracesFlatten(t, cs);
    GroupedRowsPermutation(t, cs);
    ActivitiesPermutation(GroupedRows(t, cs), t);
  }

  /** Every state of every trace is an activity of the log, so building the
      matrix over the log's activity set never raises KeyError. */
  lemma TracesCovered(t: seq<Row>, order: seq<string>)
    requires Elems(order) == States(t)
    ensures Graph.Covered(Traces(t), order)
  {
    var traces := Traces(t);
    forall p | p in Graph.Transitions(traces) ensures p.0 in order && p.1 in order {
      Graph.TransitionMembers(traces, p);
      var k :| 0 <= k < |traces| && p.0 in traces[k] && p.1 in traces[k];
      var rows := RowsOf(t, CaseOrder(t)[k]);
      var a :| 0 <= a < |rows| && rows[a].activity == p.0;
      var b :| 0 <= b < |rows| && rows[b].activity == p.1;
      assert rows[a] in rows && rows[b] in rows;
      assert p.0 in Elems(order) && p.1 in Elems(order);
    }
  }

  // ---------------------------------------------------------------------
  // The extractor

  /** The method names `getmembers` lists for `_DigraphFeatures`, sorted. */
  const GraphMethods: seq<string> := ["_frequency_matrix", "density", "node_degree", "nodes_in_cycles"]

  /** `features_` as written: the validator receives the request where it
      expects the class and the class where it expects the request, so it
      finds no method; the subtraction of the name "_frequency_matrix" from a
      set of (name, method) pairs could not remove anything either. */
  function FeaturesAsWritten(features: Validation.PyObject): (r: set<string>)
  {
    Elems(Validation.ValidateMethodsFromClass(features, Validation.Class(GraphMethods)))
  }

  /** Whatever name or names are requested, the as-written `fit` selects no
      feature. */
  lemma FeaturesAsWrittenEmpty(features: Validation.PyObject)
    requires !features.Class?
    ensures FeaturesAsWritten(features) == {}
  {
    var r := Validation.ValidateMethodsFromClass(features, Validation.Class(GraphMethods));
    Validation.SelectNothing(Validation.BoundMethods(features));
    assert Validation.BoundMethods(features) == [];
  }

  /** `features_` as intended: the requested graph methods, by name, without
      the matrix builder. */
  function Features(features: Validation.PyObject): (r: set<string>)
    ensures "_frequency_matrix" !in r
    ensures features != Validation.Str("all") ==>
      forall n :: n in r <==> n in GraphMethods && n in Validation.Requested(features) && Validation.Public(n)
  {
    Elems(Validation.ValidateMethodsFromClass(Validation.Class(GraphMethods), features)) - {"_frequency_matrix"}
  }

  /** With the default request the three public graph features are selected. */
  lemma FeaturesAll()
    ensures Features(Validation.Str("all")) == {"density", "node_degree", "nodes_in_cycles"}
  {
  }

  datatype Fitted = Fitted(
    matrix: Graph.Matrix,
    stoi: map<string, int>,
    itos: map<int, string>,
    features: set<string>,
    nFeaturesOut: nat)

  datatype Extractor = Extractor(request: Validation.PyObject, state: Option<Fitted>)

  /** `DigraphFeaturesExtractor(features)`: not fitted yet. */
  function New(features: Validation.PyObject): (e: Extractor)
    ensures e.state.None? && e.request == features
  {
    Extractor(features, None)
  }

  /** `fit` as written: the matrix over the log's activity set, enumerated in
      `order` (the iteration order of the Python set), and the features the
      swapped validator call selects, which for any name or list of names is
      none at all. */
  method Fit(e: Extractor, t: seq<Row>, order: seq<string>) returns (r: Extractor)
    requires NoDup(order) && Elems(order) == States(t)
    ensures r.request == e.request && r.state.Some?
    ensures r.state.value.matrix == Graph.TransitionMatrix(Traces(t), order)
    ensures Graph.IsSquare(r.state.value.matrix, |States(t)|)
    ensures forall s :: s in r.state.value.stoi <==> s in States(t)
    ensures forall s :: s in r.state.value.stoi ==>
      r.state.value.stoi[s] in r.state.value.itos && r.state.value.itos[r.state.value.stoi[s]] == s
    ensures r.state.value.itos == Graph.Itos(order)
    ensures r.state.value.features == FeaturesAsWritten(e.request)
    ensures r.state.value.nFeaturesOut == |FeaturesAsWritten(e.request)|
    ensures !e.request.Class? ==> r.state.value.features == {} && r.state.value.nFeaturesOut == 0
  {
    TracesCovered(t, order);
    NoDupCard(order);
    var m := FrequencyMatrix(Traces(t), order);
    if m.Failure? {
      assert false;
      return e;
    }
    var (matrix, stoi, itos) := m.value;
    var fs := FeaturesAsWritten(e.request);
    if !e.request.Class? {
      FeaturesAsWrittenEmpty(e.request);
    }
    r := Extractor(e.request, Some(Fitted(matrix, stoi, itos, fs, |fs|)));
  }

  /** `fit` as intended: the same matrix and vocabularies, with the requested
      public graph methods as `features_`; the default request selects all
      three. */
  method FitIntended(e: Extractor, t: seq<Row>, order: seq<string>) returns (r: Extractor)
    requires NoDup(order) && Elems(order) == States(t)
    ensures r.request == e.request && r.state.Some?
    ensures r.state.value.matrix == Graph.TransitionMatrix(Traces(t), order)
    ensures r.state.value.itos == Graph.Itos(order)
    ensures r.state.value.features == Features(e.request)
    ensures r.state.value.nFeaturesOut == |Features(e.request)|
    ensures e.request == Validation.Str("all") ==> r.state.value.nFeaturesOut == 3
  {
    var f := Fit(e, t, order);
    var fs := Features(e.request);
    if e.request == Validation.Str("all") {
      FeaturesAll();
      assert |fs| == 3 by {
        assert fs == {"density"} + {"node_degree"} + {"nodes_in_cycles"};
      }
    }
    r := Extractor(e.request, Some(f.state.value.(features := fs, nFeaturesOut := |fs|)));
  }

  /** A labelled frame: row labels, column labels and the values. */
  datatype Frame = Frame(index: seq<string>, columns: seq<string>, values: Graph.Matrix)

  /** The labels `prefix + state` over `itos` in index order. */
  function Labels(prefix: string, itos: map<int, string>, n: nat): (r: seq<string>)
    requires forall i :: 0 <= i < n ==> i in itos
    ensures |r| == n
    ensures forall i :: 0 <= i < n ==> r[i] == prefix + itos[i]
  {
    seq(n, i requires 0 <= i < n => prefix + itos[i])
  }

  /** `transform`: NotFittedError before `fit`; otherwise the fitted matrix
      with rows "from_<state>" and columns "to_<state>" in `itos` order. The
      input table is not consulted. */
  function Transform(e: Extractor): (r: Result<Frame>)
    requires e.state.Some? ==>
      Graph.IsSquare(e.state.value.matrix, |e.state.value.matrix|)
      && forall i :: 0 <= i < |e.state.value.matrix| ==> i in e.state.value.itos
    ensures r.Failure? <==> e.state.None?
    ensures r.Failure? ==> r.error == NotFittedError
    ensures r.Success? ==> r.value.values == e.state.value.matrix
    ensures r.Success? ==> |r.value.index| == |r.value.columns| == |r.value.values|
    ensures r.Success? ==> forall i :: 0 <= i < |r.value.index| ==>
      r.value.index[i] == "from_" + e.state.value.itos[i] && r.value.columns[i] == "to_" + e.state.value.itos[i]
  {
    match e.state
    case None => Failure(NotFittedError)
    case Some(f) =>
      var n := |f.matrix|;
      Success(Frame(Labels("from_", f.itos, n), Labels("to_", f.itos, n), f.matrix))
  }

  /** After `fit`, `transform` succeeds with one row and one column per
      activity of the log. */
  lemma FitThenTransform(e: Extractor, t: seq<Row>, order: seq<string>, fitted: Extractor)
    requires NoDup(order) && Elems(order) == States(t)
    requires fitted.request == e.request && fitted.state.Some?
    requires fitted.state.value.matrix == Graph.TransitionMatrix(Traces(t), order)
    requires fitted.state.value.itos == Graph.Itos(order)
    ensures Transform(fitted).Success?
    ensures |Transform(fitted).value.index| == |States(t)|
    ensures forall i :: 0 <= i < |order| ==> Transform(fitted).value.index[i] == "from_" + order[i]
  {
    NoDupCard(order);
  }

  /** An empty log transforms to an empty frame. */
  lemma EmptyLogEmptyFrame(e: Extractor, fitted: Extractor)
    requires fitted.request == e.request && fitted.state.Some?
    requires fitted.state.value.matrix == Graph.TransitionMatrix(Traces([]), [])
    requires fitted.state.value.itos == Graph.Itos([])
    ensures Transform(fitted) == Success(Frame([], [], []))
  {
  }

  /** `transform` before `fit` raises NotFittedError (a ValueError). */
  lemma TransformUnfitted(features: Validation.PyObject)
    ensures Transform(New(features)) == Failure(NotFittedError)
  {
  }
}
