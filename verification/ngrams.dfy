/** N-gram encoding of traces: each trace is padded with the sentinel -1 at
    both ends and cut into overlapping windows of length N; the encoder maps
    every gram seen while fitting to an index. */
module Ngrams {
  import opened Wrappers
  import opened Seqs
  import Bucketing

  type Gram = seq<int>

  /** The sentinel placed before the first and after the last event. */
  const Pad: int := -1

  function Padded(tr: seq<int>): (p: seq<int>)
    ensures |p| == |tr| + 2 && p[0] == Pad && p[|p| - 1] == Pad
    ensures p[1..|p| - 1] == tr
  {
    [Pad] + tr + [Pad]
  }

  /** The windows `p[ix : ix + N]` for ix in range(len(p) - N + 1). */
  function Windows(p: seq<int>, n: nat): (r: seq<Gram>)
    ensures |r| == if |p| + 1 >= n then |p| + 1 - n else 0
    ensures forall k :: 0 <= k < |r| ==> |r[k]| == n
  {
    if |p| + 1 <= n then []
    else seq(|p| + 1 - n, k requires 0 <= k < |p| + 1 - n => p[k..k + n])
  }

  lemma WindowAt(p: seq<int>, n: nat, k: nat)
    requires k < |Windows(p, n)|
    ensures k + n <= |p| && Windows(p, n)[k] == p[k..k + n]
  {
  }

  /** `_trace_to_ngram`: one gram per window of the padded trace. */
  function TraceToNgram(tr: seq<int>, n: nat): (r: seq<Gram>)
    ensures |r| == if |tr| + 3 >= n then |tr| + 3 - n else 0
    ensures forall k :: 0 <= k < |r| ==> |r[k]| == n
    ensures n >= 1 && |r| > 0 ==> r[0][0] == Pad && r[|r| - 1][n - 1] == Pad
  {
    var p := Padded(tr);
    var r := Windows(p, n);
    if n >= 1 && |r| > 0 then
      WindowAt(p, n, 0);
      WindowAt(p, n, |r| - 1);
      r
    else
      r
  }

  /** Consecutive grams overlap in all but one position. */
  lemma GramsOverlap(tr: seq<int>, n: nat, k: int)
    requires n >= 1 && 0 <= k < |TraceToNgram(tr, n)| - 1
    ensures TraceToNgram(tr, n)[k][1..] == TraceToNgram(tr, n)[k + 1][..n - 1]
  {
    WindowAt(Padded(tr), n, k);
    WindowAt(Padded(tr), n, k + 1);
  }

  /** The first element of every gram followed by the tail of the last gram. */
  function Reassemble(grams: seq<Gram>): seq<int>
    requires |grams| > 0 && forall k :: 0 <= k < |grams| ==> |grams[k]| > 0
  {
    seq(|grams| - 1, k requires 0 <= k < |grams| - 1 => grams[k][0]) + grams[|grams| - 1]
  }

  /** The grams determine the padded trace: reassembling them gives it back,
      whenever there is at least one gram of positive length. */
  lemma ReassembleGrams(tr: seq<int>, n: nat)
    requires n >= 1 && |tr| + 3 > n
    ensures Reassemble(TraceToNgram(tr, n)) == Padded(tr)
  {
    var p := Padded(tr);
    var r := Windows(p, n);
    var last := |r| - 1;
    var heads := seq(last, k requires 0 <= k < last => r[k][0]);
    assert Reassemble(r) == heads + r[last];
    forall k | 0 <= k < last ensures heads[k] == p[k] {
      WindowAt(p, n, k);
    }
    assert heads == p[..last];
    WindowAt(p, n, last);
    assert last + n == |p|;
    assert r[last] == p[last..];
    assert p == p[..last] + p[last..];
  }

  /** With N = 2 the grams are the consecutive pairs of the padded trace. */
  lemma BigramsArePairs(tr: seq<int>)
    ensures |TraceToNgram(tr, 2)| == |tr| + 1
    ensures forall k :: 0 <= k <= |tr| ==> TraceToNgram(tr, 2)[k] == [Padded(tr)[k], Padded(tr)[k + 1]]
  {
    var p := Padded(tr);
    forall k | 0 <= k <= |tr| ensures TraceToNgram(tr, 2)[k] == [p[k], p[k + 1]] {
      WindowAt(p, 2, k);
      assert p[k..k + 2] == [p[k], p[k + 1]];
    }
  }

  lemma TraceToNgramExample()
    ensures TraceToNgram([1, 2, 3, 4, 5], 2) == [[-1, 1], [1, 2], [2, 3], [3, 4], [4, 5], [5, -1]]
  {
    var r := TraceToNgram([1, 2, 3, 4, 5], 2);
    BigramsArePairs([1, 2, 3, 4, 5]);
    assert Padded([1, 2, 3, 4, 5]) == [-1, 1, 2, 3, 4, 5, -1];
    assert r[0] == [-1, 1] && r[1] == [1, 2] && r[2] == [2, 3];
    assert r[3] == [3, 4] && r[4] == [4, 5] && r[5] == [5, -1];
  }

  // ---------------------------------------------------------------------
  // traces_to_ngrams

  /** The distinct grams of a list of gram lists. */
  function UniqueGrams(gs: seq<seq<Gram>>): (u: set<Gram>)
    ensures forall g :: g in u <==> exists i :: 0 <= i < |gs| && g in gs[i]
  {
    var u := set i, g | 0 <= i < |gs| && g in gs[i] :: g;
    assert forall i, g :: 0 <= i < |gs| && g in gs[i] ==> g in u;
    u
  }

  /** `traces_to_ngrams`: the grams of each trace, computed independently,
      and the set of all of them. */
  function TracesToNgrams(traces: seq<seq<int>>, n: nat): (r: (seq<seq<Gram>>, set<Gram>))
    ensures |r.0| == |traces|
    ensures forall i :: 0 <= i < |traces| ==> r.0[i] == TraceToNgram(traces[i], n)
    ensures forall g :: g in r.1 <==> exists i :: 0 <= i < |traces| && g in TraceToNgram(traces[i], n)
  {
    var gs := seq(|traces|, i requires 0 <= i < |traces| => TraceToNgram(traces[i], n));
    (gs, UniqueGrams(gs))
  }

  /** Adding a trace adds exactly its grams to the unique set. */
  lemma UniqueGramsSnoc(traces: seq<seq<int>>, tr: seq<int>, n: nat)
    ensures TracesToNgrams(traces + [tr], n).1 == TracesToNgrams(traces, n).1 + Elems(TraceToNgram(tr, n))
  {
    var all := traces + [tr];
    forall g | g in TracesToNgrams(all, n).1 ensures g in TracesToNgrams(traces, n).1 + Elems(TraceToNgram(tr, n)) {
      var i :| 0 <= i < |all| && g in TraceToNgram(all[i], n);
      if i < |traces| {
        assert all[i] == traces[i];
      }
    }
    forall g | g in TracesToNgrams(traces, n).1 ensures g in TracesToNgrams(all, n).1 {
      var i :| 0 <= i < |traces| && g in TraceToNgram(traces[i], n);
      assert all[i] == traces[i];
    }
    forall g | g in Elems(TraceToNgram(tr, n)) ensures g in TracesToNgrams(all, n).1 {
      assert all[|traces|] == tr;
    }
  }

  // ---------------------------------------------------------------------
  // The encoder

  /** `vocab_ngrams_`: the i-th gram of the enumeration `order` (the
      iteration order of the Python set) gets index i. */
  function Vocab(order: seq<Gram>): (v: map<Gram, int>)
    requires NoDup(order)
    ensures v.Keys == Elems(order)
    ensures forall g :: g in v ==> 0 <= v[g] < |order| && order[v[g]] == g
  {
    var v := map k | 0 <= k < |order| :: order[k] := k;
    assert forall g :: g in v ==> exists k :: 0 <= k < |order| && order[k] == g && v[g] == k;
    v
  }

  /** Distinct grams get distinct indices, and every index below the number
      of grams is used. */
  lemma VocabBijective(order: seq<Gram>)
    requires NoDup(order)
    ensures forall g, h :: g in Vocab(order) && h in Vocab(order) && g != h ==> Vocab(order)[g] != Vocab(order)[h]
    ensures forall k :: 0 <= k < |order| ==> order[k] in Vocab(order) && Vocab(order)[order[k]] == k
    ensures |Vocab(order)| == |order|
  {
    var v := Vocab(order);
    forall k | 0 <= k < |order| ensures order[k] in v && v[order[k]] == k {
      assert order[k] in Elems(order);
    }
    NoDupCard(order);
    assert |v| == |v.Keys|;
  }

  datatype Encoder = Encoder(n: nat, vocab: Option<map<Gram, int>>, newNgrams: set<Gram>)

  /** `EncodedNgrams(N)`: not fitted. */
  function New(n: nat): (e: Encoder)
    ensures e.vocab.None? && e.n == n
  {
    Encoder(n, None, {})
  }

  /** `get_feature_names_out`: a single column `f"{N}-grams"`, fitted or
      not. */
  function FeatureNamesOut(e: Encoder): (r: seq<string>)
    ensures |r| == 1 && |r[0]| > |"-grams"|
    ensures r[0][|r[0]| - |"-grams"|..] == "-grams"
  {
    [Bucketing.NatToString(e.n) + "-grams"]
  }

  /** The column name gives N back: the part before "-grams" is the decimal
      numeral of N, so encoders of different sizes name different columns. */
  lemma FeatureNameGivesN(e: Encoder)
    ensures
      var name := FeatureNamesOut(e)[0];
      var numeral := name[..|name| - |"-grams"|];
      (forall i :: 0 <= i < |numeral| ==> Bucketing.IsDigit(numeral[i]))
      && Bucketing.ParseNat(numeral) == e.n
  {
    var name := FeatureNamesOut(e)[0];
    assert name[..|name| - |"-grams"|] == Bucketing.NatToString(e.n);
    Bucketing.ParseNatToString(e.n);
  }

  /** `fit`: index the grams of the given traces, one trace per case. */
  function Fit(e: Encoder, traces: seq<seq<int>>, order: seq<Gram>): (r: Encoder)
    requires NoDup(order) && Elems(order) == TracesToNgrams(traces, e.n).1
    ensures r.n == e.n && r.vocab.Some?
    ensures r.vocab.value.Keys == TracesToNgrams(traces, e.n).1
    ensures forall g :: g in r.vocab.value ==> 0 <= r.vocab.value[g] < |TracesToNgrams(traces, e.n).1|
  {
    NoDupCard(order);
    e.(vocab := Some(Vocab(order)))
  }

  /** `.map(self.vocab_ngrams_)` on one gram: its index, or no value (NaN)
      for a gram outside the vocabulary. */
  function Encode(g: Gram, vocab: map<Gram, int>): Option<int>
  {
    if g in vocab then Some(vocab[g]) else None
  }

  /** The rows of one case, numbered as case 0: the encoded grams, or one row
      with no value for a case without grams. */
  function CaseBlock(g: seq<Gram>, vocab: map<Gram, int>): (rows: seq<(int, Option<int>)>)
    ensures |rows| == CaseRows(g)
    ensures forall k :: 0 <= k < |rows| ==> rows[k] == (0, if g == [] then None else Encode(g[k], vocab))
  {
    if g == [] then [(0, None)]
    else seq(|g|, k requires 0 <= k < |g| => (0, Encode(g[k], vocab)))
  }

  /** One output row per gram, in case order, with the gram's index or no
      value (NaN) for an unknown gram; pandas' `explode` turns an empty gram
      list into a single row with no value. */
  function Explode(gs: seq<seq<Gram>>, vocab: map<Gram, int>): (rows: seq<(int, Option<int>)>)
    decreases |gs|
  {
    if |gs| == 0 then []
    else CaseBlock(gs[0], vocab) + Shift(Explode(gs[1..], vocab))
  }

  /** Renumber the case position of each row by one. */
  function Shift(rows: seq<(int, Option<int>)>): (r: seq<(int, Option<int>)>)
    ensures |r| == |rows|
    ensures forall k :: 0 <= k < |r| ==> r[k] == (rows[k].0 + 1, rows[k].1)
  {
    seq(|rows|, k requires 0 <= k < |rows| => (rows[k].0 + 1, rows[k].1))
  }

  /** The rows one case contributes: one per gram, or one for no gram. */
  function CaseRows(g: seq<Gram>): nat
  {
    if g == [] then 1 else |g|
  }

  /** Rows, counting one for a case without grams. */
  function RowCount(gs: seq<seq<Gram>>): nat
  {
    if |gs| == 0 then 0 else CaseRows(gs[0]) + RowCount(gs[1..])
  }

  /** The rows of the cases before case i come first. */
  lemma RowCountPrefix(gs: seq<seq<Gram>>, i: nat)
    requires 0 < i <= |gs|
    ensures RowCount(gs[..i]) == CaseRows(gs[0]) + RowCount(gs[1..][..i - 1])
  {
    assert gs[..i][1..] == gs[1..][..i - 1];
  }

  lemma {:induction false} ExplodeLength(gs: seq<seq<Gram>>, vocab: map<Gram, int>)
    ensures |Explode(gs, vocab)| == RowCount(gs)
    decreases |gs|
  {
    if |gs| > 0 {
      ExplodeLength(gs[1..], vocab);
    }
  }

  /** The first case's rows come first, then the others' renumbered. */
  lemma ExplodeStep(gs: seq<seq<Gram>>, vocab: map<Gram, int>, j: nat)
    requires 0 < |gs| && j < CaseRows(gs[0]) + |Explode(gs[1..], vocab)|
    ensures j < |Explode(gs, vocab)|
    ensures j < CaseRows(gs[0]) ==> Explode(gs, vocab)[j] == CaseBlock(gs[0], vocab)[j]
    ensures j >= CaseRows(gs[0]) ==> var rest := Explode(gs[1..], vocab);
      Explode(gs, vocab)[j] == (rest[j - CaseRows(gs[0])].0 + 1, rest[j - CaseRows(gs[0])].1)
  {
    var head, rest := CaseBlock(gs[0], vocab), Explode(gs[1..], vocab);
    assert Explode(gs, vocab) == head + Shift(rest);
  }

  /** The k-th row of case i, numbered as in the output. */
  function RowOf(gs: seq<seq<Gram>>, vocab: map<Gram, int>, i: nat, k: nat): (int, Option<int>)
    requires i < |gs| && k < CaseRows(gs[i])
  {
    (i, if gs[i] == [] then None else Encode(gs[i][k], vocab))
  }

  lemma ExplodeAtFirst(gs: seq<seq<Gram>>, vocab: map<Gram, int>, k: nat)
    requires 0 < |gs| && k < CaseRows(gs[0])
    ensures RowCount(gs[..0]) + k < |Explode(gs, vocab)|
    ensures Explode(gs, vocab)[RowCount(gs[..0]) + k] == RowOf(gs, vocab, 0, k)
  {
    assert gs[..0] == [];
    ExplodeLength(gs[1..], vocab);
    ExplodeStep(gs, vocab, k);
  }

  /** Case i of `gs` is case i - 1 of its tail, one case later. */
  lemma ExplodeAtLater(gs: seq<seq<Gram>>, vocab: map<Gram, int>, i: nat, k: nat)
    requires 0 < i < |gs| && k < CaseRows(gs[i])
    requires RowCount(gs[1..][..i - 1]) + k < |Explode(gs[1..], vocab)|
    requires Explode(gs[1..], vocab)[RowCount(gs[1..][..i - 1]) + k] == RowOf(gs[1..], vocab, i - 1, k)
    ensures RowCount(gs[..i]) + k < |Explode(gs, vocab)|
    ensures Explode(gs, vocab)[RowCount(gs[..i]) + k] == RowOf(gs, vocab, i, k)
  {
    var tail := gs[1..];
    var j := RowCount(tail[..i - 1]) + k;
    assert tail[i - 1] == gs[i];
    RowCountPrefix(gs, i);
    ExplodeStep(gs, vocab, RowCount(gs[..i]) + k);
  }

  /** Row `RowCount(gs[..i]) + k` is the k-th row of case i: the encoded k-th
      gram, or the single empty row of a case without grams. */
  lemma {:induction false} ExplodeAt(gs: seq<seq<Gram>>, vocab: map<Gram, int>, i: nat, k: nat)
    requires i < |gs| && k < CaseRows(gs[i])
    ensures RowCount(gs[..i]) + k < |Explode(gs, vocab)|
    ensures Explode(gs, vocab)[RowCount(gs[..i]) + k]
      == (i, if gs[i] == [] then None else Encode(gs[i][k], vocab))
    decreases i
  {
    if i == 0 {
      ExplodeAtFirst(gs, vocab, k);
    } else {
      assert gs[1..][i - 1] == gs[i];
      ExplodeAt(gs[1..], vocab, i - 1, k);
      ExplodeAtLater(gs, vocab, i, k);
    }
  }

  /** The case and the row within it of output row j. */
  function RowPosition(gs: seq<seq<Gram>>, j: nat): (p: (nat, nat))
    requires j < RowCount(gs)
    ensures p.0 < |gs| && p.1 < CaseRows(gs[p.0]) && j == RowCount(gs[..p.0]) + p.1
    decreases |gs|
  {
    if j < CaseRows(gs[0]) then
      assert gs[..0] == [];
      (0, j)
    else
      var q := RowPosition(gs[1..], j - CaseRows(gs[0]));
      RowCountPrefix(gs, q.0 + 1);
      assert gs[q.0 + 1] == gs[1..][q.0];
      (q.0 + 1, q.1)
  }

  /** Every row names an existing case, and it has an index exactly when
      its gram is in the vocabulary. */
  lemma ExplodeSpec(gs: seq<seq<Gram>>, vocab: map<Gram, int>)
    ensures |Explode(gs, vocab)| == RowCount(gs)
    ensures forall j :: 0 <= j < |Explode(gs, vocab)| ==> 0 <= Explode(gs, vocab)[j].0 < |gs|
    ensures forall j :: 0 <= j < |Explode(gs, vocab)| && Explode(gs, vocab)[j].1.Some? ==>
      exists g :: g in vocab && vocab[g] == Explode(gs, vocab)[j].1.value
  {
    ExplodeLength(gs, vocab);
    forall j | 0 <= j < |Explode(gs, vocab)|
      ensures 0 <= Explode(gs, vocab)[j].0 < |gs|
      ensures Explode(gs, vocab)[j].1.Some? ==> exists g :: g in vocab && vocab[g] == Explode(gs, vocab)[j].1.value
    {
      var p := RowPosition(gs, j);
      ExplodeAt(gs, vocab, p.0, p.1);
      if Explode(gs, vocab)[j].1.Some? {
        var g := gs[p.0][p.1];
        assert g in vocab && vocab[g] == Explode(gs, vocab)[j].1.value;
      }
    }
  }

  /** `new_ngrams_`: the grams of the traces outside the vocabulary. */
  function NewNgrams(vocab: map<Gram, int>, traces: seq<seq<int>>, n: nat): set<Gram>
  {
    TracesToNgrams(traces, n).1 - vocab.Keys
  }

  /** `transform`: NotFittedError before `fit`; otherwise record the grams not
      in the vocabulary and emit the encoded rows. */
  function Transform(e: Encoder, traces: seq<seq<int>>): (r: Result<(Encoder, seq<(int, Option<int>)>)>)
    ensures r.Failure? <==> e.vocab.None?
    ensures r.Failure? ==> r.error == NotFittedError
    ensures r.Success? ==> r.value.0 == e.(newNgrams := r.value.0.newNgrams)
    ensures r.Success? ==> forall g :: g in r.value.0.newNgrams <==>
      (exists i :: 0 <= i < |traces| && g in TraceToNgram(traces[i], e.n)) && g !in e.vocab.value
    ensures r.Success? ==> |r.value.1| == RowCount(TracesToNgrams(traces, e.n).0)
  {
    match e.vocab
    case None => Failure(NotFittedError)
    case Some(vocab) =>
      var (gs, unique) := TracesToNgrams(traces, e.n);
      ExplodeSpec(gs, vocab);
      Success((e.(newNgrams := NewNgrams(vocab, traces, e.n)), Explode(gs, vocab)))
  }

  /** What `transform` emits: numbering the rows case by case, the k-th row of
      case i carries case position i and the vocabulary index of the case's
      k-th gram, or no value when that gram was not seen in `fit`; a case
      without grams has one row with no value. Every row is numbered so. */
  lemma TransformRows(e: Encoder, traces: seq<seq<int>>, i: nat, k: nat)
    requires e.vocab.Some? && i < |traces|
    requires k < CaseRows(TraceToNgram(traces[i], e.n))
    ensures var gs := TracesToNgrams(traces, e.n).0;
      var g := TraceToNgram(traces[i], e.n);
      var rows := Transform(e, traces).value.1;
      && RowCount(gs[..i]) + k < |rows|
      && rows[RowCount(gs[..i]) + k].0 == i
      && (g == [] ==> rows[RowCount(gs[..i]) + k].1 == None)
      && (g != [] && g[k] in e.vocab.value ==> rows[RowCount(gs[..i]) + k].1 == Some(e.vocab.value[g[k]]))
      && (g != [] && g[k] !in e.vocab.value ==> rows[RowCount(gs[..i]) + k].1 == None)
  {
    ExplodeAt(TracesToNgrams(traces, e.n).0, e.vocab.value, i, k);
  }

  /** Read from the other side: row j of `transform` is the row of the case
      and gram `RowPosition` names. */
  lemma TransformRowsCovered(e: Encoder, traces: seq<seq<int>>, j: nat)
    requires e.vocab.Some? && j < |Transform(e, traces).value.1|
    ensures var gs := TracesToNgrams(traces, e.n).0;
      var rows := Transform(e, traces).value.1;
      j < RowCount(gs)
      && var (i, k) := RowPosition(gs, j);
      && i < |traces| && j == RowCount(gs[..i]) + k
      && rows[j] == (i, if gs[i] == [] then None else Encode(gs[i][k], e.vocab.value))
  {
    var gs := TracesToNgrams(traces, e.n).0;
    ExplodeLength(gs, e.vocab.value);
    var p := RowPosition(gs, j);
    ExplodeAt(gs, e.vocab.value, p.0, p.1);
  }

  /** Transforming the traces the encoder was fitted on finds no new gram. */
  lemma FitTransformNoNew(e: Encoder, traces: seq<seq<int>>, order: seq<Gram>)
    requires NoDup(order) && Elems(order) == TracesToNgrams(traces, e.n).1
    ensures Transform(Fit(e, traces, order), traces).Success?
    ensures Transform(Fit(e, traces, order), traces).value.0.newNgrams == {}
  {
  }

  lemma ExampleBigrams(a: seq<int>, b: seq<int>)
    requires a == [10, 20, 30] && b == [10, 20, 40]
    ensures TraceToNgram(a, 2) == [[-1, 10], [10, 20], [20, 30], [30, -1]]
    ensures TraceToNgram(b, 2) == [[-1, 10], [10, 20], [20, 40], [40, -1]]
  {
    var ra, rb := TraceToNgram(a, 2), TraceToNgram(b, 2);
    BigramsArePairs(a);
    BigramsArePairs(b);
    assert Padded(a) == [-1, 10, 20, 30, -1];
    assert Padded(b) == [-1, 10, 20, 40, -1];
    assert ra[0] == [-1, 10] && ra[1] == [10, 20] && ra[2] == [20, 30] && ra[3] == [30, -1];
    assert rb[0] == [-1, 10] && rb[1] == [10, 20] && rb[2] == [20, 40] && rb[3] == [40, -1];
  }

  /** The unique grams of three traces. */
  lemma UniqueOfThree(traces: seq<seq<int>>, x: seq<int>, y: seq<int>, z: seq<int>, n: nat)
    requires traces == [x, y, z]
    ensures TracesToNgrams(traces, n).1
      == Elems(TraceToNgram(x, n)) + Elems(TraceToNgram(y, n)) + Elems(TraceToNgram(z, n))
  {
    var none: seq<seq<int>> := [];
    assert TracesToNgrams(none, n).1 == {};
    UniqueGramsSnoc(none, x, n);
    assert none + [x] == [x];
    UniqueGramsSnoc([x], y, n);
    assert [x] + [y] == [x, y];
    UniqueGramsSnoc([x, y], z, n);
    assert [x, y] + [z] == traces;
  }

  lemma ExampleGramSets(a: seq<int>, b: seq<int>)
    requires a == [10, 20, 30] && b == [10, 20, 40]
    ensures Elems(TraceToNgram(a, 2)) == {[-1, 10], [10, 20], [20, 30], [30, -1]}
    ensures Elems(TraceToNgram(b, 2)) == {[-1, 10], [10, 20], [20, 40], [40, -1]}
  {
    ExampleBigrams(a, b);
  }

  /** The grams of the new log: those of the fitted log plus (20, 40) and
      (40, -1). */
  lemma ExampleUnique(traces: seq<seq<int>>)
    requires traces == [[10, 20, 30], [10, 20, 30], [10, 20, 40]]
    ensures TracesToNgrams(traces, 2).1 == {[-1, 10], [10, 20], [20, 30], [30, -1], [20, 40], [40, -1]}
  {
    var a, b := traces[0], traces[2];
    ExampleGramSets(a, b);
    UniqueOfThree(traces, a, a, b, 2);
    SetUnionExample(Elems(TraceToNgram(a, 2)), Elems(TraceToNgram(b, 2)));
  }

  lemma SetUnionExample(u: set<Gram>, v: set<Gram>)
    requires u == {[-1, 10], [10, 20], [20, 30], [30, -1]}
    requires v == {[-1, 10], [10, 20], [20, 40], [40, -1]}
    ensures u + u + v == {[-1, 10], [10, 20], [20, 30], [30, -1], [20, 40], [40, -1]}
  {
  }

  /** The fitted log is three cases 10, 20, 30; the new log ends its third
      case with 40 instead of 30. */
  lemma NewNgramsExample(vocab: map<Gram, int>, traces: seq<seq<int>>)
    requires vocab == map[[-1, 10] := 0, [10, 20] := 1, [20, 30] := 2, [30, -1] := 3]
    requires traces == [[10, 20, 30], [10, 20, 30], [10, 20, 40]]
    ensures NewNgrams(vocab, traces, 2) == {[20, 40], [40, -1]}
  {
    ExampleUnique(traces);
    var fitted: set<Gram> := {[-1, 10], [10, 20], [20, 30], [30, -1]};
    var added: set<Gram> := {[20, 40], [40, -1]};
    assert vocab.Keys == fitted;
    assert TracesToNgrams(traces, 2).1 == fitted + added;
    AddedNotFitted(fitted, added);
  }

  lemma AddedNotFitted(fitted: set<Gram>, added: set<Gram>)
    requires fitted == {[-1, 10], [10, 20], [20, 30], [30, -1]}
    requires added == {[20, 40], [40, -1]}
    ensures (fitted + added) - fitted == added
  {
    assert [20, 40] !in fitted && [40, -1] !in fitted;
  }
}
