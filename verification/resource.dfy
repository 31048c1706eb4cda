/** The resource-pool extractor: `fit` enumerates the activities and the
    resources of an event table, counts how often each resource performed each
    activity (the activity profile of the resource), and turns the connected
    components of the profile correlation graph into roles; `transform` maps
    every event's resource to its role, resources unseen during `fit` going
    through the reserved label "UNK". The three copies of the extractor share
    these algorithms; they differ in where the column names come from and in
    whether the threshold parameter is validated. */
module Resource {
  import opened Wrappers
  import opened Seqs
  import Graph
  import Validation

  /** The reserved label of unseen values; index 0 of every vocabulary. */
  const Unk: string := "UNK"

  // ---------------------------------------------------------------------
  // The input table

  /** A table as the extractor sees it: the column names, the cells of each
      column (`None` for a null), and the number of rows. */
  datatype Table = Table(columns: seq<string>, data: map<string, seq<Option<string>>>, height: nat)

  predicate WellFormed(t: Table)
  {
    forall c :: c in t.columns ==> c in t.data && |t.data[c]| == t.height
  }

  predicate NoNull(s: seq<Option<string>>)
  {
    forall k :: 0 <= k < |s| ==> s[k].Some?
  }

  function Values(s: seq<Option<string>>): (r: seq<string>)
    requires NoNull(s)
    ensures |r| == |s|
    ensures forall k :: 0 <= k < |s| ==> s[k] == Some(r[k])
  {
    seq(|s|, k requires 0 <= k < |s| => s[k].value)
  }

  /** `_validate_data` before its fitted branch: ValueError when a column is
      missing or holds a null; otherwise the activity and the resource of
      every row, in row order. */
  function ValidateData(t: Table, activity: string, resource: string): (r: Result<(seq<string>, seq<string>)>)
    requires WellFormed(t)
    ensures r.Success? <==>
      activity in t.columns && resource in t.columns && NoNull(t.data[activity]) && NoNull(t.data[resource])
    ensures r.Failure? ==> r.error == ValueError
    ensures r.Success? ==> |r.value.0| == t.height && |r.value.1| == t.height
    ensures r.Success? ==> forall k :: 0 <= k < t.height ==>
      t.data[activity][k] == Some(r.value.0[k]) && t.data[resource][k] == Some(r.value.1[k])
  {
    var cols := Validation.ValidateColumns(t.columns, [activity, resource]);
    if cols.Failure? then Failure(ValueError)
    else
      assert activity in [activity, resource] && resource in [activity, resource];
      if !NoNull(t.data[activity]) || !NoNull(t.data[resource]) then Failure(ValueError)
      else Success((Values(t.data[activity]), Values(t.data[resource])))
  }

  /** A null in either column is rejected, whatever else the table holds. */
  lemma NullRejected(t: Table, activity: string, resource: string, k: int)
    requires WellFormed(t) && activity in t.columns && resource in t.columns
    requires 0 <= k < t.height
    requires t.data[activity][k].None? || t.data[resource][k].None?
    ensures ValidateData(t, activity, resource) == Failure(ValueError)
  {
  }

  /** The validation reads the two named columns only: renaming the columns
      together with the table changes nothing, and a missing one is a
      ValueError. */
  lemma ValidateDataColumns(t: Table, activity: string, resource: string)
    requires WellFormed(t)
    ensures activity !in t.columns ==> ValidateData(t, activity, resource) == Failure(ValueError)
    ensures resource !in t.columns ==> ValidateData(t, activity, resource) == Failure(ValueError)
    ensures forall t' ::
      (WellFormed(t') && t'.height == t.height
       && activity in t'.columns && resource in t'.columns
       && activity in t.columns && resource in t.columns
       && t'.data[activity] == t.data[activity] && t'.data[resource] == t.data[resource])
      ==> ValidateData(t', activity, resource) == ValidateData(t, activity, resource)
  {
  }

  // ---------------------------------------------------------------------
  // Vocabularies

  /** `stoi` of `_define_vocabs`: {"UNK": 0} updated with label i at i + 1,
      in label order, so that a label spelled "UNK" takes the key over. */
  function Stoi(labels: seq<string>): (r: map<string, int>)
    requires NoDup(labels)
    ensures forall s :: s in r <==> s == Unk || s in labels
    ensures forall i :: 0 <= i < |labels| ==> r[labels[i]] == i + 1
    ensures Unk !in labels ==> r[Unk] == 0
  {
    if |labels| == 0 then map[Unk := 0]
    else
      var init := labels[..|labels| - 1];
      assert labels == init + [labels[|labels| - 1]];
      Stoi(init)[labels[|labels| - 1] := |labels|]
  }

  /** `itos` of `_define_vocabs`: index 0 is "UNK", index i + 1 label i. */
  function Itos(labels: seq<string>): (r: map<int, string>)
    ensures forall k :: k in r <==> 0 <= k <= |labels|
    ensures r[0] == Unk
    ensures forall i :: 0 <= i < |labels| ==> r[i + 1] == labels[i]
  {
    if |labels| == 0 then map[0 := Unk]
    else Itos(labels[..|labels| - 1])[|labels| := labels[|labels| - 1]]
  }

  /** `_define_vocabs(unique_labels)`. */
  function DefineVocabs(labels: seq<string>): (r: (map<string, int>, map<int, string>))
    requires NoDup(labels)
    ensures r.0 == Stoi(labels) && r.1 == Itos(labels)
  {
    (Stoi(labels), Itos(labels))
  }

  /** The vocabulary of a column: `_define_vocabs(column.unique())`. */
  function Vocab(column: seq<string>): (r: (map<string, int>, map<int, string>))
    ensures forall s :: s in r.0 <==> s == Unk || s in column
  {
    DefineVocabs(Distinct(column))
  }

  /** Without a label "UNK", `stoi` and `itos` are inverse bijections. */
  lemma VocabInverse(labels: seq<string>)
    requires NoDup(labels) && Unk !in labels
    ensures forall s :: s in Stoi(labels) ==>
      Stoi(labels)[s] in Itos(labels) && Itos(labels)[Stoi(labels)[s]] == s
    ensures forall k :: k in Itos(labels) ==>
      Itos(labels)[k] in Stoi(labels) && Stoi(labels)[Itos(labels)[k]] == k
  {
    var stoi, itos := Stoi(labels), Itos(labels);
    forall s | s in stoi ensures stoi[s] in itos && itos[stoi[s]] == s {
      if s != Unk {
        var i :| 0 <= i < |labels| && labels[i] == s;
      }
    }
    forall k | k in itos ensures itos[k] in stoi && stoi[itos[k]] == k {
      if k > 0 {
        assert labels[k - 1] in labels;
      }
    }
  }

  /** The number of keys: one per label, plus "UNK" unless a label took it. */
  lemma {:induction false} VocabSize(labels: seq<string>)
    requires NoDup(labels)
    ensures |Stoi(labels)| == if Unk in labels then |labels| else |labels| + 1
  {
    var stoi := Stoi(labels);
    NoDupCard(labels);
    if Unk in labels {
      assert stoi.Keys == Elems(labels);
    } else {
      assert stoi.Keys == Elems(labels) + {Unk};
      assert Unk !in Elems(labels);
    }
  }

  /** Without a label "UNK" the indices are 0 .. n, one per key: every index
      names a row of the profile matrix. */
  lemma VocabIndices(labels: seq<string>)
    requires NoDup(labels) && Unk !in labels
    ensures forall s :: s in Stoi(labels) ==> 0 <= Stoi(labels)[s] < |Stoi(labels)|
    ensures forall s, s' :: s in Stoi(labels) && s' in Stoi(labels) && s != s' ==>
      Stoi(labels)[s] != Stoi(labels)[s']
  {
    VocabSize(labels);
    VocabInverse(labels);
    var stoi := Stoi(labels);
    forall s | s in stoi ensures 0 <= stoi[s] < |stoi| {
      if s != Unk {
        var i :| 0 <= i < |labels| && labels[i] == s;
      }
    }
  }

  /** A label "UNK" takes index 0 away from the reserved label: `itos[0]` is
      "UNK" but `stoi["UNK"]` is not 0, so the round trip through index 0
      fails. */
  lemma UnkLabelTakesOver(labels: seq<string>)
    requires NoDup(labels) && Unk in labels
    ensures Itos(labels)[0] == Unk && Stoi(labels)[Unk] != 0
  {
    var i :| 0 <= i < |labels| && labels[i] == Unk;
  }

  // ---------------------------------------------------------------------
  // Unseen labels

  /** `_check_unknown`: every value outside the vocabulary becomes "UNK",
      every other value is kept. */
  function CheckUnknown(input: seq<string>, vocab: set<string>): (r: seq<string>)
    ensures |r| == |input|
    ensures forall k :: 0 <= k < |input| ==> r[k] == if input[k] in vocab then input[k] else Unk
  {
    var unknown := Elems(input) - vocab;
    seq(|input|, k requires 0 <= k < |input| => if input[k] in unknown then Unk else input[k])
  }

  /** Once "UNK" is a key, every checked value has an index, so the mapping
      through the vocabulary never yields a missing value. */
  lemma CheckUnknownInVocab(input: seq<string>, vocab: set<string>)
    requires Unk in vocab
    ensures forall k :: 0 <= k < |input| ==> CheckUnknown(input, vocab)[k] in vocab
  {
  }

  /** Checking twice is checking once. */
  lemma CheckUnknownIdempotent(input: seq<string>, vocab: set<string>)
    requires Unk in vocab
    ensures CheckUnknown(CheckUnknown(input, vocab), vocab) == CheckUnknown(input, vocab)
  {
  }

  /** Input made of known values is returned unchanged, and the values that
      change are exactly the unseen ones. */
  lemma CheckUnknownKnownUnchanged(input: seq<string>, vocab: set<string>)
    ensures (forall k :: 0 <= k < |input| ==> input[k] in vocab) ==> CheckUnknown(input, vocab) == input
    ensures forall k :: 0 <= k < |input| ==>
      (CheckUnknown(input, vocab)[k] != input[k] <==> input[k] in Elems(input) - vocab && input[k] != Unk)
  {
    forall k | 0 <= k < |input| ensures input[k] in Elems(input) {
    }
  }

  // ---------------------------------------------------------------------
  // Activity profiles

  /** The (activity index, resource index) pair of every event. */
  function IndexPairs(acts: seq<string>, ress: seq<string>, atoi: map<string, int>, rtoi: map<string, int>): (r: seq<(int, int)>)
    requires |acts| == |ress|
    requires forall k :: 0 <= k < |acts| ==> acts[k] in atoi && ress[k] in rtoi
    ensures |r| == |acts|
    ensures forall k :: 0 <= k < |acts| ==> r[k] == (atoi[acts[k]], rtoi[ress[k]])
  {
    seq(|acts|, k requires 0 <= k < |acts| => (atoi[acts[k]], rtoi[ress[k]]))
  }

  /** The reference profile matrix: row r, column a counts the events of
      activity a performed by resource r. */
  function Profiles(pairs: seq<(int, int)>, nR: nat, nA: nat): (m: Graph.Matrix)
    ensures |m| == nR && forall r :: 0 <= r < nR ==> |m[r]| == nA
  {
    var ms := multiset(pairs);
    seq(nR, r requires 0 <= r < nR => seq(nA, a requires 0 <= a < nA => ms[(a, r)]))
  }

  /** Every pair indexes a cell of an nR x nA matrix. */
  predicate InRange(pairs: seq<(int, int)>, nR: nat, nA: nat)
  {
    forall k :: 0 <= k < |pairs| ==> 0 <= pairs[k].0 < nA && 0 <= pairs[k].1 < nR
  }

  /** `groupby([activity, resource]).value_counts()`: the count of every pair
      that occurs. */
  function ValueCounts(pairs: seq<(int, int)>): (r: map<(int, int), nat>)
    ensures forall p :: p in r <==> p in pairs
    ensures forall p :: p in r ==> r[p] == multiset(pairs)[p] && r[p] > 0
  {
    map p | p in pairs :: multiset(pairs)[p]
  }

  /** The profile loop: zeros of shape (resources, activities), then the count
      of every (activity, resource) key written at [resource, activity]. The
      keys may come in any order: the result is the reference matrix. */
  method BuildProfiles(pairs: seq<(int, int)>, keys: seq<(int, int)>, nR: nat, nA: nat) returns (m: Graph.Matrix)
    requires forall p :: p in keys <==> p in pairs
    requires InRange(pairs, nR, nA)
    ensures m == Profiles(pairs, nR, nA)
  {
    var freq := ValueCounts(pairs);
    m := seq(nR, r => seq(nA, a => 0));
    var i := 0;
    while i < |keys|
      invariant 0 <= i <= |keys|
      invariant |m| == nR && forall r :: 0 <= r < nR ==> |m[r]| == nA
      invariant forall r, a :: 0 <= r < nR && 0 <= a < nA ==>
        m[r][a] == if (a, r) in keys[..i] then multiset(pairs)[(a, r)] else 0
    {
      var (a, r) := keys[i];
      assert keys[i] in pairs;
      assert 0 <= a < nA && 0 <= r < nR;
      assert keys[..i + 1] == keys[..i] + [keys[i]];
      m := m[r := m[r][a := freq[(a, r)]]];
      i := i + 1;
    }
    assert keys[..i] == keys;
    var spec := Profiles(pairs, nR, nA);
    forall r | 0 <= r < nR ensures m[r] == spec[r] {
      forall a | 0 <= a < nA ensures m[r][a] == spec[r][a] {
        if (a, r) !in keys {
          assert (a, r) !in multiset(pairs);
        }
      }
    }
  }

  /** One more event bumps exactly its own cell. */
  lemma ProfilesSnoc(pairs: seq<(int, int)>, p: (int, int), nR: nat, nA: nat)
    requires 0 <= p.0 < nA && 0 <= p.1 < nR
    ensures Profiles(pairs + [p], nR, nA) == Graph.Bump(Profiles(pairs, nR, nA), p.1, p.0)
  {
    var a, b := Profiles(pairs + [p], nR, nA), Graph.Bump(Profiles(pairs, nR, nA), p.1, p.0);
    assert multiset(pairs + [p]) == multiset(pairs) + multiset{p};
    forall x | 0 <= x < nR ensures a[x] == b[x] {
    }
  }

  /** The number of events performed by resource r. */
  function EventsOf(pairs: seq<(int, int)>, r: int): nat
  {
    if |pairs| == 0 then 0
    else EventsOf(pairs[..|pairs| - 1], r) + if pairs[|pairs| - 1].1 == r then 1 else 0
  }

  /** Every event is counted once: the profile matrix adds up to the number
      of events, and row r to the number of events of resource r. */
  lemma {:induction false} ProfileSums(pairs: seq<(int, int)>, nR: nat, nA: nat)
    requires InRange(pairs, nR, nA)
    ensures Graph.MatrixSum(Profiles(pairs, nR, nA)) == |pairs|
    ensures forall r :: 0 <= r < nR ==> Sum(Profiles(pairs, nR, nA)[r]) == EventsOf(pairs, r)
  {
    if |pairs| == 0 {
      ProfileSumsEmpty(nR, nA);
    } else {
      var init, p := pairs[..|pairs| - 1], pairs[|pairs| - 1];
      assert pairs == init + [p];
      ProfileSums(init, nR, nA);
      ProfileSumsStep(init, p, nR, nA);
    }
  }

  lemma ProfileSumsEmpty(nR: nat, nA: nat)
    ensures Graph.MatrixSum(Profiles([], nR, nA)) == 0
    ensures forall r :: 0 <= r < nR ==> Sum(Profiles([], nR, nA)[r]) == 0
  {
    var m := Profiles([], nR, nA);
    forall r | 0 <= r < nR ensures Sum(m[r]) == 0 {
      Graph.ZeroRowSum(m[r]);
    }
    Graph.ZerosSum(m);
  }

  lemma ProfileSumsStep(pairs: seq<(int, int)>, p: (int, int), nR: nat, nA: nat)
    requires 0 <= p.0 < nA && 0 <= p.1 < nR
    ensures Graph.MatrixSum(Profiles(pairs + [p], nR, nA)) == Graph.MatrixSum(Profiles(pairs, nR, nA)) + 1
    ensures forall r :: 0 <= r < nR ==>
      Sum(Profiles(pairs + [p], nR, nA)[r]) == Sum(Profiles(pairs, nR, nA)[r]) + if p.1 == r then 1 else 0
  {
    ProfilesSnoc(pairs, p, nR, nA);
    var prev := Profiles(pairs, nR, nA);
    Graph.BumpSum(prev, p.1, p.0);
    Graph.SumUpdate(prev[p.1], p.0, prev[p.1][p.0] + 1);
  }

  /** No event has index 0 unless a label is "UNK": the profile row of the
      reserved label is all zeros. */
  lemma {:induction false} UnkRowZero(pairs: seq<(int, int)>, nR: nat, nA: nat)
    requires nR > 0
    requires forall k :: 0 <= k < |pairs| ==> pairs[k].1 != 0
    ensures forall a :: 0 <= a < nA ==> Profiles(pairs, nR, nA)[0][a] == 0
  {
    forall a | 0 <= a < nA ensures (a, 0) !in multiset(pairs) {
      assert forall k :: 0 <= k < |pairs| ==> pairs[k] != (a, 0);
    }
  }

  // ---------------------------------------------------------------------
  // Roles

  /** `set(np.where(labels == i)[0])` for every component i. */
  function SubGraphs(labels: seq<int>, n: nat): (r: seq<set<int>>)
    ensures |r| == n
    ensures forall i, j :: 0 <= i < n ==> (j in r[i] <==> 0 <= j < |labels| && labels[j] == i)
  {
    seq(n, i => set j | 0 <= j < |labels| && labels[j] == i)
  }

  /** The role loop: every member of component i gets role i. The members of
      a component are visited in any order. */
  method AssignRoles(labels: seq<int>, nComponents: nat) returns (roles: map<int, int>)
    ensures forall j :: j in roles <==> 0 <= j < |labels| && 0 <= labels[j] < nComponents
    ensures forall j :: j in roles ==> roles[j] == labels[j]
  {
    var subGraphs := SubGraphs(labels, nComponents);
    roles := map[];
    var ix := 0;
    while ix < |subGraphs|
      invariant 0 <= ix <= nComponents
      invariant forall j :: j in roles <==> 0 <= j < |labels| && 0 <= labels[j] < ix
      invariant forall j :: j in roles ==> roles[j] == labels[j]
    {
      var role := subGraphs[ix];
      var todo := role;
      while todo != {}
        invariant todo <= role
        invariant forall j :: j in roles <==> (0 <= j < |labels| && 0 <= labels[j] < ix) || (j in role && j !in todo)
        invariant forall j :: j in roles ==> roles[j] == labels[j]
        decreases |todo|
      {
        var u :| u in todo;
        roles := roles[u := ix];
        todo := todo - {u};
      }
      ix := ix + 1;
    }
  }

  /** With one label per resource index and every label a component, the
      roles cover all indices and two resources share a role exactly when
      they share a component. */
  lemma RolesPartition(labels: seq<int>, nComponents: nat, roles: map<int, int>)
    requires forall j :: 0 <= j < |labels| ==> 0 <= labels[j] < nComponents
    requires forall j :: j in roles <==> 0 <= j < |labels| && 0 <= labels[j] < nComponents
    requires forall j :: j in roles ==> roles[j] == labels[j]
    ensures forall j :: j in roles <==> 0 <= j < |labels|
    ensures forall j, j' :: j in roles && j' in roles ==> (roles[j] == roles[j'] <==> labels[j] == labels[j'])
    ensures forall j :: j in roles ==> 0 <= roles[j] < nComponents
  {
  }

  // ---------------------------------------------------------------------
  // fit and transform

  datatype Fitted = Fitted(
    atoi: map<string, int>,
    itoa: map<int, string>,
    rtoi: map<string, int>,
    itor: map<int, string>,
    profiles: Graph.Matrix,
    roles: map<int, int>)

  /** The parameter constraint of the current copy: the threshold is a real
      in [0, 1]; anything else is an InvalidParameterError, a ValueError. */
  function ValidateThreshold(threshold: real): (r: Result<real>)
    ensures r.Success? <==> 0.0 <= threshold <= 1.0
    ensures r.Failure? ==> r.error == ValueError
    ensures r.Success? ==> r.value == threshold
  {
    if 0.0 <= threshold <= 1.0 then Success(threshold) else Failure(ValueError)
  }

  /** Every index of a column's values lies inside its vocabulary's range
      exactly when no value is "UNK": otherwise the last new label gets the
      index |stoi|. */
  lemma ColumnIndices(column: seq<string>)
    ensures (forall k :: 0 <= k < |column| ==> 0 <= Vocab(column).0[column[k]] < |Vocab(column).0|)
      <==> Unk !in column
  {
    var ua := Distinct(column);
    var stoi := Stoi(ua);
    assert Vocab(column).0 == stoi;
    VocabSize(ua);
    if Unk !in column {
      assert |stoi| == |ua| + 1;
      forall k | 0 <= k < |column| ensures 0 <= stoi[column[k]] < |stoi| {
        assert column[k] in column;
        assert column[k] in ua;
        var i :| 0 <= i < |ua| && ua[i] == column[k];
        assert stoi[ua[i]] == i + 1;
      }
    } else {
      assert Unk in ua;
      assert |stoi| == |ua|;
      var last := ua[|ua| - 1];
      assert stoi[last] == |ua|;
      assert last in column;
      var k :| 0 <= k < |column| && column[k] == last;
      assert stoi[column[k]] == |stoi|;
    }
  }

  /** An index outside the profile matrix: a label "UNK" among the
      activities or the resources. */
  lemma UnkIndexOutOfRange(acts: seq<string>, ress: seq<string>)
    requires |acts| == |ress|
    ensures
      var atoi, rtoi := Vocab(acts).0, Vocab(ress).0;
      InRange(IndexPairs(acts, ress, atoi, rtoi), |rtoi|, |atoi|) <==> Unk !in acts && Unk !in ress
  {
    ColumnIndices(acts);
    ColumnIndices(ress);
  }

  /** The profiles of a log without "UNK" labels count every event once and
      leave the row of "UNK" empty. */
  lemma FittedProfiles(acts: seq<string>, ress: seq<string>)
    requires |acts| == |ress| && Unk !in acts && Unk !in ress
    ensures
      var atoi, rtoi := Vocab(acts).0, Vocab(ress).0;
      var m := Profiles(IndexPairs(acts, ress, atoi, rtoi), |rtoi|, |atoi|);
      Graph.MatrixSum(m) == |acts| && forall a :: 0 <= a < |atoi| ==> m[0][a] == 0
  {
    var atoi, rtoi := Vocab(acts).0, Vocab(ress).0;
    var pairs := IndexPairs(acts, ress, atoi, rtoi);
    UnkIndexOutOfRange(acts, ress);
    ProfileSums(pairs, |rtoi|, |atoi|);
    VocabSize(Distinct(ress));
    PositiveIndices(ress);
    UnkRowZero(pairs, |rtoi|, |atoi|);
  }

  /** Without "UNK" in a column, no value of it has index 0. */
  lemma PositiveIndices(column: seq<string>)
    requires Unk !in column
    ensures forall k :: 0 <= k < |column| ==> Vocab(column).0[column[k]] > 0
  {
    var ua := Distinct(column);
    forall k | 0 <= k < |column| ensures Stoi(ua)[column[k]] > 0 {
      assert column[k] in column;
      var j :| 0 <= j < |ua| && ua[j] == column[k];
    }
  }

  /** The body of `fit` shared by the three copies. The connected components
      of the thresholded correlation graph of the profiles are an input
      (`labels`, `nComponents`); a label "UNK" puts an index outside the
      profile matrix, which numpy rejects with IndexError. An empty table
      leaves a 1x1 profile matrix whose `np.corrcoef` is 0-d, and
      `np.fill_diagonal` rejects that with ValueError. */
  method FitRoles(t: Table, activity: string, resource: string, labels: seq<int>, nComponents: nat)
    returns (r: Result<Fitted>)
    requires WellFormed(t)
    ensures r.Failure? <==>
      (ValidateData(t, activity, resource).Failure? || t.height == 0
       || Unk in ValidateData(t, activity, resource).value.0 || Unk in ValidateData(t, activity, resource).value.1)
    ensures r.Failure? ==>
      r.error == if ValidateData(t, activity, resource).Failure? || t.height == 0 then ValueError else IndexError
    ensures r.Success? ==>
      r.value.atoi == Vocab(ValidateData(t, activity, resource).value.0).0
      && r.value.itoa == Vocab(ValidateData(t, activity, resource).value.0).1
      && r.value.rtoi == Vocab(ValidateData(t, activity, resource).value.1).0
      && r.value.itor == Vocab(ValidateData(t, activity, resource).value.1).1
    ensures r.Success? ==>
      r.value.profiles == Profiles(
        IndexPairs(ValidateData(t, activity, resource).value.0, ValidateData(t, activity, resource).value.1, r.value.atoi, r.value.rtoi),
        |r.value.rtoi|, |r.value.atoi|)
    ensures r.Success? ==> Graph.MatrixSum(r.value.profiles) == t.height
    ensures r.Success? ==> forall a :: 0 <= a < |r.value.atoi| ==> r.value.profiles[0][a] == 0
    ensures r.Success? ==> forall j :: j in r.value.roles <==> 0 <= j < |labels| && 0 <= labels[j] < nComponents
    ensures r.Success? ==> forall j :: j in r.value.roles ==> r.value.roles[j] == labels[j]
  {
    var d := ValidateData(t, activity, resource);
    if d.Failure? {
      return Failure(d.error);
    }
    var (acts, ress) := d.value;
    var (atoi, itoa) := Vocab(acts);
    var (rtoi, itor) := Vocab(ress);
    var pairs := IndexPairs(acts, ress, atoi, rtoi);
    UnkIndexOutOfRange(acts, ress);
    if !InRange(pairs, |rtoi|, |atoi|) {
      return Failure(IndexError);
    }
    VocabSize(Distinct(ress));
    if |ress| > 0 {
      assert ress[0] in Distinct(ress);
    }
    if |rtoi| < 2 {
      return Failure(ValueError);
    }
    var profiles := BuildProfiles(pairs, Distinct(pairs), |rtoi|, |atoi|);
    FittedProfiles(acts, ress);
    var roles := AssignRoles(labels, nComponents);
    r := Success(Fitted(atoi, itoa, rtoi, itor, profiles, roles));
  }

  /** `fit` of the current copy: the threshold is validated first. */
  method Fit(t: Table, activity: string, resource: string, threshold: real, labels: seq<int>, nComponents: nat)
    returns (r: Result<Fitted>)
    requires WellFormed(t)
    ensures !(0.0 <= threshold <= 1.0) ==> r == Failure(ValueError)
    ensures 0.0 <= threshold <= 1.0 ==>
      (r.Failure? <==>
        (ValidateData(t, activity, resource).Failure? || t.height == 0
         || Unk in ValidateData(t, activity, resource).value.0 || Unk in ValidateData(t, activity, resource).value.1))
    ensures r.Success? ==> r.value.rtoi == Vocab(ValidateData(t, activity, resource).value.1).0
    ensures r.Success? ==> Graph.MatrixSum(r.value.profiles) == t.height
    ensures r.Success? ==> forall j :: j in r.value.roles ==> 0 <= j < |labels| && r.value.roles[j] == labels[j]
  {
    var th := ValidateThreshold(threshold);
    if th.Failure? {
      return Failure(th.error);
    }
    r := FitRoles(t, activity, resource, labels, nComponents);
  }

  function Lookup<K, V>(m: map<K, V>, k: K): Option<V>
  {
    if k in m then Some(m[k]) else None
  }

  /** The reference role of a resource label: the role of its index when it
      was seen during `fit`, the role of the index of "UNK" otherwise; `None`
      (pandas' NaN) when the index has no role. */
  function RoleOf(f: Fitted, s: string): Option<int>
  {
    var key := if s in f.rtoi then s else Unk;
    if key in f.rtoi && f.rtoi[key] in f.roles then Some(f.roles[f.rtoi[key]]) else None
  }

  /** `transform`: NotFittedError before `fit`, ValueError for a missing
      column or a null, otherwise one role per row. */
  function Transform(f: Option<Fitted>, t: Table, activity: string, resource: string): (r: Result<seq<Option<int>>>)
    requires WellFormed(t)
    ensures r.Failure? <==> f.None? || ValidateData(t, activity, resource).Failure?
    ensures r.Failure? ==> r.error == if f.None? then NotFittedError else ValueError
    ensures r.Success? ==> |r.value| == t.height
    ensures r.Success? ==> forall k :: 0 <= k < t.height ==>
      r.value[k] == RoleOf(f.value, ValidateData(t, activity, resource).value.1[k])
  {
    match f
    case None => Failure(NotFittedError)
    case Some(fitted) =>
      var d := ValidateData(t, activity, resource);
      if d.Failure? then Failure(ValueError)
      else
        var ress := CheckUnknown(d.value.1, fitted.rtoi.Keys);
        Success(seq(|ress|, k requires 0 <= k < |ress| =>
          match Lookup(fitted.rtoi, ress[k])
          case None => None
          case Some(i) => Lookup(fitted.roles, i)))
  }

  /** Resources unseen during `fit` share the role of "UNK". */
  lemma UnseenShareUnkRole(f: Fitted, s: string)
    requires s !in f.rtoi
    ensures RoleOf(f, s) == RoleOf(f, Unk)
  {
  }

  /** When the components label every resource index, every row gets a role,
      and a resource seen during `fit` gets the component of its index. */
  lemma TransformTotal(f: Fitted, column: seq<string>, labels: seq<int>, nComponents: nat, s: string)
    requires Unk !in column
    requires f.rtoi == Vocab(column).0
    requires |labels| == |f.rtoi|
    requires forall j :: 0 <= j < |labels| ==> 0 <= labels[j] < nComponents
    requires forall j :: j in f.roles <==> 0 <= j < |labels| && 0 <= labels[j] < nComponents
    requires forall j :: j in f.roles ==> f.roles[j] == labels[j]
    ensures RoleOf(f, s).Some?
    ensures s in column ==> RoleOf(f, s) == Some(labels[f.rtoi[s]])
  {
    VocabIndices(Distinct(column));
  }

  /** The example of the documentation: activities A, B, A, B by resources
      R1, R2, R1, R2. The profiles are R1 = (0, 2, 0) and R2 = (0, 0, 2)
      beside the zero row of "UNK"; their correlation is -0.5 and the "UNK"
      row has none, so no edge passes 0.7 and the components are the three
      single nodes. With "UNK" holding role 0 the roles are 1, 2, 1, 2, not
      the 0, 1, 0, 1 the documentation prints. */
  lemma ExampleRoles(f: Fitted, ress: seq<string>)
    requires ress == ["R1", "R2", "R1", "R2"]
    requires f.rtoi == Vocab(ress).0
    requires f.roles == map[0 := 0, 1 := 1, 2 := 2]
    ensures RoleOf(f, ress[0]) == Some(1) && RoleOf(f, ress[1]) == Some(2)
    ensures RoleOf(f, "R3") == Some(0)
  {
    ExampleDistinct(ress);
    assert "R3" != Unk && "R3" !in ["R1", "R2"];
  }

  lemma ExampleDistinct(ress: seq<string>)
    requires ress == ["R1", "R2", "R1", "R2"]
    ensures Distinct(ress) == ["R1", "R2"]
  {
    assert ress[..1] == ["R1"];
    assert ress[..2] == ["R1", "R2"];
    assert ress[..3] == ["R1", "R2", "R1"];
    assert Distinct(ress[..1]) == ["R1"];
    assert Distinct(ress[..2]) == ["R1", "R2"];
    assert Distinct(ress[..3]) == ["R1", "R2"];
  }
}
