/** The unbiased temporal train/test split: calendar bounding, the
    duration/truncation filter, and the case-level split at the separation
    time. Every stage removes or assigns whole cases, never single rows. */
module Split {
  import opened Wrappers
  import opened Seqs
  import opened EventTable

  const SecondsPerDay := 86400

  /** The factor `max_days` is multiplied by before comparing durations. */
  const DurationSlack: real := 1.00000000001

  /** Calendar months are an abstract, monotone numbering of timestamps. */
  ghost predicate Monotone(month: int -> int)
  {
    forall a, b :: a <= b ==> month(a) <= month(b)
  }

  /** The cases whose start month is at or after `lo` and whose end month is
      at or before `hi`. */
  function CasesWithin(t: seq<Row>, lo: int, hi: int, month: int -> int): set<string>
  {
    set c | c in CaseIds(t) && month(CaseStart(t, c)) >= lo && month(CaseEnd(t, c)) <= hi
  }

  /** The lower month bound: the given one, or the month of the earliest
      timestamp of the table. */
  function LowerMonth(t: seq<Row>, startMonth: Option<int>, month: int -> int): int
    requires |t| > 0
  {
    if startMonth.Some? then startMonth.value else month(MinTs(t))
  }

  /** The upper month bound: the given one, or the month of the latest
      timestamp of the table. */
  function UpperMonth(t: seq<Row>, endMonth: Option<int>, month: int -> int): int
    requires |t| > 0
  {
    if endMonth.Some? then endMonth.value else month(MaxTs(t))
  }

  /** `_bounded_dataset`: restrict the table to the cases lying inside the
      calendar window. */
  function Bounded(t: seq<Row>, startMonth: Option<int>, endMonth: Option<int>, month: int -> int): seq<Row>
  {
    if |t| == 0 then []
    else KeepCases(t, CasesWithin(t, LowerMonth(t, startMonth, month), UpperMonth(t, endMonth, month), month))
  }

  /** A case survives bounding iff its start month is at or after the lower
      bound and its end month at or before the upper bound; surviving cases
      keep all their rows in table order, the others lose all of theirs. */
  lemma BoundedKeepsWholeCases(t: seq<Row>, startMonth: Option<int>, endMonth: Option<int>, month: int -> int, c: string)
    requires |t| > 0
    ensures var r := Bounded(t, startMonth, endMonth, month);
      && (c in CaseIds(r) <==> (c in CaseIds(t)
           && month(CaseStart(t, c)) >= LowerMonth(t, startMonth, month)
           && month(CaseEnd(t, c)) <= UpperMonth(t, endMonth, month)))
      && RowsOf(r, c) == if c in CaseIds(r) then RowsOf(t, c) else []
  {
    var keep := CasesWithin(t, LowerMonth(t, startMonth, month), UpperMonth(t, endMonth, month), month);
    KeepCasesIds(t, keep);
    KeepCasesWhole(t, keep, c);
  }

  /** With neither bound given, bounding keeps the whole table: the defaults
      alone never exclude a case. */
  lemma BoundedDefaultsKeepAll(t: seq<Row>, month: int -> int)
    requires Monotone(month)
    ensures Bounded(t, None, None, month) == t
  {
    if |t| > 0 {
      var lo := month(MinTs(t));
      var hi := month(MaxTs(t));
      forall c | c in CaseIds(t) ensures month(CaseStart(t, c)) >= lo && month(CaseEnd(t, c)) <= hi {
        CaseRowsNonEmpty(t, c);
        var x :| x in RowsOf(t, c) && x.ts == CaseStart(t, c);
        var y :| y in RowsOf(t, c) && y.ts == CaseEnd(t, c);
        assert MinTs(t) <= x.ts && y.ts <= MaxTs(t);
      }
      assert CasesWithin(t, lo, hi, month) == CaseIds(t);
      KeepAllCases(t, CaseIds(t));
    }
  }

  /** Condition 1 of `_unbiased`: the case lasts at most `max_days` days (with
      the source's relative slack of 1e-11). */
  predicate ShortEnough(start: int, end: int, maxDays: real)
  {
    (end - start) as real / SecondsPerDay as real <= maxDays * DurationSlack
  }

  /** Condition 2 of `_unbiased`: the case starts no later than `max_days`
      days before the table's last timestamp. */
  predicate NotTruncated(start: int, lastTs: int, maxDays: real)
  {
    start as real <= lastTs as real - maxDays * SecondsPerDay as real
  }

  /** The cases satisfying both conditions of `_unbiased`. */
  function UnbiasedCases(t: seq<Row>, maxDays: real): set<string>
    requires |t| > 0
  {
    set c | c in CaseIds(t) && ShortEnough(CaseStart(t, c), CaseEnd(t, c), maxDays)
                            && NotTruncated(CaseStart(t, c), MaxTs(t), maxDays)
  }

  /** `_unbiased`: keep the cases that satisfy both conditions. */
  function DurationFilter(t: seq<Row>, maxDays: real): seq<Row>
  {
    if |t| == 0 then [] else KeepCases(t, UnbiasedCases(t, maxDays))
  }

  /** A case survives the duration filter iff it is short enough and not
      truncated by the end of the table; survivors keep all their rows. */
  lemma DurationFilterKeepsWholeCases(t: seq<Row>, maxDays: real, c: string)
    requires |t| > 0
    ensures var r := DurationFilter(t, maxDays);
      && (c in CaseIds(r) <==> (c in CaseIds(t)
           && ShortEnough(CaseStart(t, c), CaseEnd(t, c), maxDays)
           && NotTruncated(CaseStart(t, c), MaxTs(t), maxDays)))
      && RowsOf(r, c) == if c in CaseIds(r) then RowsOf(t, c) else []
  {
    KeepCasesIds(t, UnbiasedCases(t, maxDays));
    KeepCasesWhole(t, UnbiasedCases(t, maxDays), c);
  }

  /** Python's `int()` on a float: truncation toward zero. */
  function Trunc(x: real): (n: int)
    ensures x >= 0.0 ==> n as real <= x < n as real + 1.0
    ensures x < 0.0 ==> n as real - 1.0 < x <= n as real
  {
    if x >= 0.0 then x.Floor else -((-x).Floor)
  }

  /** `int(len(grouped) * (1 - test_len))`: the rank of the first test case. */
  function CutoffRank(n: nat, testLen: real): int
  {
    Trunc(n as real * (1.0 - testLen))
  }

  /** numpy indexing of a one-dimensional array: negative indices count from
      the end, anything else out of range raises IndexError. */
  function NpIndex<T>(s: seq<T>, k: int): (r: Result<T>)
    ensures r.Success? <==> -|s| <= k < |s|
    ensures 0 <= k < |s| ==> r == Success(s[k])
    ensures -|s| <= k < 0 ==> r == Success(s[|s| + k])
  {
    if 0 <= k < |s| then Success(s[k])
    else if -|s| <= k < 0 then Success(s[|s| + k])
    else Failure(IndexError)
  }

  /** The start time of a case of `t` (0 for ids that are not cases of `t`). */
  function StartKey(t: seq<Row>): string -> int
  {
    (c: string) => if c in CaseIds(t) then CaseStart(t, c) else 0
  }

  /** The case ids of `t` ordered by start time (`grouped["min"].sort_values()`). */
  function CasesByStart(t: seq<Row>): (r: seq<string>)
    ensures SortedBy(r, StartKey(t))
    ensures NoDup(r) && |r| == |CaseIds(t)|
    ensures forall c :: c in r <==> c in CaseIds(t)
  {
    var ids := CaseOrder(t);
    var r := SortBy(ids, StartKey(t));
    PermutationNoDup(ids, r);
    assert forall c :: c in r <==> c in ids by {
      forall c ensures c in r <==> c in ids {
        assert c in r <==> multiset(r)[c] > 0;
        assert c in ids <==> multiset(ids)[c] > 0;
      }
    }
    NoDupCard(r);
    assert Elems(r) == CaseIds(t);
    r
  }

  /** The separation time: the start of the case ranked `CutoffRank` by start. */
  function SeparationTime(t: seq<Row>, testLen: real): (r: Result<int>)
    ensures r.Success? <==> -|CaseIds(t)| <= CutoffRank(|CaseIds(t)|, testLen) < |CaseIds(t)|
    ensures r.Success? ==> exists c :: c in CaseIds(t) && CaseStart(t, c) == r.value
  {
    var sorted := CasesByStart(t);
    match NpIndex(sorted, CutoffRank(|sorted|, testLen))
    case Success(c) =>
      assert c in sorted;
      Success(CaseStart(t, c))
    case Failure(e) => Failure(e)
  }

  /** The test cases: every case still running at or after the separation time. */
  function TestCases(t: seq<Row>, separation: int): set<string>
  {
    set c | c in CaseIds(t) && CaseEnd(t, c) >= separation
  }

  /** The split of the filtered table into (train, test) rows. */
  function SplitTable(t: seq<Row>, testLen: real): (r: Result<(seq<Row>, seq<Row>)>)
    ensures r.Success? <==> SeparationTime(t, testLen).Success?
    ensures r.Success? ==> forall c :: (c in CaseIds(r.value.1)
      <==> c in CaseIds(t) && CaseEnd(t, c) >= SeparationTime(t, testLen).value)
    ensures r.Success? ==> forall c :: (c in CaseIds(r.value.0)
      <==> c in CaseIds(t) && CaseEnd(t, c) < SeparationTime(t, testLen).value)
  {
    var sep :- SeparationTime(t, testLen);
    var test := TestCases(t, sep);
    KeepCasesIds(t, test);
    DropCasesIds(t, test);
    Success((DropCases(t, test), KeepCases(t, test)))
  }

  /** `unbiased`: bounding (skipped when neither bound is given), the
      duration filter, then the split. */
  function Unbiased(t: seq<Row>, startMonth: Option<int>, endMonth: Option<int>,
                    maxDays: real, testLen: real, month: int -> int): Result<(seq<Row>, seq<Row>)>
  {
    var bounded := if startMonth.Some? || endMonth.Some? then Bounded(t, startMonth, endMonth, month) else t;
    SplitTable(DurationFilter(bounded, maxDays), testLen)
  }

  /** The table the split is applied to. */
  function Filtered(t: seq<Row>, startMonth: Option<int>, endMonth: Option<int>,
                    maxDays: real, month: int -> int): seq<Row>
  {
    var bounded := if startMonth.Some? || endMonth.Some? then Bounded(t, startMonth, endMonth, month) else t;
    DurationFilter(bounded, maxDays)
  }

  /** `unbiased` partitions the filtered table: train and test hold disjoint
      cases, together exactly the filtered ones, and together every filtered
      row exactly once. */
  lemma UnbiasedSplitsFiltered(t: seq<Row>, startMonth: Option<int>, endMonth: Option<int>,
                               maxDays: real, testLen: real, month: int -> int)
    requires Unbiased(t, startMonth, endMonth, maxDays, testLen, month).Success?
    ensures var f := Filtered(t, startMonth, endMonth, maxDays, month);
      var r := Unbiased(t, startMonth, endMonth, maxDays, testLen, month).value;
      && CaseIds(r.0) !! CaseIds(r.1)
      && CaseIds(r.0) + CaseIds(r.1) == CaseIds(f)
      && multiset(r.0) + multiset(r.1) == multiset(f)
  {
    SplitPartitions(Filtered(t, startMonth, endMonth, maxDays, month), testLen);
  }

  /** Train is the `~isin` selection of the table's rows and test the `isin`
      selection, both keeping the table's row order. */
  lemma SplitTableValue(t: seq<Row>, testLen: real)
    requires SplitTable(t, testLen).Success?
    ensures SplitTable(t, testLen).value
      == (DropCases(t, TestCases(t, SeparationTime(t, testLen).value)),
          KeepCases(t, TestCases(t, SeparationTime(t, testLen).value)))
  {
  }

  /** Train and test are disjoint, cover exactly the filtered cases, and
      together hold every filtered row exactly once. */
  lemma SplitPartitions(t: seq<Row>, testLen: real)
    requires SplitTable(t, testLen).Success?
    ensures CaseIds(SplitTable(t, testLen).value.0) !! CaseIds(SplitTable(t, testLen).value.1)
    ensures CaseIds(SplitTable(t, testLen).value.0) + CaseIds(SplitTable(t, testLen).value.1) == CaseIds(t)
    ensures |SplitTable(t, testLen).value.0| + |SplitTable(t, testLen).value.1| == |t|
    ensures multiset(SplitTable(t, testLen).value.0) + multiset(SplitTable(t, testLen).value.1) == multiset(t)
  {
    SplitTableValue(t, testLen);
    KeepDropCases(t, TestCases(t, SeparationTime(t, testLen).value));
  }

  /** Each case of either output keeps all its rows, in table order. */
  lemma SplitKeepsCasesWhole(t: seq<Row>, testLen: real, c: string)
    requires SplitTable(t, testLen).Success?
    ensures c in CaseIds(SplitTable(t, testLen).value.1) ==> RowsOf(SplitTable(t, testLen).value.1, c) == RowsOf(t, c)
    ensures c in CaseIds(SplitTable(t, testLen).value.0) ==> RowsOf(SplitTable(t, testLen).value.0, c) == RowsOf(t, c)
  {
    var test := TestCases(t, SeparationTime(t, testLen).value);
    SplitTableValue(t, testLen);
    KeepCasesIds(t, test);
    DropCasesIds(t, test);
    KeepCasesWhole(t, test, c);
    DropCasesWhole(t, test, c);
  }

  lemma SeparationTimeValue(t: seq<Row>, testLen: real)
    requires 0 <= CutoffRank(|CaseIds(t)|, testLen) < |CaseIds(t)|
    ensures SeparationTime(t, testLen)
      == Success(CaseStart(t, CasesByStart(t)[CutoffRank(|CaseIds(t)|, testLen)]))
  {
    assert CasesByStart(t)[CutoffRank(|CaseIds(t)|, testLen)] in CasesByStart(t);
  }

  /** A test share above one makes the rank negative, and numpy counts a
      negative index from the end: the separation time is then the start of
      the case ranked n + k. */
  lemma SeparationWrapsAround(t: seq<Row>, testLen: real)
    requires -|CaseIds(t)| <= CutoffRank(|CaseIds(t)|, testLen) < 0
    ensures SeparationTime(t, testLen)
      == Success(CaseStart(t, CasesByStart(t)[|CaseIds(t)| + CutoffRank(|CaseIds(t)|, testLen)]))
  {
    var sorted, k := CasesByStart(t), CutoffRank(|CaseIds(t)|, testLen);
    assert |sorted| == |CaseIds(t)|;
    assert NpIndex(sorted, k) == Success(sorted[|sorted| + k]);
    assert sorted[|sorted| + k] in sorted;
  }

  /** Facts about the by-start ordering of the cases used by the rank lemmas. */
  lemma CasesByStartKeys(t: seq<Row>)
    ensures forall i :: 0 <= i < |CasesByStart(t)| ==>
      CasesByStart(t)[i] in CaseIds(t) && StartKey(t)(CasesByStart(t)[i]) == CaseStart(t, CasesByStart(t)[i])
  {
    var sorted := CasesByStart(t);
    forall i | 0 <= i < |sorted| ensures sorted[i] in CaseIds(t) {
      assert sorted[i] in sorted;
    }
  }

  /** The cases of `t` starting before `v`. */
  function StartedBefore(t: seq<Row>, v: int): set<string>
  {
    set c | c in CaseIds(t) && CaseStart(t, c) < v
  }

  /** The cases of `t` starting at or before `v`. */
  function StartedBy(t: seq<Row>, v: int): set<string>
  {
    set c | c in CaseIds(t) && CaseStart(t, c) <= v
  }

  /** The cases of `t` starting at or after `v`. */
  function StartedFrom(t: seq<Row>, v: int): set<string>
  {
    set c | c in CaseIds(t) && CaseStart(t, c) >= v
  }

  /** The same case sets read off any sequence holding exactly the cases of
      `t`, keyed by start time. */
  lemma StartKeyBridge(t: seq<Row>, ids: seq<string>, v: int)
    requires forall c :: c in ids <==> c in CaseIds(t)
    ensures StartedBefore(t, v) == KeysBelow(ids, StartKey(t), v)
    ensures StartedBy(t, v) == KeysAtMost(ids, StartKey(t), v)
    ensures StartedFrom(t, v) == KeysAtLeast(ids, StartKey(t), v)
  {
  }

  /** The separation time is the start key of the case at the cutoff rank. */
  lemma SeparationKey(t: seq<Row>, testLen: real)
    requires 0 <= CutoffRank(|CaseIds(t)|, testLen) < |CaseIds(t)|
    ensures SeparationTime(t, testLen).Success?
    ensures SeparationTime(t, testLen).value == StartKey(t)(CasesByStart(t)[CutoffRank(|CaseIds(t)|, testLen)])
  {
    SeparationTimeValue(t, testLen);
    CasesByStartKeys(t);
  }

  /** For an in-range rank k, at most k cases start strictly before the
      separation time. */
  lemma FewCasesStartBeforeSeparation(t: seq<Row>, testLen: real)
    requires 0 <= CutoffRank(|CaseIds(t)|, testLen) < |CaseIds(t)|
    ensures |StartedBefore(t, SeparationTime(t, testLen).value)| <= CutoffRank(|CaseIds(t)|, testLen)
  {
    var sorted := CasesByStart(t);
    SeparationKey(t, testLen);
    RankStrictlyBelow(sorted, StartKey(t), CutoffRank(|CaseIds(t)|, testLen));
    StartKeyBridge(t, sorted, SeparationTime(t, testLen).value);
  }

  /** For an in-range rank k, at least k + 1 cases start at or before the
      separation time. */
  lemma ManyCasesStartBySeparation(t: seq<Row>, testLen: real)
    requires 0 <= CutoffRank(|CaseIds(t)|, testLen) < |CaseIds(t)|
    ensures |StartedBy(t, SeparationTime(t, testLen).value)| >= CutoffRank(|CaseIds(t)|, testLen) + 1
  {
    var sorted := CasesByStart(t);
    SeparationKey(t, testLen);
    RankAtOrBelow(sorted, StartKey(t), CutoffRank(|CaseIds(t)|, testLen));
    StartKeyBridge(t, sorted, SeparationTime(t, testLen).value);
  }

  /** For an in-range rank k, every case starting at or after the separation
      time is a test case, so the test set holds at least n - k cases. */
  lemma TestHoldsLateCases(t: seq<Row>, testLen: real)
    requires 0 <= CutoffRank(|CaseIds(t)|, testLen) < |CaseIds(t)|
    ensures |TestCases(t, SeparationTime(t, testLen).value)| >= |CaseIds(t)| - CutoffRank(|CaseIds(t)|, testLen)
  {
    var sorted := CasesByStart(t);
    var sep := SeparationTime(t, testLen).value;
    SeparationKey(t, testLen);
    RankAtOrAbove(sorted, StartKey(t), CutoffRank(|CaseIds(t)|, testLen));
    StartKeyBridge(t, sorted, sep);
    forall c | c in StartedFrom(t, sep) ensures c in TestCases(t, sep) {
      CaseStartBeforeEnd(t, c);
    }
    SubsetCard(StartedFrom(t, sep), TestCases(t, sep));
  }

  /** No two cases overlap in time. */
  predicate NonOverlapping(t: seq<Row>)
  {
    forall c, d :: c in CaseIds(t) && d in CaseIds(t) && c != d ==>
      CaseEnd(t, c) < CaseStart(t, d) || CaseEnd(t, d) < CaseStart(t, c)
  }

  /** Non-overlapping cases have pairwise distinct starts, so the by-start
      order is strict. */
  lemma NonOverlappingStrictOrder(t: seq<Row>)
    requires NonOverlapping(t)
    ensures forall i, j :: 0 <= i < j < |CasesByStart(t)| ==>
      StartKey(t)(CasesByStart(t)[i]) < StartKey(t)(CasesByStart(t)[j])
  {
    var sorted := CasesByStart(t);
    CasesByStartKeys(t);
    forall i, j | 0 <= i < j < |sorted| ensures StartKey(t)(sorted[i]) < StartKey(t)(sorted[j]) {
      CaseStartBeforeEnd(t, sorted[i]);
      CaseStartBeforeEnd(t, sorted[j]);
    }
  }

  /** With non-overlapping cases, a case ends at or after the start `v` of
      another case iff it starts at or after `v`. */
  lemma NonOverlappingTest(t: seq<Row>, d: string)
    requires NonOverlapping(t) && d in CaseIds(t)
    ensures TestCases(t, CaseStart(t, d)) == StartedFrom(t, CaseStart(t, d))
  {
    var v := CaseStart(t, d);
    forall c | c in TestCases(t, v) ensures c in StartedFrom(t, v) {
      if c != d {
        CaseStartBeforeEnd(t, d);
      }
    }
    forall c | c in StartedFrom(t, v) ensures c in TestCases(t, v) {
      CaseStartBeforeEnd(t, c);
    }
  }

  /** With non-overlapping cases, exactly the cases of start rank k and later
      are test cases: for ten such cases and a test share of 1/5, the last two. */
  lemma NonOverlappingTestSize(t: seq<Row>, testLen: real)
    requires NonOverlapping(t)
    requires 0 <= CutoffRank(|CaseIds(t)|, testLen) < |CaseIds(t)|
    ensures TestCases(t, SeparationTime(t, testLen).value) == StartedFrom(t, SeparationTime(t, testLen).value)
    ensures |TestCases(t, SeparationTime(t, testLen).value)| == |CaseIds(t)| - CutoffRank(|CaseIds(t)|, testLen)
  {
    var k := CutoffRank(|CaseIds(t)|, testLen);
    var sorted := CasesByStart(t);
    var sep := SeparationTime(t, testLen).value;
    SeparationTimeValue(t, testLen);
    assert sorted[k] in sorted;
    NonOverlappingTest(t, sorted[k]);
    NonOverlappingStrictOrder(t);
    SeparationKey(t, testLen);
    RankStrictlyBelowExact(sorted, StartKey(t), k);
    StartKeyBridge(t, sorted, sep);
    StartedSplit(t, sep);
  }

  /** Every case starts either before `v` or at or after it. */
  lemma StartedSplit(t: seq<Row>, v: int)
    ensures |StartedBefore(t, v)| + |StartedFrom(t, v)| == |CaseIds(t)|
  {
    assert StartedBefore(t, v) + StartedFrom(t, v) == CaseIds(t);
    assert StartedBefore(t, v) !! StartedFrom(t, v);
  }
}
