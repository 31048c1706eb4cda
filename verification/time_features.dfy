/** Time features of the events of a log, at case level (`TimestampCaseLevel`,
    with a time unit) and at event level (`Timestamp`, in seconds). Both
    compute a value for every row of the table, grouped by case, and then
    select the rows named by `ix_list`; the table's index is the default
    one, so an index label is a row position. */
module TimeFeatures {
  import opened Wrappers
  import opened EventTable

  // ---------------------------------------------------------------------
  // Neighbours of a row within its case

  /** The first row at or after position `k` that belongs to case `c`. */
  function FirstFrom(t: seq<Row>, c: string, k: nat): (r: Option<nat>)
    decreases |t| - k
    ensures r.Some? ==> k <= r.value < |t| && t[r.value].caseId == c
    ensures forall m :: k <= m < |t| && (r.None? || m < r.value) ==> t[m].caseId != c
  {
    if k >= |t| then None
    else if t[k].caseId == c then Some(k)
    else FirstFrom(t, c, k + 1)
  }

  /** The last row before position `k` that belongs to case `c`. */
  function LastBefore(t: seq<Row>, c: string, k: nat): (r: Option<nat>)
    requires k <= |t|
    ensures r.Some? ==> r.value < k && t[r.value].caseId == c
    ensures forall m :: 0 <= m < k && (r.None? || r.value < m) ==> t[m].caseId != c
  {
    if k == 0 then None
    else if t[k - 1].caseId == c then Some(k - 1)
    else LastBefore(t, c, k - 1)
  }

  /** The next event of the same case (`shift(-1)` / `diff(-1)` per group). */
  function NextInCase(t: seq<Row>, i: nat): Option<nat>
    requires i < |t|
  {
    FirstFrom(t, t[i].caseId, i + 1)
  }

  /** The previous event of the same case (`diff()` per group). */
  function PrevInCase(t: seq<Row>, i: nat): Option<nat>
    requires i < |t|
  {
    LastBefore(t, t[i].caseId, i)
  }

  /** "Next" and "previous" within a case are inverse: the previous event of
      the next event of row `i` is row `i`. */
  lemma NextPrevInverse(t: seq<Row>, i: nat)
    requires i < |t| && NextInCase(t, i).Some?
    ensures PrevInCase(t, NextInCase(t, i).value) == Some(i)
  {
  }

  /** ... and conversely. */
  lemma PrevNextInverse(t: seq<Row>, i: nat)
    requires i < |t| && PrevInCase(t, i).Some?
    ensures NextInCase(t, PrevInCase(t, i).value) == Some(i)
  {
  }

  /** Row `i` has no next event exactly when no later row shares its case. */
  lemma LastOfCase(t: seq<Row>, i: nat)
    requires i < |t|
    ensures NextInCase(t, i).None? <==> forall m :: i < m < |t| ==> t[m].caseId != t[i].caseId
  {
  }

  // ---------------------------------------------------------------------
  // Units and index selection

  /** `TIME_UNIT_MULTIPLIER.get(time_unit, 1)`: seconds per unit, with 1 for
      any unit not in the table. */
  function UnitMultiplier(unit: string): (m: nat)
    ensures m > 0
    ensures unit !in {"s", "m", "h", "d", "w"} ==> m == 1
  {
    if unit == "s" then 1
    else if unit == "m" then 60
    else if unit == "h" then 60 * 60
    else if unit == "d" then 60 * 60 * 24
    else if unit == "w" then 60 * 60 * 24 * 7
    else 1
  }

  /** Each unit of the table is a whole number of the next smaller unit. */
  lemma UnitLadder()
    ensures UnitMultiplier("m") == 60 * UnitMultiplier("s")
    ensures UnitMultiplier("h") == 60 * UnitMultiplier("m")
    ensures UnitMultiplier("d") == 24 * UnitMultiplier("h")
    ensures UnitMultiplier("w") == 7 * UnitMultiplier("d")
  {
  }

  /** A duration in seconds expressed in `unit` (a division by the unit's
      multiplier, written per unit so that it stays linear). */
  function InUnit(seconds: int, unit: string): (r: real)
    ensures r * UnitMultiplier(unit) as real == seconds as real
  {
    var x := seconds as real;
    if unit == "s" then x
    else if unit == "m" then x / 60.0
    else if unit == "h" then x / 3600.0
    else if unit == "d" then x / 86400.0
    else if unit == "w" then x / 604800.0
    else x
  }

  /** `.loc[ix_list]` on a default index: the values at the listed
      positions, KeyError if a label is not a row. */
  function Loc<T>(values: seq<T>, ix: seq<int>): (r: Result<seq<T>>)
    ensures r.Success? <==> forall k :: 0 <= k < |ix| ==> 0 <= ix[k] < |values|
    ensures r.Failure? ==> r.error == KeyError
    ensures r.Success? ==> |r.value| == |ix|
    ensures r.Success? ==> forall k :: 0 <= k < |ix| ==> r.value[k] == values[ix[k]]
  {
    if forall k :: 0 <= k < |ix| ==> 0 <= ix[k] < |values| then
      Success(seq(|ix|, k requires 0 <= k < |ix| => values[ix[k]]))
    else
      Failure(KeyError)
  }

  // ---------------------------------------------------------------------
  // Per-row values in seconds

  /** `x - x.min()` within the row's case. */
  function AccumulatedSeconds(t: seq<Row>): (r: seq<int>)
    ensures |r| == |t|
    ensures forall i :: 0 <= i < |t| ==>
      t[i].caseId in CaseIds(t) && r[i] == t[i].ts - CaseStart(t, t[i].caseId)
  {
    seq(|t|, i requires 0 <= i < |t| => CaseBounds(t, i); t[i].ts - CaseStart(t, t[i].caseId))
  }

  /** `x.max() - x` within the row's case. */
  function RemainingSeconds(t: seq<Row>): (r: seq<int>)
    ensures |r| == |t|
    ensures forall i :: 0 <= i < |t| ==>
      t[i].caseId in CaseIds(t) && r[i] == CaseEnd(t, t[i].caseId) - t[i].ts
  {
    seq(|t|, i requires 0 <= i < |t| => CaseBounds(t, i); CaseEnd(t, t[i].caseId) - t[i].ts)
  }

  /** Accumulated and remaining time are never negative, and together they
      make up the duration of the row's case. */
  lemma AccumulatedRemainingSplit(t: seq<Row>, i: nat)
    requires i < |t|
    ensures t[i].caseId in CaseIds(t)
    ensures AccumulatedSeconds(t)[i] >= 0 && RemainingSeconds(t)[i] >= 0
    ensures AccumulatedSeconds(t)[i] + RemainingSeconds(t)[i]
         == CaseEnd(t, t[i].caseId) - CaseStart(t, t[i].caseId)
  {
    CaseBounds(t, i);
  }

  /** Accumulated time is 0 exactly at the case's earliest events, remaining
      time exactly at its latest. */
  lemma ZeroAtCaseBounds(t: seq<Row>, i: nat)
    requires i < |t|
    ensures t[i].caseId in CaseIds(t)
    ensures AccumulatedSeconds(t)[i] == 0 <==> t[i].ts == CaseStart(t, t[i].caseId)
    ensures RemainingSeconds(t)[i] == 0 <==> t[i].ts == CaseEnd(t, t[i].caseId)
  {
    CaseBounds(t, i);
  }

  /** `diff(-1)` per group: the row's timestamp minus the next event's, or
      nothing (NaN) for the last event of a case. */
  function NextGap(t: seq<Row>, i: nat): Option<int>
    requires i < |t|
  {
    match NextInCase(t, i)
    case None => None
    case Some(j) => Some(t[i].ts - t[j].ts)
  }

  /** `diff()` per group: the row's timestamp minus the previous event's, or
      nothing (NaN) for the first event of a case. */
  function PrevGap(t: seq<Row>, i: nat): Option<int>
    requires i < |t|
  {
    match PrevInCase(t, i)
    case None => None
    case Some(j) => Some(t[i].ts - t[j].ts)
  }

  /** The backward gap of an event is the negated forward gap of its
      predecessor: both describe the same pair of consecutive events. */
  lemma GapsAgree(t: seq<Row>, i: nat)
    requires i < |t| && NextInCase(t, i).Some?
    ensures PrevGap(t, NextInCase(t, i).value) == Some(-NextGap(t, i).value)
  {
    NextPrevInverse(t, i);
  }

  /** `later` maps every case to the timestamp of its first row at or after
      position `i`. */
  ghost predicate LaterTimes(t: seq<Row>, later: map<string, int>, i: nat)
    requires i <= |t|
  {
    (forall c :: c in later <==> FirstFrom(t, c, i).Some?)
    && forall c :: c in later ==> later[c] == t[FirstFrom(t, c, i).value].ts
  }

  lemma LaterTimesStep(t: seq<Row>, later: map<string, int>, i: nat)
    requires 0 < i <= |t| && LaterTimes(t, later, i)
    ensures LaterTimes(t, later[t[i - 1].caseId := t[i - 1].ts], i - 1)
    ensures NextGap(t, i - 1) ==
      if t[i - 1].caseId in later then Some(t[i - 1].ts - later[t[i - 1].caseId]) else None
  {
  }

  /** The grouped `diff(-1)` values of the rows from position `i` on. */
  function NextGapsFrom(t: seq<Row>, i: nat): (r: seq<Option<int>>)
    requires i <= |t|
    decreases |t| - i
    ensures |r| == |t| - i
    ensures forall k :: i <= k < |t| ==> r[k - i] == NextGap(t, k)
  {
    if i == |t| then [] else [NextGap(t, i)] + NextGapsFrom(t, i + 1)
  }

  /** The grouped `diff(-1)`, computed in one backward pass that remembers
      the timestamp of the nearest later event of every case. */
  method DiffNext(t: seq<Row>) returns (d: seq<Option<int>>)
    ensures |d| == |t|
    ensures forall i :: 0 <= i < |t| ==> d[i] == NextGap(t, i)
  {
    var later: map<string, int> := map[];
    d := [];
    var i := |t|;
    while i > 0
      invariant 0 <= i <= |t|
      invariant LaterTimes(t, later, i)
      invariant d == NextGapsFrom(t, i)
    {
      LaterTimesStep(t, later, i);
      var x := t[i - 1];
      var gap := if x.caseId in later then Some(x.ts - later[x.caseId]) else None;
      assert [gap] + d == NextGapsFrom(t, i - 1);
      d := [gap] + d;
      later := later[x.caseId := x.ts];
      i := i - 1;
    }
    assert forall k :: 0 <= k < |t| ==> d[k] == NextGapsFrom(t, 0)[k - 0];
  }

  /** `earlier` maps every case to the timestamp of its last row before
      position `i`. */
  ghost predicate EarlierTimes(t: seq<Row>, earlier: map<string, int>, i: nat)
    requires i <= |t|
  {
    (forall c :: c in earlier <==> LastBefore(t, c, i).Some?)
    && forall c :: c in earlier ==> earlier[c] == t[LastBefore(t, c, i).value].ts
  }

  lemma EarlierTimesStep(t: seq<Row>, earlier: map<string, int>, i: nat)
    requires i < |t| && EarlierTimes(t, earlier, i)
    ensures EarlierTimes(t, earlier[t[i].caseId := t[i].ts], i + 1)
    ensures PrevGap(t, i) ==
      if t[i].caseId in earlier then Some(t[i].ts - earlier[t[i].caseId]) else None
  {
  }

  /** The grouped `diff()`, computed in one forward pass that remembers the
      timestamp of the latest earlier event of every case. */
  method DiffPrev(t: seq<Row>) returns (d: seq<Option<int>>)
    ensures |d| == |t|
    ensures forall i :: 0 <= i < |t| ==> d[i] == PrevGap(t, i)
  {
    var earlier: map<string, int> := map[];
    d := [];
    var i := 0;
    while i < |t|
      invariant 0 <= i <= |t|
      invariant EarlierTimes(t, earlier, i)
      invariant |d| == i
      invariant forall k :: 0 <= k < i ==> d[k] == PrevGap(t, k)
    {
      EarlierTimesStep(t, earlier, i);
      var x := t[i];
      var gap := if x.caseId in earlier then Some(x.ts - earlier[x.caseId]) else None;
      d := d + [gap];
      earlier := earlier[x.caseId := x.ts];
      i := i + 1;
    }
  }

  function FillNa(v: Option<int>): int
  {
    if v.Some? then v.value else 0
  }

  function Abs(x: int): nat
  {
    if x < 0 then -x else x
  }

  // ---------------------------------------------------------------------
  // TimestampCaseLevel

  /** `accumulated_time`: time since the start of the row's case, in `unit`. */
  function CaseAccumulatedTime(t: seq<Row>, ix: seq<int>, unit: string): (r: Result<seq<real>>)
    ensures r.Success? <==> forall k :: 0 <= k < |ix| ==> 0 <= ix[k] < |t|
    ensures r.Failure? ==> r.error == KeyError
    ensures r.Success? ==> |r.value| == |ix|
    ensures r.Success? ==> forall k :: 0 <= k < |ix| ==>
      0 <= ix[k] < |t| && r.value[k] == InUnit(AccumulatedSeconds(t)[ix[k]], unit)
  {
    var sel := Loc(AccumulatedSeconds(t), ix);
    if sel.Failure? then Failure(KeyError)
    else Success(seq(|ix|, k requires 0 <= k < |ix| => InUnit(sel.value[k], unit)))
  }

  /** `remaining_time`: time until the end of the row's case, in `unit`. */
  function CaseRemainingTime(t: seq<Row>, ix: seq<int>, unit: string): (r: Result<seq<real>>)
    ensures r.Success? <==> forall k :: 0 <= k < |ix| ==> 0 <= ix[k] < |t|
    ensures r.Failure? ==> r.error == KeyError
    ensures r.Success? ==> |r.value| == |ix|
    ensures r.Success? ==> forall k :: 0 <= k < |ix| ==>
      0 <= ix[k] < |t| && r.value[k] == InUnit(RemainingSeconds(t)[ix[k]], unit)
  {
    var sel := Loc(RemainingSeconds(t), ix);
    if sel.Failure? then Failure(KeyError)
    else Success(seq(|ix|, k requires 0 <= k < |ix| => InUnit(sel.value[k], unit)))
  }

  /** Converting to a unit keeps the sign, scales back exactly, and adds. */
  lemma InUnitFacts(x: int, y: int, unit: string)
    ensures x >= 0 ==> InUnit(x, unit) >= 0.0
    ensures InUnit(x, unit) * UnitMultiplier(unit) as real == x as real
    ensures InUnit(x, unit) + InUnit(y, unit) == InUnit(x + y, unit)
  {
  }

  /** Case-level accumulated and remaining times are never negative. */
  lemma CaseTimesNonNegative(t: seq<Row>, ix: seq<int>, unit: string, k: nat)
    requires CaseAccumulatedTime(t, ix, unit).Success? && k < |ix|
    ensures CaseRemainingTime(t, ix, unit).Success?
    ensures CaseAccumulatedTime(t, ix, unit).value[k] >= 0.0
    ensures CaseRemainingTime(t, ix, unit).value[k] >= 0.0
  {
    AccumulatedRemainingSplit(t, ix[k]);
    InUnitFacts(AccumulatedSeconds(t)[ix[k]], RemainingSeconds(t)[ix[k]], unit);
  }

  /** For every selected row, accumulated plus remaining time is the
      duration of its case in the same unit. */
  lemma CaseTimesAddUp(t: seq<Row>, ix: seq<int>, unit: string, k: nat)
    requires CaseAccumulatedTime(t, ix, unit).Success? && k < |ix|
    ensures CaseRemainingTime(t, ix, unit).Success?
    ensures t[ix[k]].caseId in CaseIds(t)
    ensures CaseAccumulatedTime(t, ix, unit).value[k] + CaseRemainingTime(t, ix, unit).value[k]
         == InUnit(CaseEnd(t, t[ix[k]].caseId) - CaseStart(t, t[ix[k]].caseId), unit)
  {
    AccumulatedRemainingSplit(t, ix[k]);
    InUnitFacts(AccumulatedSeconds(t)[ix[k]], RemainingSeconds(t)[ix[k]], unit);
  }

  /** `execution_time`: the absolute gap to the next event of the case, in
      `unit`; 0 for the last event of a case. */
  method CaseExecutionTime(t: seq<Row>, ix: seq<int>, unit: string) returns (r: Result<seq<real>>)
    ensures r.Success? <==> forall k :: 0 <= k < |ix| ==> 0 <= ix[k] < |t|
    ensures r.Failure? ==> r.error == KeyError
    ensures r.Success? ==> |r.value| == |ix|
    ensures r.Success? ==> forall k :: 0 <= k < |ix| ==>
      0 <= ix[k] < |t| && r.value[k] >= 0.0
      && r.value[k] * UnitMultiplier(unit) as real ==
           (match NextInCase(t, ix[k])
            case None => 0.0
            case Some(j) => Abs(t[ix[k]].ts - t[j].ts) as real)
  {
    var d := DiffNext(t);
    var filled := seq(|d|, i requires 0 <= i < |d| => FillNa(d[i]));
    var sel := Loc(filled, ix);
    if sel.Failure? {
      return Failure(KeyError);
    }
    r := Success(seq(|ix|, k requires 0 <= k < |ix| => InUnit(Abs(sel.value[k]), unit)));
  }

  /** The last event of every case has execution time 0. */
  lemma CaseExecutionLastZero(t: seq<Row>, i: nat)
    requires i < |t| && forall m :: i < m < |t| ==> t[m].caseId != t[i].caseId
    ensures FillNa(NextGap(t, i)) == 0
  {
    LastOfCase(t, i);
  }

  // ---------------------------------------------------------------------
  // Timestamp (event level, seconds)

  /** `execution_time`: the gap to the previous event of the case; 0 for
      the first event of a case. */
  method ExecutionTime(t: seq<Row>, ix: seq<int>) returns (r: Result<seq<int>>)
    ensures r.Success? <==> forall k :: 0 <= k < |ix| ==> 0 <= ix[k] < |t|
    ensures r.Failure? ==> r.error == KeyError
    ensures r.Success? ==> |r.value| == |ix|
    ensures r.Success? ==> forall k :: 0 <= k < |ix| ==>
      0 <= ix[k] < |t|
      && r.value[k] == (match PrevInCase(t, ix[k])
                        case None => 0
                        case Some(j) => t[ix[k]].ts - t[j].ts)
  {
    var d := DiffPrev(t);
    var sel := Loc(d, ix);
    if sel.Failure? {
      return Failure(KeyError);
    }
    r := Success(seq(|ix|, k requires 0 <= k < |ix| => FillNa(sel.value[k])));
  }

  /** `accumulated_time`: seconds since the start of the row's case. */
  function AccumulatedTime(t: seq<Row>, ix: seq<int>): (r: Result<seq<int>>)
    ensures r.Success? <==> forall k :: 0 <= k < |ix| ==> 0 <= ix[k] < |t|
    ensures r.Failure? ==> r.error == KeyError
    ensures r.Success? ==> |r.value| == |ix|
    ensures r.Success? ==> forall k :: 0 <= k < |ix| ==>
      0 <= ix[k] < |t| && t[ix[k]].caseId in CaseIds(t)
      && r.value[k] == t[ix[k]].ts - CaseStart(t, t[ix[k]].caseId)
  {
    Loc(AccumulatedSeconds(t), ix)
  }

  /** `remaining_time`: seconds until the end of the row's case. */
  function RemainingTime(t: seq<Row>, ix: seq<int>): (r: Result<seq<int>>)
    ensures r.Success? <==> forall k :: 0 <= k < |ix| ==> 0 <= ix[k] < |t|
    ensures r.Failure? ==> r.error == KeyError
    ensures r.Success? ==> |r.value| == |ix|
    ensures r.Success? ==> forall k :: 0 <= k < |ix| ==>
      0 <= ix[k] < |t| && t[ix[k]].caseId in CaseIds(t)
      && r.value[k] == CaseEnd(t, t[ix[k]].caseId) - t[ix[k]].ts
  {
    Loc(RemainingSeconds(t), ix)
  }

  /** Event-level accumulated and remaining times are never negative. */
  lemma EventTimesNonNegative(t: seq<Row>, ix: seq<int>, k: nat)
    requires AccumulatedTime(t, ix).Success? && k < |ix|
    ensures RemainingTime(t, ix).Success?
    ensures AccumulatedTime(t, ix).value[k] >= 0 && RemainingTime(t, ix).value[k] >= 0
  {
    AccumulatedRemainingSplit(t, ix[k]);
  }

  /** The case-level times in seconds are the event-level times. */
  lemma CaseLevelInSeconds(t: seq<Row>, ix: seq<int>, k: nat)
    requires AccumulatedTime(t, ix).Success? && k < |ix|
    ensures CaseAccumulatedTime(t, ix, "s").Success? && CaseRemainingTime(t, ix, "s").Success?
    ensures CaseAccumulatedTime(t, ix, "s").value[k] == AccumulatedTime(t, ix).value[k] as real
    ensures CaseRemainingTime(t, ix, "s").value[k] == RemainingTime(t, ix).value[k] as real
  {
  }

  /** The events of the docstring example, cases 1 and 2 at 10:30, 11:00 and
      09:00, 09:30, passed through the case-grouped call that `transform`
      makes: execution times 0, 1800, 0, 1800 seconds. */
  lemma ExecutionExample(t: seq<Row>)
    requires t == [Row("1", "", 37800), Row("1", "", 39600), Row("2", "", 32400), Row("2", "", 34200)]
    ensures FillNa(PrevGap(t, 0)) == 0 && FillNa(PrevGap(t, 1)) == 1800
    ensures FillNa(PrevGap(t, 2)) == 0 && FillNa(PrevGap(t, 3)) == 1800
  {
    assert LastBefore(t, "1", 0) == None;
    assert LastBefore(t, "1", 1) == Some(0);
    assert LastBefore(t, "2", 1) == None;
    assert LastBefore(t, "2", 2) == None;
    assert LastBefore(t, "2", 3) == Some(2);
  }
}
