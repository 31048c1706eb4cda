/** Prediction targets of an event log: the next activity of every event,
    and the remaining time of its case. Two generations of the functions
    exist: the current one fills with a configurable end-of-trace token and
    delegates remaining time to the case-level timestamp features; the older
    one fills with the literal "<EOT>" and scales remaining time by a named
    unit itself. */
module Targets {
  import opened Wrappers
  import opened Seqs
  import opened EventTable
  import TimeFeatures

  // ---------------------------------------------------------------------
  // Next activity

  /** The entry for row `i`: the activity of the next event of its case, or
      the fill token after the last one. */
  function NextActivityAt(t: seq<Row>, eot: string, i: nat): string
    requires i < |t|
  {
    match TimeFeatures.NextInCase(t, i)
    case None => eot
    case Some(j) => t[j].activity
  }

  /** `pos` maps every case to its first row at or after position `i`. */
  ghost predicate NextPositions(t: seq<Row>, pos: map<string, int>, i: nat)
    requires i <= |t|
  {
    (forall c :: c in pos <==> TimeFeatures.FirstFrom(t, c, i).Some?)
    && forall c :: c in pos ==> pos[c] == TimeFeatures.FirstFrom(t, c, i).value
  }

  lemma NextPositionsStep(t: seq<Row>, eot: string, pos: map<string, int>, i: nat)
    requires 0 < i <= |t| && NextPositions(t, pos, i)
    ensures NextPositions(t, pos[t[i - 1].caseId := i - 1], i - 1)
    ensures t[i - 1].caseId in pos ==> pos[t[i - 1].caseId] < |t|
    ensures NextActivityAt(t, eot, i - 1) ==
      if t[i - 1].caseId in pos then t[pos[t[i - 1].caseId]].activity else eot
  {
  }

  /** The entries of rows `i..` in table order. */
  function NextActivitiesFrom(t: seq<Row>, eot: string, i: nat): (r: seq<string>)
    requires i <= |t|
    decreases |t| - i
    ensures |r| == |t| - i
    ensures forall k :: i <= k < |t| ==> r[k - i] == NextActivityAt(t, eot, k)
  {
    if i == |t| then [] else [NextActivityAt(t, eot, i)] + NextActivitiesFrom(t, eot, i + 1)
  }

  lemma NextActivitiesFromStep(t: seq<Row>, eot: string, i: nat)
    requires 0 < i <= |t|
    ensures NextActivitiesFrom(t, eot, i - 1) == [NextActivityAt(t, eot, i - 1)] + NextActivitiesFrom(t, eot, i)
  {
  }

  /** `next_activity`: the grouped `shift(-1, fill_value=eot)` of the
      activity column, in table order, computed in one backward pass that
      remembers the nearest later row of every case. */
  method NextActivity(t: seq<Row>, eot: string) returns (r: seq<string>)
    ensures |r| == |t|
    ensures forall i :: 0 <= i < |t| ==> r[i] == NextActivityAt(t, eot, i)
  {
    var pos: map<string, int> := map[];
    r := [];
    var i := |t|;
    while i > 0
      invariant 0 <= i <= |t|
      invariant NextPositions(t, pos, i)
      invariant r == NextActivitiesFrom(t, eot, i)
    {
      NextPositionsStep(t, eot, pos, i);
      NextActivitiesFromStep(t, eot, i);
      var c := t[i - 1].caseId;
      var next := if c in pos then t[pos[c]].activity else eot;
      r := [next] + r;
      pos := pos[c := i - 1];
      i := i - 1;
    }
    assert forall k :: 0 <= k < |t| ==> r[k] == NextActivitiesFrom(t, eot, 0)[k - 0];
  }

  /** The string attributes of the `EventLogConfig` class that
      `next_activity` reads its names from: the dataclass defaults. */
  const EventLogConfigAttrs: map<string, string> := map[
    "case_id" := "case:concept:name",
    "activity" := "concept:name",
    "resource" := "org:resource",
    "timestamp" := "time:timestamp",
    "default_file_format" := ".parquet"]

  /** `EventLogConfig.<name>` for a setting name or the end-of-trace token:
      the setting's default, or AttributeError for `EOT`, which the class does
      not define. Other class attributes (`update`, the dunder attributes) are
      not modelled. */
  function ConfigAttr(name: string): (r: Result<string>)
    ensures name in EventLogConfigAttrs ==> r == Success(EventLogConfigAttrs[name])
    ensures name == "EOT" ==> r == Failure(AttributeError)
  {
    if name in EventLogConfigAttrs then Success(EventLogConfigAttrs[name]) else Failure(AttributeError)
  }

  /** `next_activity` as written: the fill token is read as `elc.EOT` when
      the call's arguments are evaluated. */
  function NextActivityAsWritten(t: seq<Row>): (r: Result<seq<string>>)
    ensures r.Failure? <==> "EOT" !in EventLogConfigAttrs
    ensures r.Success? ==> r.value == NextActivitiesFrom(t, EventLogConfigAttrs["EOT"], 0)
  {
    var eot :- ConfigAttr("EOT");
    Success(NextActivitiesFrom(t, eot, 0))
  }

  /** The class has no `EOT`, so every log raises AttributeError, while the
      intended `NextActivity` gives one entry per row for every log. */
  lemma NextActivityAsWrittenFails(t: seq<Row>)
    ensures NextActivityAsWritten(t) == Failure(AttributeError)
    ensures |NextActivitiesFrom(t, "<EOT>", 0)| == |t|
  {
    assert "EOT" !in EventLogConfigAttrs;
  }

  /** The entry of a non-last event is the activity of the next row of the
      same case, whatever rows of other cases lie in between. */
  lemma NextActivityOfFollower(t: seq<Row>, eot: string, i: nat, j: nat)
    requires i < j < |t| && t[j].caseId == t[i].caseId
    requires forall m :: i < m < j ==> t[m].caseId != t[i].caseId
    ensures NextActivityAt(t, eot, i) == t[j].activity
  {
  }

  /** The last event of a case gets the fill token. */
  lemma NextActivityOfLast(t: seq<Row>, eot: string, i: nat)
    requires i < |t| && forall m :: i < m < |t| ==> t[m].caseId != t[i].caseId
    ensures NextActivityAt(t, eot, i) == eot
  {
    TimeFeatures.LastOfCase(t, i);
  }

  /** Conversely, an entry is either the fill token or the activity of a
      later row of the same case. */
  lemma NextActivityComesFromCase(t: seq<Row>, eot: string, i: nat)
    requires i < |t|
    ensures NextActivityAt(t, eot, i) == eot
         || exists j :: i < j < |t| && t[j].caseId == t[i].caseId && NextActivityAt(t, eot, i) == t[j].activity
  {
  }

  /** The older `next_activity`, filling with the literal "<EOT>". */
  method NextActivityEot(t: seq<Row>) returns (r: seq<string>)
    ensures |r| == |t|
    ensures forall i :: 0 <= i < |t| ==>
      r[i] == if TimeFeatures.NextInCase(t, i).None? then "<EOT>" else t[TimeFeatures.NextInCase(t, i).value].activity
  {
    r := NextActivity(t, "<EOT>");
  }

  // ---------------------------------------------------------------------
  // Remaining time through the timestamp features

  /** The positions 0..n-1 (`X.index.values` of a default index). */
  function Positions(n: nat): (r: seq<int>)
    ensures |r| == n
    ensures forall k :: 0 <= k < n ==> r[k] == k
  {
    seq(n, k requires 0 <= k < n => k)
  }

  /** `remaining_time`: the timestamp extractor's `remaining_time` target on
      every row of the log, in `unit`. */
  function RemainingTime(t: seq<Row>, unit: string): (r: seq<real>)
    ensures |r| == |t|
    ensures forall i :: 0 <= i < |t| ==>
      r[i] == TimeFeatures.InUnit(TimeFeatures.RemainingSeconds(t)[i], unit)
  {
    var all := TimeFeatures.CaseRemainingTime(t, Positions(|t|), unit);
    all.value
  }

  /** The target is never negative, and it is 0 exactly at the latest
      events of each case. */
  lemma RemainingTimeBounds(t: seq<Row>, unit: string, i: nat)
    requires i < |t|
    ensures t[i].caseId in CaseIds(t)
    ensures RemainingTime(t, unit)[i] >= 0.0
    ensures RemainingTime(t, unit)[i] == 0.0 <==> t[i].ts == CaseEnd(t, t[i].caseId)
  {
    TimeFeatures.AccumulatedRemainingSplit(t, i);
    TimeFeatures.ZeroAtCaseBounds(t, i);
    TimeFeatures.InUnitFacts(TimeFeatures.RemainingSeconds(t)[i], 0, unit);
  }

  // ---------------------------------------------------------------------
  // The older remaining time, with its own units

  /** Seconds per unit for the unit names the older function accepts; the
      nanosecond scaler of each unit divides a nanosecond duration, which is
      the same as dividing the duration in seconds by these. */
  function LegacyScale(unit: string): (r: Result<nat>)
    ensures r.Success? <==> unit in {"seconds", "minutes", "hours", "days"}
    ensures r.Failure? ==> r.error == ValueError
    ensures r.Success? ==> r.value > 0
  {
    if unit == "seconds" then Success(1)
    else if unit == "minutes" then Success(60)
    else if unit == "hours" then Success(60 * 60)
    else if unit == "days" then Success(60 * 60 * 24)
    else Failure(ValueError)
  }

  /** The short unit name of the timestamp features for the same scale. */
  function ShortUnit(unit: string): string
  {
    if unit == "seconds" then "s"
    else if unit == "minutes" then "m"
    else if unit == "hours" then "h"
    else "d"
  }

  /** Both generations agree on the length of every unit they share. */
  lemma LegacyScaleAgrees(unit: string)
    requires LegacyScale(unit).Success?
    ensures LegacyScale(unit).value == TimeFeatures.UnitMultiplier(ShortUnit(unit))
  {
  }

  /** The time from row `x` to the end of its case. */
  function RemainingOf(t: seq<Row>, x: Row): (r: int)
    requires x in t
    ensures x.caseId in CaseIds(t) && r == CaseEnd(t, x.caseId) - x.ts
    ensures r >= 0
  {
    assert x in RowsOf(t, x.caseId);
    CaseEnd(t, x.caseId) - x.ts
  }

  /** The older `remaining_time`: for every row, in the order the grouped
      `apply` emits the cases (`order`, the sorted case ids), the time until
      the end of its case divided by the unit; ValueError for any other
      unit. */
  function LegacyRemainingTime(t: seq<Row>, order: seq<string>, unit: string): (r: Result<seq<real>>)
    requires NoDup(order) && Elems(order) == CaseIds(t)
    ensures r.Success? <==> LegacyScale(unit).Success?
    ensures r.Failure? ==> r.error == ValueError
    ensures r.Success? ==> |r.value| == |GroupedRows(t, order)|
    ensures r.Success? ==> forall k :: 0 <= k < |r.value| ==>
      GroupedRows(t, order)[k] in t
      && r.value[k] == TimeFeatures.InUnit(RemainingOf(t, GroupedRows(t, order)[k]), ShortUnit(unit))
  {
    var scale := LegacyScale(unit);
    if scale.Failure? then Failure(ValueError)
    else
      var rows := GroupedRows(t, order);
      Success(seq(|rows|, k requires 0 <= k < |rows| =>
        assert rows[k] in rows;
        TimeFeatures.InUnit(RemainingOf(t, rows[k]), ShortUnit(unit))))
  }

  /** One value per row of the log, each the time to the end of its case in
      the requested unit. */
  lemma LegacyOnePerRow(t: seq<Row>, order: seq<string>, unit: string)
    requires NoDup(order) && Elems(order) == CaseIds(t)
    requires LegacyScale(unit).Success?
    ensures |LegacyRemainingTime(t, order, unit).value| == |t|
  {
    GroupedRowsPermutation(t, order);
  }

  /** Every value is non-negative. */
  lemma LegacyNonNegative(t: seq<Row>, order: seq<string>, unit: string, k: nat)
    requires NoDup(order) && Elems(order) == CaseIds(t)
    requires LegacyRemainingTime(t, order, unit).Success?
    requires k < |LegacyRemainingTime(t, order, unit).value|
    ensures LegacyRemainingTime(t, order, unit).value[k] >= 0.0
  {
    var x := GroupedRows(t, order)[k];
    TimeFeatures.InUnitFacts(RemainingOf(t, x), 0, ShortUnit(unit));
  }

  /** For a log already grouped case after case in `order`, the values line
      up with the rows: the value at position `i` belongs to row `i`. */
  lemma LegacyOnGroupedLog(t: seq<Row>, order: seq<string>, unit: string, i: nat)
    requires NoDup(order) && Elems(order) == CaseIds(t)
    requires GroupedRows(t, order) == t
    requires LegacyRemainingTime(t, order, unit).Success? && i < |t|
    ensures t[i].caseId in CaseIds(t)
    ensures LegacyRemainingTime(t, order, unit).value[i]
         == TimeFeatures.InUnit(CaseEnd(t, t[i].caseId) - t[i].ts, ShortUnit(unit))
  {
    assert t[i] in t;
  }

  /** Every case has a value 0: the one of its latest event. */
  lemma LegacyZeroAtLatest(t: seq<Row>, order: seq<string>, unit: string, c: string)
    requires NoDup(order) && Elems(order) == CaseIds(t)
    requires LegacyRemainingTime(t, order, unit).Success? && c in CaseIds(t)
    ensures exists k :: (0 <= k < |GroupedRows(t, order)|
      && GroupedRows(t, order)[k].caseId == c
      && GroupedRows(t, order)[k].ts == CaseEnd(t, c)
      && LegacyRemainingTime(t, order, unit).value[k] == 0.0)
  {
    CaseRowsNonEmpty(t, c);
    var x :| x in RowsOf(t, c) && x.ts == CaseEnd(t, c);
    var k := GroupedPosition(t, order, x);
    var rows := GroupedRows(t, order);
    assert RemainingOf(t, rows[k]) == 0;
    TimeFeatures.InUnitFacts(0, 0, ShortUnit(unit));
    assert LegacyRemainingTime(t, order, unit).value[k] == 0.0;
  }

  /** Every row of the log has a position in the grouped output. */
  lemma GroupedPosition(t: seq<Row>, order: seq<string>, x: Row) returns (k: nat)
    requires NoDup(order) && Elems(order) == CaseIds(t) && x in t
    ensures k < |GroupedRows(t, order)| && GroupedRows(t, order)[k] == x
  {
    GroupedRowsPermutation(t, order);
    assert x in multiset(GroupedRows(t, order));
    k :| 0 <= k < |GroupedRows(t, order)| && GroupedRows(t, order)[k] == x;
  }
}
