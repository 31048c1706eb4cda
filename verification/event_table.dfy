/** The flattened event table that every downstream component consumes: one
    row per event, with a case identifier, an activity label and a timestamp
    in integer seconds. Cases are the groups of rows sharing a case id. */
module EventTable {
  import opened Wrappers
  import opened Seqs

  datatype Row = Row(caseId: string, activity: string, ts: int)

  function CaseIds(t: seq<Row>): set<string>
  {
    set r | r in t :: r.caseId
  }

  /** The rows of case `c`, in table order. */
  function RowsOf(t: seq<Row>, c: string): (r: seq<Row>)
    ensures forall x :: x in r <==> x in t && x.caseId == c
    ensures |r| <= |t|
  {
    if |t| == 0 then []
    else (if t[0].caseId == c then [t[0]] else []) + RowsOf(t[1..], c)
  }

  /** The smallest timestamp of a non-empty group of rows. */
  function MinTs(s: seq<Row>): (m: int)
    requires |s| > 0
    ensures forall x :: x in s ==> m <= x.ts
    ensures exists x :: x in s && x.ts == m
  {
    if |s| == 1 then s[0].ts
    else
      var rest := MinTs(s[1..]);
      assert forall x :: x in s[1..] ==> x in s;
      if s[0].ts <= rest then s[0].ts else rest
  }

  /** The largest timestamp of a non-empty group of rows. */
  function MaxTs(s: seq<Row>): (m: int)
    requires |s| > 0
    ensures forall x :: x in s ==> x.ts <= m
    ensures exists x :: x in s && x.ts == m
  {
    if |s| == 1 then s[0].ts
    else
      var rest := MaxTs(s[1..]);
      assert forall x :: x in s[1..] ==> x in s;
      if rest <= s[0].ts then s[0].ts else rest
  }

  lemma CaseRowsNonEmpty(t: seq<Row>, c: string)
    requires c in CaseIds(t)
    ensures |RowsOf(t, c)| > 0
  {
    var x :| x in t && x.caseId == c;
    assert x in RowsOf(t, c);
  }

  /** Case start: the earliest timestamp among the case's rows. */
  function CaseStart(t: seq<Row>, c: string): int
    requires c in CaseIds(t)
  {
    CaseRowsNonEmpty(t, c);
    MinTs(RowsOf(t, c))
  }

  /** Case end: the latest timestamp among the case's rows. */
  function CaseEnd(t: seq<Row>, c: string): int
    requires c in CaseIds(t)
  {
    CaseRowsNonEmpty(t, c);
    MaxTs(RowsOf(t, c))
  }

  lemma CaseBounds(t: seq<Row>, i: int)
    requires 0 <= i < |t|
    ensures t[i].caseId in CaseIds(t)
    ensures CaseStart(t, t[i].caseId) <= t[i].ts <= CaseEnd(t, t[i].caseId)
  {
    assert t[i] in RowsOf(t, t[i].caseId);
  }

  lemma CaseStartBeforeEnd(t: seq<Row>, c: string)
    requires c in CaseIds(t)
    ensures CaseStart(t, c) <= CaseEnd(t, c)
  {
    CaseRowsNonEmpty(t, c);
    var s := RowsOf(t, c);
    assert s[0] in s;
  }

  /** The distinct case ids in order of first appearance. */
  function CaseOrder(t: seq<Row>): (r: seq<string>)
    ensures NoDup(r)
    ensures forall c :: c in r <==> c in CaseIds(t)
  {
    if |t| == 0 then []
    else
      var prev := CaseOrder(t[..|t| - 1]);
      var last := t[|t| - 1];
      assert t == t[..|t| - 1] + [last];
      assert CaseIds(t) == CaseIds(t[..|t| - 1]) + {last.caseId};
      if last.caseId in prev then prev else prev + [last.caseId]
  }

  /** The rows whose case is in `keep`, in table order (`isin`). */
  function KeepCases(t: seq<Row>, keep: set<string>): (r: seq<Row>)
  {
    if |t| == 0 then []
    else (if t[0].caseId in keep then [t[0]] else []) + KeepCases(t[1..], keep)
  }

  /** The rows whose case is not in `drop`, in table order (`~isin`). */
  function DropCases(t: seq<Row>, drop: set<string>): (r: seq<Row>)
  {
    if |t| == 0 then []
    else (if t[0].caseId !in drop then [t[0]] else []) + DropCases(t[1..], drop)
  }

  lemma {:induction false} KeepCasesMembers(t: seq<Row>, keep: set<string>)
    ensures forall x :: x in KeepCases(t, keep) <==> x in t && x.caseId in keep
  {
    if |t| > 0 {
      KeepCasesMembers(t[1..], keep);
      assert t == [t[0]] + t[1..];
    }
  }

  lemma {:induction false} DropCasesMembers(t: seq<Row>, drop: set<string>)
    ensures forall x :: x in DropCases(t, drop) <==> x in t && x.caseId !in drop
  {
    if |t| > 0 {
      DropCasesMembers(t[1..], drop);
      assert t == [t[0]] + t[1..];
    }
  }

  /** Keeping a set of cases keeps each kept case whole, rows in their
      original relative order, and removes every other case entirely. */
  lemma {:induction false} KeepCasesWhole(t: seq<Row>, keep: set<string>, c: string)
    ensures RowsOf(KeepCases(t, keep), c) == if c in keep then RowsOf(t, c) else []
  {
    if |t| > 0 {
      KeepCasesWhole(t[1..], keep, c);
      var head := if t[0].caseId in keep then [t[0]] else [];
      assert KeepCases(t, keep) == head + KeepCases(t[1..], keep);
      RowsOfAppend(head, KeepCases(t[1..], keep), c);
    }
  }

  lemma {:induction false} DropCasesWhole(t: seq<Row>, drop: set<string>, c: string)
    ensures RowsOf(DropCases(t, drop), c) == if c !in drop then RowsOf(t, c) else []
  {
    if |t| > 0 {
      DropCasesWhole(t[1..], drop, c);
      var head := if t[0].caseId !in drop then [t[0]] else [];
      assert DropCases(t, drop) == head + DropCases(t[1..], drop);
      RowsOfAppend(head, DropCases(t[1..], drop), c);
    }
  }

  lemma {:induction false} RowsOfAppend(a: seq<Row>, b: seq<Row>, c: string)
    ensures RowsOf(a + b, c) == RowsOf(a, c) + RowsOf(b, c)
  {
    if |a| > 0 {
      assert (a + b)[1..] == a[1..] + b;
      RowsOfAppend(a[1..], b, c);
    } else {
      assert a + b == b;
    }
  }

  lemma KeepCasesIds(t: seq<Row>, keep: set<string>)
    ensures CaseIds(KeepCases(t, keep)) == CaseIds(t) * keep
  {
    KeepCasesMembers(t, keep);
  }

  lemma DropCasesIds(t: seq<Row>, drop: set<string>)
    ensures CaseIds(DropCases(t, drop)) == CaseIds(t) - drop
  {
    DropCasesMembers(t, drop);
  }

  /** Keeping and dropping the same set of cases splits the table: every row
      lands in exactly one of the two outputs. */
  lemma {:induction false} KeepDropPartition(t: seq<Row>, s: set<string>)
    ensures |KeepCases(t, s)| + |DropCases(t, s)| == |t|
    ensures multiset(KeepCases(t, s)) + multiset(DropCases(t, s)) == multiset(t)
  {
    if |t| > 0 {
      KeepDropPartition(t[1..], s);
      assert t == [t[0]] + t[1..];
    }
  }

  /** Dropping and keeping the same set of cases yields two tables with
      disjoint cases that together cover the table's cases and rows. */
  lemma KeepDropCases(t: seq<Row>, s: set<string>)
    ensures CaseIds(DropCases(t, s)) !! CaseIds(KeepCases(t, s))
    ensures CaseIds(DropCases(t, s)) + CaseIds(KeepCases(t, s)) == CaseIds(t)
    ensures |DropCases(t, s)| + |KeepCases(t, s)| == |t|
    ensures multiset(DropCases(t, s)) + multiset(KeepCases(t, s)) == multiset(t)
  {
    KeepDropPartition(t, s);
    KeepCasesIds(t, s);
    DropCasesIds(t, s);
  }

  /** Keeping every case of the table keeps the table. */
  lemma {:induction false} KeepAllCases(t: seq<Row>, keep: set<string>)
    requires CaseIds(t) <= keep
    ensures KeepCases(t, keep) == t
  {
    if |t| > 0 {
      assert t[0] in t;
      assert CaseIds(t[1..]) <= CaseIds(t) by {
        forall x | x in t[1..] ensures x in t { }
      }
      KeepAllCases(t[1..], keep);
      assert t == [t[0]] + t[1..];
    }
  }

  /** A kept case has the same start and end after filtering. */
  lemma KeepCasesSpan(t: seq<Row>, keep: set<string>, c: string)
    requires c in CaseIds(t) && c in keep
    ensures c in CaseIds(KeepCases(t, keep))
    ensures CaseStart(KeepCases(t, keep), c) == CaseStart(t, c)
    ensures CaseEnd(KeepCases(t, keep), c) == CaseEnd(t, c)
  {
    KeepCasesIds(t, keep);
    KeepCasesWhole(t, keep, c);
  }

  /** The rows of the listed cases, case after case, each case in table
      order: the order in which a grouped `apply` concatenates its
      results. */
  function GroupedRows(t: seq<Row>, order: seq<string>): (r: seq<Row>)
    ensures forall x :: x in r ==> x in t
  {
    if |order| == 0 then [] else RowsOf(t, order[0]) + GroupedRows(t, order[1..])
  }

  lemma {:induction false} KeepCasesAdd(t: seq<Row>, s: set<string>, c: string)
    requires c !in s
    ensures multiset(KeepCases(t, s + {c})) == multiset(RowsOf(t, c)) + multiset(KeepCases(t, s))
  {
    if |t| > 0 {
      KeepCasesAdd(t[1..], s, c);
    }
  }

  lemma {:induction false} KeepCasesNone(t: seq<Row>)
    ensures KeepCases(t, {}) == []
  {
    if |t| > 0 {
      KeepCasesNone(t[1..]);
    }
  }

  lemma {:induction false} GroupedRowsKeep(t: seq<Row>, order: seq<string>)
    requires NoDup(order)
    ensures multiset(GroupedRows(t, order)) == multiset(KeepCases(t, Elems(order)))
  {
    if |order| == 0 {
      assert Elems(order) == {};
      KeepCasesNone(t);
    } else {
      var rest := order[1..];
      assert NoDup(rest);
      GroupedRowsKeep(t, rest);
      assert order[0] !in Elems(rest);
      assert Elems(order) == Elems(rest) + {order[0]};
      KeepCasesAdd(t, Elems(rest), order[0]);
      assert GroupedRows(t, order) == RowsOf(t, order[0]) + GroupedRows(t, rest);
    }
  }

  /** Grouping the rows by a listing of all the cases is a permutation of
      the rows: every row appears exactly once. */
  lemma GroupedRowsPermutation(t: seq<Row>, order: seq<string>)
    requires NoDup(order) && Elems(order) == CaseIds(t)
    ensures multiset(GroupedRows(t, order)) == multiset(t)
    ensures |GroupedRows(t, order)| == |t|
  {
    GroupedRowsKeep(t, order);
    KeepAllCases(t, Elems(order));
    assert |multiset(GroupedRows(t, order))| == |multiset(t)|;
  }
}
