/** Flattening of an XES document (IEEE Std 1849-2016) into one attribute
    record per event. The document is an already-parsed element tree; the
    attributes `key` and `value` of an element may be absent. */
module Xes {
  import opened Wrappers
  import opened Seqs

  /** An XML element: its tag, its `key` and `value` attributes (absent is
      `None`) and its child elements in document order. */
  datatype Node = Node(tag: string, key: Option<string>, value: Option<string>, children: seq<Node>)

  /** An event record: attribute key to attribute value. A missing `key`
      attribute yields the key `None`, as `dict[None] = ...` does. */
  type Record = map<Option<string>, Option<string>>

  /** The five attribute element kinds, in the order case attributes are
      collected. */
  const Kinds: seq<string> := ["string", "date", "float", "boolean", "int"]

  predicate Recognised(tag: string)
  {
    tag in Kinds
  }

  /** `findall(tag)`: the direct children with the given tag, in order. */
  function ChildrenWithTag(ns: seq<Node>, tag: string): (r: seq<Node>)
    ensures |r| <= |ns|
    ensures forall n :: n in r <==> n in ns && n.tag == tag
    ensures (forall n :: n in ns ==> n.tag != tag) ==> r == []
  {
    if |ns| == 0 then []
    else (if ns[0].tag == tag then [ns[0]] else []) + ChildrenWithTag(ns[1..], tag)
  }

  /** The selection keeps document order: selecting from two runs of
      children is selecting from each run and joining the results. */
  lemma {:induction false} ChildrenWithTagAppend(a: seq<Node>, b: seq<Node>, tag: string)
    ensures ChildrenWithTag(a + b, tag) == ChildrenWithTag(a, tag) + ChildrenWithTag(b, tag)
  {
    if |a| > 0 {
      assert (a + b)[1..] == a[1..] + b;
      ChildrenWithTagAppend(a[1..], b, tag);
    } else {
      assert a + b == b;
    }
  }

  /** Every match is kept, repetitions included: when every child carries
      the tag, all of them come back in order. */
  lemma {:induction false} ChildrenWithTagAllMatch(ns: seq<Node>, tag: string)
    requires forall i :: 0 <= i < |ns| ==> ns[i].tag == tag
    ensures ChildrenWithTag(ns, tag) == ns
  {
    if |ns| > 0 {
      ChildrenWithTagAllMatch(ns[1..], tag);
    }
  }

  // ---------------------------------------------------------------------
  // Last-write-wins maps

  /** Assign the pairs of `ps` into `m` from left to right (`dict.update`
      with a sequence of pairs, or a `for` loop of item assignments). */
  function Overlay<K, V>(m: map<K, V>, ps: seq<(K, V)>): map<K, V>
    decreases |ps|
  {
    if |ps| == 0 then m else Overlay(m[ps[0].0 := ps[0].1], ps[1..])
  }

  /** The keys occurring in `ps`. */
  function PairKeys<K, V>(ps: seq<(K, V)>): set<K>
  {
    if |ps| == 0 then {} else {ps[0].0} + PairKeys(ps[1..])
  }

  lemma {:induction false} PairKeysIndex<K, V>(ps: seq<(K, V)>, k: K)
    ensures k in PairKeys(ps) <==> exists j :: 0 <= j < |ps| && ps[j].0 == k
  {
    if |ps| > 0 {
      PairKeysIndex(ps[1..], k);
      if exists j :: 0 <= j < |ps| && ps[j].0 == k {
        var j :| 0 <= j < |ps| && ps[j].0 == k;
        if j > 0 {
          assert ps[1..][j - 1].0 == k;
        }
      }
      if exists j :: 0 <= j < |ps[1..]| && ps[1..][j].0 == k {
        var j :| 0 <= j < |ps[1..]| && ps[1..][j].0 == k;
        assert ps[j + 1].0 == k;
      }
    }
  }

  lemma {:induction false} PairKeysAppend<K, V>(a: seq<(K, V)>, b: seq<(K, V)>)
    ensures PairKeys(a + b) == PairKeys(a) + PairKeys(b)
  {
    if |a| == 0 {
      assert a + b == b;
    } else {
      assert (a + b)[1..] == a[1..] + b;
      PairKeysAppend(a[1..], b);
    }
  }

  /** Reference characterization of `Overlay`: the keys are those of `m` and
      of `ps`; a key of `ps` maps to the value of its LAST pair; any other key
      keeps its value from `m`. */
  lemma {:induction false} OverlaySpec<K, V>(m: map<K, V>, ps: seq<(K, V)>)
    decreases |ps|
    ensures Overlay(m, ps).Keys == m.Keys + PairKeys(ps)
    ensures forall k :: k in m && k !in PairKeys(ps) ==> Overlay(m, ps)[k] == m[k]
    ensures forall i :: (0 <= i < |ps| && (forall j :: i < j < |ps| ==> ps[j].0 != ps[i].0)
      ==> ps[i].0 in Overlay(m, ps) && Overlay(m, ps)[ps[i].0] == ps[i].1)
  {
    if |ps| > 0 {
      var m' := m[ps[0].0 := ps[0].1];
      var tail := ps[1..];
      OverlaySpec(m', tail);
      forall i | 0 <= i < |ps| && (forall j :: i < j < |ps| ==> ps[j].0 != ps[i].0)
        ensures ps[i].0 in Overlay(m, ps) && Overlay(m, ps)[ps[i].0] == ps[i].1
      {
        PairKeysIndex(ps, ps[i].0);
        if i == 0 {
          PairKeysIndex(tail, ps[0].0);
          forall j | 0 <= j < |tail| ensures tail[j].0 != ps[0].0 {
            assert tail[j] == ps[j + 1];
          }
        } else {
          assert tail[i - 1] == ps[i];
          forall j | i - 1 < j < |tail| ensures tail[j].0 != tail[i - 1].0 {
            assert tail[j] == ps[j + 1];
          }
        }
      }
    }
  }

  /** `m.update(d)` where `d` was built by assigning `ps` into `a` equals
      assigning `ps` into `m.update(a)`. */
  lemma {:induction false} UpdateIsOverlay<K, V>(m: map<K, V>, a: map<K, V>, ps: seq<(K, V)>)
    decreases |ps|
    ensures m + Overlay(a, ps) == Overlay(m + a, ps)
  {
    if |ps| > 0 {
      assert m + a[ps[0].0 := ps[0].1] == (m + a)[ps[0].0 := ps[0].1];
      UpdateIsOverlay(m, a[ps[0].0 := ps[0].1], ps[1..]);
    }
  }

  lemma {:induction false} OverlayAppend<K, V>(m: map<K, V>, a: seq<(K, V)>, b: seq<(K, V)>)
    decreases |a|
    ensures Overlay(m, a + b) == Overlay(Overlay(m, a), b)
  {
    if |a| > 0 {
      assert (a + b)[1..] == a[1..] + b;
      OverlayAppend(m[a[0].0 := a[0].1], a[1..], b);
    } else {
      assert a + b == b;
    }
  }

  // ---------------------------------------------------------------------
  // Case attributes

  /** `f'case:{e.get("key")}'`: a missing key prints as `None`. */
  function CaseKey(k: Option<string>): Option<string>
  {
    Some("case:" + (if k.Some? then k.value else "None"))
  }

  function CasePairs(ns: seq<Node>): (ps: seq<(Option<string>, Option<string>)>)
    ensures |ps| == |ns|
    ensures forall i :: 0 <= i < |ns| ==> ps[i] == (CaseKey(ns[i].key), ns[i].value)
  {
    if |ns| == 0 then [] else [(CaseKey(ns[0].key), ns[0].value)] + CasePairs(ns[1..])
  }

  /** The case attributes collected for the kinds in `kinds`, in that order:
      per kind a dict comprehension over the matching direct children, each
      merged into the accumulated map with `update`. */
  function CaseAttrsOf(acc: Record, children: seq<Node>, kinds: seq<string>): Record
    decreases |kinds|
  {
    if |kinds| == 0 then acc
    else CaseAttrsOf(acc + Overlay(map[], CasePairs(ChildrenWithTag(children, kinds[0]))), children, kinds[1..])
  }

  function CaseAttrs(trace: Node): Record
  {
    CaseAttrsOf(map[], trace.children, Kinds)
  }

  /** The case-attribute pairs in the order they are assigned: grouped by
      kind in the fixed kind order, then in document order. */
  function KindOrderedPairs(children: seq<Node>, kinds: seq<string>): seq<(Option<string>, Option<string>)>
  {
    if |kinds| == 0 then []
    else CasePairs(ChildrenWithTag(children, kinds[0])) + KindOrderedPairs(children, kinds[1..])
  }

  /** The case keys of the children whose tag is one of `kinds`. */
  function CaseKeysOf(children: seq<Node>, kinds: seq<string>): set<Option<string>>
  {
    set n | n in children && n.tag in kinds :: CaseKey(n.key)
  }

  /** The case attributes are the kind-ordered pairs assigned left to right:
      a duplicate key is won by the later KIND, and within one kind by the
      later element — not by overall document order. */
  lemma {:induction false} CaseAttrsKindOrder(acc: Record, children: seq<Node>, kinds: seq<string>)
    decreases |kinds|
    ensures CaseAttrsOf(acc, children, kinds) == Overlay(acc, KindOrderedPairs(children, kinds))
  {
    if |kinds| > 0 {
      var ps := CasePairs(ChildrenWithTag(children, kinds[0]));
      UpdateIsOverlay(acc, map[], ps);
      assert acc + map[] == acc;
      CaseAttrsKindOrder(acc + Overlay(map[], ps), children, kinds[1..]);
      OverlayAppend(acc, ps, KindOrderedPairs(children, kinds[1..]));
    }
  }

  lemma CasePairsKeys(ns: seq<Node>)
    ensures PairKeys(CasePairs(ns)) == set n | n in ns :: CaseKey(n.key)
  {
    var ps := CasePairs(ns);
    forall k ensures k in PairKeys(ps) <==> k in set n | n in ns :: CaseKey(n.key) {
      PairKeysIndex(ps, k);
      if k in set n | n in ns :: CaseKey(n.key) {
        var n :| n in ns && CaseKey(n.key) == k;
        var j :| 0 <= j < |ns| && ns[j] == n;
        assert ps[j].0 == k;
      }
    }
  }

  lemma {:induction false} KindOrderedKeys(children: seq<Node>, kinds: seq<string>)
    ensures PairKeys(KindOrderedPairs(children, kinds)) == CaseKeysOf(children, kinds)
  {
    if |kinds| > 0 {
      KindOrderedKeys(children, kinds[1..]);
      var cs := ChildrenWithTag(children, kinds[0]);
      PairKeysAppend(CasePairs(cs), KindOrderedPairs(children, kinds[1..]));
      CasePairsKeys(cs);
      assert CaseKeysOf(children, kinds) == CaseKeysOf(children, kinds[..1]) + CaseKeysOf(children, kinds[1..]) by {
        assert forall x :: x in kinds <==> x in kinds[..1] || x in kinds[1..] by {
          assert kinds == kinds[..1] + kinds[1..];
        }
      }
      assert (set n | n in cs :: CaseKey(n.key)) == CaseKeysOf(children, kinds[..1]);
    } else {
      assert CaseKeysOf(children, kinds) == {};
    }
  }

  /** A case attribute exists exactly for the direct children of the trace
      whose tag is one of the five kinds, and its key is `case:` + their key. */
  lemma CaseAttrsKeys(trace: Node)
    ensures CaseAttrs(trace).Keys == CaseKeysOf(trace.children, Kinds)
  {
    CaseAttrsKindOrder(map[], trace.children, Kinds);
    OverlaySpec(map[], KindOrderedPairs(trace.children, Kinds));
    KindOrderedKeys(trace.children, Kinds);
  }

  lemma CaseKeyPrefixed(k: Option<string>)
    ensures CaseKey(k).Some? && StartsWith(CaseKey(k).value, "case:")
  {
    var tail := if k.Some? then k.value else "None";
    assert ("case:" + tail)[..5] == "case:";
  }

  /** Every case attribute key starts with `case:`. */
  lemma CaseKeysPrefixed(trace: Node)
    ensures forall k :: k in CaseAttrs(trace) ==> k.Some? && StartsWith(k.value, "case:")
  {
    CaseAttrsKeys(trace);
    forall k | k in CaseAttrs(trace) ensures k.Some? && StartsWith(k.value, "case:") {
      var n :| n in trace.children && n.tag in Kinds && CaseKey(n.key) == k;
      CaseKeyPrefixed(n.key);
    }
  }

  // ---------------------------------------------------------------------
  // Event attributes

  /** `element.iter()`: the element itself, then its descendants in document
      (pre-)order. */
  function PreOrder(n: Node): (r: seq<Node>)
    decreases n, 1
    ensures |r| >= 1 && r[0] == n
  {
    [n] + PreOrderAll(n.children)
  }

  function PreOrderAll(ns: seq<Node>): seq<Node>
    decreases ns, 0
  {
    if |ns| == 0 then [] else PreOrder(ns[0]) + PreOrderAll(ns[1..])
  }

  /** The loop over `event.iter()`: each recognised element assigns its value
      under its key; other elements are skipped. */
  function WalkAttrs(acc: Record, ns: seq<Node>): Record
    decreases |ns|
  {
    if |ns| == 0 then acc
    else if Recognised(ns[0].tag) then WalkAttrs(acc[ns[0].key := ns[0].value], ns[1..])
    else WalkAttrs(acc, ns[1..])
  }

  /** The (key, value) pairs of the recognised elements of `ns`, in order. */
  function RecognisedPairs(ns: seq<Node>): seq<(Option<string>, Option<string>)>
  {
    if |ns| == 0 then []
    else (if Recognised(ns[0].tag) then [(ns[0].key, ns[0].value)] else []) + RecognisedPairs(ns[1..])
  }

  /** The keys of the recognised elements of `ns`. */
  function RecognisedKeys(ns: seq<Node>): set<Option<string>>
  {
    set n | n in ns && Recognised(n.tag) :: n.key
  }

  lemma {:induction false} WalkIsOverlay(acc: Record, ns: seq<Node>)
    decreases |ns|
    ensures WalkAttrs(acc, ns) == Overlay(acc, RecognisedPairs(ns))
  {
    if |ns| > 0 {
      WalkIsOverlay(if Recognised(ns[0].tag) then acc[ns[0].key := ns[0].value] else acc, ns[1..]);
      if Recognised(ns[0].tag) {
        OverlayAppend(acc, [(ns[0].key, ns[0].value)], RecognisedPairs(ns[1..]));
      } else {
        assert RecognisedPairs(ns) == RecognisedPairs(ns[1..]);
      }
    }
  }

  lemma {:induction false} RecognisedPairKeys(ns: seq<Node>)
    ensures PairKeys(RecognisedPairs(ns)) == RecognisedKeys(ns)
  {
    if |ns| > 0 {
      RecognisedPairKeys(ns[1..]);
      var head := if Recognised(ns[0].tag) then [(ns[0].key, ns[0].value)] else [];
      PairKeysAppend(head, RecognisedPairs(ns[1..]));
      assert ns == [ns[0]] + ns[1..];
      assert RecognisedKeys(ns) == (if Recognised(ns[0].tag) then {ns[0].key} else {}) + RecognisedKeys(ns[1..]);
    } else {
      assert RecognisedKeys(ns) == {};
    }
  }

  /** The attributes of one event, before the case attributes are merged in. */
  function EventAttrs(event: Node): Record
  {
    WalkAttrs(map[], PreOrder(event))
  }

  /** The event's attributes are the last-write-wins overlay of the
      recognised elements of its whole subtree in pre-order, including those
      below unrecognised elements: one key per recognised element. */
  lemma EventAttrsSpec(event: Node)
    ensures EventAttrs(event) == Overlay(map[], RecognisedPairs(PreOrder(event)))
    ensures EventAttrs(event).Keys == RecognisedKeys(PreOrder(event))
  {
    WalkIsOverlay(map[], PreOrder(event));
    OverlaySpec(map[], RecognisedPairs(PreOrder(event)));
    RecognisedPairKeys(PreOrder(event));
  }

  // ---------------------------------------------------------------------
  // Traces

  /** One record per event: the event's attributes updated with the case
      attributes. */
  function EventRecord(event: Node, caseAttrs: Record): Record
  {
    EventAttrs(event) + caseAttrs
  }

  /** `parse_trace` on an element: one record per direct `event` child, in
      document order. */
  function ParseTrace(trace: Node): (r: seq<Record>)
    ensures |r| == |ChildrenWithTag(trace.children, "event")|
  {
    var events := ChildrenWithTag(trace.children, "event");
    var caseAttrs := CaseAttrs(trace);
    seq(|events|, i requires 0 <= i < |events| => EventRecord(events[i], caseAttrs))
  }

  /** Record `i` is event `i` with the case attributes overlaid: every case
      attribute wins, every other key keeps the event's value. */
  lemma ParseTraceRecords(trace: Node, i: int)
    requires 0 <= i < |ChildrenWithTag(trace.children, "event")|
    ensures var e := ChildrenWithTag(trace.children, "event")[i];
      var r := ParseTrace(trace)[i];
      && e.tag == "event" && e in trace.children
      && r.Keys == EventAttrs(e).Keys + CaseAttrs(trace).Keys
      && (forall k :: k in CaseAttrs(trace) ==> r[k] == CaseAttrs(trace)[k])
      && (forall k :: k in EventAttrs(e) && k !in CaseAttrs(trace) ==> r[k] == EventAttrs(e)[k])
  {
    var e := ChildrenWithTag(trace.children, "event")[i];
    assert e in ChildrenWithTag(trace.children, "event");
  }

  /** An event attribute is overridden by a case attribute only when its key
      itself starts with `case:`. */
  lemma EventValueKept(trace: Node, i: int, k: Option<string>)
    requires 0 <= i < |ChildrenWithTag(trace.children, "event")|
    requires k in EventAttrs(ChildrenWithTag(trace.children, "event")[i])
    requires k.None? || !StartsWith(k.value, "case:")
    ensures ParseTrace(trace)[i][k] == EventAttrs(ChildrenWithTag(trace.children, "event")[i])[k]
  {
    CaseKeysPrefixed(trace);
  }

  // ---------------------------------------------------------------------
  // Serialised traces

  /** The element tree written as a token stream: each element is a head
      token carrying its child count, followed by its children. */
  datatype Token = Head(tag: string, key: Option<string>, value: Option<string>, arity: nat)

  function Serialize(n: Node): (r: seq<Token>)
    decreases n, 1
    ensures |r| >= 1
  {
    [Head(n.tag, n.key, n.value, |n.children|)] + SerializeAll(n.children)
  }

  function SerializeAll(ns: seq<Node>): seq<Token>
    decreases ns, 0
  {
    if |ns| == 0 then [] else Serialize(ns[0]) + SerializeAll(ns[1..])
  }

  /** Read one element from the front of `ts`; returns it and the rest. */
  function Deserialize(ts: seq<Token>): (r: Result<(Node, seq<Token>)>)
    decreases |ts|, 0
    ensures r.Success? ==> |r.value.1| < |ts|
  {
    if |ts| == 0 then Failure(ValueError)
    else
      var h := ts[0];
      match DeserializeAll(ts[1..], h.arity)
      case Success((children, rest)) => Success((Node(h.tag, h.key, h.value, children), rest))
      case Failure(e) => Failure(e)
  }

  /** Read `count` consecutive elements from the front of `ts`. */
  function DeserializeAll(ts: seq<Token>, count: nat): (r: Result<(seq<Node>, seq<Token>)>)
    decreases |ts|, 1, count
    ensures r.Success? ==> |r.value.1| <= |ts|
    ensures r.Success? ==> |r.value.0| == count
  {
    if count == 0 then Success(([], ts))
    else
      match Deserialize(ts)
      case Failure(e) => Failure(e)
      case Success((first, rest)) =>
        match DeserializeAll(rest, count - 1)
        case Failure(e) => Failure(e)
        case Success((others, rest')) => Success(([first] + others, rest'))
  }

  /** Reading back a written element returns it and leaves what follows. */
  lemma {:induction false} RoundTrip(n: Node, rest: seq<Token>)
    decreases n, 1
    ensures Deserialize(Serialize(n) + rest) == Success((n, rest))
  {
    var ts := Serialize(n) + rest;
    assert ts[1..] == SerializeAll(n.children) + rest;
    RoundTripAll(n.children, rest);
  }

  lemma {:induction false} RoundTripAll(ns: seq<Node>, rest: seq<Token>)
    decreases ns, 0
    ensures DeserializeAll(SerializeAll(ns) + rest, |ns|) == Success((ns, rest))
  {
    if |ns| > 0 {
      var tail := SerializeAll(ns[1..]) + rest;
      var ts := SerializeAll(ns) + rest;
      assert ts == Serialize(ns[0]) + tail;
      RoundTrip(ns[0], tail);
      RoundTripAll(ns[1..], rest);
      assert Deserialize(ts) == Success((ns[0], tail));
      assert DeserializeAll(tail, |ns| - 1) == Success((ns[1..], rest));
      assert [ns[0]] + ns[1..] == ns;
    } else {
      assert SerializeAll(ns) + rest == rest;
    }
  }

  /** The input of `parse_trace`: an element, or its serialised bytes. */
  datatype TraceInput = Element(node: Node) | Serialized(tokens: seq<Token>)

  /** `parse_trace`: serialised input is read back first. */
  function ParseTraceInput(input: TraceInput): (r: Result<seq<Record>>)
    ensures input.Element? ==> r == Success(ParseTrace(input.node))
  {
    match input
    case Element(n) => Success(ParseTrace(n))
    case Serialized(ts) =>
      var (n, _) :- Deserialize(ts);
      Success(ParseTrace(n))
  }

  /** Parsing a serialised trace gives the same records as parsing it
      directly. */
  lemma SerializedParse(trace: Node)
    ensures ParseTraceInput(Serialized(Serialize(trace))) == Success(ParseTrace(trace))
  {
    RoundTrip(trace, []);
    assert Serialize(trace) + [] == Serialize(trace);
  }

  // ---------------------------------------------------------------------
  // Whole logs

  /** The reference result of reading a log: the per-trace records of the
      top-level `trace` children, concatenated in order. */
  function LogRecords(traces: seq<Node>): seq<Record>
  {
    FlatMap(ParseTrace, traces)
  }

  /** The parallel branch: each trace is serialised, parsed independently,
      and the per-trace results are chained in submission order. */
  function ParallelRead(traces: seq<Node>): Result<seq<Record>>
  {
    if |traces| == 0 then Success([])
    else
      var first :- ParseTraceInput(Serialized(Serialize(traces[0])));
      var others :- ParallelRead(traces[1..]);
      Success(first + others)
  }

  lemma {:induction false} ParallelReadIsSequential(traces: seq<Node>)
    ensures ParallelRead(traces) == Success(LogRecords(traces))
  {
    if |traces| > 0 {
      SerializedParse(traces[0]);
      ParallelReadIsSequential(traces[1..]);
    }
  }

  /** `read_from_xes` on a parsed document: sequential when `n_jobs` is 1 or
      absent, parallel otherwise; both give the per-trace records of the
      top-level traces in document order. joblib's `Parallel` refuses zero
      workers with a ValueError, so `n_jobs=0` is the one failing request. */
  method ReadFromXes(root: Node, nJobs: Option<int>) returns (r: Result<seq<Record>>)
    ensures r.Failure? <==> nJobs == Some(0)
    ensures r.Failure? ==> r.error == ValueError
    ensures r.Success? ==> r.value == LogRecords(ChildrenWithTag(root.children, "trace"))
    ensures r.Success? && (forall n :: n in root.children ==> n.tag != "trace") ==> r.value == []
  {
    var traces := ChildrenWithTag(root.children, "trace");
    if nJobs == None || nJobs == Some(1) {
      var log := ExtendLoop(ParseTrace, traces);
      r := Success(log);
    } else if nJobs == Some(0) {
      r := Failure(ValueError);
    } else {
      ParallelReadIsSequential(traces);
      r := ParallelRead(traces);
    }
  }

  /** The number of direct `event` children over all traces. */
  function EventCount(traces: seq<Node>): nat
  {
    if |traces| == 0 then 0
    else |ChildrenWithTag(traces[0].children, "event")| + EventCount(traces[1..])
  }

  /** The log holds one record per top-level event of each top-level trace. */
  lemma {:induction false} LogRecordsLength(traces: seq<Node>)
    ensures |LogRecords(traces)| == EventCount(traces)
  {
    if |traces| > 0 {
      LogRecordsLength(traces[1..]);
    }
  }

  // ---------------------------------------------------------------------
  // Examples

  function Attr(tag: string, key: string, value: string): Node
  {
    Node(tag, Some(key), Some(value), [])
  }

  lemma OverlaySameKeyTwice<K, V>(k: K, a: V, b: V)
    ensures Overlay(map[], [(k, a), (k, b)]) == map[k := b]
  {
    var ps := [(k, a), (k, b)];
    var m: map<K, V> := map[];
    assert ps[1..] == [(k, b)];
    assert [(k, b)][1..] == [];
    assert Overlay(m, ps) == Overlay(m[k := a], [(k, b)]);
    assert Overlay(m[k := a], [(k, b)]) == Overlay(m[k := a][k := b], []);
    assert m[k := a][k := b] == map[k := b];
  }

  /** An `int` case attribute before a `string` one with the same key. */
  const KindClash: seq<Node> := [Attr("int", "x", "1"), Attr("string", "x", "2")]

  lemma KindClashChildren()
    ensures ChildrenWithTag(KindClash, "string") == [Attr("string", "x", "2")]
    ensures ChildrenWithTag(KindClash, "date") == []
    ensures ChildrenWithTag(KindClash, "float") == []
    ensures ChildrenWithTag(KindClash, "boolean") == []
    ensures ChildrenWithTag(KindClash, "int") == [Attr("int", "x", "1")]
  {
    assert KindClash[1..] == [Attr("string", "x", "2")];
  }

  lemma KindClashLaterKinds()
    ensures KindOrderedPairs(KindClash, ["date", "float", "boolean", "int"]) == [(Some("case:x"), Some("1"))]
  {
    var k := Some("case:x");
    assert "case:" + "x" == "case:x";
    KindClashChildren();
    assert KindOrderedPairs(KindClash, ["int"]) == [(k, Some("1"))] + KindOrderedPairs(KindClash, []);
    assert KindOrderedPairs(KindClash, ["boolean", "int"]) == KindOrderedPairs(KindClash, ["int"]);
    assert KindOrderedPairs(KindClash, ["float", "boolean", "int"]) == KindOrderedPairs(KindClash, ["boolean", "int"]);
  }

  lemma KindClashPairs()
    ensures KindOrderedPairs(KindClash, Kinds)
      == [(Some("case:x"), Some("2")), (Some("case:x"), Some("1"))]
  {
    var children := KindClash;
    var k := Some("case:x");
    assert "case:" + "x" == "case:x";
    assert CaseKey(Some("x")) == k;
    KindClashChildren();
    assert Kinds[1..] == ["date", "float", "boolean", "int"];
    KindClashLaterKinds();
  }

  /** The `int` kind comes later in kind order than `string`, so its value
      wins even though it comes first in the document. */
  lemma CaseKindPrecedenceExample()
    ensures CaseAttrs(Node("trace", None, None, KindClash)) == map[Some("case:x") := Some("1")]
  {
    KindClashPairs();
    CaseAttrsKindOrder(map[], KindClash, Kinds);
    OverlaySameKeyTwice(Some("case:x"), Some("2"), Some("1"));
  }

  /** An attribute nested below an unrecognised element still counts, and a
      later duplicate overwrites an earlier one. */
  lemma NestedEventAttrExample()
    ensures EventAttrs(Node("event", None, None,
                [Attr("string", "a", "1"), Node("list", Some("l"), None, [Attr("string", "a", "2")])]))
      == map[Some("a") := Some("2")]
  {
    var inner := Attr("string", "a", "2");
    var list := Node("list", Some("l"), None, [inner]);
    var first := Attr("string", "a", "1");
    assert PreOrder(first) == [first];
    assert PreOrder(inner) == [inner];
    assert PreOrderAll([inner]) == [inner];
    assert PreOrder(list) == [list, inner];
    assert [first, list][1..] == [list];
    assert PreOrderAll([list]) == [list, inner];
    assert PreOrderAll([first, list]) == [first, list, inner];
    var ns := PreOrder(Node("event", None, None, [first, list]));
    assert WalkAttrs(map[], ns) == WalkAttrs(map[], ns[1..]);
  }
}
