/** Event bucketing: every event gets a bucket label, either the single
    bucket "b1" or, by prefix length, "b<k + 1>" for the k-th event of its
    case. Two copies exist: the legacy one checks the method in its
    constructor with an assertion, the current one through its parameter
    constraint. */
module Bucketing {
  import opened Wrappers

  // ---------------------------------------------------------------------
  // Decimal numerals

  function DigitChar(d: int): char
    requires 0 <= d < 10
  {
    "0123456789"[d]
  }

  predicate IsDigit(c: char)
  {
    '0' <= c <= '9'
  }

  function DigitValue(c: char): int
    requires IsDigit(c)
  {
    c as int - '0' as int
  }

  /** `str(n)`: the decimal numeral of `n`, most significant digit first,
      without leading zeros. */
  function NatToString(n: nat): (s: string)
    ensures |s| > 0
    ensures forall i :: 0 <= i < |s| ==> IsDigit(s[i])
    ensures |s| > 1 ==> s[0] != '0'
    decreases n
  {
    if n < 10 then [DigitChar(n)]
    else NatToString(n / 10) + [DigitChar(n % 10)]
  }

  /** `int(s)` on a string of decimal digits. */
  function ParseNat(s: string): nat
    requires forall i :: 0 <= i < |s| ==> IsDigit(s[i])
  {
    if |s| == 0 then 0
    else ParseNat(s[..|s| - 1]) * 10 + DigitValue(s[|s| - 1])
  }

  /** Reading a numeral back gives the number: `int(str(n)) == n`. */
  lemma {:induction false} ParseNatToString(n: nat)
    ensures ParseNat(NatToString(n)) == n
    decreases n
  {
    var s := NatToString(n);
    if n >= 10 {
      ParseNatToString(n / 10);
      assert s[..|s| - 1] == NatToString(n / 10);
    }
  }

  /** Different numbers have different numerals. */
  lemma NatToStringInjective(m: nat, n: nat)
    requires NatToString(m) == NatToString(n)
    ensures m == n
  {
    ParseNatToString(m);
    ParseNatToString(n);
  }

  // ---------------------------------------------------------------------
  // Position of each event within its case

  /** The number of rows of case `c` in `s`. */
  function Count(s: seq<string>, c: string): nat
  {
    if |s| == 0 then 0
    else Count(s[..|s| - 1], c) + if s[|s| - 1] == c then 1 else 0
  }

  lemma CountSnoc(s: seq<string>, y: string, c: string)
    ensures Count(s + [y], c) == Count(s, c) + if y == c then 1 else 0
  {
    assert (s + [y])[..|s|] == s;
  }

  /** The reference `cumcount`: the number of earlier rows of the same case. */
  function CumCount(cases: seq<string>): (r: seq<nat>)
    ensures |r| == |cases|
  {
    seq(|cases|, k requires 0 <= k < |cases| => Count(cases[..k], cases[k]))
  }

  /** `groupby(case).cumcount()`: one counter per case, read and incremented
      row by row. */
  method CumCountLoop(cases: seq<string>) returns (r: seq<nat>)
    ensures r == CumCount(cases)
  {
    var counters: map<string, nat> := map[];
    r := [];
    var k := 0;
    while k < |cases|
      invariant 0 <= k <= |cases|
      invariant r == CumCount(cases)[..k]
      invariant forall c :: c in counters ==> counters[c] == Count(cases[..k], c)
      invariant forall c :: c !in counters ==> Count(cases[..k], c) == 0
    {
      var c := cases[k];
      var count := if c in counters then counters[c] else 0;
      assert cases[..k + 1] == cases[..k] + [c];
      forall x ensures Count(cases[..k + 1], x) == Count(cases[..k], x) + if c == x then 1 else 0 {
        CountSnoc(cases[..k], c, x);
      }
      r := r + [count];
      counters := counters[c := count + 1];
      k := k + 1;
    }
  }

  /** Counting over a longer prefix counts at least as many rows. */
  lemma {:induction false} CountPrefixMono(s: seq<string>, i: int, j: int, c: string)
    requires 0 <= i <= j <= |s|
    ensures Count(s[..i], c) <= Count(s[..j], c)
    decreases j - i
  {
    if i < j {
      CountPrefixMono(s, i, j - 1, c);
      assert s[..j] == s[..j - 1] + [s[j - 1]];
      CountSnoc(s[..j - 1], s[j - 1], c);
    }
  }

  /** Rows of one case get increasing positions. */
  lemma CumCountIncreasing(cases: seq<string>, k1: int, k2: int)
    requires 0 <= k1 < k2 < |cases| && cases[k1] == cases[k2]
    ensures CumCount(cases)[k1] < CumCount(cases)[k2]
  {
    CountUpTo(cases, k1);
    CountPrefixMono(cases, k1 + 1, k2, cases[k1]);
  }

  /** The position of a row is below the number of rows of its case. */
  lemma CumCountBelow(cases: seq<string>, k: int)
    requires 0 <= k < |cases|
    ensures CumCount(cases)[k] < Count(cases, cases[k])
  {
    var c := cases[k];
    var before := Count(cases[..k], c);
    assert CumCount(cases)[k] == before;
    CountUpTo(cases, k);
    CountPrefixMono(cases, k + 1, |cases|, c);
    assert cases[..|cases|] == cases;
  }

  /** Counting through row k counts it. */
  lemma CountUpTo(cases: seq<string>, k: int)
    requires 0 <= k < |cases|
    ensures Count(cases[..k + 1], cases[k]) == Count(cases[..k], cases[k]) + 1
  {
    assert cases[..k + 1] == cases[..k] + [cases[k]];
    CountSnoc(cases[..k], cases[k], cases[k]);
  }

  /** Every position below the number of rows of a case is taken by one of
      its rows. */
  lemma {:induction false} CumCountOnto(cases: seq<string>, c: string, i: nat)
    requires i < Count(cases, c)
    ensures exists k :: 0 <= k < |cases| && cases[k] == c && CumCount(cases)[k] == i
  {
    var n := |cases|;
    var init := cases[..n - 1];
    if c == cases[n - 1] && i == Count(init, c) {
      assert CumCount(cases)[n - 1] == i;
    } else {
      CumCountOnto(init, c, i);
      var k :| 0 <= k < |init| && init[k] == c && CumCount(init)[k] == i;
      assert cases[..k] == init[..k];
      assert cases[k] == c && CumCount(cases)[k] == i;
    }
  }

  // ---------------------------------------------------------------------
  // Bucket labels

  /** `f"b{x + 1}"`. */
  function BucketLabel(k: nat): (s: string)
    ensures |s| >= 2 && s[0] == 'b'
    ensures forall i :: 1 <= i < |s| ==> IsDigit(s[i])
  {
    var digits := NatToString(k + 1);
    assert forall i :: 1 <= i < |digits| + 1 ==> ("b" + digits)[i] == digits[i - 1];
    "b" + digits
  }

  /** The number a label was made from. */
  function BucketNumber(s: string): int
    requires |s| >= 1 && forall i :: 1 <= i < |s| ==> IsDigit(s[i])
  {
    ParseNat(s[1..])
  }

  /** Labels read back: `BucketNumber(BucketLabel(k)) == k + 1`; so labels of
      different positions differ. */
  lemma BucketLabelRoundTrip(k: nat)
    ensures forall i :: 1 <= i < |BucketLabel(k)| ==> IsDigit(BucketLabel(k)[i])
    ensures BucketNumber(BucketLabel(k)) == k + 1
  {
    var s := BucketLabel(k);
    assert s[1..] == NatToString(k + 1);
    ParseNatToString(k + 1);
  }

  lemma BucketLabelInjective(k1: nat, k2: nat)
    requires BucketLabel(k1) == BucketLabel(k2)
    ensures k1 == k2
  {
    BucketLabelRoundTrip(k1);
    BucketLabelRoundTrip(k2);
  }

  // ---------------------------------------------------------------------
  // The transformers

  /** The methods the transformers know. */
  predicate KnownMethod(strategy: string)
  {
    strategy == "single" || strategy == "prefix" || strategy == "clustering"
  }

  /** The branches of `transform`, shared by both copies, over the case id of
      every row: "single" labels every row "b1", "prefix" the k-th row of a
      case "b<k + 1>", "clustering" raises NotImplementedError; with any other
      method no branch assigns the labels and returning them raises
      UnboundLocalError. */
  method Buckets(strategy: string, cases: seq<string>) returns (r: Result<seq<string>>)
    ensures r.Success? <==> strategy == "single" || strategy == "prefix"
    ensures strategy == "clustering" ==> r == Failure(NotImplementedError)
    ensures !KnownMethod(strategy) ==> r == Failure(UnboundLocalError)
    ensures r.Success? ==> |r.value| == |cases|
    ensures strategy == "single" ==> forall k :: 0 <= k < |cases| ==> r.value[k] == "b1"
    ensures strategy == "prefix" ==> forall k :: 0 <= k < |cases| ==>
      r.value[k] == BucketLabel(Count(cases[..k], cases[k]))
  {
    if strategy == "single" {
      r := Success(seq(|cases|, k => "b1"));
    } else if strategy == "prefix" {
      var counts := CumCountLoop(cases);
      r := Success(seq(|cases|, k requires 0 <= k < |cases| => BucketLabel(counts[k])));
    } else if strategy == "clustering" {
      r := Failure(NotImplementedError);
    } else {
      r := Failure(UnboundLocalError);
    }
  }

  /** With "prefix", the first row of every case is at position 0, in
      bucket "b1". */
  lemma FirstRowB1(cases: seq<string>, k: int)
    requires 0 <= k < |cases| && cases[k] !in cases[..k]
    ensures CumCount(cases)[k] == 0 && BucketLabel(CumCount(cases)[k]) == "b1"
  {
    CountAbsent(cases[..k], cases[k]);
  }

  /** The positions taken by the rows of case `c`. */
  function Positions(cases: seq<string>, c: string): set<nat>
  {
    set k | 0 <= k < |cases| && cases[k] == c :: CumCount(cases)[k]
  }

  /** The positions 0 .. n - 1. */
  function Below(n: nat): (r: set<nat>)
    ensures forall i: nat :: i in r <==> i < n
  {
    if n == 0 then {} else Below(n - 1) + {n - 1}
  }

  /** The rows of a case with n rows take the positions 0 .. n - 1, each
      once (the positions increase along the rows, CumCountIncreasing). */
  lemma CasePositions(cases: seq<string>, c: string)
    ensures Positions(cases, c) == Below(Count(cases, c))
  {
    forall i | i in Positions(cases, c) ensures i in Below(Count(cases, c)) {
      var k :| 0 <= k < |cases| && cases[k] == c && CumCount(cases)[k] == i;
      CumCountBelow(cases, k);
    }
    forall i | i in Below(Count(cases, c)) ensures i in Positions(cases, c) {
      CumCountOnto(cases, c, i);
    }
  }

  lemma {:induction false} CountAbsent(s: seq<string>, c: string)
    requires c !in s
    ensures Count(s, c) == 0
  {
    if |s| > 0 {
      CountAbsent(s[..|s| - 1], c);
    }
  }

  /** The current copy: the parameter constraint rejects an unknown method
      with InvalidParameterError, a ValueError, before `_transform` runs. */
  method Transform(strategy: string, cases: seq<string>) returns (r: Result<seq<string>>)
    ensures !KnownMethod(strategy) ==> r == Failure(ValueError)
    ensures strategy == "clustering" ==> r == Failure(NotImplementedError)
    ensures r.Success? <==> strategy == "single" || strategy == "prefix"
    ensures r.Success? ==> |r.value| == |cases|
    ensures strategy == "single" ==> forall k :: 0 <= k < |cases| ==> r.value[k] == "b1"
    ensures strategy == "prefix" ==> forall k :: 0 <= k < |cases| ==>
      r.value[k] == BucketLabel(Count(cases[..k], cases[k]))
  {
    if !KnownMethod(strategy) {
      return Failure(ValueError);
    }
    r := Buckets(strategy, cases);
  }

  /** The legacy transformer holds the method it was built with. */
  datatype Bucketer = Bucketer(strategy: string)

  /** The legacy constructor: AssertionError for an unknown method. */
  function New(strategy: string): (r: Result<Bucketer>)
    ensures r.Success? <==> KnownMethod(strategy)
    ensures r.Failure? ==> r.error == AssertionError
    ensures r.Success? ==> r.value.strategy == strategy
  {
    if KnownMethod(strategy) then Success(Bucketer(strategy)) else Failure(AssertionError)
  }

  /** The legacy `fit` returns the transformer unchanged. */
  function Fit(b: Bucketer, cases: seq<string>): (r: Bucketer)
    ensures r == b
  {
    b
  }

  /** The legacy `transform`: the branches over the constructed method. A
      transformer obtained from the constructor never reaches the unbound
      case. */
  method TransformLegacy(b: Bucketer, cases: seq<string>) returns (r: Result<seq<string>>)
    ensures New(b.strategy).Success? ==> (r.Failure? <==> b.strategy == "clustering")
    ensures r.Failure? && New(b.strategy).Success? ==> r.error == NotImplementedError
    ensures r.Success? ==> |r.value| == |cases|
    ensures b.strategy == "single" ==> forall k :: 0 <= k < |cases| ==> r.value[k] == "b1"
    ensures b.strategy == "prefix" ==> forall k :: 0 <= k < |cases| ==>
      r.value[k] == BucketLabel(Count(cases[..k], cases[k]))
  {
    r := Buckets(b.strategy, cases);
  }

  /** `get_feature_names_out` of both copies: one column, "bucket". */
  function FeatureNamesOut(): (r: seq<string>)
    ensures |r| == 1 && r[0] == "bucket"
  {
    ["bucket"]
  }

  /** Three rows of case "1" around one row of case "2". */
  lemma PrefixExample(cases: seq<string>)
    requires cases == ["1", "2", "1", "1"]
    ensures CumCount(cases) == [0, 0, 1, 2]
  {
    var r := CumCount(cases);
    assert cases[..0] == [];
    assert r[0] == 0;
    CountSnoc([], "1", "2");
    assert cases[..1] == [] + ["1"];
    assert r[1] == 0;
    CountSnoc([], "1", "1");
    CountSnoc(["1"], "2", "1");
    assert cases[..2] == ["1"] + ["2"];
    assert r[2] == 1;
    CountSnoc(["1", "2"], "1", "1");
    assert cases[..3] == ["1", "2"] + ["1"];
    assert r[3] == 2;
  }
}
