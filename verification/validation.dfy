/** The validation helpers shared by the transformers: selecting class
    methods by name, checking required columns and coercing a value to a
    list. Both the current copy and the legacy copy are modelled. */
module Validation {
  import opened Wrappers
  import opened Seqs

  // ---------------------------------------------------------------------
  // Selecting methods of a class

  /** A Python argument as the method selector sees it: a string, a list or
      tuple of strings, `None`, or a class whose bound methods (class
      methods) are listed in `getmembers` order, sorted by name. */
  datatype PyObject =
    | Str(s: string)
    | StrSeq(items: seq<string>)
    | NoneObj
    | Class(methods: seq<string>)

  /** `inspect.getmembers(obj, predicate=inspect.ismethod)`, names only. A
      string, a list or `None` has no bound Python methods: its methods are
      builtins, which `ismethod` rejects. */
  function BoundMethods(o: PyObject): seq<string>
  {
    if o.Class? then o.methods else []
  }

  /** The names a request can match once a non-list request is wrapped in a
      list: a wrapped string matches itself, a wrapped `None` or class
      matches no method name. */
  function Requested(o: PyObject): seq<string>
  {
    match o
    case Str(s) => [s]
    case StrSeq(items) => items
    case NoneObj => []
    case Class(_) => []
  }

  /** `a` is `b` with some elements left out, order kept. */
  predicate SubsequenceOf<T(==)>(a: seq<T>, b: seq<T>)
    decreases |b|
  {
    if |a| == 0 then true
    else if |b| == 0 then false
    else (a[0] == b[0] && SubsequenceOf(a[1..], b[1..])) || SubsequenceOf(a, b[1..])
  }

  /** Public: a name that does not start with an underscore. */
  predicate Public(name: string)
  {
    !StartsWith(name, "_")
  }

  /** The loop over available methods keeping requested public names. */
  function Select(available: seq<string>, wanted: seq<string>): (r: seq<string>)
    ensures forall n :: n in r <==> n in available && n in wanted && Public(n)
    ensures SubsequenceOf(r, available)
  {
    if |available| == 0 then []
    else
      var rest := Select(available[1..], wanted);
      if available[0] in wanted && Public(available[0]) then [available[0]] + rest
      else
        rest
  }

  /** `validate_methods_from_class(class_obj, methods)`. */
  function ValidateMethodsFromClass(classObj: PyObject, methods: PyObject): (r: seq<string>)
    ensures methods == Str("all") ==> r == BoundMethods(classObj)
    ensures methods != Str("all") ==>
      forall n :: n in r <==> n in BoundMethods(classObj) && n in Requested(methods) && Public(n)
    ensures SubsequenceOf(r, BoundMethods(classObj))
  {
    if methods == Str("all") then
      SubsequenceOfSelf(BoundMethods(classObj));
      BoundMethods(classObj)
    else Select(BoundMethods(classObj), Requested(methods))
  }

  lemma {:induction false} SubsequenceOfSelf<T>(s: seq<T>)
    ensures SubsequenceOf(s, s)
  {
    if |s| > 0 {
      SubsequenceOfSelf(s[1..]);
    }
  }

  lemma {:induction false} SelectNothing(available: seq<string>)
    ensures Select(available, []) == []
  {
    if |available| > 0 {
      SelectNothing(available[1..]);
    }
  }

  /** A `None` request selects nothing. */
  lemma NoneRequestSelectsNothing(classObj: PyObject)
    ensures ValidateMethodsFromClass(classObj, NoneObj) == []
  {
    SelectNothing(BoundMethods(classObj));
  }

  /** Requested names that are not methods of the class are dropped, and an
      underscore name is never selected by a name request. */
  lemma UnderscoreOnlyViaAll(classObj: PyObject, methods: PyObject, n: string)
    requires n in ValidateMethodsFromClass(classObj, methods) && !Public(n)
    ensures methods == Str("all")
  {
  }

  /** A subsequence of a duplicate-free sequence is duplicate-free. */
  lemma {:induction false} SubsequenceNoDup<T>(a: seq<T>, b: seq<T>)
    requires SubsequenceOf(a, b) && NoDup(b)
    ensures NoDup(a)
    decreases |b|
  {
    if |a| > 0 {
      if a[0] == b[0] && SubsequenceOf(a[1..], b[1..]) {
        SubsequenceNoDup(a[1..], b[1..]);
        SubsequenceMembers(a[1..], b[1..]);
        forall j | 0 < j < |a| ensures a[0] != a[j] {
          assert a[j] == a[1..][j - 1];
          assert a[1..][j - 1] in a[1..];
          var k :| 0 <= k < |b[1..]| && b[1..][k] == a[j];
          assert b[k + 1] == a[j];
        }
      } else {
        SubsequenceNoDup(a, b[1..]);
      }
    }
  }

  lemma {:induction false} SubsequenceMembers<T>(a: seq<T>, b: seq<T>)
    requires SubsequenceOf(a, b)
    ensures forall x :: x in a ==> x in b
    decreases |b|
  {
    if |a| > 0 {
      if a[0] == b[0] && SubsequenceOf(a[1..], b[1..]) {
        SubsequenceMembers(a[1..], b[1..]);
        assert a == [a[0]] + a[1..];
      } else {
        SubsequenceMembers(a, b[1..]);
      }
    }
  }

  /** Selecting from distinct method names yields distinct names. */
  lemma SelectedDistinct(classObj: PyObject, methods: PyObject)
    requires NoDup(BoundMethods(classObj))
    ensures NoDup(ValidateMethodsFromClass(classObj, methods))
  {
    SubsequenceNoDup(ValidateMethodsFromClass(classObj, methods), BoundMethods(classObj));
  }

  /** The legacy `validate_features_from_class(features, class_obj)`: the same
      selection with the arguments in the other order. */
  function ValidateFeaturesFromClass(features: PyObject, classObj: PyObject): (r: seq<string>)
    ensures features == Str("all") ==> r == BoundMethods(classObj)
    ensures features != Str("all") ==>
      forall n :: n in r <==> n in BoundMethods(classObj) && n in Requested(features) && Public(n)
  {
    if features == Str("all") then BoundMethods(classObj)
    else Select(BoundMethods(classObj), Requested(features))
  }

  /** The two copies agree once the arguments are put in matching order. */
  lemma ValidateCopiesAgree(features: PyObject, classObj: PyObject)
    ensures ValidateFeaturesFromClass(features, classObj) == ValidateMethodsFromClass(classObj, features)
  {
  }

  // ---------------------------------------------------------------------
  // Required columns

  /** `validate_columns`: ValueError when a required column is missing;
      otherwise the `required` list itself. */
  function ValidateColumns<T(==)>(input: seq<T>, required: seq<T>): (r: Result<seq<T>>)
    ensures r.Success? <==> forall c :: c in required ==> c in input
    ensures r.Success? ==> r.value == required
    ensures r.Failure? ==> r.error == ValueError
  {
    var diff := Elems(required) - Elems(input);
    if diff != {} then Failure(ValueError)
    else
      assert forall c :: c in required ==> c in Elems(input) by {
        forall c | c in required ensures c in Elems(input) {
          assert c in Elems(required);
          assert c !in diff;
        }
      }
      Success(required)
  }

  /** Only the set of input columns matters, not their order or repetition. */
  lemma ValidateColumnsSetBased<T>(input1: seq<T>, input2: seq<T>, required: seq<T>)
    requires Elems(input1) == Elems(input2)
    ensures ValidateColumns(input1, required) == ValidateColumns(input2, required)
  {
    if ValidateColumns(input1, required).Success? {
      forall c | c in required ensures c in input2 {
        assert c in Elems(input1);
      }
    } else if ValidateColumns(input2, required).Success? {
      forall c | c in required ensures c in input1 {
        assert c in Elems(input2);
      }
    }
  }

  lemma MissingColumnExample()
    ensures ValidateColumns([1, 2, 3], [4]) == Failure(ValueError)
  {
    assert 4 in [4];
  }

  // ---------------------------------------------------------------------
  // ensure_list

  /** A Python value as `ensure_list` sees it. `Iterable` stands for any other
      iterable (tuple, set, dict, index), listed in its iteration order;
      `Opaque` for a value that is not iterable, such as a float. */
  datatype PyValue =
    | Null
    | Int(i: int)
    | Text(s: string)
    | List(items: seq<PyValue>)
    | Iterable(elems: seq<PyValue>)
    | Opaque

  /** `ensure_list`: a list unchanged, a string or an integer wrapped, any
      other iterable listed; `list(x)` of a non-iterable raises TypeError. */
  function EnsureList(x: PyValue): (r: Result<seq<PyValue>>)
    ensures r.Success? <==> !(x.Null? || x.Opaque?)
    ensures r.Failure? ==> r.error == TypeError
    ensures x.List? ==> r == Success(x.items)
    ensures (x.Int? || x.Text?) ==> r == Success([x])
    ensures x.Iterable? ==> r == Success(x.elems)
  {
    match x
    case List(items) => Success(items)
    case Int(_) => Success([x])
    case Text(_) => Success([x])
    case Iterable(elems) => Success(elems)
    case Null => Failure(TypeError)
    case Opaque => Failure(TypeError)
  }

  /** The legacy `ensure_list`, which first turns `None` into `[]`. */
  function EnsureListOrEmpty(x: PyValue): (r: Result<seq<PyValue>>)
    ensures x.Null? ==> r == Success([])
    ensures !x.Null? ==> r == EnsureList(x)
  {
    if x.Null? then Success([]) else EnsureList(x)
  }

  /** Coercing the result of a coercion again changes nothing. */
  lemma EnsureListIdempotent(x: PyValue)
    requires EnsureList(x).Success?
    ensures EnsureList(List(EnsureList(x).value)) == EnsureList(x)
    ensures EnsureListOrEmpty(List(EnsureListOrEmpty(x).value)) == EnsureListOrEmpty(x)
  {
  }

  /** The legacy copy fails only on non-iterable values. */
  lemma EnsureListOrEmptyTotal(x: PyValue)
    ensures EnsureListOrEmpty(x).Success? <==> !x.Opaque?
  {
  }

  lemma EnsureListExamples()
    ensures EnsureList(Text("exception")) == Success([Text("exception")])
    ensures EnsureList(Iterable([Int(1), Int(2), Int(3)])).Success?
    ensures EnsureListOrEmpty(Null) == Success([])
  {
  }
}
