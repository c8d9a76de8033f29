/**
 * JavaScript values as they flow through the relay and the dashboard: what
 * JSON.parse produces, plus undefined. Numbers are JsNumber.Number.
 */
module JsValues {
  import opened JsNumber
  import opened Wrappers

  datatype Value =
    | Undefined
    | Null
    | Bool(b: bool)
    | Num(n: Number)
    | Str(s: string)
    | Arr(items: seq<Value>)
    | Obj(props: seq<(string, Value)>)

  /** ToBoolean: undefined, null, false, NaN, 0 and "" are falsy. */
  predicate Truthy(v: Value)
  {
    match v
    case Undefined => false
    case Null => false
    case Bool(b) => b
    case Num(n) => n != NaN && n != Int(0)
    case Str(s) => s != []
    case _ => true
  }

  /** The expression `a || b`. */
  function Or(a: Value, b: Value): Value
  {
    if Truthy(a) then a else b
  }

  /** The value bound to a key; a later binding of the same key wins, as in an object literal. */
  function Lookup(props: seq<(string, Value)>, key: string): Value
  {
    if props == [] then Undefined
    else if props[|props| - 1].0 == key then props[|props| - 1].1
    else Lookup(props[..|props| - 1], key)
  }

  /** The property names in order. */
  function Keys(props: seq<(string, Value)>): (ks: seq<string>)
    ensures |ks| == |props|
  {
    if props == [] then [] else Keys(props[..|props| - 1]) + [props[|props| - 1].0]
  }

  /** The i-th key is the key of the i-th binding. */
  lemma {:induction false} KeysAt(props: seq<(string, Value)>)
    ensures forall i :: 0 <= i < |props| ==> Keys(props)[i] == props[i].0
  {
    if props != [] {
      KeysAt(props[..|props| - 1]);
    }
  }

  /** A binding that no later binding overrides is what its key looks up. */
  lemma {:induction false} LookupAt(props: seq<(string, Value)>, i: nat)
    requires i < |props|
    requires forall j :: i < j < |props| ==> props[j].0 != props[i].0
    ensures Lookup(props, props[i].0) == props[i].1
  {
    if i < |props| - 1 {
      LookupAt(props[..|props| - 1], i);
    }
  }

  /** A key that no binding has looks up as undefined. */
  lemma {:induction false} LookupAbsent(props: seq<(string, Value)>, key: string)
    requires forall i :: 0 <= i < |props| ==> props[i].0 != key
    ensures Lookup(props, key) == Undefined
  {
    if props != [] {
      LookupAbsent(props[..|props| - 1], key);
    }
  }

  /**
   * The expression `v.key` for a key that is not a property of strings,
   * numbers, booleans, arrays or Object.prototype (the keys read here are
   * such keys): None stands for the TypeError thrown on undefined and null.
   */
  function Get(v: Value, key: string): (r: Option<Value>)
    ensures r.None? <==> v == Undefined || v == Null
  {
    match v
    case Undefined => None
    case Null => None
    case Obj(props) => Some(Lookup(props, key))
    case _ => Some(Undefined)
  }

  /**
   * The expression `a === b` for values of which at least one was just
   * produced by JSON.parse: objects and arrays are compared by identity, so
   * such a pair is never identical; NaN is not identical to itself.
   */
  predicate StrictEquals(a: Value, b: Value)
  {
    match (a, b)
    case (Undefined, Undefined) => true
    case (Null, Null) => true
    case (Bool(x), Bool(y)) => x == y
    case (Num(x), Num(y)) => x.Int? && y.Int? && x.i == y.i
    case (Str(x), Str(y)) => x == y
    case _ => false
  }
}
