/** The slice of JavaScript value semantics the two renderers depend on:
    primitive values and their truthiness, plain objects with ordered keys,
    and link endpoints that are either a raw id or a node object. */
module Js {
  import opened Common
  import OrderedDict

  /** Primitive values; numbers are taken as reals (NaN is not modelled). */
  datatype Value = Str(s: string) | Num(n: real) | Null | Undefined

  /** `!!v` */
  predicate Truthy(v: Value) {
    match v
    case Str(s) => s != ""
    case Num(n) => n != 0.0
    case Null => false
    case Undefined => false
  }

  /** A plain object: its own keys in `Object.keys` order. */
  type Obj = OrderedDict.Dict<string, Value>

  /** `o[k]`, `undefined` when the key is absent. */
  function Get(o: Obj, k: string): (v: Value)
    ensures k !in OrderedDict.Keys(o) ==> v == Undefined
    ensures k in OrderedDict.Keys(o) ==> (k, v) in o
  {
    match OrderedDict.Get(o, k)
    case Some(v) => v
    case None => Undefined
  }

  /** `o[k] = v`: a new key goes last, an existing key keeps its place. */
  function Set(o: Obj, k: string, v: Value): (r: Obj)
    ensures Get(r, k) == v
    ensures forall k' :: k' != k ==> Get(r, k') == Get(o, k')
    ensures k in OrderedDict.Keys(o) ==> OrderedDict.Keys(r) == OrderedDict.Keys(o)
    ensures k !in OrderedDict.Keys(o) ==> OrderedDict.Keys(r) == OrderedDict.Keys(o) + [k]
  {
    OrderedDict.Put(o, k, v)
  }

  /** Assigning a property never removes one. */
  lemma SetKeepsKeys(o: Obj, k: string, v: Value)
    ensures forall k' :: k' in OrderedDict.Keys(o) ==> k' in OrderedDict.Keys(Set(o, k, v))
  {
  }

  /** Code-point order on strings, the order Python's `sorted` gives. */
  predicate StringBelow(a: string, b: string)
    decreases |a|
  {
    |b| > 0 && (|a| == 0 || a[0] < b[0] || (a[0] == b[0] && StringBelow(a[1..], b[1..])))
  }

  /** Strictly increasing strings, each below the next. */
  predicate SortedStrings(ks: seq<string>)
    decreases |ks|
  {
    |ks| < 2 || (StringBelow(ks[0], ks[1]) && SortedStrings(ks[1..]))
  }

  /** Strings that agree up to `k` and differ there are ordered by that
      character. */
  lemma {:induction false} BelowAt(a: string, b: string, k: nat)
    requires k < |a| && k < |b| && a[..k] == b[..k] && a[k] < b[k]
    ensures StringBelow(a, b)
    decreases k
  {
    if k > 0 {
      assert a[0] == a[..k][0] == b[..k][0] == b[0];
      assert a[1..][..k - 1] == a[..k][1..];
      assert b[1..][..k - 1] == b[..k][1..];
      BelowAt(a[1..], b[1..], k - 1);
    }
  }

  /** Each string below the next makes the list sorted. */
  lemma {:induction false} SortedOfPairs(ks: seq<string>)
    requires forall i :: 0 < i < |ks| ==> StringBelow(ks[i - 1], ks[i])
    ensures SortedStrings(ks)
    decreases |ks|
  {
    if |ks| >= 2 {
      assert forall i :: 0 < i < |ks[1..]| ==> ks[1..][i - 1] == ks[i] && ks[1..][i] == ks[i + 1];
      SortedOfPairs(ks[1..]);
      assert StringBelow(ks[0], ks[1]);
    }
  }

  /** The keys are in strictly increasing order, as Flask's `jsonify`
      writes them. */
  predicate SortedKeys(o: Obj) {
    SortedStrings(OrderedDict.Keys(o))
  }

  /** The object with the given keys and values, in that order. */
  function Fields(ks: seq<string>, vs: seq<Value>): (o: Obj)
    requires |ks| == |vs|
    ensures OrderedDict.Keys(o) == ks
    ensures forall i :: 0 <= i < |ks| ==> o[i] == (ks[i], vs[i])
  {
    seq(|ks|, i requires 0 <= i < |ks| => (ks[i], vs[i]))
  }

  function Id(o: Obj): Value {
    Get(o, "id")
  }

  /** A link endpoint: a raw id as loaded, or the node object d3 put in
      its place. */
  datatype Endpoint = Raw(v: Value) | Ref(node: Obj)

  /** `typeof e === "object" ? e.id : e` (task3 renderer): the node's `id`
      property once d3 has resolved the endpoint, the raw id before. */
  function EndpointId(e: Endpoint): (v: Value)
    ensures e.Ref? ==> v == Get(e.node, "id")
    ensures e.Raw? ==> v == e.v
  {
    match e
    case Raw(v) => v
    case Ref(o) => Id(o)
  }

  /** Resolving a raw id to the node carrying it does not change the key the
      renderer reads, so degrees and the linked-id set are the same before
      and after the simulation starts. */
  lemma ResolvingKeepsEndpointId(o: Obj, v: Value)
    requires Get(o, "id") == v
    ensures EndpointId(Ref(o)) == EndpointId(Raw(v))
  {
  }

  /** What `e.id || e` evaluates to on a node object: a primitive id, or the
      object itself when the id is falsy. */
  datatype Key = Prim(v: Value) | Whole(node: Obj)

  /** `e.id || e` on a node object (React renderer). */
  function ObjectKey(o: Obj): (k: Key)
    ensures k.Prim? <==> Truthy(Id(o))
    ensures k.Prim? ==> k.v == Id(o)
    ensures k.Whole? ==> k.node == o
  {
    if Truthy(Id(o)) then Prim(Id(o)) else Whole(o)
  }

  /** The two endpoint keyings agree exactly on objects whose id is truthy. */
  lemma KeyingsAgreeIffTruthy(o: Obj)
    ensures ObjectKey(o) == Prim(EndpointId(Ref(o))) <==> Truthy(Id(o))
  {
  }
}
