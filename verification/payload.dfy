/** The daemon-side representation payload (IoTivity's OCRepPayload as the
    daemon uses it): a node with URI, resource types, interface tokens and
    a list of named state values, where a value may itself be an object or
    a homogeneous array of up to three dimensions.  A representation with
    children is a chain: the head followed by its `next` nodes. */
module Payload {
  import opened Wrappers
  import opened Scalars

  /** MAX_REP_ARRAY_DEPTH */
  const MaxArrayDepth: nat := 3

  /** The element buffer of an array value, tagged by element kind
      (OCREP_PROP_INT, _BOOL, _DOUBLE, _STRING, _OBJECT).  A NULL-kind array
      (OCREP_PROP_NULL) has no buffer: only its dimensions matter. */
  datatype Buffer =
    | IntBuf(ints: seq<int>)
    | BoolBuf(bools: seq<bool>)
    | DoubleBuf(doubles: seq<Double>)
    | StrBuf(strs: seq<string>)
    | ObjBuf(objs: seq<Node>)
    | NullBuf

  /** OCRepPayloadValueArray: the dimension vector and the flat buffer. */
  datatype ValueArray = ValueArray(dims: seq<nat>, buf: Buffer)

  /** The tagged payload of one state value. */
  datatype PValue =
    | PNull
    | PInt(i: int)
    | PDouble(d: Double)
    | PBool(b: bool)
    | PString(s: string)
    | PObject(obj: Node)
    | PArray(arr: ValueArray)

  /** OCRepPayloadValue: a named state value. */
  datatype Prop = Prop(name: string, value: PValue)

  /** One OCRepPayload node without its `next` link. */
  datatype Node = Node(uri: Option<string>, types: seq<string>, ifaces: seq<string>, values: seq<Prop>)

  /** A node and the nodes linked after it through `next`. */
  type Chain = seq<Node>

  /** OCRepPayloadCreate */
  const EmptyNode: Node := Node(None, [], [], [])

  /** Number of elements a buffer holds; a NULL-kind array holds none. */
  function BufLen(b: Buffer): nat {
    match b
    case IntBuf(xs) => |xs|
    case BoolBuf(xs) => |xs|
    case DoubleBuf(xs) => |xs|
    case StrBuf(xs) => |xs|
    case ObjBuf(xs) => |xs|
    case NullBuf => 0
  }

  /** Whether reading elements [0, n) of the buffer stays inside it; a
      NULL-kind array is never read. */
  predicate Fits(b: Buffer, n: nat) {
    b.NullBuf? || n <= BufLen(b)
  }

  /** `count * step`, spelled out as repeated addition; the products of
      the dimensions are built from it, which keeps every fact about them
      linear. */
  function Span(count: nat, step: nat): nat {
    if count == 0 then 0 else step + Span(count - 1, step)
  }

  lemma {:induction false} SpanMul(count: nat, step: nat)
    ensures Span(count, step) == count * step
  {
    if count > 0 {
      SpanMul(count - 1, step);
      assert count * step == step + (count - 1) * step;
    }
  }

  lemma {:induction false} SpanAtLeast(count: nat, step: nat)
    requires step >= 1
    ensures Span(count, step) >= count
  {
    if count > 0 {
      SpanAtLeast(count - 1, step);
    }
  }

  lemma {:induction false} SpanOne(count: nat)
    ensures Span(count, 1) == count
  {
    if count > 0 {
      SpanOne(count - 1);
    }
  }

  /** `n / d` on non-negative C ints, as repeated subtraction. */
  function Quot(n: nat, d: nat): nat
    requires d > 0
    decreases n
  {
    if n < d then 0 else 1 + Quot(n - d, d)
  }

  /** Dividing `count` steps of `step` by `step` gives `count` back. */
  lemma {:induction false} QuotSpan(count: nat, step: nat)
    requires step > 0
    ensures Quot(Span(count, step), step) == count
  {
    if count > 0 {
      QuotSpan(count - 1, step);
    }
  }

  /** Steps can be taken in either order. */
  lemma SpanSwap(count: nat, step: nat)
    ensures Span(count, step) == Span(step, count)
  {
    SpanMul(count, step);
    SpanMul(step, count);
  }

  /** Product of dims[i], dims[i+1], ... up to the first zero entry. */
  function ProductFrom(dims: seq<nat>, i: nat): (r: nat)
    ensures r >= 1
    decreases |dims| - i
  {
    if i >= |dims| || dims[i] == 0 then 1 else Span(dims[i], ProductFrom(dims, i + 1))
  }

  /** IoTivity's calcDimTotal: zero when the first dimension is zero,
      otherwise the product of the dimensions up to the first zero. */
  function DimTotal(dims: seq<nat>): (r: nat)
    requires |dims| == MaxArrayDepth
    ensures r == 0 <==> dims[0] == 0
    ensures dims[0] > 0 ==> r >= dims[0]
  {
    if dims[0] == 0 then 0
    else
      var rest := ProductFrom(dims, 1);
      SpanAtLeast(dims[0], rest);
      Span(dims[0], rest)
  }

  /** A dimension vector of the canonical form: positive dimensions first,
      then zeros, and at least one positive dimension. */
  predicate CanonicalDims(dims: seq<nat>) {
    && |dims| == MaxArrayDepth
    && dims[0] > 0
    && (forall i, j :: 0 <= i < j < |dims| && dims[i] == 0 ==> dims[j] == 0)
  }

  /** Position of the property called `name`, if any. */
  function FindProp(values: seq<Prop>, name: string): (r: Option<nat>)
    ensures r.Some? ==> r.value < |values| && values[r.value].name == name
    ensures r.None? <==> forall k :: 0 <= k < |values| ==> values[k].name != name
  {
    if |values| == 0 then None
    else if values[|values| - 1].name == name then Some(|values| - 1)
    else FindProp(values[..|values| - 1], name)
  }

  /** Whether no two properties share a name. */
  predicate UniqueNames(values: seq<Prop>) {
    forall i, j :: 0 <= i < j < |values| ==> values[i].name != values[j].name
  }

  /** The OCRepPayloadSetProp* family: a property of the same name keeps its
      position and takes the new value; otherwise the property is appended. */
  function SetProp(values: seq<Prop>, name: string, v: PValue): (r: seq<Prop>)
    ensures FindProp(values, name).None? ==> r == values + [Prop(name, v)]
    ensures FindProp(values, name).Some? ==>
      |r| == |values| && r[FindProp(values, name).value] == Prop(name, v)
    ensures FindProp(values, name).Some? ==>
      forall k :: 0 <= k < |values| && k != FindProp(values, name).value ==> r[k] == values[k]
  {
    match FindProp(values, name)
    case None => values + [Prop(name, v)]
    case Some(k) => values[k := Prop(name, v)]
  }

  /** Setting a property keeps names unique and makes it the value found
      under that name. */
  lemma SetPropUnique(values: seq<Prop>, name: string, v: PValue)
    requires UniqueNames(values)
    ensures UniqueNames(SetProp(values, name, v))
    ensures var r := SetProp(values, name, v);
      FindProp(r, name).Some? && r[FindProp(r, name).value].value == v
  {
    var r := SetProp(values, name, v);
    var f := FindProp(r, name);
    assert f.Some? by {
      var k := if FindProp(values, name).Some? then FindProp(values, name).value else |values|;
      assert r[k].name == name;
    }
  }
}
