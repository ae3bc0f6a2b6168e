/** Decoding a D-Bus value back into a payload: state values, nested arrays
    and nodes (daemon/icd-payload.c:402-666).  The array decoder here is
    the corrected one: it accepts only regular nestings of at most
    MaxArrayDepth levels whose elements all have one kind, which is what
    the buffer filling in `_icd_state_array_from_list` silently assumes
    (see PayloadArrayAsWritten for the code as written). */
module PayloadDecode {
  import opened Wrappers
  import opened Scalars
  import opened IcUtils
  import opened Interfaces
  import opened Payload
  import opened WireFormat

  /** Element kinds a decoded array can have. */
  datatype ItemKind = KBool | KInt | KDouble | KString | KObject

  /** One element collected from the wire, before it goes into a buffer. */
  datatype Item =
    | IBool(b: bool)
    | IInt(i: int)
    | IDouble(d: Double)
    | IString(s: string)
    | IObject(o: Node)

  predicate ItemHasKind(x: Item, k: ItemKind) {
    match x
    case IBool(_) => k == KBool
    case IInt(_) => k == KInt
    case IDouble(_) => k == KDouble
    case IString(_) => k == KString
    case IObject(_) => k == KObject
  }

  /** ItemHasKind spelled out per kind. */
  predicate KindCtor(x: Item, k: ItemKind) {
    && (k == KBool ==> x.IBool?)
    && (k == KInt ==> x.IInt?)
    && (k == KDouble ==> x.IDouble?)
    && (k == KString ==> x.IString?)
    && (k == KObject ==> x.IObject?)
  }

  /** A decoded nesting: element kind, the dimensions from the current depth
      down, and the elements in traversal order. */
  datatype Nested = Nested(kind: ItemKind, dims: seq<nat>, items: seq<Item>)

  predicate WellKinded(n: Nested) {
    forall k :: 0 <= k < |n.items| ==> ItemHasKind(n.items[k], n.kind)
  }

  function BoolItems(xs: seq<bool>): (r: seq<Item>)
    ensures |r| == |xs| && forall k :: 0 <= k < |xs| ==> r[k] == IBool(xs[k])
  {
    seq(|xs|, k requires 0 <= k < |xs| => IBool(xs[k]))
  }

  function IntItems(xs: seq<int>): (r: seq<Item>)
    ensures |r| == |xs| && forall k :: 0 <= k < |xs| ==> r[k] == IInt(xs[k])
  {
    seq(|xs|, k requires 0 <= k < |xs| => IInt(xs[k]))
  }

  function DoubleItems(xs: seq<Double>): (r: seq<Item>)
    ensures |r| == |xs| && forall k :: 0 <= k < |xs| ==> r[k] == IDouble(xs[k])
  {
    seq(|xs|, k requires 0 <= k < |xs| => IDouble(xs[k]))
  }

  function StringItems(xs: seq<string>): (r: seq<Item>)
    ensures |r| == |xs| && forall k :: 0 <= k < |xs| ==> r[k] == IString(xs[k])
  {
    seq(|xs|, k requires 0 <= k < |xs| => IString(xs[k]))
  }

  /** Whether every decoded sub-array has the kind and dimensions of the
      first, i.e. the nesting is regular. */
  predicate Uniform(ns: seq<Nested>)
    requires |ns| > 0
  {
    forall k :: 0 <= k < |ns| ==> ns[k].kind == ns[0].kind && ns[k].dims == ns[0].dims
  }

  /** The elements of the sub-arrays, one after the other. */
  function Flatten(ns: seq<Nested>): (r: seq<Item>)
  {
    if |ns| == 0 then [] else ns[0].items + Flatten(ns[1..])
  }

  lemma FlattenKinded(ns: seq<Nested>, kind: ItemKind)
    requires forall k :: 0 <= k < |ns| ==> ns[k].kind == kind && WellKinded(ns[k])
    ensures forall k :: 0 <= k < |Flatten(ns)| ==> ItemHasKind(Flatten(ns)[k], kind)
  {
    if |ns| > 0 {
      FlattenKinded(ns[1..], kind);
      var f := Flatten(ns);
      forall k | 0 <= k < |f|
        ensures ItemHasKind(f[k], kind)
      {
        if k >= |ns[0].items| {
          assert f[k] == Flatten(ns[1..])[k - |ns[0].items|];
        }
      }
    }
  }

  // ---------------------------------------------------------------------
  // State values and nested arrays (mutually recursive)

  /** `_icd_state_list_from_gvariant`, corrected: the dimension at `depth` is
      the child count, typed arrays contribute their elements, an `av` whose
      first element is a dictionary is an array of objects, and an `av` of
      arrays is one more level.  An empty `av`, a scalar element, a mixture
      of kinds or shapes, and nesting beyond MaxArrayDepth are rejected. */
  function NestedFromWire(w: Wire, depth: nat): (r: Option<Nested>)
    requires depth < MaxArrayDepth
    ensures r.Some? ==> 1 <= |r.value.dims| <= MaxArrayDepth - depth && r.value.dims[0] == NChildren(w)
    ensures r.Some? ==> WellKinded(r.value)
    decreases w, 1, 0
  {
    match w
    case WBoolArray(xs) => Some(Nested(KBool, [|xs|], BoolItems(xs)))
    case WInt32Array(xs) => Some(Nested(KInt, [|xs|], IntItems(xs)))
    case WDoubleArray(xs) => Some(Nested(KDouble, [|xs|], DoubleItems(xs)))
    case WStringArray(xs) => Some(Nested(KString, [|xs|], StringItems(xs)))
    case WVariantArray(vs) =>
      if |vs| == 0 then None
      else if vs[0].WDict? then
        match ObjectsFromWire(vs)
        case None => None
        case Some(os) => Some(Nested(KObject, [|vs|], os))
      else if IsArray(vs[0]) && depth + 1 < MaxArrayDepth then
        match SubArraysFromWire(vs, depth + 1)
        case None => None
        case Some(ns) =>
          if Uniform(ns) then
            FlattenKinded(ns, ns[0].kind);
            Some(Nested(ns[0].kind, [|vs|] + ns[0].dims, Flatten(ns)))
          else None
      else None
    case _ => None
  }

  /** The elements of an array of objects; each must be a dictionary. */
  function ObjectsFromWire(vs: seq<Wire>): (r: Option<seq<Item>>)
    ensures r.Some? ==> |r.value| == |vs| && forall k :: 0 <= k < |vs| ==> r.value[k].IObject?
    decreases vs, 0, 0
  {
    if |vs| == 0 then Some([])
    else if !vs[0].WDict? then None
    else
      match ObjectsFromWire(vs[1..])
      case None => None
      case Some(rest) => Some([IObject(Node(None, [], [], StateFromWire(vs[0].entries, [])))] + rest)
  }

  /** The sub-arrays of an `av`, each decoded one level deeper. */
  function SubArraysFromWire(vs: seq<Wire>, depth: nat): (r: Option<seq<Nested>>)
    requires depth < MaxArrayDepth
    ensures r.Some? ==> |r.value| == |vs|
    ensures r.Some? ==> forall k :: 0 <= k < |vs| ==>
      1 <= |r.value[k].dims| <= MaxArrayDepth - depth && WellKinded(r.value[k])
    decreases vs, 0, 0
  {
    if |vs| == 0 then Some([])
    else
      match NestedFromWire(vs[0], depth)
      case None => None
      case Some(n) =>
        match SubArraysFromWire(vs[1..], depth)
        case None => None
        case Some(rest) => Some([n] + rest)
  }

  /** One state value from its GVariant; None when the property is dropped
      (an array the decoder rejects).  The sentinel string is NULL. */
  function ValueFromWire(w: Wire): (r: Option<PValue>)
    ensures w.WString? ==> (r == Some(PNull) <==> w.s == StrNull)
    ensures w.WString? && w.s != StrNull ==> r == Some(PString(w.s))
    ensures w.WInt32? ==> r == Some(PInt(w.i))
    ensures w.WDict? ==> r.Some? && r.value.PObject? && r.value.obj.uri.None?
    ensures IsArray(w) && !w.WDict? ==> (r.Some? ==> r.value.PArray?)
    decreases w, 2, 0
  {
    match w
    case WBool(b) => Some(PBool(b))
    case WInt32(i) => Some(PInt(i))
    case WDouble(d) => Some(PDouble(d))
    case WString(s) => if s == StrNull then Some(PNull) else Some(PString(s))
    case WDict(es) => Some(PObject(Node(None, [], [], StateFromWire(es, []))))
    case _ =>
      match NestedFromWire(w, 0)
      case None => None
      case Some(n) =>
        match ArrayFromNested(n)
        case None => None
        case Some(a) => Some(PArray(a))
  }

  /** `_icd_state_value_from_gvariant`: each entry that decodes is set on the
      payload with SetProp, so a repeated key replaces the earlier value. */
  function StateFromWire(es: seq<Entry>, acc: seq<Prop>): (r: seq<Prop>)
    requires UniqueNames(acc)
    ensures UniqueNames(r)
    ensures |r| <= |acc| + |es|
    decreases es, 0, 0
  {
    if |es| == 0 then acc
    else
      match ValueFromWire(es[0].value)
      case None => StateFromWire(es[1..], acc)
      case Some(v) =>
        SetPropUnique(acc, es[0].key, v);
        StateFromWire(es[1..], SetProp(acc, es[0].key, v))
  }

  // ---------------------------------------------------------------------
  // From nested lists to array values

  /** Zeros appended to reach MaxArrayDepth dimensions. */
  function PadDims(d: seq<nat>): (r: seq<nat>)
    requires |d| <= MaxArrayDepth
    ensures |r| == MaxArrayDepth && r[..|d|] == d
    ensures forall k :: |d| <= k < MaxArrayDepth ==> r[k] == 0
  {
    d + seq(MaxArrayDepth - |d|, _ => 0)
  }

  /** The buffer of `items`, all of kind `kind`. */
  function ItemsToBuffer(kind: ItemKind, items: seq<Item>): (r: Buffer)
    requires forall k :: 0 <= k < |items| ==> ItemHasKind(items[k], kind)
    ensures BufLen(r) == |items| && !r.NullBuf?
  {
    assert forall k :: 0 <= k < |items| ==> KindCtor(items[k], kind) by {
      forall k | 0 <= k < |items| ensures KindCtor(items[k], kind) {
        assert ItemHasKind(items[k], kind);
      }
    }
    match kind
    case KBool =>
      BoolBuf(seq(|items|, k requires 0 <= k < |items| => items[k].b))
    case KInt =>
      IntBuf(seq(|items|, k requires 0 <= k < |items| => items[k].i))
    case KDouble =>
      DoubleBuf(seq(|items|, k requires 0 <= k < |items| => items[k].d))
    case KString =>
      StrBuf(seq(|items|, k requires 0 <= k < |items| => items[k].s))
    case KObject =>
      ObjBuf(seq(|items|, k requires 0 <= k < |items| => items[k].o))
  }

  /** `_icd_state_array_from_list`, corrected: the buffer holds exactly
      calcDimTotal(dims) elements, so a nesting whose element count differs
      from the product of its dimensions is rejected rather than written past
      the end of (or short of) the buffer. */
  function ArrayFromNested(n: Nested): (r: Option<ValueArray>)
    requires 1 <= |n.dims| <= MaxArrayDepth && WellKinded(n)
    ensures r.Some? <==> DimTotal(PadDims(n.dims)) == |n.items|
    ensures r.Some? ==> r.value.dims == PadDims(n.dims) && BufLen(r.value.buf) == DimTotal(r.value.dims)
  {
    var dims := PadDims(n.dims);
    if DimTotal(dims) != |n.items| then None
    else Some(ValueArray(dims, ItemsToBuffer(n.kind, n.items)))
  }

  // ---------------------------------------------------------------------
  // Nodes

  /** The children loop of `icd_payload_representation_from_gvariant`: `cur`
      starts at the head and each decoded child chain is linked at
      `cur->next` before `cur` moves to that child's head.  Linking the next
      child overwrites the previous child's own `next`, so only the last
      child keeps the rest of its chain. */
  function LinkChildren(cs: seq<Chain>): (r: Chain)
    requires forall k :: 0 <= k < |cs| ==> |cs[k]| > 0
    ensures |cs| == 0 ==> r == []
    ensures |cs| > 0 ==> |r| >= |cs|
    ensures forall k :: 0 <= k < |cs| ==> r[k] == cs[k][0]
  {
    if |cs| == 0 then []
    else if |cs| == 1 then cs[0]
    else [cs[0][0]] + LinkChildren(cs[1..])
  }

  /** `icd_payload_representation_from_gvariant`: the URI unless it is the
      sentinel, one interface token per set flag (None when a flag has no
      token), the resource types, the state, then the children linked after
      the head.  A child that fails to decode fails the whole result. */
  function NodeFromWire(t: IfaceTable, w: WireNode): (r: Option<Chain>)
    ensures r.Some? <==> TokensOfMask(t, w.ifaces).Some? && ChildrenFromWire(t, w.children).Some?
    ensures r.Some? ==> |r.value| >= 1 + |w.children|
    ensures r.Some? ==> r.value[0] == Node(DbusDecodeStr(Some(w.uri)), w.types, TokensOfMask(t, w.ifaces).value, StateFromWire(w.state, []))
    decreases w, 1
  {
    match TokensOfMask(t, w.ifaces)
    case None => None
    case Some(ifaces) =>
      var head := Node(DbusDecodeStr(Some(w.uri)), w.types, ifaces, StateFromWire(w.state, []));
      match ChildrenFromWire(t, w.children)
      case None => None
      case Some(cs) => Some([head] + LinkChildren(cs))
  }

  function ChildrenFromWire(t: IfaceTable, ws: seq<WireNode>): (r: Option<seq<Chain>>)
    ensures r.Some? ==> |r.value| == |ws| && forall k :: 0 <= k < |ws| ==> |r.value[k]| > 0
    decreases ws, 0
  {
    if |ws| == 0 then Some([])
    else
      match NodeFromWire(t, ws[0])
      case None => None
      case Some(c) =>
        match ChildrenFromWire(t, ws[1..])
        case None => None
        case Some(rest) => Some([c] + rest)
  }
}
