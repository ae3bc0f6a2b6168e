/** Encoding a payload into its D-Bus value: arrays, state values and nodes
    (daemon/icd-payload.c:134-332). */
module PayloadEncode {
  import opened Wrappers
  import opened Scalars
  import opened IcUtils
  import opened Interfaces
  import opened Payload
  import opened WireFormat

  // ---------------------------------------------------------------------
  // What the encoder demands of its input

  /** The encoder divides the element count by dims[0] as soon as dims[1]
      is non-zero, so dims[0] may only be zero when dims[1] is. */
  predicate EncodableDims(dims: seq<nat>) {
    |dims| == MaxArrayDepth && (dims[0] == 0 ==> dims[1] == 0)
  }

  /** Whether depth `depth` is encoded as one flat leaf array. */
  predicate IsLeafDepth(dims: seq<nat>, depth: nat)
    requires |dims| == MaxArrayDepth && depth < MaxArrayDepth
  {
    depth == MaxArrayDepth - 1 || dims[depth + 1] == 0
  }

  /** The element count the encoder hands to depth `depth`. */
  function LenAt(dims: seq<nat>, depth: nat): nat
    requires |dims| == MaxArrayDepth
  {
    if depth == 0 then DimTotal(dims) else ProductFrom(dims, depth)
  }

  /** The arguments every call of the array encoder receives: the depth is
      in range, the count is the product of the remaining dimensions and the
      elements read lie inside the buffer. */
  predicate ArrayCall(a: ValueArray, depth: nat, len: nat, index: nat) {
    && EncodableDims(a.dims)
    && depth < MaxArrayDepth
    && len == LenAt(a.dims, depth)
    && (depth > 0 ==> a.dims[depth] > 0)
    && Fits(a.buf, index + len)
  }

  /** Every array reachable from a value can be encoded. */
  predicate ValueOk(v: PValue)
    decreases v, 1
  {
    match v
    case PObject(o) => PropsOk(o.values)
    case PArray(a) => ArrayOk(a)
    case _ => true
  }

  predicate PropsOk(ps: seq<Prop>)
    decreases ps, 0
  {
    forall k :: 0 <= k < |ps| ==> ValueOk(ps[k].value)
  }

  predicate ArrayOk(a: ValueArray)
    decreases a, 0
  {
    && EncodableDims(a.dims)
    && Fits(a.buf, DimTotal(a.dims))
    && (a.buf.ObjBuf? ==> forall k :: 0 <= k < DimTotal(a.dims) ==> PropsOk(a.buf.objs[k].values))
  }

  predicate NodeOk(n: Node) {
    PropsOk(n.values)
  }

  // ---------------------------------------------------------------------
  // State values

  /** 64-bit payload integers squeezed into the wire's int32. */
  function Int32s(xs: seq<int>): (r: seq<int>)
    ensures |r| == |xs|
    ensures forall k :: 0 <= k < |xs| ==> r[k] == ToInt32(xs[k])
  {
    seq(|xs|, k requires 0 <= k < |xs| => ToInt32(xs[k]))
  }

  /** `_icd_state_array_attr_to_gvariant`: `len` consecutive elements from
      `index` as one flat array.  NULL elements become the sentinel string
      and objects their state dictionaries.  GLib returns NULL for an empty
      array of indefinite element type, so a zero count yields None. */
  function LeafToWire(a: ValueArray, len: nat, index: nat): (r: Option<Wire>)
    requires Fits(a.buf, index + len)
    requires a.buf.ObjBuf? ==> forall k :: index <= k < index + len ==> PropsOk(a.buf.objs[k].values)
    ensures r.None? <==> len == 0
    ensures r.Some? ==> NChildren(r.value) == len && IsArray(r.value) && !r.value.WDict?
    decreases a, 0, 0, 0
  {
    if len == 0 then None
    else
      match a.buf
      case IntBuf(xs) => Some(WInt32Array(Int32s(xs[index..index + len])))
      case BoolBuf(xs) => Some(WBoolArray(xs[index..index + len]))
      case DoubleBuf(xs) => Some(WDoubleArray(xs[index..index + len]))
      case StrBuf(xs) => Some(WStringArray(xs[index..index + len]))
      case NullBuf => Some(WStringArray(seq(len, _ => StrNull)))
      case ObjBuf(xs) => Some(WVariantArray(ObjectsToWire(xs, index, index + len)))
  }

  /** The object elements objs[k..end] as `v`-wrapped state dictionaries. */
  function ObjectsToWire(objs: seq<Node>, k: nat, end: nat): (r: seq<Wire>)
    requires k <= end <= |objs|
    requires forall j :: k <= j < end ==> PropsOk(objs[j].values)
    ensures |r| == end - k
    ensures forall j :: 0 <= j < |r| ==> r[j] == WDict(StateToWire(objs[k + j].values))
    decreases objs, end - k, 0, 0
  {
    if k == end then []
    else [WDict(StateToWire(objs[k].values))] + ObjectsToWire(objs, k + 1, end)
  }

  /** `_icd_state_array_to_gvariant`: a leaf at the last depth or when the
      next dimension is zero; otherwise the slices of length
      len / dims[depth] produced by the stepping loop. */
  function ArrayToWire(a: ValueArray, depth: nat, len: nat, index: nat): (r: Option<Wire>)
    requires ArrayCall(a, depth, len, index)
    requires a.buf.ObjBuf? ==> forall k :: index <= k < index + len ==> PropsOk(a.buf.objs[k].values)
    ensures r.None? <==> len == 0
    ensures r.Some? ==> IsArray(r.value) && !r.value.WDict?
    decreases a, MaxArrayDepth - depth, 1, 0
  {
    if IsLeafDepth(a.dims, depth) then LeafToWire(a, len, index)
    else
      var next := Quot(len, a.dims[depth]);
      NextLen(a.dims, depth);
      var s := Slices(a, depth, next, index, index + len, a.dims[depth]);
      if |s| == 0 then None else Some(WVariantArray(s))
  }

  /** The loop `while ((index += next_len) < i)`: one slice per step from
      `cur` while it stays below `end`.  `count` is the number of steps
      left, so that every slice read stays below `end`. */
  function Slices(a: ValueArray, depth: nat, next: nat, cur: nat, end: nat, ghost count: nat): (r: seq<Wire>)
    requires depth + 1 < MaxArrayDepth && EncodableDims(a.dims) && a.dims[depth + 1] > 0
    requires next == LenAt(a.dims, depth + 1) && end == cur + Span(count, next)
    requires Fits(a.buf, end)
    requires a.buf.ObjBuf? ==> forall k :: cur <= k < end ==> PropsOk(a.buf.objs[k].values)
    ensures |r| == count
    decreases a, MaxArrayDepth - depth, 0, end - cur
  {
    if cur < end then
      var w := ArrayToWire(a, depth + 1, next, cur);
      [w.value] + Slices(a, depth, next, cur + next, end, count - 1)
    else
      []
  }

  /** Below a depth that is not a leaf, every slice holds the product of the
      remaining dimensions, which is at least one. */
  lemma NextLen(dims: seq<nat>, depth: nat)
    requires EncodableDims(dims) && depth + 1 < MaxArrayDepth && dims[depth + 1] > 0
    requires depth > 0 ==> dims[depth] > 0
    ensures dims[depth] > 0
    ensures Quot(LenAt(dims, depth), dims[depth]) == LenAt(dims, depth + 1)
    ensures LenAt(dims, depth) == Span(dims[depth], LenAt(dims, depth + 1))
  {
    var p := ProductFrom(dims, depth + 1);
    assert LenAt(dims, depth) == Span(dims[depth], p);
    SpanSwap(dims[depth], p);
    QuotSpan(p, dims[depth]);
  }

  /** One state value as its GVariant; an array with no elements yields None
      and is left out of the dictionary. */
  function ValueToWire(v: PValue): (r: Option<Wire>)
    requires ValueOk(v)
    ensures r.None? <==> v.PArray? && |v.arr.dims| == MaxArrayDepth && v.arr.dims[0] == 0
    ensures v.PNull? ==> r == Some(WString(StrNull))
    ensures v.PString? ==> r == Some(WString(v.s))
    ensures v.PInt? ==> r == Some(WInt32(ToInt32(v.i)))
    decreases v, 0, 0, 0
  {
    match v
    case PNull => Some(WString(StrNull))
    case PInt(i) => Some(WInt32(ToInt32(i)))
    case PDouble(d) => Some(WDouble(d))
    case PBool(b) => Some(WBool(b))
    case PString(s) => Some(WString(s))
    case PObject(o) => Some(WDict(StateToWire(o.values)))
    case PArray(a) =>
      assert ArrayOk(a);
      ArrayToWire(a, 0, DimTotal(a.dims), 0)
  }

  /** `_icd_state_value_to_gvariant_builder`: one dictionary entry per
      property whose value encodes, in list order. */
  function StateToWire(ps: seq<Prop>): (r: seq<Entry>)
    requires PropsOk(ps)
    ensures |r| <= |ps|
    decreases ps, 0, 0, 0
  {
    if |ps| == 0 then []
    else
      assert ValueOk(ps[0].value);
      var rest := StateToWire(ps[1..]);
      match ValueToWire(ps[0].value)
      case None => rest
      case Some(w) => [Entry(ps[0].name, w)] + rest
  }

  // ---------------------------------------------------------------------
  // Nodes

  /** `_icd_payload_representation_to_gvariant` for one node: None when an
      interface token is unknown; `children` are encoded without their own
      children, and a child that fails is left out. */
  function NodeToWire(t: IfaceTable, n: Node, children: seq<Node>): (r: Option<WireNode>)
    requires t.Valid() && NodeOk(n) && forall k :: 0 <= k < |children| ==> NodeOk(children[k])
    ensures r.Some? <==> MaskOf(t, n.ifaces).Some?
    ensures r.Some? ==> r.value.uri == DbusEncodeStr(n.uri) && r.value.ifaces == MaskOf(t, n.ifaces).value
    ensures r.Some? ==> r.value.types == n.types && r.value.state == StateToWire(n.values)
    ensures r.Some? ==> r.value.children == ChildrenToWire(t, children)
    decreases |children|, 1
  {
    match MaskOf(t, n.ifaces)
    case None => None
    case Some(m) => Some(WireNode(DbusEncodeStr(n.uri), m, n.types, StateToWire(n.values), ChildrenToWire(t, children)))
  }

  /** The children loop: each child encoded as a leaf node, failures dropped. */
  function ChildrenToWire(t: IfaceTable, cs: seq<Node>): (r: seq<WireNode>)
    requires t.Valid() && forall k :: 0 <= k < |cs| ==> NodeOk(cs[k])
    ensures |r| <= |cs|
    ensures forall k :: 0 <= k < |r| ==> r[k].children == []
    decreases |cs|, 0
  {
    if |cs| == 0 then []
    else
      match NodeToWire(t, cs[0], [])
      case None => ChildrenToWire(t, cs[1..])
      case Some(w) => [w] + ChildrenToWire(t, cs[1..])
  }

  /** Encoding of a whole representation: the head with the rest of its
      chain as children.  A NULL representation (empty chain) gives None. */
  function ChainToWire(t: IfaceTable, chain: Chain): (r: Option<WireNode>)
    requires t.Valid() && forall k :: 0 <= k < |chain| ==> NodeOk(chain[k])
    ensures |chain| == 0 ==> r.None?
    ensures |chain| > 0 ==> (r.Some? <==> MaskOf(t, chain[0].ifaces).Some?)
    ensures r.Some? ==> |r.value.children| <= |chain| - 1
  {
    if |chain| == 0 then None else NodeToWire(t, chain[0], chain[1..])
  }

  /** `icd_payload_representation_empty_gvariant` */
  const EmptyWire: WireNode := WireNode(StrNull, 0, [], [], [])
}
