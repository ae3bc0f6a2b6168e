/** Round trips through the D-Bus value: decoding what the encoder emits
    gives back the payload, for payloads the wire can carry faithfully. */
module PayloadRoundTrip {
  import opened Wrappers
  import opened Scalars
  import opened IcUtils
  import opened Interfaces
  import opened Payload
  import opened WireFormat
  import opened PayloadEncode
  import opened PayloadDecode

  // ---------------------------------------------------------------------
  // Which payloads survive the wire

  /** An object value carries only its state: the encoder drops the URI,
      types and interfaces of a nested object. */
  predicate Bare(n: Node) {
    n.uri.None? && n.types == [] && n.ifaces == []
  }

  /** A value that survives encoding and decoding: integers fit in int32,
      no string equals the sentinel, objects are bare, arrays are
      canonical, non-NULL and exactly filled, recursively. */
  predicate ValueRT(v: PValue)
    decreases v, 1
  {
    match v
    case PInt(i) => InInt32(i)
    case PString(s) => s != StrNull
    case PObject(o) => Bare(o) && PropsRT(o.values)
    case PArray(a) => ArrayRT(a)
    case _ => true
  }

  predicate PropsRT(ps: seq<Prop>)
    decreases ps, 0
  {
    UniqueNames(ps) && forall k :: 0 <= k < |ps| ==> ValueRT(ps[k].value)
  }

  predicate ArrayRT(a: ValueArray)
    decreases a, 0
  {
    && CanonicalDims(a.dims)
    && !a.buf.NullBuf?
    && BufLen(a.buf) == DimTotal(a.dims)
    && (a.buf.IntBuf? ==> forall k :: 0 <= k < |a.buf.ints| ==> InInt32(a.buf.ints[k]))
    && (a.buf.ObjBuf? ==> forall k :: 0 <= k < |a.buf.objs| ==> Bare(a.buf.objs[k]) && PropsRT(a.buf.objs[k].values))
  }

  lemma {:induction false} ValueRTOk(v: PValue)
    requires ValueRT(v)
    ensures ValueOk(v)
    decreases v, 1
  {
    match v
    case PObject(o) => PropsRTOk(o.values);
    case PArray(a) => ArrayRTOk(a);
    case _ =>
  }

  lemma {:induction false} PropsRTOk(ps: seq<Prop>)
    requires PropsRT(ps)
    ensures PropsOk(ps)
    decreases ps, 0
  {
    forall k | 0 <= k < |ps| ensures ValueOk(ps[k].value) {
      ValueRTOk(ps[k].value);
    }
  }

  lemma {:induction false} ArrayRTOk(a: ValueArray)
    requires ArrayRT(a)
    ensures ArrayOk(a)
    decreases a, 0
  {
    if a.buf.ObjBuf? {
      forall k | 0 <= k < DimTotal(a.dims) ensures PropsOk(a.buf.objs[k].values) {
        PropsRTOk(a.buf.objs[k].values);
      }
    }
  }

  // ---------------------------------------------------------------------
  // Buffers as element lists

  function KindOf(b: Buffer): ItemKind
    requires !b.NullBuf?
  {
    match b
    case IntBuf(_) => KInt
    case BoolBuf(_) => KBool
    case DoubleBuf(_) => KDouble
    case StrBuf(_) => KString
    case ObjBuf(_) => KObject
  }

  function ObjItems(xs: seq<Node>): (r: seq<Item>)
    ensures |r| == |xs| && forall k :: 0 <= k < |xs| ==> r[k] == IObject(xs[k])
  {
    seq(|xs|, k requires 0 <= k < |xs| => IObject(xs[k]))
  }

  /** Element k of a buffer as a decoder item. */
  function BufItem(b: Buffer, k: nat): Item
    requires !b.NullBuf? && k < BufLen(b)
  {
    match b
    case IntBuf(xs) => IInt(xs[k])
    case BoolBuf(xs) => IBool(xs[k])
    case DoubleBuf(xs) => IDouble(xs[k])
    case StrBuf(xs) => IString(xs[k])
    case ObjBuf(xs) => IObject(xs[k])
  }

  /** Elements [i, j) of a buffer as decoder items. */
  function BufItems(b: Buffer, i: nat, j: nat): (r: seq<Item>)
    requires !b.NullBuf? && i <= j <= BufLen(b)
    ensures |r| == j - i && forall k :: 0 <= k < j - i ==> r[k] == BufItem(b, i + k)
  {
    seq(j - i, k requires 0 <= k < j - i => BufItem(b, i + k))
  }

  /** The items of a run of elements, kind by kind, as the decoder builds
      them from a typed array. */
  lemma BufItemsLeaf(b: Buffer, i: nat, j: nat)
    requires !b.NullBuf? && i <= j <= BufLen(b)
    ensures b.IntBuf? ==> BufItems(b, i, j) == IntItems(b.ints[i..j])
    ensures b.BoolBuf? ==> BufItems(b, i, j) == BoolItems(b.bools[i..j])
    ensures b.DoubleBuf? ==> BufItems(b, i, j) == DoubleItems(b.doubles[i..j])
    ensures b.StrBuf? ==> BufItems(b, i, j) == StringItems(b.strs[i..j])
    ensures b.ObjBuf? ==> BufItems(b, i, j) == ObjItems(b.objs[i..j])
  {
    match b
    case IntBuf(xs) => assert BufItems(b, i, j) == IntItems(xs[i..j]);
    case BoolBuf(xs) => assert BufItems(b, i, j) == BoolItems(xs[i..j]);
    case DoubleBuf(xs) => assert BufItems(b, i, j) == DoubleItems(xs[i..j]);
    case StrBuf(xs) => assert BufItems(b, i, j) == StringItems(xs[i..j]);
    case ObjBuf(xs) => assert BufItems(b, i, j) == ObjItems(xs[i..j]);
  }

  lemma BufItemsKinded(b: Buffer, i: nat, j: nat)
    requires !b.NullBuf? && i <= j <= BufLen(b)
    ensures WellKinded(Nested(KindOf(b), [], BufItems(b, i, j)))
  {
  }

  /** Filling a buffer from its own elements gives the buffer back. */
  lemma ItemsToBufferOfBuf(b: Buffer)
    requires !b.NullBuf?
    ensures ItemsToBuffer(KindOf(b), BufItems(b, 0, BufLen(b))) == b
  {
    BufItemsLeaf(b, 0, BufLen(b));
    match b
    case IntBuf(xs) => assert xs[0..|xs|] == xs;
    case BoolBuf(xs) => assert xs[0..|xs|] == xs;
    case DoubleBuf(xs) => assert xs[0..|xs|] == xs;
    case StrBuf(xs) => assert xs[0..|xs|] == xs;
    case ObjBuf(xs) => assert xs[0..|xs|] == xs;
  }

  // ---------------------------------------------------------------------
  // Dimensions

  /** The positive dimensions from depth `d` on, as the decoder rebuilds
      them. */
  function DimsFrom(dims: seq<nat>, d: nat): (r: seq<nat>)
    decreases |dims| - d
  {
    if d >= |dims| || dims[d] == 0 then [] else [dims[d]] + DimsFrom(dims, d + 1)
  }

  lemma PadDimsFrom(dims: seq<nat>)
    requires CanonicalDims(dims)
    ensures |DimsFrom(dims, 0)| <= MaxArrayDepth && PadDims(DimsFrom(dims, 0)) == dims
  {
    assert DimsFrom(dims, 3) == [];
    if dims[1] == 0 {
      assert DimsFrom(dims, 0) == [dims[0]];
    } else if dims[2] == 0 {
      assert DimsFrom(dims, 1) == [dims[1]];
    } else {
      assert DimsFrom(dims, 2) == [dims[2]];
    }
  }

  /** At a leaf depth the count is the dimension there; elsewhere the
      dimension list grows by one entry. */
  lemma LeafLen(a: ValueArray, depth: nat, len: nat, index: nat)
    requires ArrayCall(a, depth, len, index) && CanonicalDims(a.dims) && IsLeafDepth(a.dims, depth)
    ensures a.dims[depth] > 0 && len == a.dims[depth]
    ensures DimsFrom(a.dims, depth) == [a.dims[depth]]
  {
    var dims := a.dims;
    SpanOne(dims[depth]);
    assert ProductFrom(dims, 3) == 1;
    assert DimsFrom(dims, 3) == [];
    if depth == 0 {
      assert dims[1] == 0;
      assert ProductFrom(dims, 1) == 1;
      assert DimsFrom(dims, 1) == [];
    } else if depth == 1 {
      assert dims[2] == 0;
      assert ProductFrom(dims, 2) == 1;
      assert DimsFrom(dims, 2) == [];
    }
  }

  // ---------------------------------------------------------------------
  // The round trip, by mutual induction over the payload

  lemma IntItemsInt32(xs: seq<int>)
    requires forall k :: 0 <= k < |xs| ==> InInt32(xs[k])
    ensures Int32s(xs) == xs
  {
  }

  /** A state value survives encoding and decoding. */
  lemma {:induction false} ValueRoundTrip(v: PValue)
    requires ValueRT(v)
    ensures ValueRTOkFact(v) && ValueToWire(v).Some?
    ensures ValueFromWire(ValueToWire(v).value) == Some(v)
    decreases v, 3, 0, 0
  {
    ValueRTOk(v);
    match v
    case PObject(o) =>
      PropsRTOk(o.values);
      ObjectRoundTrip(o);
    case PArray(a) => ArrayValueRoundTrip(a);
    case _ =>
  }

  /** A bare object is rebuilt from its state dictionary. */
  lemma {:induction false} ObjectRoundTrip(o: Node)
    requires Bare(o) && PropsRT(o.values) && PropsOk(o.values)
    ensures Node(None, [], [], StateFromWire(StateToWire(o.values), [])) == o
    decreases o, 3, 0, 0
  {
    StateRoundTrip(o.values, []);
    assert [] + o.values == o.values;
  }

  /** An array value survives encoding and decoding. */
  lemma {:induction false} ArrayValueRoundTrip(a: ValueArray)
    requires ArrayRT(a)
    ensures ArrayOk(a) && ValueOk(PArray(a)) && ValueToWire(PArray(a)).Some?
    ensures ValueFromWire(ValueToWire(PArray(a)).value) == Some(PArray(a))
    decreases a, 4, 0, 0
  {
    ArrayRTOk(a);
    var total := DimTotal(a.dims);
    ArrayRoundTrip(a, 0, total, 0);
    var w := ArrayToWire(a, 0, total, 0).value;
    assert ValueToWire(PArray(a)) == Some(w);
    var n := NestedFromWire(w, 0).value;
    PadDimsFrom(a.dims);
    ItemsToBufferOfBuf(a.buf);
    assert ArrayFromNested(n) == Some(a);
  }

  /** ValueOk, stated so that ValueRoundTrip can name it in its contract. */
  predicate ValueRTOkFact(v: PValue) {
    ValueOk(v)
  }

  /** No name of `acc` is a name of `ps`. */
  predicate NamesApart(acc: seq<Prop>, ps: seq<Prop>) {
    forall i, j :: 0 <= i < |acc| && 0 <= j < |ps| ==> acc[i].name != ps[j].name
  }

  /** The tail of a round-trippable property list is round-trippable. */
  lemma PropsTail(ps: seq<Prop>)
    requires |ps| > 0 && PropsRT(ps) && PropsOk(ps)
    ensures PropsRT(ps[1..]) && PropsOk(ps[1..]) && ValueRT(ps[0].value)
  {
    forall k | 0 <= k < |ps[1..]| ensures ps[1..][k] == ps[k + 1] { }
  }

  /** Moving the head of `ps` onto `acc` keeps the names unique and apart. */
  lemma NamesShift(acc: seq<Prop>, ps: seq<Prop>)
    requires |ps| > 0 && UniqueNames(acc) && UniqueNames(ps) && NamesApart(acc, ps)
    ensures UniqueNames(acc + [ps[0]]) && NamesApart(acc + [ps[0]], ps[1..])
  {
    var acc' := acc + [ps[0]];
    forall i, j | 0 <= i < |acc'| && 0 <= j < |ps[1..]| ensures acc'[i].name != ps[1..][j].name {
      assert ps[1..][j] == ps[j + 1];
      if i == |acc| {
        assert acc'[i] == ps[0];
      }
    }
  }

  /** Decoding one entry whose value decodes sets that value. */
  lemma StateFromWireCons(e: Entry, rest: seq<Entry>, acc: seq<Prop>, v: PValue)
    requires UniqueNames(acc) && ValueFromWire(e.value) == Some(v)
    ensures UniqueNames(SetProp(acc, e.key, v))
    ensures StateFromWire([e] + rest, acc) == StateFromWire(rest, SetProp(acc, e.key, v))
  {
    SetPropUnique(acc, e.key, v);
    var es := [e] + rest;
    assert es[0] == e && es[1..] == rest;
  }

  /** Encoding a property list whose first value is kept: that entry, then
      the rest. */
  lemma StateToWireCons(ps: seq<Prop>)
    requires |ps| > 0 && PropsOk(ps) && PropsOk(ps[1..]) && ValueToWire(ps[0].value).Some?
    ensures StateToWire(ps) == [Entry(ps[0].name, ValueToWire(ps[0].value).value)] + StateToWire(ps[1..])
  {
  }

  /** Setting a name `acc` does not hold appends the property. */
  lemma SetPropFresh(acc: seq<Prop>, ps: seq<Prop>)
    requires |ps| > 0 && NamesApart(acc, ps)
    ensures SetProp(acc, ps[0].name, ps[0].value) == acc + [ps[0]]
  {
    assert FindProp(acc, ps[0].name).None?;
  }

  /** A property list with unique names survives encoding and decoding when
      decoded after properties whose names it does not reuse. */
  lemma {:induction false} StateRoundTrip(ps: seq<Prop>, acc: seq<Prop>)
    requires PropsRT(ps) && PropsOk(ps) && UniqueNames(acc) && NamesApart(acc, ps)
    ensures StateFromWire(StateToWire(ps), acc) == acc + ps
    decreases ps, 2, 0, 0
  {
    if |ps| == 0 {
      assert acc + ps == acc;
    } else {
      PropsTail(ps);
      ValueRoundTrip(ps[0].value);
      NamesShift(acc, ps);
      StateRoundTrip(ps[1..], acc + [ps[0]]);
      StateToWireCons(ps);
      SetPropFresh(acc, ps);
      StateStep(acc, ps, Entry(ps[0].name, ValueToWire(ps[0].value).value), StateToWire(ps[1..]), StateToWire(ps));
    }
  }

  /** The step of StateRoundTrip: an entry that decodes to the head
      property, followed by entries that decode to the rest after it,
      decodes to the whole list. */
  lemma StateStep(acc: seq<Prop>, ps: seq<Prop>, e: Entry, rest: seq<Entry>, whole: seq<Entry>)
    requires |ps| > 0 && UniqueNames(acc) && whole == [e] + rest
    requires e.key == ps[0].name && ValueFromWire(e.value) == Some(ps[0].value)
    requires SetProp(acc, ps[0].name, ps[0].value) == acc + [ps[0]]
    requires UniqueNames(acc + [ps[0]]) && StateFromWire(rest, acc + [ps[0]]) == acc + [ps[0]] + ps[1..]
    ensures StateFromWire(whole, acc) == acc + ps
  {
    StateFromWireCons(e, rest, acc, ps[0].value);
    assert acc + [ps[0]] + ps[1..] == acc + ps;
  }

  /** Objects objs[i..j] survive the trip through their dictionaries. */
  lemma ObjItemsCons(objs: seq<Node>, i: nat, j: nat)
    requires i < j <= |objs|
    ensures ObjItems(objs[i..j]) == [IObject(objs[i])] + ObjItems(objs[i + 1..j])
  {
  }

  lemma ObjectsToWireCons(objs: seq<Node>, i: nat, j: nat)
    requires i < j <= |objs| && forall k :: i <= k < j ==> PropsOk(objs[k].values)
    ensures var ws := ObjectsToWire(objs, i, j);
      |ws| > 0 && ws[0] == WDict(StateToWire(objs[i].values)) && ws[1..] == ObjectsToWire(objs, i + 1, j)
  {
  }

  lemma {:induction false} ObjectsRoundTrip(objs: seq<Node>, i: nat, j: nat)
    requires i <= j <= |objs|
    requires forall k :: i <= k < j ==> Bare(objs[k]) && PropsRT(objs[k].values) && PropsOk(objs[k].values)
    ensures ObjectsFromWire(ObjectsToWire(objs, i, j)) == Some(ObjItems(objs[i..j]))
    decreases objs, j - i, 0, 0
  {
    if i < j {
      ObjectRoundTrip(objs[i]);
      ObjectsToWireCons(objs, i, j);
      ObjectsRoundTrip(objs, i + 1, j);
      ObjItemsCons(objs, i, j);
    }
  }

  /** The facts the array round trip needs about the elements it reads. */
  predicate ArrayRTCall(a: ValueArray, depth: nat, len: nat, index: nat) {
    && ArrayCall(a, depth, len, index)
    && ArrayRT(a)
    && ArrayOk(a)
    && index + len <= BufLen(a.buf)
    && (a.buf.ObjBuf? ==> forall k :: index <= k < index + len ==> PropsOk(a.buf.objs[k].values))
  }

  /** Decoding the encoding of elements [index, index + len) at `depth`
      rebuilds the dimensions from `depth` on and those elements in order. */
  lemma {:induction false} ArrayRoundTrip(a: ValueArray, depth: nat, len: nat, index: nat)
    requires ArrayRTCall(a, depth, len, index) && len > 0
    ensures ArrayToWire(a, depth, len, index).Some?
    ensures NestedFromWire(ArrayToWire(a, depth, len, index).value, depth)
      == Some(Nested(KindOf(a.buf), DimsFrom(a.dims, depth), BufItems(a.buf, index, index + len)))
    decreases a, MaxArrayDepth - depth, 2, 0
  {
    if IsLeafDepth(a.dims, depth) {
      LeafLen(a, depth, len, index);
      LeafRoundTrip(a, depth, len, index);
    } else {
      NestRoundTrip(a, depth, len, index);
    }
  }

  /** The nested case: the slices decode to a regular nesting one level
      deeper. */
  lemma {:induction false} NestRoundTrip(a: ValueArray, depth: nat, len: nat, index: nat)
    requires ArrayRTCall(a, depth, len, index) && len > 0 && !IsLeafDepth(a.dims, depth)
    ensures ArrayToWire(a, depth, len, index).Some?
    ensures NestedFromWire(ArrayToWire(a, depth, len, index).value, depth)
      == Some(Nested(KindOf(a.buf), DimsFrom(a.dims, depth), BufItems(a.buf, index, index + len)))
    decreases a, MaxArrayDepth - depth, 1, 0
  {
    NextLen(a.dims, depth);
    var next := LenAt(a.dims, depth + 1);
    var count := a.dims[depth];
    var s := Slices(a, depth, next, index, index + len, count);
    assert ArrayToWire(a, depth, len, index) == Some(WVariantArray(s));
    SlicesRoundTrip(a, depth, next, index, index + len, count);
    var ns := SubArraysFromWire(s, depth + 1).value;
    assert Uniform(ns);
    assert s[0] == ArrayToWire(a, depth + 1, next, index).value;
    assert IsArray(s[0]) && !s[0].WDict?;
    assert DimsFrom(a.dims, depth) == [count] + DimsFrom(a.dims, depth + 1);
  }

  /** The leaf case: a flat array decodes to its elements. */
  lemma {:induction false} LeafRoundTrip(a: ValueArray, depth: nat, len: nat, index: nat)
    requires ArrayRTCall(a, depth, len, index) && len > 0 && IsLeafDepth(a.dims, depth)
    requires DimsFrom(a.dims, depth) == [len]
    ensures ArrayToWire(a, depth, len, index).Some?
    ensures NestedFromWire(ArrayToWire(a, depth, len, index).value, depth)
      == Some(Nested(KindOf(a.buf), DimsFrom(a.dims, depth), BufItems(a.buf, index, index + len)))
    decreases a, MaxArrayDepth - depth, 1, 0
  {
    assert ArrayToWire(a, depth, len, index) == LeafToWire(a, len, index);
    LeafDecodes(a, depth, len, index);
  }

  /** A flat array of elements [index, index + len) decodes to those
      elements, with the count as its one dimension. */
  lemma {:induction false} LeafDecodes(a: ValueArray, depth: nat, len: nat, index: nat)
    requires depth < MaxArrayDepth && ArrayRT(a) && len > 0 && index + len <= BufLen(a.buf)
    requires a.buf.ObjBuf? ==> forall k :: index <= k < index + len ==> PropsOk(a.buf.objs[k].values)
    ensures LeafToWire(a, len, index).Some?
    ensures NestedFromWire(LeafToWire(a, len, index).value, depth)
      == Some(Nested(KindOf(a.buf), [len], BufItems(a.buf, index, index + len)))
    decreases a, MaxArrayDepth - depth, 0, 1
  {
    BufItemsLeaf(a.buf, index, index + len);
    match a.buf
    case IntBuf(xs) => IntLeafDecodes(xs[index..index + len], depth);
    case ObjBuf(xs) => ObjLeafDecodes(xs, index, index + len, depth);
    case _ =>
  }

  lemma IntLeafDecodes(xs: seq<int>, depth: nat)
    requires depth < MaxArrayDepth && forall k :: 0 <= k < |xs| ==> InInt32(xs[k])
    ensures NestedFromWire(WInt32Array(Int32s(xs)), depth) == Some(Nested(KInt, [|xs|], IntItems(xs)))
  {
    IntItemsInt32(xs);
  }

  lemma ObjLeafDecodes(objs: seq<Node>, i: nat, j: nat, depth: nat)
    requires depth < MaxArrayDepth && i < j <= |objs|
    requires forall k :: i <= k < j ==> Bare(objs[k]) && PropsRT(objs[k].values) && PropsOk(objs[k].values)
    ensures NestedFromWire(WVariantArray(ObjectsToWire(objs, i, j)), depth)
      == Some(Nested(KObject, [j - i], ObjItems(objs[i..j])))
    decreases objs, j - i, 0, 1
  {
    ObjectsRoundTrip(objs, i, j);
    assert ObjectsToWire(objs, i, j)[0].WDict?;
  }

  /** The stepping loop's slices decode to consecutive runs of elements with
      the dimensions of the next depth. */
  lemma {:induction false} SlicesRoundTrip(a: ValueArray, depth: nat, next: nat, cur: nat, end: nat, count: nat)
    requires depth + 1 < MaxArrayDepth && EncodableDims(a.dims) && a.dims[depth + 1] > 0
    requires next == LenAt(a.dims, depth + 1) && end == cur + Span(count, next)
    requires ArrayRT(a) && ArrayOk(a) && end <= BufLen(a.buf)
    requires a.buf.ObjBuf? ==> forall k :: cur <= k < end ==> PropsOk(a.buf.objs[k].values)
    ensures SubArraysFromWire(Slices(a, depth, next, cur, end, count), depth + 1).Some?
    ensures var ns := SubArraysFromWire(Slices(a, depth, next, cur, end, count), depth + 1).value;
      && |ns| == count
      && (forall k :: 0 <= k < |ns| ==> ns[k].kind == KindOf(a.buf) && ns[k].dims == DimsFrom(a.dims, depth + 1))
      && Flatten(ns) == BufItems(a.buf, cur, end)
    decreases a, MaxArrayDepth - depth, 0, 2
  {
    SlicesDecode(a, depth, next, cur, end, count);
    DecodedRuns(Slices(a, depth, next, cur, end, count), depth + 1, KindOf(a.buf), DimsFrom(a.dims, depth + 1),
      next, BufItems(a.buf, cur, end));
  }

  /** Every slice of the stepping loop decodes to its run of elements. */
  lemma {:induction false} SlicesDecode(a: ValueArray, depth: nat, next: nat, cur: nat, end: nat, count: nat)
    requires depth + 1 < MaxArrayDepth && EncodableDims(a.dims) && a.dims[depth + 1] > 0
    requires next == LenAt(a.dims, depth + 1) && end == cur + Span(count, next)
    requires ArrayRT(a) && ArrayOk(a) && end <= BufLen(a.buf)
    requires a.buf.ObjBuf? ==> forall k :: cur <= k < end ==> PropsOk(a.buf.objs[k].values)
    ensures |BufItems(a.buf, cur, end)| == Span(|Slices(a, depth, next, cur, end, count)|, next)
    ensures forall k :: 0 <= k < count ==> Span(k, next) + next <= end - cur
    ensures forall k {:trigger Slices(a, depth, next, cur, end, count)[k]} :: 0 <= k < count ==>
      NestedFromWire(Slices(a, depth, next, cur, end, count)[k], depth + 1)
        == Some(Nested(KindOf(a.buf), DimsFrom(a.dims, depth + 1), BufItems(a.buf, cur, end)[Span(k, next)..Span(k, next) + next]))
    decreases a, MaxArrayDepth - depth, 0, 1
  {
    forall k | 0 <= k < count
      ensures Span(k, next) + next <= end - cur
      ensures NestedFromWire(Slices(a, depth, next, cur, end, count)[k], depth + 1)
        == Some(Nested(KindOf(a.buf), DimsFrom(a.dims, depth + 1), BufItems(a.buf, cur, end)[Span(k, next)..Span(k, next) + next]))
    {
      SliceRoundTrip(a, depth, next, cur, end, count, k);
    }
  }

  /** Slice k of the stepping loop decodes to the k-th run of elements. */
  lemma {:induction false} SliceRoundTrip(a: ValueArray, depth: nat, next: nat, cur: nat, end: nat, count: nat, k: nat)
    requires depth + 1 < MaxArrayDepth && EncodableDims(a.dims) && a.dims[depth + 1] > 0
    requires next == LenAt(a.dims, depth + 1) && end == cur + Span(count, next)
    requires ArrayRT(a) && ArrayOk(a) && end <= BufLen(a.buf)
    requires a.buf.ObjBuf? ==> forall j :: cur <= j < end ==> PropsOk(a.buf.objs[j].values)
    requires k < count
    ensures Span(k, next) + next <= end - cur
    ensures NestedFromWire(Slices(a, depth, next, cur, end, count)[k], depth + 1)
      == Some(Nested(KindOf(a.buf), DimsFrom(a.dims, depth + 1), BufItems(a.buf, cur, end)[Span(k, next)..Span(k, next) + next]))
    decreases a, MaxArrayDepth - depth, 0, 0
  {
    SlicesAt(a, depth, next, cur, end, count, k);
    ArrayRoundTrip(a, depth + 1, next, cur + Span(k, next));
    BufItemsSub(a.buf, cur, end, Span(k, next), Span(k, next) + next);
  }

  /** The stepping loop's first slice, then the rest. */
  lemma SlicesCons(a: ValueArray, depth: nat, next: nat, cur: nat, end: nat, count: nat)
    requires depth + 1 < MaxArrayDepth && EncodableDims(a.dims) && a.dims[depth + 1] > 0
    requires next == LenAt(a.dims, depth + 1) && end == cur + Span(count, next)
    requires Fits(a.buf, end)
    requires a.buf.ObjBuf? ==> forall k :: cur <= k < end ==> PropsOk(a.buf.objs[k].values)
    requires cur < end
    ensures var s := Slices(a, depth, next, cur, end, count);
      && |s| > 0
      && ArrayToWire(a, depth + 1, next, cur).Some?
      && s[0] == ArrayToWire(a, depth + 1, next, cur).value
      && s[1..] == Slices(a, depth, next, cur + next, end, count - 1)
  {
    var w := ArrayToWire(a, depth + 1, next, cur).value;
    assert Slices(a, depth, next, cur, end, count) == [w] + Slices(a, depth, next, cur + next, end, count - 1);
  }

  /** Slice k of the stepping loop encodes the elements from
      cur + k * next on. */
  lemma {:induction false} SlicesAt(a: ValueArray, depth: nat, next: nat, cur: nat, end: nat, count: nat, k: nat)
    requires depth + 1 < MaxArrayDepth && EncodableDims(a.dims) && a.dims[depth + 1] > 0
    requires next == LenAt(a.dims, depth + 1) && end == cur + Span(count, next)
    requires Fits(a.buf, end)
    requires a.buf.ObjBuf? ==> forall j :: cur <= j < end ==> PropsOk(a.buf.objs[j].values)
    requires k < count
    ensures cur + Span(k, next) + next <= end
    ensures ArrayToWire(a, depth + 1, next, cur + Span(k, next)).Some?
    ensures Slices(a, depth, next, cur, end, count)[k] == ArrayToWire(a, depth + 1, next, cur + Span(k, next)).value
    decreases k
  {
    assert Span(count, next) == next + Span(count - 1, next);
    SlicesCons(a, depth, next, cur, end, count);
    if k > 0 {
      SlicesAt(a, depth, next, cur + next, end, count - 1, k - 1);
      assert Span(k, next) == next + Span(k - 1, next);
    }
  }

  /** Wire values that each decode give the list of their decodings. */
  lemma {:induction false} SubArraysFromWireAll(vs: seq<Wire>, depth: nat)
    requires depth < MaxArrayDepth
    requires forall k :: 0 <= k < |vs| ==> NestedFromWire(vs[k], depth).Some?
    ensures SubArraysFromWire(vs, depth).Some?
    ensures forall k :: 0 <= k < |vs| ==> SubArraysFromWire(vs, depth).value[k] == NestedFromWire(vs[k], depth).value
  {
    if |vs| > 0 {
      assert forall k :: 0 <= k < |vs[1..]| ==> vs[1..][k] == vs[k + 1];
      SubArraysFromWireAll(vs[1..], depth);
    }
  }

  /** Sub-arrays holding consecutive runs of `next` items of `items` from
      `off` on. */
  ghost predicate RunsFrom(ns: seq<Nested>, items: seq<Item>, next: nat, off: nat) {
    && off + Span(|ns|, next) == |items|
    && forall k {:trigger ns[k]} :: 0 <= k < |ns| ==>
      && off + Span(k, next) + next <= |items|
      && ns[k].items == items[off + Span(k, next)..off + Span(k, next) + next]
  }

  /** Such sub-arrays flatten back to the items from `off` on. */
  lemma {:induction false} FlattenRuns(ns: seq<Nested>, items: seq<Item>, next: nat, off: nat)
    requires RunsFrom(ns, items, next, off)
    ensures Flatten(ns) == items[off..]
    decreases |ns|
  {
    if |ns| == 0 {
      assert items[off..] == [];
    } else {
      RunsShift(ns, items, next, off);
      FlattenRuns(ns[1..], items, next, off + next);
      RunsJoin(ns, items, next, off);
    }
  }

  /** Past the first run, the others are runs from one step further on. */
  lemma RunsShift(ns: seq<Nested>, items: seq<Item>, next: nat, off: nat)
    requires |ns| > 0 && RunsFrom(ns, items, next, off)
    ensures RunsFrom(ns[1..], items, next, off + next)
  {
    var rest := ns[1..];
    assert Span(|ns|, next) == next + Span(|rest|, next);
    forall k | 0 <= k < |rest|
      ensures off + next + Span(k, next) + next <= |items|
      ensures rest[k].items == items[off + next + Span(k, next)..off + next + Span(k, next) + next]
    {
      assert rest[k] == ns[k + 1];
      assert Span(k + 1, next) == next + Span(k, next);
    }
  }

  /** The first run followed by the flattening of the others. */
  lemma RunsJoin(ns: seq<Nested>, items: seq<Item>, next: nat, off: nat)
    requires |ns| > 0 && RunsFrom(ns, items, next, off) && Flatten(ns[1..]) == items[off + next..]
    ensures Flatten(ns) == items[off..]
  {
    assert Span(0, next) == 0;
    assert ns[0].items == items[off..off + next];
    assert items[off..] == items[off..off + next] + items[off + next..];
  }

  /** Wire values that decode to the consecutive runs of `next` items of
      `items` decode, as a list, to sub-arrays of one kind and shape that
      flatten back to `items`. */
  lemma DecodedRuns(s: seq<Wire>, depth: nat, kind: ItemKind, dims: seq<nat>, next: nat, items: seq<Item>)
    requires depth < MaxArrayDepth && |items| == Span(|s|, next)
    requires forall k {:trigger s[k]} :: 0 <= k < |s| ==>
      && Span(k, next) + next <= |items|
      && NestedFromWire(s[k], depth) == Some(Nested(kind, dims, items[Span(k, next)..Span(k, next) + next]))
    ensures SubArraysFromWire(s, depth).Some?
    ensures var ns := SubArraysFromWire(s, depth).value;
      && |ns| == |s|
      && (forall k :: 0 <= k < |ns| ==> ns[k].kind == kind && ns[k].dims == dims)
      && Flatten(ns) == items
  {
    SubArraysFromWireAll(s, depth);
    var ns := SubArraysFromWire(s, depth).value;
    forall k | 0 <= k < |ns|
      ensures Span(k, next) + next <= |items| && ns[k] == Nested(kind, dims, items[Span(k, next)..Span(k, next) + next])
    {
      assert ns[k] == NestedFromWire(s[k], depth).value;
    }
    RunsOfNested(ns, kind, dims, next, items);
  }

  /** Sub-arrays of one kind and shape holding consecutive runs of `next`
      items flatten back to those items. */
  lemma RunsOfNested(ns: seq<Nested>, kind: ItemKind, dims: seq<nat>, next: nat, items: seq<Item>)
    requires |items| == Span(|ns|, next)
    requires forall k {:trigger ns[k]} :: 0 <= k < |ns| ==>
      && Span(k, next) + next <= |items|
      && ns[k] == Nested(kind, dims, items[Span(k, next)..Span(k, next) + next])
    ensures forall k :: 0 <= k < |ns| ==> ns[k].kind == kind && ns[k].dims == dims
    ensures Flatten(ns) == items
  {
    forall k | 0 <= k < |ns|
      ensures 0 + Span(k, next) + next <= |items|
      ensures ns[k].items == items[0 + Span(k, next)..0 + Span(k, next) + next]
    {
      var n := ns[k];
      assert Span(k, next) + next <= |items|;
      assert n == Nested(kind, dims, items[Span(k, next)..Span(k, next) + next]);
    }
    assert RunsFrom(ns, items, next, 0);
    FlattenRuns(ns, items, next, 0);
    assert items[0..] == items;
  }

  /** A run inside a run of buffer elements is the run of those elements. */
  lemma BufItemsSub(b: Buffer, i: nat, j: nat, p: nat, q: nat)
    requires !b.NullBuf? && i <= j <= BufLen(b) && p <= q <= j - i
    ensures BufItems(b, i, j)[p..q] == BufItems(b, i + p, i + q)
  {
    var l := BufItems(b, i, j)[p..q];
    var r := BufItems(b, i + p, i + q);
    forall k | 0 <= k < |l| ensures l[k] == r[k] {
      assert l[k] == BufItems(b, i, j)[p + k];
    }
  }
}
