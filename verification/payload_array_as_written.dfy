/** The array decoder of daemon/icd-payload.c:402-571 as written: one
    accumulator shared by the whole traversal, whose dimension slot at each
    depth is overwritten by every container visited there and whose element
    list grows in traversal order; the buffer is then allocated from the
    dimensions alone and filled from the list.  PayloadDecode holds the
    corrected decoder the rest of the model uses; the lemmas here relate the
    two and exhibit the inputs on which they part. */
module PayloadArrayAsWritten {
  import opened Wrappers
  import opened Payload
  import opened WireFormat
  import opened PayloadDecode

  /** struct icd_state_list_s: the element type (None is the zero-initialised
      OCREP_PROP_NULL), the `dimensions` slots written so far and the list.
      The slots are a map so that a write past the three-slot array is
      recorded instead of lost. */
  datatype ListAcc = ListAcc(kind: Option<ItemKind>, dims: map<nat, nat>, items: seq<Item>)

  /** The accumulator after `memset(&value_list, 0, ...)`. */
  const EmptyAcc: ListAcc := ListAcc(None, map[], [])

  /** The elements of an `av` of objects: every element is decoded as a
      state dictionary; an element that is not one contributes no state. */
  function ObjectItems(vs: seq<Wire>): (r: seq<Item>)
    ensures |r| == |vs| && forall k :: 0 <= k < |vs| ==> r[k].IObject? && r[k].o.uri.None?
  {
    seq(|vs|, k requires 0 <= k < |vs| =>
      IObject(Node(None, [], [], if vs[k].WDict? then StateFromWire(vs[k].entries, []) else [])))
  }

  /** `_icd_state_list_from_gvariant` as written: the slot at `depth` takes
      the child count, a typed array sets the type and appends its elements,
      an `av` whose first element is a dictionary appends every element as an
      object, an `av` whose first element is another array recurses one
      level deeper into every element, and anything else adds nothing. */
  function ListFromWire(w: Wire, acc: ListAcc, depth: nat): (r: ListAcc)
    ensures depth in r.dims
    ensures acc.items <= r.items
    ensures acc.kind.Some? ==> r.kind.Some?
    decreases w, 1
  {
    var a := acc.(dims := acc.dims[depth := NChildren(w)]);
    match w
    case WBoolArray(xs) => a.(kind := Some(KBool), items := a.items + BoolItems(xs))
    case WInt32Array(xs) => a.(kind := Some(KInt), items := a.items + IntItems(xs))
    case WDoubleArray(xs) => a.(kind := Some(KDouble), items := a.items + DoubleItems(xs))
    case WStringArray(xs) => a.(kind := Some(KString), items := a.items + StringItems(xs))
    case WVariantArray(vs) =>
      if |vs| == 0 then a
      else if vs[0].WDict? then a.(kind := Some(KObject), items := a.items + ObjectItems(vs))
      else if IsArray(vs[0]) then ListsFromWire(vs, a, depth + 1)
      else a
    case _ => a
  }

  /** The `do ... while` loop over the elements of an `av` of arrays. */
  function ListsFromWire(vs: seq<Wire>, acc: ListAcc, depth: nat): (r: ListAcc)
    ensures acc.items <= r.items
    ensures acc.kind.Some? ==> r.kind.Some?
    ensures |vs| > 0 ==> depth in r.dims
    ensures forall d :: d in acc.dims ==> d in r.dims
    decreases vs, 0
  {
    if |vs| == 0 then acc
    else
      var next := ListFromWire(vs[0], acc, depth);
      ListsFromWire(vs[1..], next, depth)
  }

  /** What `_icd_state_array_from_list` does with the accumulator: nothing
      for the NULL type ("Invalid Type"); a write of `count` elements into a
      buffer of `len` when the list is longer than the buffer; otherwise a
      buffer of `len` elements whose first |items| are the list and whose
      rest stay zero-filled by calloc. */
  datatype ArrayOutcome =
    | InvalidType
    | Overflow(len: nat, count: nat)
    | Filled(dims: seq<nat>, kind: ItemKind, items: seq<Item>, len: nat)

  /** Slot `d` of the zero-initialised `dimensions` array. */
  function DimAt(m: map<nat, nat>, d: nat): nat {
    if d in m then m[d] else 0
  }

  /** `_icd_state_array_from_list` as written: `len` is calcDimTotal of the
      three slots, and the fill loop writes one element per list node. */
  function ArrayFromList(acc: ListAcc): (r: ArrayOutcome)
    ensures r.InvalidType? <==> acc.kind.None?
    ensures r.Overflow? ==> r.count == |acc.items| > r.len
    ensures r.Filled? ==> |r.dims| == MaxArrayDepth && r.len == DimTotal(r.dims)
    ensures r.Filled? ==> r.items == acc.items && |r.items| <= r.len
  {
    var dims := [DimAt(acc.dims, 0), DimAt(acc.dims, 1), DimAt(acc.dims, 2)];
    var len := DimTotal(dims);
    match acc.kind
    case None => InvalidType
    case Some(k) =>
      if |acc.items| > len then Overflow(len, |acc.items|) else Filled(dims, k, acc.items, len)
  }

  // ---------------------------------------------------------------------
  // Agreement with the corrected decoder

  /** The slots d, d+1, ... overwritten with `ds`. */
  function WriteDims(m: map<nat, nat>, d: nat, ds: seq<nat>): (r: map<nat, nat>)
    ensures forall k :: d <= k < d + |ds| ==> k in r && r[k] == ds[k - d]
    ensures forall k :: k in m && !(d <= k < d + |ds|) ==> k in r && r[k] == m[k]
    ensures forall k :: k in r ==> k in m || d <= k < d + |ds|
    decreases |ds|
  {
    if |ds| == 0 then m
    else
      var r := WriteDims(m[d := ds[0]], d + 1, ds[1..]);
      r
  }

  /** Maps that agree on every key are equal. */
  lemma MapsEqual(x: map<nat, nat>, y: map<nat, nat>)
    requires forall k :: k in x <==> k in y
    requires forall k :: k in x ==> x[k] == y[k]
    ensures x == y
  {
    assert x.Keys == y.Keys;
  }

  /** Writing the same dimensions twice is writing them once. */
  lemma WriteDimsTwice(m: map<nat, nat>, d: nat, ds: seq<nat>)
    ensures WriteDims(WriteDims(m, d, ds), d, ds) == WriteDims(m, d, ds)
  {
    var x := WriteDims(WriteDims(m, d, ds), d, ds);
    var y := WriteDims(m, d, ds);
    MapsEqual(x, y);
  }

  lemma WriteDimsCons(m: map<nat, nat>, d: nat, x: nat, ds: seq<nat>)
    ensures WriteDims(m[d := x], d + 1, ds) == WriteDims(m, d, [x] + ds)
  {
    assert ([x] + ds)[1..] == ds;
  }

  /** Both decoders read an `av` of dictionaries as the same objects. */
  lemma {:induction false} ObjectItemsAgree(vs: seq<Wire>)
    requires ObjectsFromWire(vs).Some?
    ensures ObjectItems(vs) == ObjectsFromWire(vs).value
    decreases vs
  {
    if |vs| > 0 {
      ObjectItemsAgree(vs[1..]);
      assert ObjectItems(vs) == [ObjectItems(vs)[0]] + ObjectItems(vs[1..]);
    }
  }

  /** Where the corrected decoder accepts a nesting, the accumulator of the
      code as written ends with the same type, the same dimensions from
      `depth` on and the same elements appended. */
  lemma {:induction false} NestedAgrees(w: Wire, acc: ListAcc, depth: nat)
    requires depth < MaxArrayDepth && NestedFromWire(w, depth).Some?
    ensures var n := NestedFromWire(w, depth).value;
      ListFromWire(w, acc, depth) == ListAcc(Some(n.kind), WriteDims(acc.dims, depth, n.dims), acc.items + n.items)
    decreases w, 1
  {
    var n := NestedFromWire(w, depth).value;
    var a := acc.(dims := acc.dims[depth := NChildren(w)]);
    WriteDimsCons(acc.dims, depth, NChildren(w), []);
    assert [NChildren(w)] + [] == [NChildren(w)];
    match w
    case WVariantArray(vs) =>
      if vs[0].WDict? {
        ObjectItemsAgree(vs);
      } else {
        var ns := SubArraysFromWire(vs, depth + 1).value;
        ListsAgree(vs, a, depth + 1, ns);
        WriteDimsCons(acc.dims, depth, |vs|, ns[0].dims);
        assert acc.items + Flatten(ns) == a.items + Flatten(ns);
      }
    case _ =>
  }

  lemma UniformTail(ns: seq<Nested>)
    requires |ns| > 1 && Uniform(ns)
    ensures Uniform(ns[1..]) && ns[1..][0].kind == ns[0].kind && ns[1..][0].dims == ns[0].dims
  {
    var rest := ns[1..];
    forall k | 0 <= k < |rest| ensures rest[k].kind == rest[0].kind && rest[k].dims == rest[0].dims {
      assert rest[k] == ns[k + 1];
    }
  }

  lemma FlattenCons(ns: seq<Nested>, pre: seq<Item>)
    requires |ns| > 0
    ensures pre + ns[0].items + Flatten(ns[1..]) == pre + Flatten(ns)
  {
  }

  lemma SubArraysTail(vs: seq<Wire>, depth: nat, ns: seq<Nested>)
    requires depth < MaxArrayDepth && |vs| > 0 && SubArraysFromWire(vs, depth) == Some(ns)
    ensures NestedFromWire(vs[0], depth) == Some(ns[0])
    ensures SubArraysFromWire(vs[1..], depth) == Some(ns[1..])
  {
  }

  lemma {:induction false} ListsAgree(vs: seq<Wire>, acc: ListAcc, depth: nat, ns: seq<Nested>)
    requires depth < MaxArrayDepth && |vs| > 0 && SubArraysFromWire(vs, depth) == Some(ns)
    requires Uniform(ns)
    ensures ListsFromWire(vs, acc, depth)
      == ListAcc(Some(ns[0].kind), WriteDims(acc.dims, depth, ns[0].dims), acc.items + Flatten(ns))
    decreases vs, 0
  {
    SubArraysTail(vs, depth, ns);
    NestedAgrees(vs[0], acc, depth);
    var next := ListFromWire(vs[0], acc, depth);
    FlattenCons(ns, acc.items);
    if |vs| == 1 {
      assert vs[1..] == [] && ns[1..] == [];
    } else {
      UniformTail(ns);
      ListsAgree(vs[1..], next, depth, ns[1..]);
      WriteDimsTwice(acc.dims, depth, ns[0].dims);
    }
  }

  /** One slot read back from dimensions written from slot 0. */
  lemma SlotOfWrite(ds: seq<nat>, i: nat)
    requires |ds| <= MaxArrayDepth && i < MaxArrayDepth
    ensures DimAt(WriteDims(map[], 0, ds), i) == PadDims(ds)[i]
  {
    var m := WriteDims(map[], 0, ds);
    var p := PadDims(ds);
    if i < |ds| {
      assert i in m && m[i] == ds[i];
      assert p[i] == p[..|ds|][i];
    } else {
      assert i !in m;
    }
  }

  /** The three slots read back from dimensions written from slot 0. */
  lemma SlotsOfWrite(ds: seq<nat>)
    requires 1 <= |ds| <= MaxArrayDepth
    ensures [DimAt(WriteDims(map[], 0, ds), 0), DimAt(WriteDims(map[], 0, ds), 1), DimAt(WriteDims(map[], 0, ds), 2)]
      == PadDims(ds)
  {
    SlotOfWrite(ds, 0);
    SlotOfWrite(ds, 1);
    SlotOfWrite(ds, 2);
  }

  /** On every array nesting the corrected decoder accepts, the code as
      written produces a buffer with the same dimensions, type and elements
      exactly when the corrected array builder accepts; where the builder
      refuses, the code as written overflows its buffer or leaves part of it
      zero-filled. */
  lemma AsWrittenMatchesCorrected(w: Wire)
    requires NestedFromWire(w, 0).Some?
    ensures var n := NestedFromWire(w, 0).value;
      var out := ArrayFromList(ListFromWire(w, EmptyAcc, 0));
      && (ArrayFromNested(n).Some? <==> out.Filled? && |out.items| == out.len)
      && (ArrayFromNested(n).Some? ==>
            out == Filled(ArrayFromNested(n).value.dims, n.kind, n.items, |n.items|))
  {
    var n := NestedFromWire(w, 0).value;
    NestedAgrees(w, EmptyAcc, 0);
    SlotsOfWrite(n.dims);
    assert [] + n.items == n.items;
  }

  // ---------------------------------------------------------------------
  // Where the code as written goes wrong

  /** What the accumulator gathers from `[[1, 2], [3]]`: dimensions
      [2, 1] and three items. */
  lemma RaggedAccumulates()
    ensures var w := WVariantArray([WInt32Array([1, 2]), WInt32Array([3])]);
      ListFromWire(w, EmptyAcc, 0) == ListAcc(Some(KInt), map[0 := 2, 1 := 1], IntItems([1, 2]) + IntItems([3]))
  {
    var w := WVariantArray([WInt32Array([1, 2]), WInt32Array([3])]);
    var vs := w.items;
    var a0 := ListAcc(None, map[0 := 2], []);
    var a1 := ListFromWire(vs[0], a0, 1);
    assert a1 == ListAcc(Some(KInt), map[0 := 2, 1 := 2], IntItems([1, 2]));
    var a2 := ListFromWire(vs[1], a1, 1);
    assert a2 == ListAcc(Some(KInt), map[0 := 2, 1 := 1], IntItems([1, 2]) + IntItems([3]));
    assert vs[1..][1..] == [];
    assert ListsFromWire(vs, a0, 1) == a2;
  }

  /** The corrected decoder refuses `[[1, 2], [3]]`. */
  lemma RaggedRejected()
    ensures var w := WVariantArray([WInt32Array([1, 2]), WInt32Array([3])]);
      NestedFromWire(w, 0).None? && ValueFromWire(w).None?
  {
    var vs := [WInt32Array([1, 2]), WInt32Array([3])];
    assert NestedFromWire(vs[0], 1) == Some(Nested(KInt, [2], IntItems([1, 2])));
    assert NestedFromWire(vs[1], 1) == Some(Nested(KInt, [1], IntItems([3])));
  }

  /** `[[1, 2], [3]]`: the slot at depth 1 is overwritten by the last
      sub-array's length, so calcDimTotal gives 2 * 1 = 2 while the fill
      loop writes 3 elements.  The corrected decoder rejects the value. */
  lemma RaggedArrayOverflows()
    ensures var w := WVariantArray([WInt32Array([1, 2]), WInt32Array([3])]);
      && ArrayFromList(ListFromWire(w, EmptyAcc, 0)) == Overflow(2, 3)
      && NestedFromWire(w, 0).None?
      && ValueFromWire(w).None?
  {
    RaggedAccumulates();
    RaggedRejected();
    var m: map<nat, nat> := map[0 := 2, 1 := 1];
    var dims := [DimAt(m, 0), DimAt(m, 1), DimAt(m, 2)];
    assert dims == [2, 1, 0];
    assert ProductFrom(dims, 2) == 1;
    assert DimTotal(dims) == 2;
    assert |IntItems([1, 2]) + IntItems([3])| == 3;
  }

  /** The two innermost levels: the leaf at depth 3 writes slot 3. */
  lemma FourthLevelInner()
    ensures 3 in ListFromWire(WVariantArray([WInt32Array([1])]), ListAcc(None, map[0 := 1, 1 := 1], []), 2).dims
  {
    var l3 := WInt32Array([1]);
    var c3 := ListAcc(None, map[0 := 1, 1 := 1, 2 := 1], []);
    assert [l3][1..] == [];
    var a3 := ListFromWire(l3, c3, 3);
    assert 3 in a3.dims;
    var c2 := ListAcc(None, map[0 := 1, 1 := 1], []);
    assert ListsFromWire([l3], c2.(dims := c2.dims[2 := 1]), 3) == a3;
  }

  /** The corrected decoder refuses four levels. */
  lemma FourthLevelRejected()
    ensures NestedFromWire(WVariantArray([WVariantArray([WVariantArray([WInt32Array([1])])])]), 0).None?
  {
  }

  /** A fourth level of nesting writes `dimensions[3]`, one slot past the
      three-slot array.  The corrected decoder stops at MaxArrayDepth. */
  lemma FourthLevelWritesPastDims()
    ensures var w := WVariantArray([WVariantArray([WVariantArray([WInt32Array([1])])])]);
      && 3 in ListFromWire(w, EmptyAcc, 0).dims
      && NestedFromWire(w, 0).None?
  {
    var l2 := WVariantArray([WInt32Array([1])]);
    var l1 := WVariantArray([l2]);
    assert [l2][1..] == [] && [l1][1..] == [];
    FourthLevelInner();
    FourthLevelRejected();
    var c2 := ListAcc(None, map[0 := 1, 1 := 1], []);
    var a2 := ListFromWire(l2, c2, 2);
    var c1 := ListAcc(None, map[0 := 1], []);
    assert ListsFromWire([l2], c1.(dims := c1.dims[1 := 1]), 2) == a2;
    var a1 := ListFromWire(l1, c1, 1);
    assert a1 == a2;
    assert ListsFromWire([l1], EmptyAcc.(dims := map[0 := 1]), 1) == a1;
  }

  /** What the accumulator gathers from a first sub-array `first` of one
      element and a second sub-array `[1]`: the type is the last leaf's,
      INT, while the list starts with `first`'s element of another kind. */
  lemma MixedKindsAccumulate(first: Wire, k: ItemKind, item: Item)
    requires first == WBoolArray([true]) || first == WStringArray(["s"])
    requires first.WBoolArray? ==> k == KBool && item == IBool(true)
    requires first.WStringArray? ==> k == KString && item == IString("s")
    ensures ListFromWire(WVariantArray([first, WInt32Array([1])]), EmptyAcc, 0)
      == ListAcc(Some(KInt), map[0 := 2, 1 := 1], [item, IInt(1)])
  {
    var a0 := ListAcc(None, map[0 := 2], []);
    var vs := [first, WInt32Array([1])];
    assert vs[1..][1..] == [];
    var b1 := ListFromWire(first, a0, 1);
    assert b1 == ListAcc(Some(k), map[0 := 2, 1 := 1], [item]);
    var b2 := ListFromWire(vs[1], b1, 1);
    assert b2 == ListAcc(Some(KInt), map[0 := 2, 1 := 1], [item, IInt(1)]);
    assert ListsFromWire(vs[1..], b1, 1) == b2;
    assert ListsFromWire(vs, a0, 1) == b2;
  }

  /** The corrected decoder refuses sibling sub-arrays of different kinds. */
  lemma MixedKindsRejected(first: Wire)
    requires first == WBoolArray([true]) || first == WStringArray(["s"])
    ensures var w := WVariantArray([first, WInt32Array([1])]);
      NestedFromWire(w, 0).None? && ValueFromWire(w).None?
  {
    var vs := [first, WInt32Array([1])];
    assert vs[1..][1..] == [];
    var n0, n1 := NestedFromWire(first, 1).value, NestedFromWire(vs[1], 1).value;
    assert n0.kind != KInt && n1.kind == KInt;
    assert vs[1..] == [vs[1]] && vs[1..][0] == vs[1] && [vs[1]][1..] == [];
    assert NestedFromWire(vs[1], 1) == Some(n1) && NestedFromWire(vs[0], 1) == Some(n0);
    assert SubArraysFromWire([], 1) == Some([]);
    assert SubArraysFromWire([vs[1]], 1) == Some([n1] + []);
    assert [n1] + [] == [n1];
    assert SubArraysFromWire(vs, 1) == Some([n0] + [n1]);
    var ns := [n0, n1];
    assert ns == [n0] + [n1] && ns[1].kind != ns[0].kind;
    assert !Uniform(ns);
    assert !vs[0].WDict? && IsArray(vs[0]);
    assert NestedFromWire(WVariantArray(vs), 0).None?;
  }

  /** `[[true], [1]]` and `[["s"], [1]]` are accepted as written: the buffer
      is allocated as an INT array of two elements and the fill loop reads
      every list node as `value->i`, the boolean's union and the string's
      `char *` alike.  The corrected decoder rejects both values. */
  lemma MixedKindsAccepted(first: Wire, item: Item)
    requires first == WBoolArray([true]) || first == WStringArray(["s"])
    requires first.WBoolArray? ==> item == IBool(true)
    requires first.WStringArray? ==> item == IString("s")
    ensures var w := WVariantArray([first, WInt32Array([1])]);
      && ArrayFromList(ListFromWire(w, EmptyAcc, 0)) == Filled([2, 1, 0], KInt, [item, IInt(1)], 2)
      && NestedFromWire(w, 0).None?
  {
    MixedKindsAccumulate(first, if first.WBoolArray? then KBool else KString, item);
    MixedKindsRejected(first);
    var m: map<nat, nat> := map[0 := 2, 1 := 1];
    var dims := [DimAt(m, 0), DimAt(m, 1), DimAt(m, 2)];
    assert dims == [2, 1, 0];
    assert ProductFrom(dims, 2) == 1;
    assert DimTotal(dims) == 2;
  }
}
