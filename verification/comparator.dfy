/** The representation comparator of daemon/icd-payload.c:669-950, with
    its quirks kept: string-list membership looks only at the head of the
    list (a corrected membership test is defined alongside for contrast),
    arrays are compared by total length and flat elements (not by dimension
    vector), and lists of values or children are compared by length plus
    containment, not as multisets.  `true` means IC_EQUAL. */
module Comparator {
  import opened Wrappers
  import opened Scalars
  import opened Payload

  // ---------------------------------------------------------------------
  // Which payloads the comparator can read

  /** Every array holds calcDimTotal(dimensions) elements, as the element
      loops of `_representation_compare_array` assume, recursively through
      object values and object arrays. */
  predicate ShapedValue(v: PValue)
    decreases v, 1
  {
    match v
    case PObject(o) => ShapedProps(o.values)
    case PArray(a) => ShapedArray(a)
    case _ => true
  }

  predicate ShapedProps(ps: seq<Prop>)
    decreases ps, 0
  {
    forall k :: 0 <= k < |ps| ==> ShapedValue(ps[k].value)
  }

  predicate ShapedArray(a: ValueArray)
    decreases a, 0
  {
    && |a.dims| == MaxArrayDepth
    && Fits(a.buf, DimTotal(a.dims))
    && (a.buf.ObjBuf? ==> forall k :: 0 <= k < |a.buf.objs| ==> ShapedProps(a.buf.objs[k].values))
  }

  // ---------------------------------------------------------------------
  // Sizes, for termination of the mutually recursive comparison

  function ValueSize(v: PValue): nat
    decreases v, 2
  {
    match v
    case PObject(o) => 1 + NodeSize(o)
    case PArray(a) => 1 + ArraySize(a)
    case _ => 1
  }

  function NodeSize(n: Node): nat
    decreases n, 1
  {
    1 + PropsSize(n.values)
  }

  function PropsSize(ps: seq<Prop>): nat
    decreases ps, 0
  {
    if |ps| == 0 then 0 else ValueSize(ps[0].value) + PropsSize(ps[1..])
  }

  function ArraySize(a: ValueArray): nat
    decreases a, 1
  {
    1 + if a.buf.ObjBuf? then ObjsSize(a.buf.objs) else 0
  }

  function ObjsSize(xs: seq<Node>): nat
    decreases xs, 0
  {
    if |xs| == 0 then 0 else NodeSize(xs[0]) + ObjsSize(xs[1..])
  }

  // ---------------------------------------------------------------------
  // String lists

  /** `_oic_string_list_contain` as written: the loop walks the list but
      compares `str_value` with the head's value on every step. */
  function StringListContains(list: seq<string>, cur: nat, s: string): (r: bool)
    requires cur <= |list|
    ensures r <==> cur < |list| && s == list[0]
    decreases |list| - cur
  {
    if cur == |list| then false
    else if s == list[0] then true
    else StringListContains(list, cur + 1, s)
  }

  /** The loop of `_representation_compare_string_list` from position `i`. */
  function AllStringsContained(l1: seq<string>, i: nat, l2: seq<string>): (r: bool)
    requires i <= |l1|
    ensures r <==> forall k :: i <= k < |l1| ==> |l2| > 0 && l1[k] == l2[0]
    decreases |l1| - i
  {
    if i == |l1| then true
    else StringListContains(l2, 0, l1[i]) && AllStringsContained(l1, i + 1, l2)
  }

  /** `_representation_compare_string_list` as written: two NULL lists are
      equal, a NULL and a non-NULL list are not; otherwise equal lengths and
      every entry of the first equal to the head of the second. */
  function StringListEqual(l1: seq<string>, l2: seq<string>): (r: bool)
    ensures r <==> |l1| == |l2| && forall k :: 0 <= k < |l1| ==> l1[k] == l2[0]
  {
    if |l1| == 0 || |l2| == 0 then |l1| == |l2|
    else |l1| == |l2| && AllStringsContained(l1, 0, l2)
  }

  /** `_oic_string_list_contain` as its loop evidently intends: the entry
      under the cursor is compared, so any entry from `cur` on can match. */
  function StringListHas(list: seq<string>, cur: nat, s: string): (r: bool)
    requires cur <= |list|
    ensures r <==> exists k :: cur <= k < |list| && list[k] == s
    decreases |list| - cur
  {
    if cur == |list| then false
    else if s == list[cur] then true
    else StringListHas(list, cur + 1, s)
  }

  /** The loop of `_representation_compare_string_list` over the corrected
      membership test. */
  function AllStringsIn(l1: seq<string>, i: nat, l2: seq<string>): (r: bool)
    requires i <= |l1|
    ensures r <==> forall k :: i <= k < |l1| ==> l1[k] in l2
    decreases |l1| - i
  {
    if i == |l1| then true
    else StringListHas(l2, 0, l1[i]) && AllStringsIn(l1, i + 1, l2)
  }

  /** `_representation_compare_string_list` with the corrected membership
      test: NULL lists as before, otherwise equal lengths and every entry of
      the first somewhere in the second.  A reference definition only: the
      comparator keeps the test as written. */
  function StringListMatch(l1: seq<string>, l2: seq<string>): (r: bool)
    ensures r <==> |l1| == |l2| && forall k :: 0 <= k < |l1| ==> l1[k] in l2
  {
    if |l1| == 0 || |l2| == 0 then |l1| == |l2|
    else |l1| == |l2| && AllStringsIn(l1, 0, l2)
  }

  // ---------------------------------------------------------------------
  // Values, value lists and nodes (mutually recursive)

  /** OCRepPayloadPropType of a value. */
  datatype PropType = TNull | TInt | TDouble | TBool | TString | TObject | TArray

  function TypeOf(v: PValue): PropType {
    match v
    case PNull => TNull
    case PInt(_) => TInt
    case PDouble(_) => TDouble
    case PBool(_) => TBool
    case PString(_) => TString
    case PObject(_) => TObject
    case PArray(_) => TArray
  }

  /** `_representation_compare_value`: same name, same type and equal
      payloads.  Doubles compare with C's `==` (DoubleEq).  An object value has no
      `next`, so icd_payload_representation_compare on two objects is their
      comparison without children. */
  function ValueEqual(v1: Prop, v2: Prop): (r: bool)
    requires ShapedValue(v1.value) && ShapedValue(v2.value)
    ensures r ==> v1.name == v2.name && TypeOf(v1.value) == TypeOf(v2.value)
    ensures TypeOf(v1.value) == TypeOf(v2.value) && v1.name == v2.name && !v1.value.PObject? && !v1.value.PArray? && !v1.value.PDouble? ==>
      (r <==> v1.value == v2.value)
    ensures v1.value.PDouble? && v2.value.PDouble? && v1.name == v2.name ==> (r <==> DoubleEq(v1.value.d, v2.value.d))
    decreases ValueSize(v1.value) + ValueSize(v2.value), 0
  {
    if v1.name != v2.name || TypeOf(v1.value) != TypeOf(v2.value) then false
    else
      match v1.value
      case PNull => true
      case PInt(i) => i == v2.value.i
      case PDouble(d) => DoubleEq(d, v2.value.d)
      case PBool(b) => b == v2.value.b
      case PString(s) => s == v2.value.s
      case PObject(o) => WithoutChildren(o, v2.value.obj)
      case PArray(a) => ArrayEqual(a, v2.value.arr)
  }

  /** `_representation_compare_array`: the total lengths must agree; then the
      first array's type selects the element loop.  A NULL-typed first array
      is never equal ("Invalid Type").  Doubles compare element by element
      with C's `!=` (DoubleEq).  When the second array's elements are
      of another type the source reads them through the wrong union member;
      the model counts that as unequal unless there is nothing to read. */
  function ArrayEqual(a1: ValueArray, a2: ValueArray): (r: bool)
    requires ShapedArray(a1) && ShapedArray(a2)
    ensures r ==> DimTotal(a1.dims) == DimTotal(a2.dims) && !a1.buf.NullBuf?
    decreases ArraySize(a1) + ArraySize(a2), 1
  {
    var len := DimTotal(a1.dims);
    if len != DimTotal(a2.dims) || a1.buf.NullBuf? then false
    else if len == 0 then true
    else
      match a1.buf
      case IntBuf(xs) => a2.buf.IntBuf? && xs[..len] == a2.buf.ints[..len]
      case BoolBuf(xs) => a2.buf.BoolBuf? && xs[..len] == a2.buf.bools[..len]
      case DoubleBuf(xs) => a2.buf.DoubleBuf? && forall k :: 0 <= k < len ==> DoubleEq(xs[k], a2.buf.doubles[k])
      case StrBuf(xs) => a2.buf.StrBuf? && xs[..len] == a2.buf.strs[..len]
      case ObjBuf(xs) => a2.buf.ObjBuf? && ObjectsEqual(xs, a2.buf.objs, len)
  }

  /** The object element loop: the first `n` objects pairwise equal. */
  function ObjectsEqual(xs: seq<Node>, ys: seq<Node>, n: nat): (r: bool)
    requires n <= |xs| && n <= |ys|
    requires forall k :: 0 <= k < |xs| ==> ShapedProps(xs[k].values)
    requires forall k :: 0 <= k < |ys| ==> ShapedProps(ys[k].values)
    ensures r ==> forall k :: 0 <= k < n ==> xs[k].uri == ys[k].uri && |xs[k].values| == |ys[k].values|
    decreases ObjsSize(xs) + ObjsSize(ys), 1
  {
    if n == 0 then true
    else WithoutChildren(xs[0], ys[0]) && ObjectsEqual(xs[1..], ys[1..], n - 1)
  }

  /** `_representation_compare_without_children`: URI (absent equals only
      absent), resource types, interfaces, then the value lists. */
  function WithoutChildren(r1: Node, r2: Node): (r: bool)
    requires ShapedProps(r1.values) && ShapedProps(r2.values)
    ensures r ==> r1.uri == r2.uri && |r1.types| == |r2.types| && |r1.ifaces| == |r2.ifaces|
    ensures r ==> |r1.values| == |r2.values|
    decreases NodeSize(r1) + NodeSize(r2), 0
  {
    && r1.uri == r2.uri
    && StringListEqual(r1.types, r2.types)
    && StringListEqual(r1.ifaces, r2.ifaces)
    && ValuesListEqual(r1.values, r2.values)
  }

  /** `_representation_compare_values_list`: NULL lists as for strings, then
      equal lengths and every value of the first contained in the second. */
  function ValuesListEqual(l1: seq<Prop>, l2: seq<Prop>): (r: bool)
    requires ShapedProps(l1) && ShapedProps(l2)
    ensures r ==> |l1| == |l2|
    decreases PropsSize(l1) + PropsSize(l2), 4
  {
    if |l1| == 0 || |l2| == 0 then |l1| == |l2|
    else |l1| == |l2| && AllValuesContained(l1, l2)
  }

  /** The loop over the first list. */
  function AllValuesContained(l1: seq<Prop>, l2: seq<Prop>): (r: bool)
    requires ShapedProps(l1) && ShapedProps(l2)
    decreases PropsSize(l1) + PropsSize(l2), 3
  {
    if |l1| == 0 then true
    else ValuesContain(l2, l1[0]) && AllValuesContained(l1[1..], l2)
  }

  /** `_representation_values_list_contain`: some value `c` of the list with
      `_representation_compare_value(c, value)` equal; the list's element is
      the first argument. */
  function ValuesContain(list: seq<Prop>, value: Prop): (r: bool)
    requires ShapedProps(list) && ShapedValue(value.value)
    ensures r ==> exists j :: 0 <= j < |list| && list[j].name == value.name && TypeOf(list[j].value) == TypeOf(value.value)
    decreases PropsSize(list) + ValueSize(value.value), 2
  {
    if |list| == 0 then false
    else ValueEqual(list[0], value) || ValuesContain(list[1..], value)
  }

  // ---------------------------------------------------------------------
  // Children and whole representations

  /** `_representation_list_contain`: some child `c` of the list with
      `_representation_compare_without_children(c, repr)` equal. */
  function ChildrenContain(list: seq<Node>, n: Node): (r: bool)
    requires forall k :: 0 <= k < |list| ==> ShapedProps(list[k].values)
    requires ShapedProps(n.values)
    ensures r ==> exists j :: 0 <= j < |list| && list[j].uri == n.uri
  {
    if |list| == 0 then false
    else WithoutChildren(list[0], n) || ChildrenContain(list[1..], n)
  }

  function AllChildrenContained(l1: seq<Node>, l2: seq<Node>): (r: bool)
    requires forall k :: 0 <= k < |l1| ==> ShapedProps(l1[k].values)
    requires forall k :: 0 <= k < |l2| ==> ShapedProps(l2[k].values)
  {
    if |l1| == 0 then true
    else ChildrenContain(l2, l1[0]) && AllChildrenContained(l1[1..], l2)
  }

  /** `_representation_compare_children` on the two `next` chains: NULL as
      for the other lists, then equal lengths and containment, each child
      compared without its own children. */
  function ChildrenEqual(c1: seq<Node>, c2: seq<Node>): (r: bool)
    requires forall k :: 0 <= k < |c1| ==> ShapedProps(c1[k].values)
    requires forall k :: 0 <= k < |c2| ==> ShapedProps(c2[k].values)
    ensures r ==> |c1| == |c2|
  {
    if |c1| == 0 || |c2| == 0 then |c1| == |c2|
    else |c1| == |c2| && AllChildrenContained(c1, c2)
  }

  predicate ShapedChain(ch: Chain) {
    forall k :: 0 <= k < |ch| ==> ShapedProps(ch[k].values)
  }

  /** icd_payload_representation_compare: two NULL representations are
      equal, one NULL is not; otherwise the heads without children, then the
      rest of the two chains as children. */
  function Compare(ch1: Chain, ch2: Chain): (r: bool)
    requires ShapedChain(ch1) && ShapedChain(ch2)
    ensures r ==> |ch1| == |ch2|
  {
    if |ch1| == 0 || |ch2| == 0 then |ch1| == |ch2|
    else
      assert forall k :: 0 <= k < |ch1[1..]| ==> ch1[1..][k] == ch1[k + 1];
      assert forall k :: 0 <= k < |ch2[1..]| ==> ch2[1..][k] == ch2[k + 1];
      WithoutChildren(ch1[0], ch2[0]) && ChildrenEqual(ch1[1..], ch2[1..])
  }

  // ---------------------------------------------------------------------
  // What the loops compute

  /** The containment loop finds a value of the list equal to `value`, with
      the list's element as the first argument. */
  lemma {:induction false} ValuesContainIff(list: seq<Prop>, value: Prop)
    requires ShapedProps(list) && ShapedValue(value.value)
    ensures ValuesContain(list, value) <==> exists j :: 0 <= j < |list| && ValueEqual(list[j], value)
    decreases |list|
  {
    if |list| > 0 {
      ValuesContainIff(list[1..], value);
      if exists j :: 0 <= j < |list| && ValueEqual(list[j], value) {
        var j :| 0 <= j < |list| && ValueEqual(list[j], value);
        if j > 0 {
          assert list[1..][j - 1] == list[j];
        }
      }
      if exists j :: 0 <= j < |list[1..]| && ValueEqual(list[1..][j], value) {
        var j :| 0 <= j < |list[1..]| && ValueEqual(list[1..][j], value);
        assert list[1..][j] == list[j + 1];
      }
    }
  }

  lemma {:induction false} AllValuesContainedIff(l1: seq<Prop>, l2: seq<Prop>)
    requires ShapedProps(l1) && ShapedProps(l2)
    ensures AllValuesContained(l1, l2) <==> forall k :: 0 <= k < |l1| ==> ValuesContain(l2, l1[k])
    decreases |l1|
  {
    if |l1| > 0 {
      AllValuesContainedIff(l1[1..], l2);
      assert forall k :: 1 <= k < |l1| ==> l1[1..][k - 1] == l1[k];
    }
  }

  /** Two value lists are equal exactly when they have the same length and
      every value of the first has an equal value in the second (compared
      with the second list's value first).  Repeats are not counted. */
  lemma ValuesListEqualIff(l1: seq<Prop>, l2: seq<Prop>)
    requires ShapedProps(l1) && ShapedProps(l2)
    ensures ValuesListEqual(l1, l2) <==>
      |l1| == |l2| && forall k :: 0 <= k < |l1| ==> exists j :: 0 <= j < |l2| && ValueEqual(l2[j], l1[k])
  {
    AllValuesContainedIff(l1, l2);
    forall k | 0 <= k < |l1| {
      ValuesContainIff(l2, l1[k]);
    }
  }

  /** The object element loop compares the first `n` objects pairwise. */
  lemma {:induction false} ObjectsEqualIff(xs: seq<Node>, ys: seq<Node>, n: nat)
    requires n <= |xs| && n <= |ys|
    requires forall k :: 0 <= k < |xs| ==> ShapedProps(xs[k].values)
    requires forall k :: 0 <= k < |ys| ==> ShapedProps(ys[k].values)
    ensures ObjectsEqual(xs, ys, n) <==> forall k :: 0 <= k < n ==> WithoutChildren(xs[k], ys[k])
    decreases n
  {
    if n > 0 {
      ObjectsEqualIff(xs[1..], ys[1..], n - 1);
      assert forall k :: 1 <= k < n ==> xs[1..][k - 1] == xs[k] && ys[1..][k - 1] == ys[k];
    }
  }

  lemma {:induction false} ChildrenContainIff(list: seq<Node>, n: Node)
    requires forall k :: 0 <= k < |list| ==> ShapedProps(list[k].values)
    requires ShapedProps(n.values)
    ensures ChildrenContain(list, n) <==> exists j :: 0 <= j < |list| && WithoutChildren(list[j], n)
    decreases |list|
  {
    if |list| > 0 {
      ChildrenContainIff(list[1..], n);
      if exists j :: 0 <= j < |list| && WithoutChildren(list[j], n) {
        var j :| 0 <= j < |list| && WithoutChildren(list[j], n);
        if j > 0 {
          assert list[1..][j - 1] == list[j];
        }
      }
      if exists j :: 0 <= j < |list[1..]| && WithoutChildren(list[1..][j], n) {
        var j :| 0 <= j < |list[1..]| && WithoutChildren(list[1..][j], n);
        assert list[1..][j] == list[j + 1];
      }
    }
  }

  lemma {:induction false} AllChildrenContainedIff(l1: seq<Node>, l2: seq<Node>)
    requires forall k :: 0 <= k < |l1| ==> ShapedProps(l1[k].values)
    requires forall k :: 0 <= k < |l2| ==> ShapedProps(l2[k].values)
    ensures AllChildrenContained(l1, l2) <==> forall k :: 0 <= k < |l1| ==> ChildrenContain(l2, l1[k])
    decreases |l1|
  {
    if |l1| > 0 {
      AllChildrenContainedIff(l1[1..], l2);
      assert forall k :: 1 <= k < |l1| ==> l1[1..][k - 1] == l1[k];
    }
  }

  /** Every child of `c1` has a child of `c2` equal to it without children
      (compared with the child of `c2` first). */
  ghost predicate Covered(c1: seq<Node>, c2: seq<Node>)
    requires forall k :: 0 <= k < |c1| ==> ShapedProps(c1[k].values)
    requires forall k :: 0 <= k < |c2| ==> ShapedProps(c2[k].values)
  {
    forall k :: 0 <= k < |c1| ==> exists j :: 0 <= j < |c2| && WithoutChildren(c2[j], c1[k])
  }

  /** Two child lists are equal exactly when they have the same length and
      the first is covered by the second.  Repeats are not counted. */
  lemma ChildrenEqualIff(c1: seq<Node>, c2: seq<Node>)
    requires forall k :: 0 <= k < |c1| ==> ShapedProps(c1[k].values)
    requires forall k :: 0 <= k < |c2| ==> ShapedProps(c2[k].values)
    ensures ChildrenEqual(c1, c2) <==> |c1| == |c2| && Covered(c1, c2)
  {
    AllChildrenContainedIff(c1, c2);
    forall k | 0 <= k < |c1| {
      ChildrenContainIff(c2, c1[k]);
    }
  }

  /** Two representations are equal exactly when both are NULL, or their
      heads are equal without children, their chains have the same length
      and the children of the first are covered by those of the second. */
  lemma CompareIff(ch1: Chain, ch2: Chain)
    requires ShapedChain(ch1) && ShapedChain(ch2)
    ensures Compare(ch1, ch2) <==>
      && |ch1| == |ch2|
      && (|ch1| > 0 ==> WithoutChildren(ch1[0], ch2[0]))
      && (|ch1| > 0 ==> Covered(ch1[1..], ch2[1..]))
  {
    if |ch1| > 0 && |ch2| > 0 {
      assert forall k :: 0 <= k < |ch1[1..]| ==> ch1[1..][k] == ch1[k + 1];
      assert forall k :: 0 <= k < |ch2[1..]| ==> ch2[1..][k] == ch2[k + 1];
      ChildrenEqualIff(ch1[1..], ch2[1..]);
    }
  }

  // ---------------------------------------------------------------------
  // Reflexivity where the quirks do not bite

  /** All entries of a string list equal its head, the only lists the
      head-comparing membership test finds equal to themselves. */
  predicate FlatList(l: seq<string>) {
    forall k :: 0 <= k < |l| ==> l[k] == l[0]
  }

  /** No NULL-typed array, no NaN and only flat string lists, recursively. */
  predicate PlainValue(v: PValue)
    decreases v, 1
  {
    match v
    case PDouble(d) => !IsNaN(d)
    case PObject(o) => PlainNode(o)
    case PArray(a) => PlainArray(a)
    case _ => true
  }

  predicate PlainNode(n: Node)
    decreases n, 0
  {
    && FlatList(n.types)
    && FlatList(n.ifaces)
    && forall k :: 0 <= k < |n.values| ==> PlainValue(n.values[k].value)
  }

  predicate PlainArray(a: ValueArray)
    decreases a, 0
  {
    && !a.buf.NullBuf?
    && (a.buf.DoubleBuf? ==> forall k :: 0 <= k < |a.buf.doubles| ==> !IsNaN(a.buf.doubles[k]))
    && (a.buf.ObjBuf? ==> forall k :: 0 <= k < |a.buf.objs| ==> PlainNode(a.buf.objs[k]))
  }

  lemma {:induction false} ValueRefl(p: Prop)
    requires ShapedValue(p.value) && PlainValue(p.value)
    ensures ValueEqual(p, p)
    decreases p.value, 2
  {
    match p.value
    case PObject(o) => NodeRefl(o);
    case PArray(a) => ArrayRefl(a);
    case _ =>
  }

  /** A plain node equals itself without children. */
  lemma {:induction false} NodeRefl(n: Node)
    requires ShapedProps(n.values) && PlainNode(n)
    ensures WithoutChildren(n, n)
    decreases n, 1
  {
    PropsRefl(n.values);
  }

  lemma {:induction false} PropsRefl(ps: seq<Prop>)
    requires ShapedProps(ps) && forall k :: 0 <= k < |ps| ==> PlainValue(ps[k].value)
    ensures ValuesListEqual(ps, ps)
    decreases ps, 0
  {
    forall k | 0 <= k < |ps| ensures exists j :: 0 <= j < |ps| && ValueEqual(ps[j], ps[k]) {
      ValueRefl(ps[k]);
    }
    ValuesListEqualIff(ps, ps);
  }

  lemma {:induction false} ArrayRefl(a: ValueArray)
    requires ShapedArray(a) && PlainArray(a)
    ensures ArrayEqual(a, a)
    decreases a, 1
  {
    if a.buf.ObjBuf? {
      var len := DimTotal(a.dims);
      forall k | 0 <= k < len ensures WithoutChildren(a.buf.objs[k], a.buf.objs[k]) {
        NodeRefl(a.buf.objs[k]);
      }
      ObjectsEqualIff(a.buf.objs, a.buf.objs, len);
    }
  }

  /** A plain representation compares equal to itself. */
  lemma ChainRefl(ch: Chain)
    requires ShapedChain(ch) && forall k :: 0 <= k < |ch| ==> PlainNode(ch[k])
    ensures Compare(ch, ch)
  {
    forall k | 0 <= k < |ch| ensures WithoutChildren(ch[k], ch[k]) {
      NodeRefl(ch[k]);
    }
    CompareIff(ch, ch);
  }

  // ---------------------------------------------------------------------
  // The quirks, on concrete inputs

  /** As written, a type list with two different entries is unequal to
      itself, and one of repeated entries equals a list that merely starts
      with the same; the corrected comparison finds the first pair equal. */
  lemma StringListHeadOnly()
    ensures !StringListEqual(["a", "b"], ["a", "b"])
    ensures StringListEqual(["a", "a"], ["a", "b"])
    ensures StringListMatch(["a", "b"], ["a", "b"])
  {
    assert ["a", "b"][1] != ["a", "b"][0];
  }

  /** The test as written is stricter than the corrected one, and the two
      agree when the second list is flat. */
  lemma StringListAsWrittenStricter(l1: seq<string>, l2: seq<string>)
    ensures StringListEqual(l1, l2) ==> StringListMatch(l1, l2)
    ensures FlatList(l2) ==> (StringListEqual(l1, l2) <==> StringListMatch(l1, l2))
  {
    if |l2| > 0 {
      assert l2[0] in l2;
    }
    if FlatList(l2) && StringListMatch(l1, l2) {
      forall k | 0 <= k < |l1| ensures l1[k] == l2[0] {
        var j :| 0 <= j < |l2| && l2[j] == l1[k];
      }
    }
  }

  /** The corrected comparison is reflexive, ignores order, and on lists
      without repeats is symmetric. */
  lemma StringListMatchProps(l1: seq<string>, l2: seq<string>)
    ensures StringListMatch(l1, l1)
    ensures StringListMatch(l1, l2) && (forall i, j :: 0 <= i < j < |l1| ==> l1[i] != l1[j]) ==> StringListMatch(l2, l1)
  {
    if StringListMatch(l1, l2) && (forall i, j :: 0 <= i < j < |l1| ==> l1[i] != l1[j]) {
      MatchCovers(l1, l2);
    }
  }

  /** The entries of a list, as a set. */
  function Entries(l: seq<string>): (r: set<string>)
    ensures forall x :: x in r <==> x in l
  {
    set x | x in l
  }

  /** A list has at most as many distinct entries as positions, and exactly
      as many when no entry repeats. */
  lemma {:induction false} EntriesCount(l: seq<string>)
    ensures |Entries(l)| <= |l|
    ensures (forall i, j :: 0 <= i < j < |l| ==> l[i] != l[j]) ==> |Entries(l)| == |l|
  {
    if |l| > 0 {
      var init := l[..|l| - 1];
      EntriesCount(init);
      assert Entries(l) == Entries(init) + {l[|l| - 1]};
      if forall i, j :: 0 <= i < j < |l| ==> l[i] != l[j] {
        assert l[|l| - 1] !in Entries(init);
      }
    }
  }

  /** Lists of one length where the first has no repeats and every entry of
      it occurs in the second: then every entry of the second occurs in the
      first. */
  lemma MatchCovers(l1: seq<string>, l2: seq<string>)
    requires |l1| == |l2| && forall k :: 0 <= k < |l1| ==> l1[k] in l2
    requires forall i, j :: 0 <= i < j < |l1| ==> l1[i] != l1[j]
    ensures forall k :: 0 <= k < |l2| ==> l2[k] in l1
  {
    var s1, s2 := Entries(l1), Entries(l2);
    EntriesCount(l1);
    EntriesCount(l2);
    assert s1 <= s2;
    assert |s2 - s1| == |s2| - |s1| == 0;
    assert s2 == s1;
  }

  /** Arrays of the same elements under different dimension vectors with the
      same total compare equal. */
  lemma ArrayShapeIgnored()
    ensures var xs := IntBuf([1, 2, 3, 4, 5, 6]);
      ShapedArray(ValueArray([2, 3, 0], xs)) && ShapedArray(ValueArray([3, 2, 0], xs))
      && ArrayEqual(ValueArray([2, 3, 0], xs), ValueArray([3, 2, 0], xs))
  {
    var d1: seq<nat> := [2, 3, 0];
    var d2: seq<nat> := [3, 2, 0];
    assert ProductFrom(d1, 2) == 1 && ProductFrom(d2, 2) == 1;
    assert DimTotal(d1) == 6 && DimTotal(d2) == 6;
  }

  /** A NULL-typed array never equals anything, itself included. */
  lemma NullArrayNeverEqual(a: ValueArray, b: ValueArray)
    requires a.buf.NullBuf? && ShapedArray(a) && ShapedArray(b)
    ensures !ArrayEqual(a, b)
  {
  }

  /** Doubles compare as C's `==` decides: a node holding a NaN is unequal
      to itself, a node holding +0.0 equals one holding -0.0, and an array
      of doubles with a NaN element is unequal to itself. */
  lemma DoublesCompareAsIeee()
    ensures var nan := Node(None, [], [], [Prop("d", PDouble(Double(0x7FF8_0000_0000_0000)))]);
      ShapedChain([nan]) && !Compare([nan], [nan])
    ensures var pz := Node(None, [], [], [Prop("d", PDouble(Double(0)))]);
      var nz := Node(None, [], [], [Prop("d", PDouble(Double(SignBit)))]);
      ShapedChain([pz]) && ShapedChain([nz]) && pz != nz && Compare([pz], [nz])
    ensures var a := ValueArray([2, 0, 0], DoubleBuf([Double(0), Double(0x7FF8_0000_0000_0000)]));
      ShapedArray(a) && !ArrayEqual(a, a)
  {
    var nan := Node(None, [], [], [Prop("d", PDouble(Double(0x7FF8_0000_0000_0000)))]);
    assert !ValueEqual(nan.values[0], nan.values[0]);
    assert !ValuesContain(nan.values, nan.values[0]);
    var pz := Node(None, [], [], [Prop("d", PDouble(Double(0)))]);
    var nz := Node(None, [], [], [Prop("d", PDouble(Double(SignBit)))]);
    assert ValueEqual(nz.values[0], pz.values[0]);
    assert ValuesContain(nz.values, pz.values[0]);
    assert pz.values[1..] == [];
    assert AllValuesContained(pz.values, nz.values);
    assert WithoutChildren(pz, nz);
    var d: seq<nat> := [2, 0, 0];
    assert ProductFrom(d, 2) == 1 && DimTotal(d) == 2;
    var xs := [Double(0), Double(0x7FF8_0000_0000_0000)];
    assert !DoubleEq(xs[1], xs[1]);
  }

  /** Children are matched by containment: a repeated child can stand for a
      different one, so the comparison is not symmetric. */
  lemma ChildrenNotCounted()
    ensures var r := Node(None, [], [], []);
      var a := Node(Some("/a"), [], [], []);
      var b := Node(Some("/b"), [], [], []);
      Compare([r, a, a], [r, a, b]) && !Compare([r, a, b], [r, a, a])
  {
    var r := Node(None, [], [], []);
    var a := Node(Some("/a"), [], [], []);
    var b := Node(Some("/b"), [], [], []);
    assert WithoutChildren(a, a) && !WithoutChildren(a, b) && !WithoutChildren(b, a) && WithoutChildren(r, r);
    CompareIff([r, a, a], [r, a, b]);
    CompareIff([r, a, b], [r, a, a]);
    assert [r, a, b][2] == b;
  }
}
