/** The library's representation object (iotcon_repr_h): a reference count,
    an optional URI, resource types, an interface mask, a table of named
    values and an ordered list of children.

    The model has value semantics. A representation is a tree: the children
    and the representation values held in the table are sub-trees. Where the
    C code shares one object between two owners (a child appended to a
    parent is also the caller's handle) the model hands back the updated
    object and the parent's copy, equal at the moment of the call. */
module Representation {
  import opened Wrappers
  import opened Scalars
  import opened Interfaces

  /** A value stored under a key of the representation's table. Lists
      (iotcon_list_h) are kept as their items. */
  datatype Value =
    | VInt(i: int)
    | VBool(b: bool)
    | VDouble(d: Double)
    | VStr(s: string)
    | VNull
    | VList(items: seq<Value>)
    | VRepr(r: Repr)

  /** struct icl_repr_s. `types` is the resource-type list; an absent list
      and an empty one behave alike in every modelled operation. */
  datatype Repr = Repr(
    refCount: int,
    uri: Option<string>,
    types: seq<string>,
    ifaces: int,
    state: map<string, Value>,
    children: seq<Repr>)

  // ---------------------------------------------------------------------
  // Reference counting

  /** icl_repr_inc_ref_count: a negative count is refused. */
  function IncRef(r: Repr): (s: Repr)
    ensures s.(refCount := r.refCount) == r
    ensures r.refCount >= 0 ==> s.refCount == r.refCount + 1
    ensures r.refCount < 0 ==> s == r
  {
    if r.refCount < 0 then r else r.(refCount := r.refCount + 1)
  }

  /** _icl_repr_dec_ref_count: the updated object and whether the count
      reached zero. A count that is already zero or negative is refused. */
  function DecRef(r: Repr): (res: (Repr, bool))
    ensures res.0.(refCount := r.refCount) == r
    ensures r.refCount <= 0 ==> res == (r, false)
    ensures r.refCount > 0 ==> res.0.refCount == r.refCount - 1
    ensures res.1 <==> r.refCount == 1
  {
    if r.refCount <= 0 then (r, false)
    else
      var s := r.(refCount := r.refCount - 1);
      (s, s.refCount == 0)
  }

  /** A release undoes a retain. */
  lemma DecRefUndoesIncRef(r: Repr)
    requires r.refCount >= 0
    ensures DecRef(IncRef(r)) == (r, false) <==> r.refCount >= 1
    ensures DecRef(IncRef(r)).0 == r
  {
  }

  // ---------------------------------------------------------------------
  // Construction and fields

  /** iotcon_repr_new. */
  function New(): (r: Repr)
    ensures r.refCount == 1
  {
    Repr(1, None, [], InterfaceNone as int, map[], [])
  }

  /** The interface mask lies between NONE and ICL_INTERFACE_MAX: the range
      every modelled operation keeps. */
  predicate IfacesInRange(r: Repr) {
    0 <= r.ifaces <= InterfaceMax
  }

  /** A representation with nothing in it, counted once. */
  predicate IsEmpty(r: Repr) {
    r.uri.None? && r.types == [] && r.ifaces == 0 && r.state == map[] && r.children == []
  }

  /** iotcon_repr_set_uri: the old URI is cleared first, so an absent
      argument is refused and still leaves the URI absent. */
  function SetUri(r: Repr, uri: Option<string>): (res: (Repr, Status))
    ensures res.1 == Ok <==> uri.Some?
    ensures res.1 != Ok ==> res.1 == InvalidParameter
    ensures res.0.uri == uri
    ensures res.0.(uri := r.uri) == r
  {
    var cleared := r.(uri := None);
    match uri
    case None => (cleared, InvalidParameter)
    case Some(u) => (cleared.(uri := Some(u)), Ok)
  }

  /** iotcon_repr_set_resource_interfaces: a mask outside (NONE, MAX] is
      refused and the old mask kept. */
  function SetInterfaces(r: Repr, ifaces: int): (res: (Repr, Status))
    ensures res.1 == Ok <==> 0 < ifaces <= InterfaceMax
    ensures res.1 != Ok ==> res.1 == InvalidParameter && res.0 == r
    ensures res.1 == Ok ==> res.0 == r.(ifaces := ifaces)
  {
    if ifaces <= InterfaceNone as int || InterfaceMax < ifaces then (r, InvalidParameter)
    else (r.(ifaces := ifaces), Ok)
  }

  /** The URI is whatever the last call set, whatever came before. */
  lemma SetUriLastWins(r: Repr, a: Option<string>, b: Option<string>)
    ensures SetUri(SetUri(r, a).0, b) == SetUri(r, b)
  {
  }

  /** Every modelled operation keeps the interface mask in range. */
  lemma OperationsKeepIfacesInRange(r: Repr, uri: Option<string>, ifaces: int, child: Repr)
    requires IfacesInRange(r)
    ensures IfacesInRange(New()) && IsEmpty(New())
    ensures IfacesInRange(SetUri(r, uri).0)
    ensures IfacesInRange(SetInterfaces(r, ifaces).0)
    ensures IfacesInRange(AppendChild(r, child).0)
    ensures IfacesInRange(Clone(r))
  {
  }

  // ---------------------------------------------------------------------
  // Children

  /** iotcon_repr_append_child: the child gains a reference and is added at
      the end, even when it is already there. Returns the parent and the
      child as updated. */
  function AppendChild(parent: Repr, child: Repr): (res: (Repr, Repr))
    ensures res.1 == IncRef(child)
    ensures res.0.(children := parent.children) == parent
    ensures res.0.children == parent.children + [res.1]
  {
    var c := IncRef(child);
    (parent.(children := parent.children + [c]), c)
  }

  /** iotcon_repr_get_children_count. */
  function ChildrenCount(r: Repr): (n: nat)
    ensures n == 0 <==> r.children == []
  {
    |r.children|
  }

  /** iotcon_repr_get_nth_child: INVALID_PARAMETER without children, NO_DATA
      for a position outside the list (a negative position becomes a huge
      unsigned one). */
  function NthChild(r: Repr, pos: int): (res: (Status, Option<Repr>))
    ensures res.0 == Ok <==> 0 <= pos < |r.children|
    ensures res.0 == Ok ==> res.1 == Some(r.children[pos])
    ensures res.0 != Ok ==> res.1 == None
    ensures r.children == [] ==> res.0 == InvalidParameter
    ensures r.children != [] && !(0 <= pos < |r.children|) ==> res.0 == NoData
  {
    if r.children == [] then (InvalidParameter, None)
    else if pos < 0 || |r.children| <= pos then (NoData, None)
    else (Ok, Some(r.children[pos]))
  }

  /** Appending adds one to the count, puts the child last and moves no
      earlier child. */
  lemma AppendChildThenCount(parent: Repr, child: Repr)
    ensures ChildrenCount(AppendChild(parent, child).0) == ChildrenCount(parent) + 1
    ensures NthChild(AppendChild(parent, child).0, ChildrenCount(parent)) == (Ok, Some(IncRef(child)))
    ensures forall k :: 0 <= k < ChildrenCount(parent) ==>
      NthChild(AppendChild(parent, child).0, k) == NthChild(parent, k)
  {
  }

  /** Appending the same child twice keeps both entries. */
  lemma AppendKeepsDuplicates(parent: Repr, child: Repr)
    requires child.refCount >= 0
    ensures var (p1, c1) := AppendChild(parent, child);
      var (p2, c2) := AppendChild(p1, c1);
      ChildrenCount(p2) == ChildrenCount(parent) + 2 && c2.refCount == child.refCount + 2
  {
  }

  /** iotcon_repr_foreach_children: visits the children in order and stops
      right after the first one for which `stop` holds (IOTCON_FUNC_STOP).
      Returns the children visited. */
  method ForeachChildren(r: Repr, stop: Repr -> bool) returns (visited: seq<Repr>)
    ensures visited <= r.children
    ensures forall k :: 0 <= k < |visited| - 1 ==> !stop(visited[k])
    ensures |visited| < |r.children| ==> |visited| > 0 && stop(visited[|visited| - 1])
    ensures (forall k :: 0 <= k < |r.children| ==> !stop(r.children[k])) ==> visited == r.children
  {
    visited := [];
    var i := 0;
    while i < |r.children|
      invariant 0 <= i <= |r.children|
      invariant visited == r.children[..i]
      invariant forall k :: 0 <= k < i ==> !stop(r.children[k])
    {
      visited := visited + [r.children[i]];
      if stop(r.children[i]) {
        return;
      }
      i := i + 1;
    }
  }

  // ---------------------------------------------------------------------
  // Release

  /** What iotcon_repr_free does to one object: the decrement is refused,
      or the object stays alive with one reference less, or it is released:
      each of its children is freed in turn and each value of its table is
      destroyed (g_hash_table_destroy with icl_value_free). */
  datatype Freed =
    | Refused
    | Kept(rest: Repr)
    | Released(table: map<string, FreedValue>, children: seq<Freed>)

  /** What icl_value_free does to one table value: a scalar is simply
      dropped, a list drops each of its items, a nested representation is
      freed with iotcon_repr_free. */
  datatype FreedValue =
    | Dropped
    | ListDropped(items: seq<FreedValue>)
    | ReprDropped(freed: Freed)

  /** iotcon_repr_free. */
  function Free(r: Repr): (f: Freed)
    ensures f.Refused? <==> r.refCount <= 0
    ensures f.Kept? <==> r.refCount > 1
    ensures f.Kept? ==> f.rest.(refCount := r.refCount) == r && f.rest.refCount == r.refCount - 1
    ensures f.Released? ==> |f.children| == |r.children| && f.table.Keys == r.state.Keys
    decreases r, 1
  {
    var (s, zero) := DecRef(r);
    if r.refCount <= 0 then Refused
    else if !zero then Kept(s)
    else
      Released(
        map key | key in r.state :: FreeValue(r.state[key]),
        seq(|r.children|, k requires 0 <= k < |r.children| => Free(r.children[k])))
  }

  /** icl_value_free (not part of this model), taken to release what the
      value owns: the items of a list, the representation it holds. */
  function FreeValue(v: Value): (f: FreedValue)
    ensures v.VRepr? <==> f.ReprDropped?
    ensures v.VList? <==> f.ListDropped?
    ensures v.VList? ==> |f.items| == |v.items|
    decreases v, 0
  {
    match v
    case VList(items) => ListDropped(seq(|items|, k requires 0 <= k < |items| => FreeValue(items[k])))
    case VRepr(x) => ReprDropped(Free(x))
    case _ => Dropped
  }

  /** Sum of a sequence of counts. */
  function SeqSum(s: seq<nat>): nat {
    if s == [] then 0 else s[0] + SeqSum(s[1..])
  }

  /** Sum of the counts a map holds, in no particular order. */
  ghost function MapSum(m: map<string, nat>): nat
    decreases |m|
  {
    if |m| == 0 then 0
    else
      var k :| k in m;
      m[k] + MapSum(m - {k})
  }

  /** The representation objects deallocated by one release, through the
      children and through the values of every table. */
  ghost function ReleasedCount(f: Freed): nat
    decreases f, 1
  {
    match f
    case Refused => 0
    case Kept(_) => 0
    case Released(t, cs) =>
      1 + MapSum(map key | key in t :: ValueReleasedCount(t[key]))
        + SeqSum(seq(|cs|, k requires 0 <= k < |cs| => ReleasedCount(cs[k])))
  }

  ghost function ValueReleasedCount(f: FreedValue): nat
    decreases f, 0
  {
    match f
    case Dropped => 0
    case ListDropped(items) => SeqSum(seq(|items|, k requires 0 <= k < |items| => ValueReleasedCount(items[k])))
    case ReprDropped(g) => ReleasedCount(g)
  }

  /** Number of representation objects in the tree: the object itself, its
      children's trees and the trees its table values hold. */
  ghost function TreeSize(r: Repr): nat
    decreases r, 1
  {
    1 + MapSum(map key | key in r.state :: ValueSize(r.state[key]))
      + SeqSum(seq(|r.children|, k requires 0 <= k < |r.children| => TreeSize(r.children[k])))
  }

  ghost function ValueSize(v: Value): nat
    decreases v, 0
  {
    match v
    case VList(items) => SeqSum(seq(|items|, k requires 0 <= k < |items| => ValueSize(items[k])))
    case VRepr(x) => TreeSize(x)
    case _ => 0
  }

  /** Releasing a tree whose objects, nested values included, are each
      held once deallocates every object of it exactly once. */
  lemma {:induction false} FreeOwnedTree(r: Repr)
    requires CountedOnce(r)
    ensures Free(r).Released?
    ensures ReleasedCount(Free(r)) == TreeSize(r)
    decreases r, 1
  {
    var f := Free(r);
    forall key | key in r.state
      ensures ValueReleasedCount(f.table[key]) == ValueSize(r.state[key])
    {
      FreeOwnedValue(r.state[key]);
    }
    forall k | 0 <= k < |r.children|
      ensures ReleasedCount(f.children[k]) == TreeSize(r.children[k])
    {
      FreeOwnedTree(r.children[k]);
    }
    assert (map key | key in f.table :: ValueReleasedCount(f.table[key]))
      == (map key | key in r.state :: ValueSize(r.state[key]));
    assert seq(|f.children|, k requires 0 <= k < |f.children| => ReleasedCount(f.children[k]))
      == seq(|r.children|, k requires 0 <= k < |r.children| => TreeSize(r.children[k]));
  }

  lemma {:induction false} FreeOwnedValue(v: Value)
    requires CountedOnceValue(v)
    ensures ValueReleasedCount(FreeValue(v)) == ValueSize(v)
    decreases v, 0
  {
    match v
    case VList(items) =>
      var f := FreeValue(v);
      forall k | 0 <= k < |items|
        ensures ValueReleasedCount(f.items[k]) == ValueSize(items[k])
      {
        FreeOwnedValue(items[k]);
      }
      assert seq(|f.items|, k requires 0 <= k < |f.items| => ValueReleasedCount(f.items[k]))
        == seq(|items|, k requires 0 <= k < |items| => ValueSize(items[k]));
    case VRepr(x) => FreeOwnedTree(x);
    case _ =>
  }

  lemma MapSumSingle(key: string, n: nat)
    ensures MapSum(map[key := n]) == n
  {
    var m := map[key := n];
    assert m - {key} == map[];
  }

  /** An object with an empty table and no children is a tree of one. */
  lemma TreeSizeLeaf(r: Repr)
    requires r.state == map[] && r.children == []
    ensures TreeSize(r) == 1
  {
    assert (map key | key in r.state :: ValueSize(r.state[key])) == map[];
    assert seq(|r.children|, k requires 0 <= k < |r.children| => TreeSize(r.children[k])) == [];
  }

  /** A representation held only in another's table is released with it:
      two objects go, the outer one and the nested one. */
  lemma FreeReleasesTableValues()
    ensures var r := New().(state := map["k" := VRepr(New())]);
      ReleasedCount(Free(r)) == 2 && TreeSize(r) == 2
  {
    var r := New().(state := map["k" := VRepr(New())]);
    HolderShape(r, "k", New());
    FreeOwnedTree(r);
  }

  /** An object whose table holds one empty object and nothing else. */
  lemma HolderShape(r: Repr, key: string, inner: Repr)
    requires r.refCount == 1 && r.children == [] && r.state == map[key := VRepr(inner)]
    requires inner.refCount == 1 && inner.children == [] && inner.state == map[]
    ensures CountedOnce(r) && TreeSize(r) == 2
  {
    TreeSizeLeaf(inner);
    assert (map k | k in r.state :: ValueSize(r.state[k])) == map[key := 1];
    MapSumSingle(key, 1);
    assert seq(|r.children|, k requires 0 <= k < |r.children| => TreeSize(r.children[k])) == [];
    assert CountedOnceValue(r.state[key]);
  }

  /** A retain followed by a release leaves a live object as it was. */
  lemma FreeUndoesIncRef(r: Repr)
    requires r.refCount >= 1
    ensures Free(IncRef(r)) == Kept(r)
  {
  }

  /** Freeing a parent that held the last reference to itself releases a
      child the caller still holds exactly once: the child survives with
      its count back where it was before it was appended. */
  lemma FreeParentKeepsSharedChild(parent: Repr, child: Repr)
    requires parent.refCount == 1 && child.refCount >= 1
    ensures var p := AppendChild(parent, child).0;
      Free(p).Released? && Free(p).children[|parent.children|] == Kept(child)
  {
  }

  // ---------------------------------------------------------------------
  // Deep copy

  /** iotcon_repr_clone: a new object counted once, the same URI, mask and
      types, every child cloned in order and every table entry cloned
      (_icl_repr_obj_clone). */
  function Clone(r: Repr): (c: Repr)
    ensures c.refCount == 1
    ensures c.uri == r.uri && c.types == r.types
    ensures r.ifaces != 0 ==> c.ifaces == r.ifaces
    ensures |c.children| == |r.children| && c.state.Keys == r.state.Keys
    decreases r, 1
  {
    var dest := New();
    dest.(
      uri := r.uri,
      ifaces := if r.ifaces != 0 then r.ifaces else dest.ifaces,
      types := r.types,
      children := seq(|r.children|, k requires 0 <= k < |r.children| => Clone(r.children[k])),
      state := map key | key in r.state :: CloneValue(r.state[key]))
  }

  /** icl_value_clone for scalars, icl_list_clone for lists (modelled as a
      copy of each item), iotcon_repr_clone for nested representations. */
  function CloneValue(v: Value): (w: Value)
    ensures w.VList? <==> v.VList?
    ensures w.VList? ==> |w.items| == |v.items|
    ensures w.VRepr? <==> v.VRepr?
    ensures w.VRepr? ==> w.r.refCount == 1 && w.r.uri == v.r.uri
    ensures !v.VList? && !v.VRepr? ==> w == v
    decreases v, 0
  {
    match v
    case VList(items) => VList(seq(|items|, k requires 0 <= k < |items| => CloneValue(items[k])))
    case VRepr(x) => VRepr(Clone(x))
    case _ => v
  }

  /** The content of a representation with every reference count blanked. */
  function Erase(r: Repr): (e: Repr)
    ensures e.refCount == 0
    decreases r, 1
  {
    Repr(0, r.uri, r.types, r.ifaces,
      map key | key in r.state :: EraseValue(r.state[key]),
      seq(|r.children|, k requires 0 <= k < |r.children| => Erase(r.children[k])))
  }

  function EraseValue(v: Value): (e: Value)
    decreases v, 0
  {
    match v
    case VList(items) => VList(seq(|items|, k requires 0 <= k < |items| => EraseValue(items[k])))
    case VRepr(x) => VRepr(Erase(x))
    case _ => v
  }

  /** Every object of the tree, children and nested values alike, is
      counted exactly once. */
  predicate CountedOnce(r: Repr)
    decreases r, 1
  {
    && r.refCount == 1
    && (forall key :: key in r.state ==> CountedOnceValue(r.state[key]))
    && (forall k :: 0 <= k < |r.children| ==> CountedOnce(r.children[k]))
  }

  predicate CountedOnceValue(v: Value)
    decreases v, 0
  {
    match v
    case VList(items) => forall k :: 0 <= k < |items| ==> CountedOnceValue(items[k])
    case VRepr(x) => CountedOnce(x)
    case _ => true
  }

  /** A clone has the content of its source. */
  lemma {:induction false} CloneSameContent(r: Repr)
    ensures Erase(Clone(r)) == Erase(r)
    decreases r, 1
  {
    var c := Clone(r);
    forall key | key in r.state
      ensures EraseValue(CloneValue(r.state[key])) == EraseValue(r.state[key])
    {
      CloneSameContentValue(r.state[key]);
    }
    forall k | 0 <= k < |r.children|
      ensures Erase(Clone(r.children[k])) == Erase(r.children[k])
    {
      CloneSameContent(r.children[k]);
    }
    assert Erase(c).state == Erase(r).state;
    assert Erase(c).children == Erase(r).children;
  }

  lemma {:induction false} CloneSameContentValue(v: Value)
    ensures EraseValue(CloneValue(v)) == EraseValue(v)
    decreases v, 0
  {
    match v
    case VList(items) =>
      forall k | 0 <= k < |items|
        ensures EraseValue(CloneValue(items[k])) == EraseValue(items[k])
      {
        CloneSameContentValue(items[k]);
      }
      assert EraseValue(CloneValue(v)).items == EraseValue(v).items;
    case VRepr(x) => CloneSameContent(x);
    case _ =>
  }

  /** Every object of a clone is fresh: counted once. */
  lemma {:induction false} CloneCountedOnce(r: Repr)
    ensures CountedOnce(Clone(r))
    decreases r, 1
  {
    var c := Clone(r);
    forall key | key in c.state ensures CountedOnceValue(c.state[key]) {
      CloneCountedOnceValue(r.state[key]);
    }
    forall k | 0 <= k < |c.children| ensures CountedOnce(c.children[k]) {
      CloneCountedOnce(r.children[k]);
    }
  }

  lemma {:induction false} CloneCountedOnceValue(v: Value)
    ensures CountedOnceValue(CloneValue(v))
    decreases v, 0
  {
    match v
    case VList(items) =>
      forall k | 0 <= k < |items| ensures CountedOnceValue(CloneValue(items[k])) {
        CloneCountedOnceValue(items[k]);
      }
    case VRepr(x) => CloneCountedOnce(x);
    case _ =>
  }

  /** A tree that is already fresh is its own clone. */
  lemma {:induction false} CloneOfCountedOnce(r: Repr)
    requires CountedOnce(r)
    ensures Clone(r) == r
    decreases r, 1
  {
    forall key | key in r.state ensures CloneValue(r.state[key]) == r.state[key] {
      CloneOfCountedOnceValue(r.state[key]);
    }
    forall k | 0 <= k < |r.children| ensures Clone(r.children[k]) == r.children[k] {
      CloneOfCountedOnce(r.children[k]);
    }
    assert Clone(r).state == r.state;
    assert Clone(r).children == r.children;
  }

  lemma {:induction false} CloneOfCountedOnceValue(v: Value)
    requires CountedOnceValue(v)
    ensures CloneValue(v) == v
    decreases v, 0
  {
    match v
    case VList(items) =>
      forall k | 0 <= k < |items| ensures CloneValue(items[k]) == items[k] {
        CloneOfCountedOnceValue(items[k]);
      }
      assert CloneValue(v).items == items;
    case VRepr(x) => CloneOfCountedOnce(x);
    case _ =>
  }

  /** Representations with the same content have the same clone. */
  lemma {:induction false} CloneDependsOnContent(a: Repr, b: Repr)
    requires Erase(a) == Erase(b)
    ensures Clone(a) == Clone(b)
    decreases a, 1
  {
    assert a.state.Keys == Erase(a).state.Keys;
    assert b.state.Keys == Erase(b).state.Keys;
    forall key | key in a.state ensures CloneValue(a.state[key]) == CloneValue(b.state[key]) {
      assert Erase(a).state[key] == Erase(b).state[key];
      CloneDependsOnContentValue(a.state[key], b.state[key]);
    }
    assert |a.children| == |Erase(a).children|;
    forall k | 0 <= k < |a.children| ensures Clone(a.children[k]) == Clone(b.children[k]) {
      assert Erase(a).children[k] == Erase(b).children[k];
      CloneDependsOnContent(a.children[k], b.children[k]);
    }
    assert Clone(a).state == Clone(b).state;
    assert Clone(a).children == Clone(b).children;
  }

  lemma {:induction false} CloneDependsOnContentValue(v: Value, w: Value)
    requires EraseValue(v) == EraseValue(w)
    ensures CloneValue(v) == CloneValue(w)
    decreases v, 0
  {
    match v
    case VList(items) =>
      assert w.VList? && |w.items| == |items|;
      forall k | 0 <= k < |items| ensures CloneValue(items[k]) == CloneValue(w.items[k]) {
        assert EraseValue(v).items[k] == EraseValue(w).items[k];
        CloneDependsOnContentValue(items[k], w.items[k]);
      }
      assert CloneValue(v).items == CloneValue(w).items;
    case VRepr(x) => CloneDependsOnContent(x, w.r);
    case _ =>
  }

  /** The clone is the one representation that has the source's content
      and whose objects are all fresh. */
  lemma CloneCharacterised(r: Repr, c: Repr)
    ensures CountedOnce(Clone(r)) && Erase(Clone(r)) == Erase(r)
    ensures CountedOnce(c) && Erase(c) == Erase(r) ==> c == Clone(r)
  {
    CloneCountedOnce(r);
    CloneSameContent(r);
    if CountedOnce(c) && Erase(c) == Erase(r) {
      CloneOfCountedOnce(c);
      CloneDependsOnContent(c, r);
    }
  }

  /** Cloning twice gives the same as cloning once. */
  lemma CloneIdempotent(r: Repr)
    ensures Clone(Clone(r)) == Clone(r)
  {
    CloneCountedOnce(r);
    CloneOfCountedOnce(Clone(r));
  }

  /** Freeing a clone deallocates each object of it once, children and
      nested values alike. */
  lemma FreeClone(r: Repr)
    ensures Free(Clone(r)).Released?
    ensures ReleasedCount(Free(Clone(r))) == TreeSize(Clone(r))
  {
    CloneCountedOnce(r);
    FreeOwnedTree(Clone(r));
  }

  /** A new representation is empty, counted once, and its own clone. */
  lemma NewIsEmpty()
    ensures IsEmpty(New()) && CountedOnce(New())
    ensures Clone(New()) == New()
    ensures ChildrenCount(New()) == 0 && NthChild(New(), 0).0 == InvalidParameter
  {
    CloneOfCountedOnce(New());
  }
}
