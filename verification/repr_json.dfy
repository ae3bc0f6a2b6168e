/** The JSON text the library builds from a representation
    (_icl_repr_data_generate_json and _icl_repr_generate_json): one object
    per node holding the table's members, "href" and a "prop" object with
    "rt" and "if", all wrapped as {"oc": [parent, child, ...]}. */
module ReprJson {
  import opened Wrappers
  import opened Scalars
  import opened Interfaces
  import opened Representation

  /** A JSON value; objects are keyed maps, as setting a member that is
      already there replaces it. */
  datatype Json =
    | JNull
    | JBool(b: bool)
    | JInt(i: int)
    | JDouble(d: Double)
    | JStr(s: string)
    | JArr(items: seq<Json>)
    | JObj(members: map<string, Json>)

  /** The member names (IOTCON_KEY_*). */
  const KeyOc: string := "oc"
  const KeyUri: string := "href"
  const KeyResourceTypes: string := "rt"
  const KeyInterfaces: string := "if"
  const KeyProperty: string := "prop"
  const KeyRep: string := "rep"

  /** The conversion of a node's value table to a JSON object
      (icl_obj_to_json, which is not part of this model); None is its
      failure. */
  type StateToJson = map<string, Value> -> Option<map<string, Json>>

  /** The flag bits of a C int as `ifaces & i` sees them for the four flags
      the generator visits: the int's residue modulo 16 in two's complement. */
  const LowMasks: seq<bv32> := [0, 1, 2, 3, 4, 5, 6, 7, 8, 9, 10, 11, 12, 13, 14, 15]

  function Mask(ifaces: int): (m: bv32)
    ensures 0 <= ifaces <= InterfaceMax ==> m == LowMasks[ifaces]
  {
    if 0 <= ifaces < 16 then LowMasks[ifaces] else LowMasks[ifaces % 16]
  }

  function Strings(ss: seq<string>): (r: seq<Json>)
    ensures |r| == |ss| && forall k :: 0 <= k < |ss| ==> r[k] == JStr(ss[k])
  {
    seq(|ss|, k requires 0 <= k < |ss| => JStr(ss[k]))
  }

  /** The members the value table contributes: nothing when the table is
      empty, otherwise whatever the conversion yields. */
  function Base(toJson: StateToJson, r: Repr): Option<map<string, Json>> {
    if 0 < |r.state| then toJson(r.state) else Some(map[])
  }

  /** Whether the node gets a "prop" object. */
  predicate HasProp(r: Repr) {
    0 < |r.types| || r.ifaces != 0
  }

  /** _icl_repr_data_generate_json: the object for one node. */
  function DataJson(t: IfaceTable, toJson: StateToJson, r: Repr): (o: Option<map<string, Json>>)
    ensures o.None? <==> Base(toJson, r).None? || (r.ifaces != 0 && TokensOfMask(t, Mask(r.ifaces)).None?)
  {
    var base := Base(toJson, r);
    if base.None? then None
    else
      var withUri := if r.uri.Some? then base.value[KeyUri := JStr(r.uri.value)] else base.value;
      var prop0: map<string, Json> := map[];
      var prop1 := if 0 < |r.types| then prop0[KeyResourceTypes := JArr(Strings(r.types))] else prop0;
      if r.ifaces != 0 && TokensOfMask(t, Mask(r.ifaces)).None? then None
      else
        var prop2 :=
          if r.ifaces != 0 then prop1[KeyInterfaces := JArr(Strings(TokensOfMask(t, Mask(r.ifaces)).value))]
          else prop1;
        Some(if HasProp(r) then withUri[KeyProperty := JObj(prop2)] else withUri)
  }

  /** The members of a node's object: "href" holds the URI when there is
      one, "prop" is there when the node has types or interfaces, and every
      other member is the value table's. */
  lemma DataJsonMembers(t: IfaceTable, toJson: StateToJson, r: Repr)
    requires DataJson(t, toJson, r).Some?
    ensures var o := DataJson(t, toJson, r).value; var b := Base(toJson, r).value;
      && (KeyUri in o <==> r.uri.Some? || KeyUri in b)
      && (r.uri.Some? ==> o[KeyUri] == JStr(r.uri.value))
      && (KeyProperty in o <==> HasProp(r) || KeyProperty in b)
      && (forall key :: key != KeyUri && key != KeyProperty ==> (key in o <==> key in b))
      && (forall key :: key in o && key != KeyUri && key != KeyProperty ==> o[key] == b[key])
  {
  }

  /** The JSON of each child in order, or None as soon as one fails. */
  function ChildrenJson(t: IfaceTable, toJson: StateToJson, cs: seq<Repr>): (r: Option<seq<Json>>)
    ensures r.Some? <==> forall k :: 0 <= k < |cs| ==> DataJson(t, toJson, cs[k]).Some?
    ensures r.Some? ==> (|r.value| == |cs|
      && forall k :: 0 <= k < |cs| ==> r.value[k] == JObj(DataJson(t, toJson, cs[k]).value))
  {
    if cs == [] then Some([])
    else
      match DataJson(t, toJson, cs[0])
      case None => None
      case Some(o) =>
        match ChildrenJson(t, toJson, cs[1..])
        case None => None
        case Some(rest) =>
          assert forall k :: 1 <= k < |cs| ==> cs[k] == cs[1..][k - 1];
          Some([JObj(o)] + rest)
  }

  /** _icl_repr_generate_json: {"oc": [parent, child_0, ..., child_n-1]}. */
  function ToJson(t: IfaceTable, toJson: StateToJson, r: Repr): (j: Option<Json>)
    ensures j.Some? <==> DataJson(t, toJson, r).Some? && ChildrenJson(t, toJson, r.children).Some?
  {
    match DataJson(t, toJson, r)
    case None => None
    case Some(parent) =>
      match ChildrenJson(t, toJson, r.children)
      case None => None
      case Some(cs) => Some(JObj(map[KeyOc := JArr([JObj(parent)] + cs)]))
  }

  /** The whole document: one member "oc", an array of the parent's object
      followed by one object per child, in order. */
  lemma ToJsonLayout(t: IfaceTable, toJson: StateToJson, r: Repr)
    requires ToJson(t, toJson, r).Some?
    ensures var j := ToJson(t, toJson, r).value;
      && j.JObj? && j.members.Keys == {KeyOc}
      && j.members[KeyOc].JArr?
      && |j.members[KeyOc].items| == 1 + |r.children|
      && j.members[KeyOc].items[0] == JObj(DataJson(t, toJson, r).value)
      && forall k :: 0 <= k < |r.children| ==>
        j.members[KeyOc].items[k + 1] == JObj(DataJson(t, toJson, r.children[k]).value)
  {
    var parent := DataJson(t, toJson, r).value;
    var cs := ChildrenJson(t, toJson, r.children).value;
    assert ToJson(t, toJson, r).value.members[KeyOc].items == [JObj(parent)] + cs;
  }

  /** The "prop" object of a node: "rt" exactly when there are types, with
      the types in order; "if" exactly when the mask is not NONE, with the
      tokens of the set flags in increasing bit order; nothing else. */
  lemma PropLayout(t: IfaceTable, toJson: StateToJson, r: Repr)
    requires t.Valid() && IfacesInRange(r)
    requires DataJson(t, toJson, r).Some? && HasProp(r)
    ensures var o := DataJson(t, toJson, r).value;
      && KeyProperty in o && o[KeyProperty].JObj?
      && var prop := o[KeyProperty].members;
      && (forall key :: key in prop ==> key == KeyResourceTypes || key == KeyInterfaces)
      && (KeyResourceTypes in prop <==> 0 < |r.types|)
      && (0 < |r.types| ==> prop[KeyResourceTypes] == JArr(Strings(r.types)))
      && (KeyInterfaces in prop <==> r.ifaces != 0)
      && (r.ifaces != 0 ==> exists ts ::
        && prop[KeyInterfaces] == JArr(Strings(ts))
        && CanonicalTokens(t, ts)
        && (forall s :: s in ts <==> exists j :: 0 <= j < |Flags| && Has(Mask(r.ifaces), Flags[j]) && Flags[j] in t.tokens && t.tokens[Flags[j]] == s))
  {
    if r.ifaces != 0 {
      var m := Mask(r.ifaces);
      var ts := TokensOfMask(t, m).value;
      TokensOfMaskCanonical(t, m);
      assert DataJson(t, toJson, r).value[KeyProperty].members[KeyInterfaces] == JArr(Strings(ts));
    }
  }

  /** Children whose objects agree give the same list. */
  lemma ChildrenJsonPointwise(t: IfaceTable, toJson: StateToJson, a: seq<Repr>, b: seq<Repr>)
    requires |a| == |b|
    requires forall k :: 0 <= k < |a| ==> DataJson(t, toJson, a[k]) == DataJson(t, toJson, b[k])
    ensures ChildrenJson(t, toJson, a) == ChildrenJson(t, toJson, b)
  {
    var ja := ChildrenJson(t, toJson, a);
    var jb := ChildrenJson(t, toJson, b);
    if ja.Some? {
      assert jb.Some?;
      assert ja.value == jb.value;
    }
  }

  /** Only the direct children appear: what a child holds below it does not
      change the document. */
  lemma NoGrandchildren(t: IfaceTable, toJson: StateToJson, r: Repr, k: nat, below: seq<Repr>)
    requires k < |r.children|
    ensures var r' := r.(children := r.children[k := r.children[k].(children := below)]);
      ToJson(t, toJson, r') == ToJson(t, toJson, r)
  {
    var r' := r.(children := r.children[k := r.children[k].(children := below)]);
    DataJsonIgnoresChildren(t, toJson, r, r'.children);
    DataJsonIgnoresChildren(t, toJson, r.children[k], below);
    ChildrenJsonPointwise(t, toJson, r'.children, r.children);
  }

  lemma DataJsonIgnoresChildren(t: IfaceTable, toJson: StateToJson, r: Repr, cs: seq<Repr>)
    ensures DataJson(t, toJson, r.(children := cs)) == DataJson(t, toJson, r)
  {
    assert Base(toJson, r.(children := cs)) == Base(toJson, r);
  }

  /** A new representation gives {"oc": [{}]}. */
  lemma NewJson(t: IfaceTable, toJson: StateToJson)
    ensures ToJson(t, toJson, New()) == Some(JObj(map[KeyOc := JArr([JObj(map[])])]))
  {
    assert ChildrenJson(t, toJson, []) == Some([]);
    assert [JObj(map[])] + [] == [JObj(map[])];
  }

  /** The table with every reference count blanked. */
  function EraseState(m: map<string, Value>): (e: map<string, Value>)
    ensures e.Keys == m.Keys
  {
    map key | key in m :: EraseValue(m[key])
  }

  /** A table conversion that looks at content, not at reference counts. */
  ghost predicate ReadsContent(toJson: StateToJson) {
    forall m1, m2 :: EraseState(m1) == EraseState(m2) ==> toJson(m1) == toJson(m2)
  }

  lemma SameContentSameData(t: IfaceTable, toJson: StateToJson, a: Repr, b: Repr)
    requires ReadsContent(toJson) && Erase(a) == Erase(b)
    ensures DataJson(t, toJson, a) == DataJson(t, toJson, b)
  {
    assert EraseState(a.state) == Erase(a).state;
    assert EraseState(b.state) == Erase(b).state;
    assert a.state.Keys == b.state.Keys;
  }

  /** A clone prints as its source does. */
  lemma CloneSameJson(t: IfaceTable, toJson: StateToJson, r: Repr)
    requires ReadsContent(toJson)
    ensures ToJson(t, toJson, Clone(r)) == ToJson(t, toJson, r)
  {
    var c := Clone(r);
    CloneSameContent(r);
    SameContentSameData(t, toJson, c, r);
    forall k | 0 <= k < |r.children|
      ensures DataJson(t, toJson, c.children[k]) == DataJson(t, toJson, r.children[k])
    {
      CloneSameContent(r.children[k]);
      SameContentSameData(t, toJson, c.children[k], r.children[k]);
    }
    ChildrenJsonPointwise(t, toJson, c.children, r.children);
  }
}
