/** Round trips of whole representations: a node with its children goes
    through the `(siasa{sv}av)` tuple and comes back as the same chain. */
module ChainRoundTrip {
  import opened Wrappers
  import opened IcUtils
  import opened Interfaces
  import opened Payload
  import opened WireFormat
  import opened PayloadEncode
  import opened PayloadDecode
  import opened PayloadRoundTrip

  /** A node the wire carries faithfully: its URI is not the sentinel, its
      interface tokens are known and in flag order without repeats, and its
      state survives the trip. */
  ghost predicate NodeRT(t: IfaceTable, n: Node) {
    && n.uri != Some(StrNull)
    && CanonicalTokens(t, n.ifaces)
    && PropsRT(n.values)
    && PropsOk(n.values)
  }

  /** The fields of an encoded node decode back to the node. */
  lemma HeadRoundTrip(t: IfaceTable, n: Node, w: WireNode)
    requires t.Valid() && NodeRT(t, n) && MaskOf(t, n.ifaces).Some?
    requires w.uri == DbusEncodeStr(n.uri) && w.ifaces == MaskOf(t, n.ifaces).value
    requires w.types == n.types && w.state == StateToWire(n.values)
    ensures TokensOfMask(t, w.ifaces) == Some(n.ifaces)
    ensures Node(DbusDecodeStr(Some(w.uri)), w.types, n.ifaces, StateFromWire(w.state, [])) == n
  {
    CanonicalMaskRoundTrip(t, n.ifaces);
    DecodeEncode(n.uri);
    StateRoundTrip(n.values, []);
    assert [] + n.values == n.values;
  }

  /** NodeFromWire once the interface tokens and the children are known. */
  lemma NodeFromWireOf(t: IfaceTable, w: WireNode, ifaces: seq<string>, cs: seq<Chain>)
    requires TokensOfMask(t, w.ifaces) == Some(ifaces) && ChildrenFromWire(t, w.children) == Some(cs)
    ensures NodeFromWire(t, w) == Some([Node(DbusDecodeStr(Some(w.uri)), w.types, ifaces, StateFromWire(w.state, []))] + LinkChildren(cs))
  {
  }

  /** A node without children decodes to the one-node chain it came from. */
  lemma LeafNodeRoundTrip(t: IfaceTable, n: Node)
    requires t.Valid() && NodeRT(t, n)
    ensures NodeToWire(t, n, []).Some?
    ensures NodeToWire(t, n, []).value.children == []
    ensures NodeFromWire(t, NodeToWire(t, n, []).value) == Some([n])
  {
    CanonicalMaskRoundTrip(t, n.ifaces);
    var w := NodeToWire(t, n, []).value;
    HeadRoundTrip(t, n, w);
    assert ChildrenFromWire(t, w.children) == Some([]);
    NodeFromWireOf(t, w, n.ifaces, []);
    assert [n] + LinkChildren([]) == [n];
  }

  /** Each child as a chain of its own. */
  function Singletons(cs: seq<Node>): (r: seq<Chain>)
    ensures |r| == |cs| && forall k :: 0 <= k < |cs| ==> r[k] == [cs[k]]
  {
    seq(|cs|, k requires 0 <= k < |cs| => [cs[k]])
  }

  /** Linking children that have no children of their own lists them in order. */
  lemma {:induction false} LinkSingletons(cs: seq<Node>)
    ensures LinkChildren(Singletons(cs)) == cs
    decreases |cs|
  {
    if |cs| > 1 {
      assert Singletons(cs)[1..] == Singletons(cs[1..]);
      LinkSingletons(cs[1..]);
      assert cs == [cs[0]] + cs[1..];
    }
  }

  /** Decoding a non-empty list of wire children: the first, then the rest. */
  lemma ChildrenFromWireCons(t: IfaceTable, ws: seq<WireNode>, c: Chain, rest: seq<Chain>)
    requires |ws| > 0 && NodeFromWire(t, ws[0]) == Some(c) && ChildrenFromWire(t, ws[1..]) == Some(rest)
    ensures ChildrenFromWire(t, ws) == Some([c] + rest)
  {
  }

  /** Encoding a non-empty list of children whose first one is kept: that
      one, then the rest. */
  lemma ChildrenToWireCons(t: IfaceTable, cs: seq<Node>)
    requires t.Valid() && |cs| > 0 && forall k :: 0 <= k < |cs| ==> NodeOk(cs[k])
    requires NodeToWire(t, cs[0], []).Some?
    ensures var ws := ChildrenToWire(t, cs);
      |ws| > 0 && ws[0] == NodeToWire(t, cs[0], []).value && ws[1..] == ChildrenToWire(t, cs[1..])
  {
    var w := NodeToWire(t, cs[0], []).value;
    assert ChildrenToWire(t, cs) == [w] + ChildrenToWire(t, cs[1..]);
  }

  lemma SingletonsCons(cs: seq<Node>)
    requires |cs| > 0
    ensures Singletons(cs) == [[cs[0]]] + Singletons(cs[1..])
  {
  }

  /** Encodable children are all kept, and each decodes to itself. */
  lemma {:induction false} ChildrenRoundTrip(t: IfaceTable, cs: seq<Node>)
    requires t.Valid() && forall k :: 0 <= k < |cs| ==> NodeRT(t, cs[k])
    ensures forall k :: 0 <= k < |cs| ==> NodeOk(cs[k])
    ensures |ChildrenToWire(t, cs)| == |cs|
    ensures ChildrenFromWire(t, ChildrenToWire(t, cs)) == Some(Singletons(cs))
    decreases |cs|
  {
    if |cs| > 0 {
      LeafNodeRoundTrip(t, cs[0]);
      assert forall k :: 0 <= k < |cs[1..]| ==> cs[1..][k] == cs[k + 1];
      ChildrenRoundTrip(t, cs[1..]);
      var ws := ChildrenToWire(t, cs);
      ChildrenToWireCons(t, cs);
      ChildrenFromWireCons(t, ws, [cs[0]], Singletons(cs[1..]));
      SingletonsCons(cs);
    }
  }

  /** A representation whose nodes all survive the wire decodes to the chain
      it was encoded from: the head, then its children in order. */
  lemma ChainRoundTrip(t: IfaceTable, chain: Chain)
    requires t.Valid() && |chain| > 0 && forall k :: 0 <= k < |chain| ==> NodeRT(t, chain[k])
    ensures forall k :: 0 <= k < |chain| ==> NodeOk(chain[k])
    ensures ChainToWire(t, chain).Some?
    ensures NodeFromWire(t, ChainToWire(t, chain).value) == Some(chain)
  {
    var n := chain[0];
    var cs := chain[1..];
    ChainTail(t, chain);
    CanonicalMaskRoundTrip(t, n.ifaces);
    ChildrenRoundTrip(t, cs);
    var w := NodeToWire(t, n, cs).value;
    HeadRoundTrip(t, n, w);
    NodeFromWireOf(t, w, n.ifaces, Singletons(cs));
    LinkSingletons(cs);
  }

  /** The children of a round-trippable chain are round-trippable, and the
      chain is its head followed by them. */
  lemma ChainTail(t: IfaceTable, chain: Chain)
    requires |chain| > 0 && forall k :: 0 <= k < |chain| ==> NodeRT(t, chain[k])
    ensures forall k :: 0 <= k < |chain| ==> NodeOk(chain[k])
    ensures forall k :: 0 <= k < |chain[1..]| ==> NodeRT(t, chain[1..][k])
    ensures chain == [chain[0]] + chain[1..]
  {
    assert forall k :: 0 <= k < |chain[1..]| ==> chain[1..][k] == chain[k + 1];
  }

  /** The empty representation the daemon sends when there is none decodes
      to a node with no URI, no types, no interfaces and no state. */
  lemma {:induction false} NoFlagsNoTokens(t: IfaceTable, k: nat)
    requires k <= |Flags|
    ensures TokensFrom(t, InterfaceNone, k) == Some([])
    decreases |Flags| - k
  {
    if k < |Flags| {
      assert !Has(InterfaceNone, Flags[k]);
      NoFlagsNoTokens(t, k + 1);
    }
  }

  lemma EmptyWireDecodes(t: IfaceTable)
    ensures NodeFromWire(t, EmptyWire) == Some([EmptyNode])
  {
    NoFlagsNoTokens(t, 0);
    assert TokensOfMask(t, EmptyWire.ifaces) == Some([]);
    assert ChildrenFromWire(t, []) == Some([]);
    NodeFromWireOf(t, EmptyWire, [], []);
    assert StateFromWire([], []) == [];
    assert DbusDecodeStr(Some(StrNull)) == None;
    assert [EmptyNode] + LinkChildren([]) == [EmptyNode];
  }

  /** A URI equal to the sentinel does not survive: it comes back absent. */
  lemma SentinelUriLost(t: IfaceTable, n: Node)
    requires t.Valid() && n.uri == Some(StrNull) && CanonicalTokens(t, n.ifaces)
    requires PropsOk(n.values)
    ensures NodeToWire(t, n, []).Some?
    ensures NodeFromWire(t, NodeToWire(t, n, []).value).Some?
    ensures NodeFromWire(t, NodeToWire(t, n, []).value).value[0].uri.None?
  {
    CanonicalMaskRoundTrip(t, n.ifaces);
    var w := NodeToWire(t, n, []).value;
    assert ChildrenFromWire(t, w.children) == Some([]);
  }

  /** Linking decoded children keeps only the last child's own chain: the
      grandchildren under an earlier child disappear. */
  lemma LinkDropsEarlierTails(a: Node, x: Node, b: Node)
    ensures LinkChildren([[a, x], [b]]) == [a, b]
    ensures LinkChildren([[a], [b, x]]) == [a, b, x]
  {
    var cs := [[a, x], [b]];
    assert cs[1..] == [[b]];
    var ds := [[a], [b, x]];
    assert ds[1..] == [[b, x]];
  }
}
