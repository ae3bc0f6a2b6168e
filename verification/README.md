# iotcon representation core in Dafny

This project models the core of the iotcon IoT middleware. That core is the
resource representation tree and the code that copies, encodes, prints and
compares it.

- **Daemon payload codec** (daemon/icd-payload.c). The daemon turns an
  IoTivity `OCRepPayload` chain into the D-Bus tuple
  `(siasa{sv}av)` and back:
  - URI, interface bit mask, resource types, state dictionary, children;
  - homogeneous arrays of up to three dimensions become nested `av`
    containers (the array codec);
  - an absent string travels as the sentinel `IC_STR_NULL`.

  The comparator `icd_payload_representation_compare` is modelled with all
  its helpers.
- **Library representation object** (lib/icl-repr.c): reference counting,
  `new`, `free`, `clone`, `set_uri`, `set_resource_interfaces`, the child
  list operations and the JSON generator (`{"oc": [parent, child, ...]}`).
- **Sentinel codec and strdup** (common/ic-utils.c).
- **Request query** (lib/icl-query.c): a key/value map with a running length
  that may not exceed 64.
- **Service-mode, connectivity-type and timeout checks** (lib/icl.c).
- **Remote-resource monitoring** (lib/icl-remote-resource-monitoring.c):
  the ALIVE / LOST_SIGNAL rule, the presence re-poll rule and the handle
  lifecycle.

The model is functional. Payloads and representations are immutable
datatypes, and every entry point is a pure function returning the new state
together with the iotcon status code. The two loops whose callbacks decide
when to stop are methods: `foreach_children` and `query_foreach`.

Collaborators the model cannot see become parameters:
- the interface flag↔token table (`Interfaces.IfaceTable`, an injective map
  on the four single-bit flags);
- `icl_obj_to_json` (`ReprJson.StateToJson`);
- the hash table's iteration order (the `order` argument of `Query.Foreach`);
- the outcomes of IoTivity, D-Bus, timer and presence calls (`Status`
  arguments).

Files and modules:

| file | module | contents |
|---|---|---|
| wrappers.dfy | Wrappers | `Option`, the iotcon status codes |
| scalars.dfy | Scalars | doubles as bit patterns with C's `==`, int32 truncation |
| ic_utils.dfy | IcUtils | sentinel codec, strdup |
| interfaces.dfy | Interfaces | flag ↔ token loops of encoder, decoder and JSON generator |
| wire.dfy | WireFormat | the GVariant shapes |
| payload.dfy | Payload | `OCRepPayload` nodes, values and arrays; calcDimTotal; SetProp |
| payload_encode.dfy | PayloadEncode | payload → GVariant |
| payload_decode.dfy | PayloadDecode | GVariant → payload (array decoding corrected, see Findings) |
| payload_array_as_written.dfy | PayloadArrayAsWritten | the array decoder exactly as written, and its defects |
| payload_roundtrip.dfy | PayloadRoundTrip | value, state and array round trips |
| chain_roundtrip.dfy | ChainRoundTrip | whole-representation round trip, sentinel and child-link facts |
| comparator.dfy | Comparator | `_representation_compare_*` and `icd_payload_representation_compare` |
| representation.dfy | Representation | `iotcon_repr_h`: counts, setters, children, free, clone |
| repr_json.dfy | ReprJson | `_icl_repr_data_generate_json`, `_icl_repr_generate_json` |
| query.dfy | Query | `iotcon_query_*` |
| connectivity.dfy | Connectivity | lib/icl.c checks |
| monitoring.dfy | Monitoring | remote-resource monitoring |

Behaviour of the code that the model keeps as it is:
- **Empty arrays.** The encoder ends an indefinite-type GVariant builder
  with no children, which gives NULL, so an array whose first dimension is
  0 is dropped from the dictionary (`PayloadEncode.ValueToWire`).
- **Array comparison.** Arrays are compared by total length and flat
  elements only, not by dimension vector (`Comparator.ArrayShapeIgnored`).
- **Type lists.** The comparator's membership test looks only at the head
  of the list (`Comparator.StringListHeadOnly`).
- **Nesting depth.** The decoder as written records a fourth dimension
  slot for a fourth nesting level (Findings).
- **Integer width.** Payload integers are 64-bit and are truncated to the
  wire's int32 (`Scalars.ToInt32`).

## Model

| member | source | states |
|---|---|---|
| IcUtils.Strdup | common/ic-utils.c:31-45 | NULL stays NULL; any other string comes back with the same content |
| IcUtils.DbusEncodeStr | common/ic-utils.c:48-51 | a present string is sent unchanged; the wire string is the sentinel exactly when the input is absent or is itself the sentinel |
| IcUtils.DbusDecodeStr | common/ic-utils.c:54-62 | NULL and the sentinel decode as absent, anything else unchanged; the result is never the sentinel |
| IcUtils.DecodeEncode | common/ic-utils.c:48-62 | decoding undoes encoding for every string other than the sentinel, absent included |
| IcUtils.SentinelCollapses | common/ic-utils.c:48-62 | a user string equal to the sentinel comes back absent |
| IcUtils.EncodeDecode | common/ic-utils.c:48-62 | encoding undoes decoding for every wire string |
| Interfaces.LoopFlagsAreFlags | daemon/icd-payload.c:639 | the loop `for (i = 1; i <= MAX; i <<= 1)` visits exactly the flags 1, 2, 4, 8 in that order |
| Interfaces.MaskOf | daemon/icd-payload.c:286-297 | the OR of the flags of the tokens; fails exactly when some token has no flag; never sets a bit above the four flags |
| Interfaces.TokensOfMask | daemon/icd-payload.c:639-649 | succeeds exactly when every set flag has a token; the result holds exactly the tokens of the set flags |
| Interfaces.TokensOfMaskCanonical | daemon/icd-payload.c:639-649 | the tokens come out in strictly increasing bit order, hence without repeats |
| Interfaces.MaskOfTokensOfMask | daemon/icd-payload.c:639-649 | re-encoding decoded tokens gives back the mask's four flag bits |
| Interfaces.TokensOfMaskOf | daemon/icd-payload.c:286-297 | decoding an encoded token list gives the same set of tokens |
| Interfaces.CanonicalUnique | daemon/icd-payload.c:639-649 | two bit-ordered token lists with the same entries are equal |
| Interfaces.CanonicalMaskRoundTrip | daemon/icd-payload.c:286-297 | a bit-ordered token list survives encode then decode exactly |
| Payload.DimTotal | daemon/icd-payload.c:501 | calcDimTotal: zero exactly when the first dimension is zero, otherwise at least the first dimension |
| Payload.FindProp | daemon/icd-payload.c:583-616 | the position of a property of the given name, absent exactly when no property has that name |
| Payload.SetProp | daemon/icd-payload.c:583-616 | an existing property of that name takes the new value in place and nothing else moves; otherwise the property is appended |
| Payload.SetPropUnique | daemon/icd-payload.c:583-616 | setting keeps property names unique and the new value is the one found under the name |
| Scalars.ToInt32 | daemon/icd-payload.c:229 | two's-complement truncation to int32: congruent modulo 2^32, in range, identity on int32 values |
| Scalars.DoubleEqEquivalence | daemon/icd-payload.c:790 | C's `==` on doubles holds of a double and itself exactly when it is not a NaN, is symmetric and transitive, and off the two zeros holds exactly for equal non-NaN bit patterns |
| Scalars.DoubleEqExamples | daemon/icd-payload.c:790 | the quiet NaN 0x7FF8… is unequal to itself, +0.0 equals −0.0 though their bits differ, 1.0 equals itself and not −1.0, and infinity is not a NaN |
| PayloadEncode.Int32s | daemon/icd-payload.c:144-146 | every element of an int array is truncated to int32, in order |
| PayloadEncode.LeafToWire | daemon/icd-payload.c:134-177 | a leaf slice of `len` elements becomes one flat array of exactly `len` children; an empty slice gives NULL |
| PayloadEncode.ObjectsToWire | daemon/icd-payload.c:164-169 | object elements become dictionaries of their state, one per element, in order |
| PayloadEncode.NextLen | daemon/icd-payload.c:191-201 | `current_len / dimensions[depth]` is the product of the deeper dimensions, and `current_len` is that many times `dimensions[depth]` |
| PayloadEncode.Slices | daemon/icd-payload.c:191-201 | the loop over the next dimension produces one wire child per slice, as many as the dimension says |
| PayloadEncode.ArrayToWire | daemon/icd-payload.c:180-204 | a slice of positive length becomes an array value; a zero-length slice gives NULL |
| PayloadEncode.ValueToWire | daemon/icd-payload.c:217-261 | NULL becomes the sentinel string, a string stays itself, an int is truncated to int32; the value is dropped exactly when it is an array whose first dimension is 0 |
| PayloadEncode.StateToWire | daemon/icd-payload.c:224-258 | the dictionary has at most one entry per state value, a dropped value giving none |
| PayloadEncode.NodeToWire | daemon/icd-payload.c:264-317 | fails exactly when an interface token is unknown; otherwise the tuple holds the sentinel-encoded URI, the interface mask, the types, the encoded state and the encoded children |
| PayloadEncode.ChildrenToWire | daemon/icd-payload.c:302-311 | each child is encoded without children of its own; a child that fails to encode is left out |
| PayloadEncode.ChainToWire | daemon/icd-payload.c:264-317 | a chain encodes as its head with the rest as children; fails exactly when the head's interfaces do not convert |
| PayloadDecode.NestedFromWire | daemon/icd-payload.c:402-480 | corrected: a decoded array records the container's child count as its dimension at this depth, has at most the remaining number of levels and elements of one kind; ragged arrays, sub-arrays of mixed kinds and a fourth level are rejected |
| PayloadDecode.ObjectsFromWire | daemon/icd-payload.c:459-469 | every element of an object array decodes to an object, one per element |
| PayloadDecode.SubArraysFromWire | daemon/icd-payload.c:471-474 | every sub-container decodes, one result per element, each within the depth bound |
| PayloadDecode.ArrayFromNested | daemon/icd-payload.c:489-571 | corrected: succeeds exactly when calcDimTotal of the recorded dimensions equals the number of elements read; the buffer then holds exactly that many elements |
| PayloadDecode.ValueFromWire | daemon/icd-payload.c:573-621 | the sentinel string decodes as NULL, any other string as a string, an int32 as an int, a dictionary as an object without URI, an array only as an array value |
| PayloadDecode.StateFromWire | daemon/icd-payload.c:573-621 | decoded property names are unique, at most one property per entry |
| PayloadDecode.LinkChildren | daemon/icd-payload.c:655-664 | each decoded child's head is linked at its position in order after the parent |
| PayloadDecode.NodeFromWire | daemon/icd-payload.c:623-666 | succeeds exactly when every set interface bit converts and every child decodes; the head carries the decoded URI, the types, the bit-ordered tokens and the decoded state |
| PayloadDecode.ChildrenFromWire | daemon/icd-payload.c:655-664 | fails when any child fails; otherwise gives one non-empty chain per wire child, in order |
| PayloadArrayAsWritten.ListFromWire | daemon/icd-payload.c:402-480 | as written: records a dimension slot at every depth visited and appends every leaf, whether or not siblings agree in length or kind; once a type is set one stays set |
| PayloadArrayAsWritten.ArrayFromList | daemon/icd-payload.c:489-571 | as written: invalid type without an element kind; the fill loop overflows when more elements were read than calcDimTotal allocates; otherwise the elements fill the buffer |
| PayloadArrayAsWritten.NestedAgrees | daemon/icd-payload.c:402-480 | on every wire value the corrected decoder accepts, the decoder as written reads the same kind, dimensions and elements |
| PayloadArrayAsWritten.SlotsOfWrite | daemon/icd-payload.c:413 | the dimension slots the decoder as written fills are the recorded dimensions padded with zeros |
| PayloadArrayAsWritten.AsWrittenMatchesCorrected | daemon/icd-payload.c:402-571 | the corrected decoder succeeds exactly when the decoder as written fills its buffer exactly, and then both give the same array |
| PayloadArrayAsWritten.RaggedAccumulates | daemon/icd-payload.c:413 | on `[[1,2],[3]]` the decoder as written records dimensions 2 and 1 but collects three elements |
| PayloadArrayAsWritten.RaggedArrayOverflows | daemon/icd-payload.c:501-513 | so it writes three elements into a buffer of two, where the corrected decoder rejects the value |
| PayloadArrayAsWritten.RaggedRejected | daemon/icd-payload.c:402-480 | the corrected decoder rejects the ragged value |
| PayloadArrayAsWritten.FourthLevelInner | daemon/icd-payload.c:471-474 | a container found at depth 2 makes the decoder as written record a slot at depth 3 |
| PayloadArrayAsWritten.FourthLevelWritesPastDims | daemon/icd-payload.c:413 | a four-level value makes the decoder as written write `dimensions[3]`, where the corrected decoder rejects the value |
| PayloadArrayAsWritten.FourthLevelRejected | daemon/icd-payload.c:471-474 | the corrected decoder rejects a fourth nesting level |
| PayloadArrayAsWritten.MixedKindsAccumulate | daemon/icd-payload.c:418-456 | on `[[true],[1]]` and `[["s"],[1]]` the decoder as written ends with the last leaf's type, INT, while the list holds the first sub-array's boolean or string |
| PayloadArrayAsWritten.MixedKindsRejected | daemon/icd-payload.c:402-480 | the corrected decoder rejects both mixed-kind values |
| PayloadArrayAsWritten.MixedKindsAccepted | daemon/icd-payload.c:489-513 | so the decoder as written fills an INT array of two elements from a list holding a boolean or a string, where the corrected decoder rejects the value |
| PayloadRoundTrip.IntItemsInt32 | daemon/icd-payload.c:144-146 | int32-range elements are not changed by the truncation |
| PayloadRoundTrip.LeafDecodes | daemon/icd-payload.c:134-177 | a leaf slice decodes back to one dimension of its length and exactly its elements, for every element kind |
| PayloadRoundTrip.LeafRoundTrip | daemon/icd-payload.c:187-189 | at the last populated depth the encoding decodes to the remaining dimensions and the slice's elements |
| PayloadRoundTrip.SlicesRoundTrip | daemon/icd-payload.c:191-201 | the stepping loop's sub-slices decode to sub-arrays of one kind and shape that flatten back to the elements in order |
| PayloadRoundTrip.SliceRoundTrip | daemon/icd-payload.c:191-201 | the k-th sub-slice decodes to the k-th run of `next_len` elements |
| PayloadRoundTrip.NestRoundTrip | daemon/icd-payload.c:187-203 | a nested level decodes to the remaining dimensions and the slice's elements in order |
| PayloadRoundTrip.ArrayRoundTrip | daemon/icd-payload.c:180-204 | at every depth, decoding the encoding of a non-empty slice restores the remaining dimension vector and the flat elements |
| PayloadRoundTrip.ArrayValueRoundTrip | daemon/icd-payload.c:243-245 | a canonical, exactly filled, non-NULL array value survives encode then decode, dimensions and buffer alike |
| PayloadRoundTrip.ObjectsRoundTrip | daemon/icd-payload.c:164-169 | an object array's elements decode back to the same objects in order |
| PayloadRoundTrip.ObjectRoundTrip | daemon/icd-payload.c:247-248 | an object value without URI, types or interfaces decodes back to itself |
| PayloadRoundTrip.StateRoundTrip | daemon/icd-payload.c:226-258 | a state list with unique names and round-trippable values decodes to the same list in the same order |
| PayloadRoundTrip.ValueRoundTrip | daemon/icd-payload.c:217-261 | every round-trippable value (int32 ints, no sentinel strings, bare objects, canonical filled arrays) survives encode then decode |
| ChainRoundTrip.HeadRoundTrip | daemon/icd-payload.c:313-314 | URI, types, interface tokens and state of an encoded node decode to the node |
| ChainRoundTrip.LeafNodeRoundTrip | daemon/icd-payload.c:264-317 | a node encoded without children decodes to a chain of that node alone |
| ChainRoundTrip.ChildrenRoundTrip | daemon/icd-payload.c:302-311 | every child is encoded and each decodes to a one-node chain of itself |
| ChainRoundTrip.LinkSingletons | daemon/icd-payload.c:655-664 | linking one-node chains gives the children in order |
| ChainRoundTrip.ChainRoundTrip | daemon/icd-payload.c:623-666 | a whole representation (head and `next` chain) survives encode then decode when its URIs are not the sentinel and its tokens are bit-ordered |
| ChainRoundTrip.EmptyWireDecodes | daemon/icd-payload.c:320-332 | the empty-node tuple `(sentinel, 0, [], {}, [])` decodes to a node with nothing set |
| ChainRoundTrip.SentinelUriLost | daemon/icd-payload.c:636-637 | a URI equal to the sentinel comes back absent |
| ChainRoundTrip.LinkDropsEarlierTails | daemon/icd-payload.c:655-664 | a child whose decoded chain is longer than one node loses its tail to the next child's link |
| Comparator.StringListContains | daemon/icd-payload.c:682-692 | as written: true exactly when the loop has an entry left and the string equals the list's head |
| Comparator.AllStringsContained | daemon/icd-payload.c:705-708 | the loop holds exactly when every entry of the first list equals the head of the second |
| Comparator.StringListEqual | daemon/icd-payload.c:695-711 | equal exactly when the lengths agree and every entry of the first equals the second's head; two NULL lists are equal, NULL and non-NULL are not |
| Comparator.StringListHeadOnly | daemon/icd-payload.c:687 | `["a","b"]` is unequal to itself while `["a","a"]` equals `["a","b"]`; the corrected test finds the first pair equal |
| Comparator.StringListHas | daemon/icd-payload.c:682-692 | reference definition: the string occurs somewhere from the cursor on |
| Comparator.StringListMatch | daemon/icd-payload.c:695-711 | reference definition: equal lengths and every entry of the first occurring in the second |
| Comparator.StringListAsWrittenStricter | daemon/icd-payload.c:695-711 | the test as written implies the corrected one and agrees with it when the second list is flat |
| Comparator.EntriesCount | daemon/icd-payload.c:702-703 | a list has at most as many distinct entries as positions, exactly as many when nothing repeats |
| Comparator.MatchCovers | daemon/icd-payload.c:695-711 | with equal lengths and no repeats in the first list, containment one way gives containment the other way |
| Comparator.StringListMatchProps | daemon/icd-payload.c:695-711 | the corrected test is reflexive, and symmetric on lists without repeats |
| Comparator.ValueEqual | daemon/icd-payload.c:766-809 | equal values have equal names and types; for null, int, bool and string values, equal exactly when the payloads are equal; two doubles are equal exactly when C's `==` holds: never when either is a NaN, always for +0.0 and −0.0 |
| Comparator.ArrayEqual | daemon/icd-payload.c:714-763 | equal arrays have equal calcDimTotal and a non-NULL element type |
| Comparator.ObjectsEqual | daemon/icd-payload.c:750-756 | when the object loop holds, each of the first n object pairs has the same URI and value lists of one length (Comparator.ObjectsEqualIff gives the exact condition) |
| Comparator.ObjectsEqualIff | daemon/icd-payload.c:750-756 | the object loop holds exactly when the first n objects are pairwise equal without children |
| Comparator.WithoutChildren | daemon/icd-payload.c:860-885 | equal nodes have the same URI (absent only equals absent) and lists of the same lengths |
| Comparator.ValuesListEqual | daemon/icd-payload.c:839-857 | equal value lists have equal lengths (Comparator.ValuesListEqualIff gives the exact condition) |
| Comparator.ValuesContain | daemon/icd-payload.c:825-836 | a contained value has a value of the same name and type in the list (Comparator.ValuesContainIff gives the exact condition) |
| Comparator.ChildrenContain | daemon/icd-payload.c:901-911 | a contained child has a child of the same URI in the list (Comparator.ChildrenContainIff gives the exact condition) |
| Comparator.ChildrenEqual | daemon/icd-payload.c:914-930 | equal children lists have equal lengths (Comparator.ChildrenEqualIff gives the exact condition) |
| Comparator.Compare | daemon/icd-payload.c:933-950 | equal representations have chains of one length (Comparator.CompareIff gives the exact condition) |
| Comparator.ValuesContainIff | daemon/icd-payload.c:825-836 | containment holds exactly when some value of the list compares equal to the given one, the list's value first |
| Comparator.AllValuesContainedIff | daemon/icd-payload.c:851-854 | the loop holds exactly when every value of the first list is contained in the second |
| Comparator.ValuesListEqualIff | daemon/icd-payload.c:839-857 | value lists are equal exactly when their lengths agree and each value of the first has an equal value in the second |
| Comparator.ChildrenContainIff | daemon/icd-payload.c:901-911 | a child is contained exactly when some child of the list equals it without children |
| Comparator.AllChildrenContainedIff | daemon/icd-payload.c:924-927 | the loop holds exactly when every child of the first chain is contained in the second |
| Comparator.ChildrenEqualIff | daemon/icd-payload.c:914-930 | children are equal exactly when the counts agree and each child of the first matches some child of the second without children |
| Comparator.CompareIff | daemon/icd-payload.c:933-950 | two representations are equal exactly when the chains have one length, the heads are equal without children, and each later node of the first matches some later node of the second |
| Comparator.ChainRefl | daemon/icd-payload.c:933-950 | a representation without NULL-typed arrays, without NaN doubles and with flat type and interface lists equals itself |
| Comparator.NodeRefl | daemon/icd-payload.c:860-885 | a node without NULL-typed arrays, without NaN doubles and with flat type and interface lists equals itself without children |
| Comparator.ArrayShapeIgnored | daemon/icd-payload.c:719-723 | arrays of dimensions 2×3 and 3×2 over the same elements compare equal |
| Comparator.NullArrayNeverEqual | daemon/icd-payload.c:757-759 | a NULL-typed array never compares equal, not even to itself |
| Comparator.DoublesCompareAsIeee | daemon/icd-payload.c:738-790 | a node holding a NaN double is unequal to itself, a node holding +0.0 equals one holding −0.0, and a double array with a NaN element is unequal to itself |
| Comparator.ChildrenNotCounted | daemon/icd-payload.c:914-930 | children are matched by containment: `[a, a]` equals `[a, b]` but not the reverse |
| Representation.IncRef | lib/icl-repr.c:35-41 | the count grows by one and nothing else changes; a negative count is left alone |
| Representation.DecRef | lib/icl-repr.c:43-57 | the count shrinks by one and signals zero exactly when it was one; a count of zero or less is refused unchanged |
| Representation.DecRefUndoesIncRef | lib/icl-repr.c:35-57 | a release after a retain gives back the object, signalling zero never for a live object |
| Representation.New | lib/icl-repr.c:59-75 | a new object is counted once |
| Representation.NewIsEmpty | lib/icl-repr.c:59-75 | it has no URI, no types, interfaces NONE, an empty table and no children; its clone is itself; it has no nth child |
| Representation.SetUri | lib/icl-repr.c:87-104 | the URI becomes the argument, absent included; an absent argument is refused; nothing else changes |
| Representation.SetUriLastWins | lib/icl-repr.c:87-104 | a second set_uri overrides the first entirely |
| Representation.SetInterfaces | lib/icl-repr.c:136-146 | a mask outside (NONE, MAX] is refused and the old mask kept; otherwise only the mask changes |
| Representation.OperationsKeepIfacesInRange | lib/icl-repr.c:136-146 | every operation keeps the mask within [NONE, MAX] |
| Representation.AppendChild | lib/icl-repr.c:148-157 | the child gains a reference and goes last; nothing else of the parent changes |
| Representation.AppendChildThenCount | lib/icl-repr.c:148-199 | after appending, the count is one more, the new last child is the retained child and earlier positions are unchanged |
| Representation.AppendKeepsDuplicates | lib/icl-repr.c:148-157 | appending the same child twice keeps two entries and two more references |
| Representation.ChildrenCount | lib/icl-repr.c:178-184 | the count is zero exactly when there are no children; `Representation.AppendChildThenCount` ties it to appending |
| Representation.NthChild | lib/icl-repr.c:186-199 | INVALID_PARAMETER without children, NO_DATA outside the list, otherwise the child at that position |
| Representation.ForeachChildren | lib/icl-repr.c:159-176 | children are visited in order; the walk stops right after the first child the callback stops on, and visits all when none stops it |
| Representation.Free | lib/icl-repr.c:568-588 | refused for a count of zero or less, kept with one reference less above one, otherwise released: every child freed once, in order, and every table value destroyed, a held representation freed with it |
| Representation.FreeUndoesIncRef | lib/icl-repr.c:568-574 | freeing a retained object gives back the object as it was |
| Representation.FreeParentKeepsSharedChild | lib/icl-repr.c:573-579 | freeing a parent whose appended child is also held elsewhere leaves that child alive |
| Representation.FreeOwnedTree | lib/icl-repr.c:568-588 | freeing a tree whose objects are each held once releases every object exactly once, children and representations held in tables alike |
| Representation.FreeReleasesTableValues | lib/icl-repr.c:582 | a representation held only in another's table is released with it: two objects go |
| Representation.CloneSameContent | lib/icl-repr.c:669-719 | a clone has the source's URI, types, interfaces, children in order and table, recursively, up to reference counts |
| Representation.Clone | lib/icl-repr.c:669-719 | a clone is counted once and has the source's URI, types, non-zero interface mask, number of children and table keys |
| Representation.CloneValue | lib/icl-repr.c:590-667 | a cloned value keeps its kind: a list has as many items, a representation is a fresh object counted once with the same URI, and a scalar is unchanged |
| Representation.CloneSameContentValue | lib/icl-repr.c:590-667 | a cloned table value has the source value's content |
| Representation.CloneCountedOnce | lib/icl-repr.c:669-719 | every object of a clone, nested values included, is counted once |
| Representation.CloneCharacterised | lib/icl-repr.c:669-719 | the clone is the only tree with the source's content whose objects are each counted once |
| Representation.CloneDependsOnContent | lib/icl-repr.c:669-719 | sources of equal content give equal clones |
| Representation.CloneIdempotent | lib/icl-repr.c:669-719 | cloning a clone gives the same tree |
| Representation.FreeClone | lib/icl-repr.c:568-719 | freeing a fresh clone releases every object of it exactly once, nested values included |
| ReprJson.Mask | lib/icl-repr.c:299-300 | the interface bits the generator loop sees are the mask's own for every mask in range |
| ReprJson.DataJson | lib/icl-repr.c:239-317 | a node's object fails exactly when the table conversion fails or some set interface bit has no token |
| ReprJson.DataJsonMembers | lib/icl-repr.c:252-273 | "href" holds the URI when there is one, "prop" is present when there are types or interfaces, every other member is the table's |
| ReprJson.PropLayout | lib/icl-repr.c:268-313 | "prop" holds "rt" exactly when there are types, in order, and "if" exactly when the mask is not NONE, with the tokens of the set bits in increasing bit order |
| ReprJson.ChildrenJson | lib/icl-repr.c:377-387 | one object per child in order, failing as soon as one child fails |
| ReprJson.ToJson | lib/icl-repr.c:351-392 | the document fails exactly when the parent or some child fails |
| ReprJson.ToJsonLayout | lib/icl-repr.c:351-392 | the document is `{"oc": [parent, child_0, ..., child_n-1]}` and nothing else |
| ReprJson.NoGrandchildren | lib/icl-repr.c:377-387 | what a child holds below it never changes the document |
| ReprJson.NewJson | lib/icl-repr.c:351-392 | a new representation prints as `{"oc": [{}]}` |
| ReprJson.CloneSameJson | lib/icl-repr.c:669-719 | a clone prints as its source, for any table conversion that reads content only |
| Query.Create | lib/icl-query.c:28-43 | a new query has no entries and length 0 |
| Query.Insert | lib/icl-query.c:56-76 | refused with OUT_OF_MEMORY, nothing changed, exactly when the length would exceed 64; otherwise the key maps to the value and the length grows by `strlen(key) + strlen(value) + 2`, counted in UTF-8 bytes |
| Query.Delete | lib/icl-query.c:79-104 | an absent key is refused, nothing changed; otherwise the key goes and its entry's cost in bytes is given back |
| Query.Lookup | lib/icl-query.c:107-124 | the stored value for a present key, INVALID_PARAMETER for an absent one |
| Query.Foreach | lib/icl-query.c:126-142 | visits entries in the table's order and stops right after the first callback returning false; all entries when none does |
| Query.OperationsKeepBounded | lib/icl-query.c:56-104 | every operation keeps the length at most 64 bytes and at least the query string's real length in bytes |
| Query.InsertThenLookup | lib/icl-query.c:56-124 | an inserted key reads back, other keys read as before, and after deleting it the key is gone |
| Query.InsertDeleteRestores | lib/icl-query.c:56-104 | inserting then deleting a new key restores the query |
| Query.ReinsertOvercounts | lib/icl-query.c:66-73 | inserting `a=b` twice leaves a length of 8 for a query string of 4, and 4 once the key is deleted |
| Query.InsertReplacing | lib/icl-query.c:66-73 | corrected insertion: refused with nothing changed, or the key maps to the value |
| Query.InsertReplacingExact | lib/icl-query.c:56-104 | with corrected insertion the length always equals the query string's length in UTF-8 bytes, and insertion is refused exactly when the new query string would exceed 64 bytes |
| Query.Utf8Len | lib/icl-query.c:66 | strlen of a string's UTF-8 encoding: between one and four bytes a character, exactly one a character when the string is ASCII |
| Query.Cost | lib/icl-query.c:66 | the length a `key=value` pair adds to the query string: the UTF-8 byte lengths of key and value plus the `?` or `&` and the `=`, never less than the character count plus two |
| Query.CostCountsBytes | lib/icl-query.c:66-70 | `?é=x` costs 5 bytes, and a key of 32 `é` with value `x` (35 characters, 67 bytes) is refused by an empty query |
| Query.InsertReplacingTwice | lib/icl-query.c:56-76 | corrected insertion repeated is insertion once |
| Connectivity.CheckConnectivityType | lib/icl.c:146-170 | the answer is either success or INVALID_PARAMETER |
| Connectivity.CheckConnectivityTypeIff | lib/icl.c:146-170 | accepted exactly for IP types outside BT-only mode and BT types outside IP-only mode; in each named mode, exactly that mode's types |
| Connectivity.SetTimeout | lib/icl.c:121-144 | refused outside 1..3600 with nothing changed; success only with a value in range and, in BT mode, the D-Bus call succeeding; the mode never changes |
| Connectivity.GetTimeout | lib/icl.c:103-119 | succeeds exactly with a mode bit set; the IP copy in IP mode, the D-Bus one in BT-only mode |
| Connectivity.SetThenGetTimeout | lib/icl.c:103-144 | the stored timeouts stay in range, and a timeout set successfully reads back |
| Connectivity.ConnectForServiceMode | lib/icl.c:35-76 | a mode with neither bit is refused unchanged; otherwise the mode is recorded and success means each started part started |
| Connectivity.ModeBits | lib/icl.c:35-76 | the named modes carry their bits; mode 0 is refused and BOTH is recorded from the initial settings |
| Monitoring.StateOf | lib/icl-remote-resource-monitoring.c:45-48 | ALIVE exactly when the result is at least RESULT_OK, LOST_SIGNAL otherwise |
| Monitoring.GetResponse | lib/icl-remote-resource-monitoring.c:25-58 | without a handle, on an error or an unreadable result nothing happens; only the stored state can change |
| Monitoring.GetResponseFiresIffChanged | lib/icl-remote-resource-monitoring.c:45-57 | the response's state is stored, and the callback fires with it exactly when it differs from the stored one |
| Monitoring.GetResponseSettles | lib/icl-remote-resource-monitoring.c:50-51 | the same response twice fires at most once |
| Monitoring.ResponsesKeepMonitor | lib/icl-remote-resource-monitoring.c:25-58 | responses keep the timer and subscription, and never return the state to unset |
| Monitoring.PresenceResponse | lib/icl-remote-resource-monitoring.c:76-117 | a fresh poll starts exactly when the result is not OK or the trigger is RESOURCE_DESTROYED, and the interval is readable; only the timer changes |
| Monitoring.StartMonitoring | lib/icl-remote-resource-monitoring.c:120-191 | no callback is INVALID_PARAMETER and a handle already there is ALREADY; any later failure leaves no handle; success installs a fresh handle with the callback, timer and subscription |
| Monitoring.StopMonitoring | lib/icl-remote-resource-monitoring.c:194-221 | no handle is INVALID_PARAMETER; a failed presence removal keeps the handle; success drops it |
| Monitoring.MonitoringLifecycle | lib/icl-remote-resource-monitoring.c:120-221 | start then stop leaves no handle; a second start is ALREADY; a failed stop keeps monitoring; a second stop is refused |

## Left out

- NULL handles and NULL out-pointers: every pointer argument that the model
  takes is present, except where NULL is a meaningful input (URI,
  strdup, sentinel codec), which is an `Option`.
- Allocation failure (`calloc`, `strdup`, GLib allocation) is not modelled:
  every allocation succeeds.
- The discovery, platform and device payload conversions
  (daemon/icd-payload.c:48-131, 335-400) and the JSON parser
  (lib/icl-repr.c:427-565) are not part of this model.
- `iotcon_repr_set_resource_types`, `get_uri`, `get_resource_types`,
  `get_resource_interfaces`, `iotcon_query_destroy`, `iotcon_connect`,
  `iotcon_disconnect` and `icl_repr_generate_json`'s text formatting are not
  part of this model.
- `icl_obj_to_json`, `icl_value_clone`, `icl_list_clone`, the resource-type
  list and the interface flag↔token conversions are not in the sources
  modelled. They are parameters or modelled as plain copies.
- D-Bus, IoTivity start-up, device and platform info, the platform feature
  check, GLib timers and presence subscriptions are outcomes passed in as
  parameters.
- Doubles are bit patterns with no arithmetic. The only operation on them
  is C's `==`/`!=` (`Scalars.DoubleEq`): a NaN equals nothing and the two
  zeros are equal.
- Constants whose definitions are not in the sources modelled take these
  values:
  - `IC_STR_NULL` is "(NULL)";
  - `ICL_INTERFACE_MAX` and `IC_INTERFACE_MAX` are 15 (four flags);
  - the service modes are IP 1, BT 2, BOTH 3;
  - `ICL_DBUS_TIMEOUT_DEFAULT` is 30;
  - `IOTCON_RESPONSE_RESULT_OK` is 0;
  - `IOTCON_REMOTE_RESOURCE_ALIVE` and `IOTCON_REMOTE_RESOURCE_LOST_SIGNAL`
    are both non-zero. The zero a new monitoring handle is calloc'd with is
    then neither state (`Monitoring.ResourceState`'s `Unset`), so the first
    response always fires the callback. Were ALIVE 0, a first ALIVE response
    would fire nothing (lib/icl-remote-resource-monitoring.c:50-51).

  The value 64 of `ICL_QUERY_LENGTH_MAX` and 3600 of `ICL_DBUS_TIMEOUT_MAX`
  follow the comment at lib/icl-query.c:55 and the message at lib/icl.c:127.
- Query.Foreach: the hash table's iteration order is a parameter, so the
  contract says nothing about which key comes first.
- Comparator.ArrayEqual: when the second array's element type differs from
  the first's, the source reads the second buffer through the wrong union
  member. The model counts that as unequal unless the arrays are empty.
- Comparator.Compare: the contract is stated only through
  Comparator.CompareIff and the reflexivity and counterexample lemmas. The
  comparator is not reflexive on non-flat type lists, on NULL-typed arrays
  or on values holding a NaN double, so no general reflexivity is claimed.
- PayloadDecode.ArrayFromNested: it rejects an array that holds fewer
  elements than calcDimTotal of its recorded dimensions. The decoder as
  written leaves the calloc'd tail zero. Only exactly filled arrays are
  claimed equal (PayloadArrayAsWritten.AsWrittenMatchesCorrected).
- PayloadEncode.ValueToWire: a NULL-typed array (`OCREP_PROP_NULL`) encodes
  as sentinel strings and decodes as a string array, so it is excluded from
  the round trip.
- Representation.Clone: value semantics stand for the C code's shared
  pointers. A child appended to a parent and also held by the caller appears
  as two equal copies, and `free` is described by the objects it releases,
  not by memory.
- PayloadEncode.ValueToWire: an array whose first dimension is 0 while its
  second is not, such as dimensions [0, 2, 0], is excluded by
  `PayloadEncode.EncodableDims`. For it the encoder computes
  `0 / dimensions[0]` at daemon/icd-payload.c:193, a division by zero whose
  outcome C leaves undefined.
- Representation.Free: `icl_value_free`, which `g_hash_table_destroy` runs on
  every table value (lib/icl-repr.c:70-71, 582), is not part of this model. It
  is taken to free a held representation with `iotcon_repr_free` and a list
  item by item.
- Representation.Clone: for list and representation values
  `_icl_repr_obj_clone` stores the source's own key string in the clone's
  table (lib/icl-repr.c:640, 661) instead of a copy. Both tables then own one
  key, so freeing either leaves the other with a freed key. Value semantics
  do not model key ownership, and the model's clone simply has equal keys.
- Query.Insert: a key or value holding the NUL character is counted in full,
  where strlen would stop at it; a C string never holds one.
- Payload.DimTotal: `Span` and `Quot` are repeated addition and subtraction
  standing for C's `*` and `/` on non-negative ints. Int overflow of the
  product is not modelled.

## Findings

| source | as written | input that shows it | evidently intended | confidence | as-written member | corrected member |
|---|---|---|---|---|---|---|
| daemon/icd-payload.c:489-513 | a nested array whose sub-arrays differ in length is accepted; `dimensions` keeps the last sibling's length and the fill loop writes every element read into a buffer of calcDimTotal elements | the state value `[[1, 2], [3]]` (an `av` of `ai[1,2]` and `ai[3]`): dimensions 2×1, buffer of 2, 3 elements written | reject arrays whose siblings disagree in shape or whose element count differs from calcDimTotal | high; not executed | PayloadArrayAsWritten.RaggedArrayOverflows | PayloadDecode.ArrayFromNested |
| daemon/icd-payload.c:471-474 | a fourth nesting level recurses with depth 3 and writes `dimensions[3]`, one past the three-slot array | the state value `[[[[1]]]]` | stop at MAX_REP_ARRAY_DEPTH and reject deeper nesting | high; not executed | PayloadArrayAsWritten.FourthLevelWritesPastDims | PayloadDecode.NestedFromWire |
| daemon/icd-payload.c:418-456, 510-512 | sibling sub-arrays of different kinds are accepted: each typed leaf overwrites the element type, so the last leaf's kind wins, and the fill loop reads every list node through that type (for INT, `value->i`), a boolean's union and a string's raw `char *` alike | the state value `[[true], [1]]` (an `av` of `ab[true]` and `ai[1]`), or `[["s"], [1]]`: an INT array of two elements filled from a boolean or a string | reject an array whose sub-arrays differ in element kind | high; not executed | PayloadArrayAsWritten.MixedKindsAccepted | PayloadDecode.NestedFromWire |
| lib/icl-query.c:66-73 | re-inserting an existing key adds the full cost again while the hash table replaces the old entry, so the running length overstates the query string and later insertions are refused early | insert `a=b` twice: length 8 for the 4-character string `?a=b` | give back the replaced entry's cost before adding the new one | high; not executed | Query.ReinsertOvercounts | Query.InsertReplacingExact |
