/** The D-Bus value the daemon sends a representation as: the tuple
    `(siasa{sv}av)`, whose state dictionary holds tagged GVariant values. */
module WireFormat {
  import opened Scalars

  /** The GVariant shapes the state codec produces or accepts.  Containers
      of one element type (`ab`, `ai`, `ad`, `as`) are kept apart from the
      variant array `av`; `a{sv}` is a dictionary. */
  datatype Wire =
    | WBool(b: bool)
    | WInt32(i: int)
    | WDouble(d: Double)
    | WString(s: string)
    | WDict(entries: seq<Entry>)
    | WBoolArray(bools: seq<bool>)
    | WInt32Array(ints: seq<int>)
    | WDoubleArray(doubles: seq<Double>)
    | WStringArray(strs: seq<string>)
    | WVariantArray(items: seq<Wire>)

  /** One `{sv}` dictionary entry. */
  datatype Entry = Entry(key: string, value: Wire)

  /** The `(siasa{sv}av)` tuple: URI, interface mask, resource types, state
      and children (each a tuple of the same shape). */
  datatype WireNode = WireNode(uri: string, ifaces: bv32, types: seq<string>, state: seq<Entry>, children: seq<WireNode>)

  /** Whether a value has an array type (G_VARIANT_TYPE_ARRAY), which a
      dictionary also has. */
  predicate IsArray(w: Wire) {
    w.WDict? || w.WBoolArray? || w.WInt32Array? || w.WDoubleArray? || w.WStringArray? || w.WVariantArray?
  }

  /** g_variant_n_children of a container; a scalar has none. */
  function NChildren(w: Wire): (r: nat)
    ensures !IsArray(w) ==> r == 0
  {
    match w
    case WDict(es) => |es|
    case WBoolArray(xs) => |xs|
    case WInt32Array(xs) => |xs|
    case WDoubleArray(xs) => |xs|
    case WStringArray(xs) => |xs|
    case WVariantArray(xs) => |xs|
    case _ => 0
  }
}
