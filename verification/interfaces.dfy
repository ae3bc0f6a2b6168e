/** The resource-interface bitmask and its flag <-> token table.
    The table itself (ic_utils_convert_interface_flag and
    ic_utils_convert_interface_string) is not part of this model: it is a
    parameter, an injective map from single-bit flags to tokens. */
module Interfaces {
  import opened Wrappers

  /** IOTCON_INTERFACE_NONE */
  const InterfaceNone: bv32 := 0

  /** IC_INTERFACE_MAX and ICL_INTERFACE_MAX: DEFAULT | LINK | BATCH | GROUP. */
  const InterfaceMax: int := 15

  /** The flags `for (i = 1; i <= MAX; i = i << 1)` visits, from `i` on. */
  function LoopFlags(i: int): (r: seq<int>)
    requires i >= 1
    ensures forall k :: 0 <= k < |r| ==> i <= r[k] <= InterfaceMax
    decreases InterfaceMax + 1 - i
  {
    if i > InterfaceMax then [] else [i] + LoopFlags(2 * i)
  }

  /** The same flags as 32-bit masks, in visiting order. */
  const Flags: seq<bv32> := [1, 2, 4, 8]

  lemma LoopFlagsAreFlags()
    ensures |LoopFlags(1)| == |Flags|
    ensures forall k :: 0 <= k < |Flags| ==> LoopFlags(1)[k] == Flags[k] as int
  {
    assert LoopFlags(16) == [];
    assert LoopFlags(8) == [8];
    assert LoopFlags(4) == [4, 8];
    assert LoopFlags(2) == [2, 4, 8];
  }

  /** Whether `flag` is set in `mask` (`mask & flag` is not NONE). */
  predicate Has(mask: bv32, flag: bv32) {
    mask & flag != 0
  }

  /** The bits above the last flag, which no loop visits. */
  const HighBits: bv32 := 0xFFFF_FFF0

  /** The flag <-> token table: every key is one of the visited single-bit
      flags and no two flags share a token. */
  datatype IfaceTable = IfaceTable(tokens: map<bv32, string>) {
    ghost predicate Valid() {
      && (forall f :: f in tokens ==> f in Flags)
      && (forall f, g :: f in tokens && g in tokens && tokens[f] == tokens[g] ==> f == g)
    }
  }

  /** Token of one flag (ic_utils_convert_interface_flag); None when the
      table has no entry, the conversion's error return. */
  function TokenOf(t: IfaceTable, flag: bv32): (r: Option<string>)
    ensures r.Some? <==> flag in t.tokens
    ensures r.Some? ==> r.value == t.tokens[flag]
  {
    if flag in t.tokens then Some(t.tokens[flag]) else None
  }

  /** Position in Flags of the first flag whose token is `token`, searching
      from position `k`. */
  function FlagIndexFrom(t: IfaceTable, token: string, k: nat): (r: Option<nat>)
    requires k <= |Flags|
    ensures r.Some? ==> k <= r.value < |Flags| && Flags[r.value] in t.tokens && t.tokens[Flags[r.value]] == token
    ensures r.None? ==> forall j :: k <= j < |Flags| && Flags[j] in t.tokens ==> t.tokens[Flags[j]] != token
    decreases |Flags| - k
  {
    if k == |Flags| then None
    else if Flags[k] in t.tokens && t.tokens[Flags[k]] == token then Some(k)
    else FlagIndexFrom(t, token, k + 1)
  }

  /** Position in Flags of the flag of a token, when the table knows it. */
  function FlagIndex(t: IfaceTable, token: string): (r: Option<nat>)
    ensures r.Some? ==> r.value < |Flags| && Flags[r.value] in t.tokens && t.tokens[Flags[r.value]] == token
  {
    FlagIndexFrom(t, token, 0)
  }

  /** Flag of one token (ic_utils_convert_interface_string); None for an
      unknown token. */
  function FlagOf(t: IfaceTable, token: string): (r: Option<bv32>)
    requires t.Valid()
    ensures r.None? <==> forall f :: f in t.tokens ==> t.tokens[f] != token
    ensures r.Some? ==> r.value in Flags && r.value in t.tokens && t.tokens[r.value] == token
  {
    match FlagIndex(t, token)
    case None =>
      assert forall f :: f in t.tokens ==> t.tokens[f] != token by {
        forall f | f in t.tokens ensures t.tokens[f] != token {
          var j :| 0 <= j < |Flags| && Flags[j] == f;
        }
      }
      None
    case Some(i) => Some(Flags[i])
  }

  lemma FlagsDistinct()
    ensures forall i, j :: 0 <= i < |Flags| && 0 <= j < |Flags| && Flags[i] == Flags[j] ==> i == j
  {
  }

  lemma FlagIndexOfToken(t: IfaceTable, k: nat)
    requires t.Valid() && k < |Flags| && Flags[k] in t.tokens
    ensures FlagIndex(t, t.tokens[Flags[k]]) == Some(k)
  {
    FlagsDistinct();
  }

  lemma FlagOfToken(t: IfaceTable, f: bv32)
    requires t.Valid() && f in t.tokens
    ensures FlagOf(t, t.tokens[f]) == Some(f)
  {
  }

  /** The mask that OR-ing the flags of `tokens` produces, or None as soon as
      one token is unknown (the encoder's conversion loop,
      daemon/icd-payload.c:287-297). */
  function MaskOf(t: IfaceTable, tokens: seq<string>): (r: Option<bv32>)
    requires t.Valid()
    ensures r.Some? <==> forall j :: 0 <= j < |tokens| ==> FlagOf(t, tokens[j]).Some?
    ensures r.Some? ==> r.value & HighBits == 0
  {
    if |tokens| == 0 then Some(InterfaceNone)
    else
      var f := FlagOf(t, tokens[0]);
      var rest := MaskOf(t, tokens[1..]);
      AllKnownCons(t, tokens);
      if f.None? || rest.None? then None
      else
        FlagNoHighBits(f.value);
        OrHigh(f.value, rest.value);
        Some(f.value | rest.value)
  }

  /** Every token of the list has a flag. */
  predicate AllKnown(t: IfaceTable, tokens: seq<string>)
    requires t.Valid()
  {
    forall j :: 0 <= j < |tokens| ==> FlagOf(t, tokens[j]).Some?
  }

  lemma AllKnownCons(t: IfaceTable, tokens: seq<string>)
    requires t.Valid() && |tokens| > 0
    ensures AllKnown(t, tokens) <==> FlagOf(t, tokens[0]).Some? && AllKnown(t, tokens[1..])
  {
    assert forall j :: 1 <= j < |tokens| ==> tokens[1..][j - 1] == tokens[j];
  }

  /** Whether some token of the list has flag `flag`. */
  ghost predicate Mentions(t: IfaceTable, tokens: seq<string>, flag: bv32)
    requires t.Valid()
  {
    exists j :: 0 <= j < |tokens| && FlagOf(t, tokens[j]) == Some(flag)
  }

  lemma MentionsCons(t: IfaceTable, tokens: seq<string>, flag: bv32)
    requires t.Valid() && |tokens| > 0
    ensures Mentions(t, tokens, flag) <==> (FlagOf(t, tokens[0]) == Some(flag) || Mentions(t, tokens[1..], flag))
  {
    if Mentions(t, tokens[1..], flag) {
      var j :| 0 <= j < |tokens[1..]| && FlagOf(t, tokens[1..][j]) == Some(flag);
      assert tokens[1..][j] == tokens[j + 1];
    }
    if Mentions(t, tokens, flag) && FlagOf(t, tokens[0]) != Some(flag) {
      var j :| 0 <= j < |tokens| && FlagOf(t, tokens[j]) == Some(flag);
      assert tokens[j] == tokens[1..][j - 1];
    }
  }

  /** A visited flag is set in the encoded mask iff some token maps to it. */
  lemma {:induction false} MaskOfBits(t: IfaceTable, tokens: seq<string>, k: nat)
    requires t.Valid() && k < |Flags| && MaskOf(t, tokens).Some?
    ensures Has(MaskOf(t, tokens).value, Flags[k]) <==> Mentions(t, tokens, Flags[k])
  {
    if |tokens| > 0 {
      var f := FlagOf(t, tokens[0]).value;
      var rest := MaskOf(t, tokens[1..]).value;
      assert MaskOf(t, tokens).value == f | rest;
      MaskOfBits(t, tokens[1..], k);
      SingleBitOr(f, rest, k);
      MentionsCons(t, tokens, Flags[k]);
    }
  }

  /** OR distributes over the bit test. */
  lemma OrHas(a: bv32, b: bv32, f: bv32)
    ensures Has(a | b, f) <==> (Has(a, f) || Has(b, f))
  {
    assert (a | b) & f == (a & f) | (b & f);
  }

  lemma FlagNoHighBits(a: bv32)
    requires a in Flags
    ensures a & HighBits == 0
  {
  }

  lemma OrHigh(a: bv32, b: bv32)
    requires a & HighBits == 0 && b & HighBits == 0
    ensures (a | b) & HighBits == 0
  {
  }

  /** Two visited flags overlap iff they are equal. */
  lemma SingleBits(a: bv32, f: bv32)
    requires a == 1 || a == 2 || a == 4 || a == 8
    requires f == 1 || f == 2 || f == 4 || f == 8
    ensures Has(a, f) <==> a == f
    ensures a & HighBits == 0
  {
  }

  /** Bit arithmetic behind MaskOf: a visited flag is set in `a | b` iff it
      is `a` or is set in `b`. */
  lemma SingleBitOr(a: bv32, b: bv32, k: nat)
    requires a in Flags && k < |Flags|
    ensures Has(a | b, Flags[k]) <==> (a == Flags[k] || Has(b, Flags[k]))
    ensures (a | b) & HighBits == 0 <== b & HighBits == 0
  {
    var f := Flags[k];
    assert f == 1 || f == 2 || f == 4 || f == 8;
    assert a == 1 || a == 2 || a == 4 || a == 8;
    OrHas(a, b, f);
    SingleBits(a, f);
    if b & HighBits == 0 {
      OrHigh(a, b);
    }
  }

  function TokensFrom(t: IfaceTable, mask: bv32, k: nat): (r: Option<seq<string>>)
    requires k <= |Flags|
    ensures r.Some? <==> forall j :: k <= j < |Flags| && Has(mask, Flags[j]) ==> Flags[j] in t.tokens
    ensures r.Some? ==> forall s :: s in r.value <==>
      exists j :: k <= j < |Flags| && Has(mask, Flags[j]) && Flags[j] in t.tokens && t.tokens[Flags[j]] == s
    decreases |Flags| - k
  {
    if k == |Flags| then Some([])
    else if !Has(mask, Flags[k]) then TokensFrom(t, mask, k + 1)
    else
      match TokenOf(t, mask & Flags[k])
      case None => None
      case Some(tok) =>
        match TokensFrom(t, mask, k + 1)
        case None => None
        case Some(rest) => Some([tok] + rest)
  }

  /** The tokens of every visited flag set in `mask`, in increasing bit order,
      or None as soon as one set flag has no token (the decoder's loop,
      daemon/icd-payload.c:639-649, and the JSON generator's loop,
      lib/icl-repr.c:299-310). */
  function TokensOfMask(t: IfaceTable, mask: bv32): (r: Option<seq<string>>)
    ensures r.Some? <==> forall j :: 0 <= j < |Flags| && Has(mask, Flags[j]) ==> Flags[j] in t.tokens
    ensures r.Some? ==> forall s :: s in r.value <==>
      exists j :: 0 <= j < |Flags| && Has(mask, Flags[j]) && Flags[j] in t.tokens && t.tokens[Flags[j]] == s
  {
    TokensFrom(t, mask, 0)
  }

  // ---------------------------------------------------------------------
  // Round trips between token lists and masks

  /** The mask of the visited flags only. */
  const LowBits: bv32 := 0xF

  lemma LowBitsKeepFlags(m: bv32, k: nat)
    requires k < |Flags|
    ensures Has(m & LowBits, Flags[k]) <==> Has(m, Flags[k])
    ensures (m & LowBits) & HighBits == 0
    ensures (m & LowBits) & Flags[k] == m & Flags[k]
  {
    var f := Flags[k];
    assert f == 1 || f == 2 || f == 4 || f == 8;
    assert (m & LowBits) & f == m & f;
  }

  /** Two masks without high bits that agree on every visited flag are equal. */
  lemma MaskExtensional(x: bv32, y: bv32)
    requires x & HighBits == 0 && y & HighBits == 0
    requires forall k :: 0 <= k < |Flags| ==> (Has(x, Flags[k]) <==> Has(y, Flags[k]))
    ensures x == y
  {
    assert Has(x, 1) == Has(y, 1) by { assert Flags[0] == 1; }
    assert Has(x, 2) == Has(y, 2) by { assert Flags[1] == 2; }
    assert Has(x, 4) == Has(y, 4) by { assert Flags[2] == 4; }
    assert Has(x, 8) == Has(y, 8) by { assert Flags[3] == 8; }
  }

  /** Bits above the last visited flag never reach the token list. */
  lemma {:induction false} TokensIgnoreHighBits(t: IfaceTable, m: bv32, k: nat)
    requires k <= |Flags|
    ensures TokensFrom(t, m & LowBits, k) == TokensFrom(t, m, k)
    decreases |Flags| - k
  {
    if k < |Flags| {
      LowBitsKeepFlags(m, k);
      TokensIgnoreHighBits(t, m, k + 1);
    }
  }

  lemma TokensFromSkip(t: IfaceTable, m: bv32, k: nat)
    requires k < |Flags| && !Has(m, Flags[k])
    ensures TokensFrom(t, m, k) == TokensFrom(t, m, k + 1)
  {
  }

  lemma TokensFromTake(t: IfaceTable, m: bv32, k: nat)
    requires k < |Flags| && TokensFrom(t, m, k).Some? && Has(m, Flags[k])
    ensures Flags[k] in t.tokens && TokensFrom(t, m, k + 1).Some?
    ensures TokensFrom(t, m, k).value == [t.tokens[Flags[k]]] + TokensFrom(t, m, k + 1).value
  {
  }

  /** Every token of `ts` is known and its flag sits at position `k` of
      Flags or later. */
  ghost predicate FlagsFromK(t: IfaceTable, ts: seq<string>, k: nat) {
    forall s :: s in ts ==> FlagIndex(t, s).Some? && k <= FlagIndex(t, s).value
  }

  /** The flags of `ts` strictly increase, so `ts` has no repeats. */
  ghost predicate StrictlyIncreasing(t: IfaceTable, ts: seq<string>)
    requires forall s :: s in ts ==> FlagIndex(t, s).Some?
  {
    forall i, j :: 0 <= i < j < |ts| ==> FlagIndex(t, ts[i]).value < FlagIndex(t, ts[j]).value
  }

  /** Tokens come out in strictly increasing flag order. */
  lemma {:induction false} TokensFromOrdered(t: IfaceTable, m: bv32, k: nat)
    requires t.Valid() && k <= |Flags| && TokensFrom(t, m, k).Some?
    ensures FlagsFromK(t, TokensFrom(t, m, k).value, k)
    ensures StrictlyIncreasing(t, TokensFrom(t, m, k).value)
    decreases |Flags| - k
  {
    if k < |Flags| {
      var ts := TokensFrom(t, m, k).value;
      if !Has(m, Flags[k]) {
        TokensFromSkip(t, m, k);
        TokensFromOrdered(t, m, k + 1);
        FlagsFromWeaken(t, ts, k);
      } else {
        TokensFromTake(t, m, k);
        var rest := TokensFrom(t, m, k + 1).value;
        TokensFromOrdered(t, m, k + 1);
        TokensConsOrdered(t, rest, k);
      }
    }
  }

  lemma FlagsFromWeaken(t: IfaceTable, ts: seq<string>, k: nat)
    requires FlagsFromK(t, ts, k + 1)
    ensures FlagsFromK(t, ts, k)
  {
  }

  lemma TokensConsOrdered(t: IfaceTable, rest: seq<string>, k: nat)
    requires t.Valid() && k < |Flags| && Flags[k] in t.tokens
    requires FlagsFromK(t, rest, k + 1) && StrictlyIncreasing(t, rest)
    ensures FlagsFromK(t, [t.tokens[Flags[k]]] + rest, k)
    ensures StrictlyIncreasing(t, [t.tokens[Flags[k]]] + rest)
  {
    FlagIndexOfToken(t, k);
    var ts := [t.tokens[Flags[k]]] + rest;
    forall s | s in ts
      ensures FlagIndex(t, s).Some? && k <= FlagIndex(t, s).value
    {
      if s != t.tokens[Flags[k]] {
        assert s in rest;
      }
    }
    forall i, j | 0 <= i < j < |ts|
      ensures FlagIndex(t, ts[i]).value < FlagIndex(t, ts[j]).value
    {
      assert ts[j] == rest[j - 1];
      assert rest[j - 1] in rest;
      if i > 0 {
        assert ts[i] == rest[i - 1];
      }
    }
  }

  /** Every token decoded from a mask is known to the table. */
  lemma TokensOfMaskKnown(t: IfaceTable, m: bv32)
    requires t.Valid() && TokensOfMask(t, m).Some?
    ensures forall j :: 0 <= j < |TokensOfMask(t, m).value| ==> FlagOf(t, TokensOfMask(t, m).value[j]).Some?
  {
    var ts := TokensOfMask(t, m).value;
    forall j | 0 <= j < |ts|
      ensures FlagOf(t, ts[j]).Some?
    {
      assert ts[j] in ts;
      var i :| 0 <= i < |Flags| && Has(m, Flags[i]) && Flags[i] in t.tokens && t.tokens[Flags[i]] == ts[j];
    }
  }

  /** A set flag of the mask has its token among the decoded tokens. */
  lemma TokensOfMaskHasFlag(t: IfaceTable, m: bv32, k: nat)
    requires t.Valid() && TokensOfMask(t, m).Some? && k < |Flags| && Has(m, Flags[k])
    ensures exists j :: 0 <= j < |TokensOfMask(t, m).value| && FlagOf(t, TokensOfMask(t, m).value[j]) == Some(Flags[k])
  {
    var ts := TokensOfMask(t, m).value;
    var tok := t.tokens[Flags[k]];
    assert tok in ts;
    var j :| 0 <= j < |ts| && ts[j] == tok;
    FlagOfToken(t, Flags[k]);
  }

  /** A decoded token comes from a set flag of the mask. */
  lemma TokensOfMaskFlagSet(t: IfaceTable, m: bv32, k: nat, j: nat)
    requires t.Valid() && TokensOfMask(t, m).Some? && k < |Flags|
    requires j < |TokensOfMask(t, m).value| && FlagOf(t, TokensOfMask(t, m).value[j]) == Some(Flags[k])
    ensures Has(m, Flags[k])
  {
    var ts := TokensOfMask(t, m).value;
    assert ts[j] in ts;
    var i :| 0 <= i < |Flags| && Has(m, Flags[i]) && Flags[i] in t.tokens && t.tokens[Flags[i]] == ts[j];
    FlagOfToken(t, Flags[i]);
  }

  /** One visited flag of the re-encoded mask agrees with the original. */
  lemma MaskOfTokensOfMaskBit(t: IfaceTable, m: bv32, k: nat)
    requires t.Valid() && TokensOfMask(t, m).Some? && k < |Flags|
    requires MaskOf(t, TokensOfMask(t, m).value).Some?
    ensures Has(MaskOf(t, TokensOfMask(t, m).value).value, Flags[k]) <==> Has(m & LowBits, Flags[k])
  {
    var ts := TokensOfMask(t, m).value;
    MaskOfBits(t, ts, k);
    LowBitsKeepFlags(m, k);
    if Has(m, Flags[k]) {
      TokensOfMaskHasFlag(t, m, k);
    }
    if exists j :: 0 <= j < |ts| && FlagOf(t, ts[j]) == Some(Flags[k]) {
      var j :| 0 <= j < |ts| && FlagOf(t, ts[j]) == Some(Flags[k]);
      TokensOfMaskFlagSet(t, m, k, j);
    }
  }

  /** Decoding a mask and re-encoding the tokens gives back the mask without
      its high bits. */
  lemma MaskOfTokensOfMask(t: IfaceTable, m: bv32)
    requires t.Valid() && TokensOfMask(t, m).Some?
    ensures MaskOf(t, TokensOfMask(t, m).value) == Some(m & LowBits)
  {
    var ts := TokensOfMask(t, m).value;
    TokensOfMaskKnown(t, m);
    var x := MaskOf(t, ts).value;
    forall k | 0 <= k < |Flags|
      ensures Has(x, Flags[k]) <==> Has(m & LowBits, Flags[k])
    {
      MaskOfTokensOfMaskBit(t, m, k);
    }
    LowBitsKeepFlags(m, 0);
    MaskExtensional(x, m & LowBits);
  }

  /** Encoding known tokens and decoding the mask gives back the same set of
      tokens (in increasing flag order and without repeats). */
  lemma TokensOfMaskOf(t: IfaceTable, tokens: seq<string>)
    requires t.Valid() && MaskOf(t, tokens).Some?
    ensures TokensOfMask(t, MaskOf(t, tokens).value).Some?
    ensures forall s :: s in TokensOfMask(t, MaskOf(t, tokens).value).value <==> s in tokens
  {
    var m := MaskOf(t, tokens).value;
    forall k | 0 <= k < |Flags| && Has(m, Flags[k])
      ensures Flags[k] in t.tokens
    {
      MaskOfBits(t, tokens, k);
    }
    var ds := TokensOfMask(t, m).value;
    forall s
      ensures s in ds <==> s in tokens
    {
      if s in ds {
        var k :| 0 <= k < |Flags| && Has(m, Flags[k]) && Flags[k] in t.tokens && t.tokens[Flags[k]] == s;
        MaskOfBits(t, tokens, k);
        var j :| 0 <= j < |tokens| && FlagOf(t, tokens[j]) == Some(Flags[k]);
      }
      if s in tokens {
        var j :| 0 <= j < |tokens| && tokens[j] == s;
        var f := FlagOf(t, s).value;
        var k :| 0 <= k < |Flags| && Flags[k] == f;
        MaskOfBits(t, tokens, k);
      }
    }
  }

  /** A token list that is the decoding of some mask survives an encode and
      decode unchanged. */
  lemma CanonicalTokensRoundTrip(t: IfaceTable, m: bv32)
    requires t.Valid() && TokensOfMask(t, m).Some?
    ensures var ts := TokensOfMask(t, m).value;
      MaskOf(t, ts).Some? && TokensOfMask(t, MaskOf(t, ts).value) == Some(ts)
  {
    MaskOfTokensOfMask(t, m);
    TokensIgnoreHighBits(t, m, 0);
  }

  /** A token list the decoder could have produced: every token known, in
      strictly increasing flag order. */
  ghost predicate CanonicalTokens(t: IfaceTable, ts: seq<string>) {
    && (forall s :: s in ts ==> FlagIndex(t, s).Some?)
    && StrictlyIncreasing(t, ts)
  }

  lemma CanonicalTail(t: IfaceTable, ts: seq<string>)
    requires |ts| > 0 && CanonicalTokens(t, ts)
    ensures CanonicalTokens(t, ts[1..])
    ensures forall s :: s in ts[1..] ==> s != ts[0]
  {
    forall s | s in ts[1..] ensures s in ts {
      var i :| 0 <= i < |ts[1..]| && ts[1..][i] == s;
      assert ts[i + 1] == s;
    }
    forall i, j | 0 <= i < j < |ts[1..]|
      ensures FlagIndex(t, ts[1..][i]).value < FlagIndex(t, ts[1..][j]).value
    {
      assert ts[1..][i] == ts[i + 1] && ts[1..][j] == ts[j + 1];
    }
    forall s | s in ts[1..] ensures s != ts[0] {
      var i :| 0 <= i < |ts[1..]| && ts[1..][i] == s;
      assert ts[i + 1] == s;
    }
  }

  /** Canonical lists with the same tokens start with the same token: the
      one of least flag. */
  lemma CanonicalHeads(t: IfaceTable, a: seq<string>, b: seq<string>)
    requires CanonicalTokens(t, a) && CanonicalTokens(t, b)
    requires forall s :: s in a <==> s in b
    requires |a| > 0
    ensures |b| > 0 && a[0] == b[0]
  {
    assert a[0] in b;
    var j :| 0 <= j < |b| && b[j] == a[0];
    assert b[0] in a;
    var i :| 0 <= i < |a| && a[i] == b[0];
    if j > 0 {
      assert false;
    }
  }

  /** With equal heads, the tails hold the same tokens. */
  lemma CanonicalTails(t: IfaceTable, a: seq<string>, b: seq<string>)
    requires CanonicalTokens(t, a) && CanonicalTokens(t, b)
    requires forall s :: s in a <==> s in b
    requires |a| > 0 && |b| > 0 && a[0] == b[0]
    ensures CanonicalTokens(t, a[1..]) && CanonicalTokens(t, b[1..])
    ensures forall s :: s in a[1..] <==> s in b[1..]
  {
    CanonicalTail(t, a);
    CanonicalTail(t, b);
    forall s ensures s in a[1..] <==> s in b[1..] {
      if s in a[1..] {
        assert s in a && s != a[0];
        assert s in b;
        var j :| 0 <= j < |b| && b[j] == s;
        assert b[1..][j - 1] == s;
      }
      if s in b[1..] {
        assert s in b && s != b[0];
        assert s in a;
        var i :| 0 <= i < |a| && a[i] == s;
        assert a[1..][i - 1] == s;
      }
    }
  }

  lemma HeadIn(b: seq<string>)
    ensures |b| > 0 ==> b[0] in b
  {
  }

  /** Two canonical token lists with the same tokens are the same list. */
  lemma {:induction false} CanonicalUnique(t: IfaceTable, a: seq<string>, b: seq<string>)
    requires CanonicalTokens(t, a) && CanonicalTokens(t, b)
    requires forall s :: s in a <==> s in b
    ensures a == b
    decreases |a|
  {
    if |a| == 0 {
      if |b| > 0 {
        HeadIn(b);
        assert false;
      }
    } else {
      CanonicalHeads(t, a, b);
      CanonicalTails(t, a, b);
      CanonicalUnique(t, a[1..], b[1..]);
      assert a == [a[0]] + a[1..] && b == [b[0]] + b[1..];
    }
  }

  /** A canonical token list survives encoding to a mask and decoding back:
      exactly the lists the decoder produces are the fixed points. */
  lemma CanonicalMaskRoundTrip(t: IfaceTable, ts: seq<string>)
    requires t.Valid() && CanonicalTokens(t, ts)
    ensures MaskOf(t, ts).Some? && TokensOfMask(t, MaskOf(t, ts).value) == Some(ts)
  {
    forall j | 0 <= j < |ts| ensures FlagOf(t, ts[j]).Some? {
      assert ts[j] in ts;
    }
    TokensOfMaskOf(t, ts);
    var m := MaskOf(t, ts).value;
    TokensFromOrdered(t, m, 0);
    CanonicalUnique(t, TokensOfMask(t, m).value, ts);
  }

  /** The decoder's token lists are canonical. */
  lemma TokensOfMaskCanonical(t: IfaceTable, m: bv32)
    requires t.Valid() && TokensOfMask(t, m).Some?
    ensures CanonicalTokens(t, TokensOfMask(t, m).value)
  {
    TokensFromOrdered(t, m, 0);
  }
}
