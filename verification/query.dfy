/** The request query of the library (lib/icl-query.c): a map from keys to
    values together with the length the query string `?k=v&k=v...` will
    take, which may not exceed ICL_QUERY_LENGTH_MAX. Lengths are counted
    as strlen counts them: in bytes of the strings' UTF-8 encoding. */
module Query {
  import opened Wrappers

  /** ICL_QUERY_LENGTH_MAX */
  const QueryLengthMax: int := 64

  /** struct icl_query: the hash table and the running length. */
  datatype Query = Query(entries: map<string, string>, len: int)

  /** Bytes of the UTF-8 encoding of one character. */
  function CharBytes(c: char): (n: nat)
    ensures 1 <= n <= 4
    ensures n == 1 <==> (c as int) < 0x80
  {
    if (c as int) < 0x80 then 1
    else if (c as int) < 0x800 then 2
    else if (c as int) < 0x1_0000 then 3
    else 4
  }

  /** strlen of the UTF-8 encoding of `s`: one to four bytes a character,
      one exactly for ASCII. */
  function Utf8Len(s: string): (n: nat)
    ensures |s| <= n <= 4 * |s|
    ensures n == |s| <==> forall k :: 0 <= k < |s| ==> (s[k] as int) < 0x80
  {
    if s == [] then 0
    else
      var rest := Utf8Len(s[1..]);
      assert forall k :: 1 <= k < |s| ==> s[k] == s[1..][k - 1];
      CharBytes(s[0]) + rest
  }

  /** What one entry adds to the query string: `?key=value` or `&key=value`,
      in bytes. */
  function Cost(key: string, value: string): (c: nat)
    ensures c == Utf8Len(key) + Utf8Len(value) + 2
    ensures |key| + |value| + 2 <= c
  {
    Utf8Len(key) + Utf8Len(value) + 2
  }

  /** Lengths are bytes, not characters: "é" takes two bytes, so a key of
      32 of them with the value "x" costs 67 and is refused by a new
      query, though it has only 35 characters. */
  lemma CostCountsBytes()
    ensures Cost("\U{e9}", "x") == 5
    ensures var key := seq(32, _ => '\U{e9}');
      |key| + 1 + 2 == 35 && Cost(key, "x") == 67 && Insert(Create(), key, "x") == (Create(), OutOfMemory)
  {
    var key := seq(32, _ => '\U{e9}');
    Utf8LenUniform(key, '\U{e9}');
  }

  /** A string of one repeated character takes that character's bytes
      that many times. */
  lemma {:induction false} Utf8LenUniform(s: string, c: char)
    requires forall k :: 0 <= k < |s| ==> s[k] == c
    ensures Utf8Len(s) == |s| * CharBytes(c)
  {
    if s != [] {
      Utf8LenUniform(s[1..], c);
    }
  }

  /** The length the query string of `m` takes: the sum of its entries'
      costs. */
  ghost function Total(m: map<string, string>): (n: nat)
    decreases |m|
  {
    if |m| == 0 then 0
    else
      var k :| k in m;
      Cost(k, m[k]) + Total(m - {k})
  }

  /** The entry Total takes out first. */
  lemma TotalChoice(m: map<string, string>) returns (j: string)
    requires |m| > 0
    ensures j in m && Total(m) == Cost(j, m[j]) + Total(m - {j})
  {
    j :| j in m && Total(m) == Cost(j, m[j]) + Total(m - {j});
  }

  /** Any entry can be taken out first. */
  lemma {:induction false} TotalRemove(m: map<string, string>, k: string)
    requires k in m
    ensures Total(m) == Cost(k, m[k]) + Total(m - {k})
    decreases |m|
  {
    var j := TotalChoice(m);
    if j != k {
      RemoveBoth(m, j, k);
      TotalRemove(m - {j}, k);
      TotalRemove(m - {k}, j);
    }
  }

  lemma RemoveBoth(m: map<string, string>, j: string, k: string)
    requires j in m && k in m && j != k
    ensures k in m - {j} && (m - {j})[k] == m[k] && |m - {j}| < |m|
    ensures j in m - {k} && (m - {k})[j] == m[j] && |m - {k}| < |m|
    ensures (m - {j}) - {k} == (m - {k}) - {j}
  {
  }

  /** Setting a key costs the new entry and drops the old one's cost. */
  lemma TotalUpdate(m: map<string, string>, k: string, v: string)
    ensures Total(m[k := v]) == Cost(k, v) + Total(m - {k})
    ensures Total(m - {k}) <= Total(m)
  {
    TotalRemove(m[k := v], k);
    assert m[k := v] - {k} == m - {k};
    TotalShrink(m, k);
  }

  /** Taking a key out never adds to the total. */
  lemma TotalShrink(m: map<string, string>, k: string)
    ensures Total(m - {k}) <= Total(m)
  {
    if k in m {
      TotalRemove(m, k);
    } else {
      assert m - {k} == m;
    }
  }

  /** A query the library can hold: the running length is at least the
      real length of the query string and never beyond the maximum. */
  ghost predicate Bounded(q: Query) {
    Total(q.entries) <= q.len <= QueryLengthMax
  }

  /** A query whose running length is exactly the query string's length. */
  ghost predicate Exact(q: Query) {
    q.len == Total(q.entries)
  }

  /** iotcon_query_create. */
  function Create(): (q: Query)
    ensures q.entries == map[] && q.len == 0
  {
    Query(map[], 0)
  }

  /** iotcon_query_insert: refused with OUT_OF_MEMORY when the entry would
      take the running length past the maximum; otherwise the key is set
      and the entry's full cost is added, even when the key was already
      there. */
  function Insert(q: Query, key: string, value: string): (res: (Query, Status))
    ensures res.1 == Ok <==> q.len + Cost(key, value) <= QueryLengthMax
    ensures res.1 != Ok ==> res.1 == OutOfMemory && res.0 == q
    ensures res.1 == Ok ==> res.0.entries == q.entries[key := value]
    ensures res.1 == Ok ==> res.0.len == q.len + Cost(key, value)
  {
    var cost := Cost(key, value);
    if QueryLengthMax < q.len + cost then (q, OutOfMemory)
    else (Query(q.entries[key := value], q.len + cost), Ok)
  }

  /** iotcon_query_delete: an absent key is refused; otherwise the key goes
      and the cost of its current entry is given back. */
  function Delete(q: Query, key: string): (res: (Query, Status))
    ensures res.1 == Ok <==> key in q.entries
    ensures res.1 != Ok ==> res.1 == InvalidParameter && res.0 == q
    ensures res.1 == Ok ==> res.0.entries == q.entries - {key}
    ensures res.1 == Ok ==> res.0.len == q.len - Cost(key, q.entries[key])
  {
    if key !in q.entries then (q, InvalidParameter)
    else (Query(q.entries - {key}, q.len - Cost(key, q.entries[key])), Ok)
  }

  /** iotcon_query_lookup. */
  function Lookup(q: Query, key: string): (res: (Status, Option<string>))
    ensures res.0 == Ok <==> key in q.entries
    ensures res.0 != Ok ==> res == (InvalidParameter, None)
    ensures res.0 == Ok ==> res.1 == Some(q.entries[key])
  {
    if key in q.entries then (Ok, Some(q.entries[key])) else (InvalidParameter, None)
  }

  /** Every operation keeps the running length within the maximum and at
      least the real length. */
  lemma OperationsKeepBounded(q: Query, key: string, value: string)
    requires Bounded(q)
    ensures Bounded(Create())
    ensures Bounded(Insert(q, key, value).0)
    ensures Bounded(Delete(q, key).0)
  {
    assert Total(map[]) == 0;
    TotalUpdate(q.entries, key, value);
    if key in q.entries {
      TotalRemove(q.entries, key);
    }
  }

  /** An inserted key reads back; a deleted one is gone. */
  lemma InsertThenLookup(q: Query, key: string, value: string, other: string)
    requires Insert(q, key, value).1 == Ok
    ensures Lookup(Insert(q, key, value).0, key) == (Ok, Some(value))
    ensures other != key ==> Lookup(Insert(q, key, value).0, other) == Lookup(q, other)
    ensures Lookup(Delete(Insert(q, key, value).0, key).0, key).0 == InvalidParameter
  {
  }

  /** Inserting and deleting a new key restores the query. */
  lemma InsertDeleteRestores(q: Query, key: string, value: string)
    requires key !in q.entries && Insert(q, key, value).1 == Ok
    ensures Delete(Insert(q, key, value).0, key) == (q, Ok)
  {
    assert q.entries[key := value] - {key} == q.entries;
  }

  /** Inserting a key twice charges it twice: the running length drifts
      from the query string's length, and deleting the key leaves a
      positive length with no entry. */
  lemma ReinsertOvercounts()
    ensures var q1 := Insert(Create(), "a", "b");
      var q2 := Insert(q1.0, "a", "b");
      var q3 := Delete(q2.0, "a");
      && q1.1 == Ok && q2.1 == Ok && q3.1 == Ok
      && q2.0.entries == map["a" := "b"] && q2.0.len == 8 && Total(q2.0.entries) == 4
      && q3.0.entries == map[] && q3.0.len == 4
      && !Exact(q2.0)
  {
    var m := map["a" := "b"];
    TotalRemove(m, "a");
    assert m - {"a"} == map[];
    assert map[]["a" := "b"] == m;
  }

  /** Insertion with the old entry's cost given back first: the accounting
      the length limit evidently intends. */
  function InsertReplacing(q: Query, key: string, value: string): (res: (Query, Status))
    ensures res.1 != Ok ==> res.1 == OutOfMemory && res.0 == q
    ensures res.1 == Ok ==> res.0.entries == q.entries[key := value]
  {
    var freed := if key in q.entries then Cost(key, q.entries[key]) else 0;
    var len := q.len - freed + Cost(key, value);
    if QueryLengthMax < len then (q, OutOfMemory)
    else (Query(q.entries[key := value], len), Ok)
  }

  /** With the corrected insertion the running length is always the query
      string's length, and an insertion is refused exactly when the query
      string would exceed the maximum. */
  lemma InsertReplacingExact(q: Query, key: string, value: string)
    requires Exact(q)
    ensures Exact(InsertReplacing(q, key, value).0)
    ensures Exact(Delete(q, key).0)
    ensures InsertReplacing(q, key, value).1 == Ok <==> Total(q.entries[key := value]) <= QueryLengthMax
  {
    TotalUpdate(q.entries, key, value);
    if key in q.entries {
      TotalRemove(q.entries, key);
    } else {
      assert q.entries - {key} == q.entries;
    }
  }

  /** The corrected insertion repeated gives the same query as once. */
  lemma InsertReplacingTwice(q: Query, key: string, value: string)
    requires InsertReplacing(q, key, value).1 == Ok
    ensures InsertReplacing(InsertReplacing(q, key, value).0, key, value) == InsertReplacing(q, key, value)
  {
    var m := q.entries[key := value];
    assert m[key := value] == m;
  }

  /** iotcon_query_foreach: `order` is the hash table's iteration order,
      which the library does not fix; the keys are visited in that order
      until the callback returns false. Returns the keys visited. */
  method Foreach(q: Query, order: seq<string>, cb: (string, string) -> bool) returns (visited: seq<string>)
    requires forall k :: k in q.entries <==> k in order
    requires forall i, j :: 0 <= i < j < |order| ==> order[i] != order[j]
    ensures visited <= order
    ensures forall k :: 0 <= k < |visited| ==> visited[k] in q.entries
    ensures forall k :: 0 <= k < |visited| - 1 ==> cb(visited[k], q.entries[visited[k]])
    ensures |visited| < |order| ==> |visited| > 0 && !cb(visited[|visited| - 1], q.entries[visited[|visited| - 1]])
    ensures (forall k :: k in q.entries ==> cb(k, q.entries[k])) ==> visited == order
  {
    visited := [];
    var i := 0;
    while i < |order|
      invariant 0 <= i <= |order|
      invariant visited == order[..i]
      invariant forall k :: 0 <= k < i ==> cb(order[k], q.entries[order[k]])
    {
      var key := order[i];
      visited := visited + [key];
      if !cb(key, q.entries[key]) {
        return;
      }
      i := i + 1;
    }
  }
}
