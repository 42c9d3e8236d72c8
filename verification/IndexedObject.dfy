/** The decoder of Steam's indexed objects, `{"0": …, "1": …}`, into slices. */
module IndexedObject {
  import opened Wrappers
  import opened Decimal
  import opened Orders

  /** A raw JSON field by its first byte, with the outcome of decoding it. An array decoded in part
      keeps what was decoded; `Other` is any other first byte, or an object that does not decode. */
  datatype Field<T> = Missing | Array(items: seq<T>) | Object(members: map<string, T>) | Other

  /** The integers that the keys of an iteration parse to, in iteration order; other keys are skipped. */
  function Parsed(order: seq<string>): seq<int> {
    if order == [] then []
    else
      var front, k := order[..|order| - 1], order[|order| - 1];
      Parsed(front) + if Atoi(k).Some? then [Atoi(k).value] else []
  }

  /** The key that each parsed integer is traced back to: the one visited last. */
  function Idx(order: seq<string>): map<int, string> {
    if order == [] then map[]
    else
      var front, k := order[..|order| - 1], order[|order| - 1];
      if Atoi(k).Some? then Idx(front)[Atoi(k).value := k] else Idx(front)
  }

  /** Each of these integers traces back to a key of the map. */
  ghost predicate Traceable<T>(m: map<string, T>, idx: map<int, string>, ns: seq<int>) {
    forall p :: 0 <= p < |ns| ==> ns[p] in idx && idx[ns[p]] in m
  }

  /** The values that integers trace back to. */
  function Traced<T>(m: map<string, T>, idx: map<int, string>, ns: seq<int>): (out: seq<T>)
    requires Traceable(m, idx, ns)
    ensures |out| == |ns|
  {
    if ns == [] then []
    else Traced(m, idx, ns[..|ns| - 1]) + [m[idx[ns[|ns| - 1]]]]
  }

  /** What `mapByIndexKey` returns when it visits the map in the given order. */
  function ByIndexKey<T>(m: map<string, T>, order: seq<string>): (out: seq<T>)
    requires IsOrder(order, m.Keys)
  {
    IdxTraces(m, order);
    Traced(m, Idx(order), SortInts(Parsed(order)))
  }

  /** The integers of `Parsed` and the keys of `Idx` are the same, and each traces to a visited key. */
  lemma {:induction false} IdxParses(order: seq<string>)
    ensures forall n :: n in Idx(order) <==> n in Parsed(order)
    ensures forall n :: n in Idx(order) ==> Idx(order)[n] in order && Atoi(Idx(order)[n]) == Some(n)
    ensures forall k :: k in order && Atoi(k).Some? ==> Atoi(k).value in Idx(order)
  {
    if order != [] {
      var front, k := order[..|order| - 1], order[|order| - 1];
      IdxParses(front);
      assert order == front + [k];
    }
  }

  lemma IdxTraces<T>(m: map<string, T>, order: seq<string>)
    requires IsOrder(order, m.Keys)
    ensures Traceable(m, Idx(order), Parsed(order))
    ensures Traceable(m, Idx(order), SortInts(Parsed(order)))
  {
    IdxParses(order);
    SortedMembers(Parsed(order));
    AllTraceable(m, order, Idx(order), Parsed(order));
    AllTraceable(m, order, Idx(order), SortInts(Parsed(order)));
  }

  lemma AllTraceable<T>(m: map<string, T>, order: seq<string>, idx: map<int, string>, ns: seq<int>)
    requires forall k :: k in order ==> k in m
    requires forall n :: n in ns ==> n in idx
    requires forall n :: n in idx ==> idx[n] in order
    ensures Traceable(m, idx, ns)
  {
    forall p | 0 <= p < |ns|
      ensures ns[p] in idx
      ensures idx[ns[p]] in m
    {
      var n := ns[p];
      assert n in ns;
      assert n in idx;
      assert idx[n] in order;
    }
  }

  lemma {:induction false} TracedAt<T>(m: map<string, T>, idx: map<int, string>, ns: seq<int>, p: nat)
    requires Traceable(m, idx, ns) && p < |ns|
    ensures Traced(m, idx, ns)[p] == m[idx[ns[p]]]
  {
    if p < |ns| - 1 {
      TracedAt(m, idx, ns[..|ns| - 1], p);
    }
  }

  lemma ParseKey(order: seq<string>, k: string)
    ensures Atoi(k).None? ==> Parsed(order + [k]) == Parsed(order)
    ensures Atoi(k).Some? ==> Parsed(order + [k]) == Parsed(order) + [Atoi(k).value]
  {
    assert (order + [k])[..|order|] == order;
  }

  lemma VisitKey(order: seq<string>, k: string)
    ensures Atoi(k).None? ==> Parsed(order + [k]) == Parsed(order) && Idx(order + [k]) == Idx(order)
    ensures Atoi(k).Some? ==>
              && Parsed(order + [k]) == Parsed(order) + [Atoi(k).value]
              && Idx(order + [k]) == Idx(order)[Atoi(k).value := k]
  {
    assert (order + [k])[..|order|] == order;
  }

  /** `mapByIndexKey`: collect, sort, look up, in some order of visiting the map. */
  method MapByIndexKey<T>(m: map<string, T>) returns (out: seq<T>)
    ensures IsSomeOrder(m, out)
  {
    if |m| == 0 {
      NoKeys(m);
      return [];
    }
    var keys, idx;
    ghost var order;
    keys, idx, order := Collect(m.Keys);
    IdxTraces(m, order);
    keys := SortInts(keys);
    out := TraceBack(m, idx, keys);
    InSomeOrder(m, order, out);
  }

  /** The loop of `mapByIndexKey` over the sorted integers. */
  method TraceBack<T>(m: map<string, T>, idx: map<int, string>, keys: seq<int>) returns (out: seq<T>)
    requires Traceable(m, idx, keys)
    ensures out == Traced(m, idx, keys)
  {
    out := [];
    for p := 0 to |keys|
      invariant Traceable(m, idx, keys[..p]) && out == Traced(m, idx, keys[..p])
    {
      TracedNext(m, idx, keys[..p], keys[p]);
      assert keys[..p + 1] == keys[..p] + [keys[p]];
      out := out + [m[idx[keys[p]]]];
    }
    assert keys[..|keys|] == keys;
  }

  lemma TracedNext<T>(m: map<string, T>, idx: map<int, string>, ns: seq<int>, n: int)
    requires Traceable(m, idx, ns) && n in idx && idx[n] in m
    ensures Traceable(m, idx, ns + [n]) && Traced(m, idx, ns + [n]) == Traced(m, idx, ns) + [m[idx[n]]]
  {
    assert (ns + [n])[..|ns|] == ns;
  }

  /** The values are those of the map along some order of visiting it. */
  ghost predicate IsSomeOrder<T>(m: map<string, T>, out: seq<T>) {
    exists order :: IsOrder(order, m.Keys) && out == ByIndexKey(m, order)
  }

  lemma InSomeOrder<T>(m: map<string, T>, order: seq<string>, out: seq<T>)
    requires IsOrder(order, m.Keys)
    requires Traceable(m, Idx(order), SortInts(Parsed(order)))
    requires out == Traced(m, Idx(order), SortInts(Parsed(order)))
    ensures IsSomeOrder(m, out)
  {
    assert out == ByIndexKey(m, order);
  }

  lemma NoKeys<T>(m: map<string, T>)
    requires |m| == 0
    ensures IsSomeOrder(m, [])
  {
    assert IsOrder([], m.Keys) && ByIndexKey(m, []) == [];
  }

  /** The loop of `mapByIndexKey` that ranges over the map. */
  method Collect(names: set<string>) returns (keys: seq<int>, idx: map<int, string>, ghost order: seq<string>)
    ensures IsOrder(order, names) && keys == Parsed(order) && idx == Idx(order)
  {
    keys, idx, order := [], map[], [];
    var unvisited := names;
    while unvisited != {}
      invariant unvisited <= names
      invariant IsOrder(order, names - unvisited)
      invariant keys == Parsed(order) && idx == Idx(order)
    {
      var k :| k in unvisited;
      VisitNext(order, names - unvisited, k);
      VisitKey(order, k);
      assert names - (unvisited - {k}) == names - unvisited + {k};
      unvisited, order := unvisited - {k}, order + [k];
      var n := Atoi(k);
      if n.None? {
        continue;
      }
      keys := keys + [n.value];
      idx := idx[n.value := k];
    }
    assert names - unvisited == names;
  }

  /** The order the decoding of a field visits matters only for an object. */
  ghost predicate IsFieldOrder<T>(f: Field<T>, order: seq<string>) {
    f.Object? ==> IsOrder(order, f.members.Keys)
  }

  function Decoded<T>(f: Field<T>, order: seq<string>): seq<T>
    requires IsFieldOrder(f, order)
  {
    match f
    case Array(items) => items
    case Object(members) => ByIndexKey(members, order)
    case _ => []
  }

  /** `decodeIndexedTags` and its three siblings, which differ in the element type alone. */
  method DecodeIndexed<T>(f: Field<T>) returns (out: seq<T>)
    ensures exists order :: IsFieldOrder(f, order) && out == Decoded(f, order)
  {
    match f
    case Missing => out := [];
      assert IsFieldOrder(f, []);
    case Array(items) => out := items;
      assert IsFieldOrder(f, []);
    case Object(members) => out := MapByIndexKey(members);
      ghost var order :| IsOrder(order, members.Keys) && out == ByIndexKey(members, order);
      assert IsFieldOrder(f, order);
    case Other => out := [];
      assert IsFieldOrder(f, []);
  }
  // ----- What the decoder guarantees for every map -----

  /** The numeric keys among those of a map. */
  ghost function Numeric(keys: set<string>): set<string> {
    set k | k in keys && Atoi(k).Some?
  }

  lemma NumericWithout(keys: set<string>, k: string)
    requires k in keys
    ensures |Numeric(keys)| == |Numeric(keys - {k})| + if Atoi(k).Some? then 1 else 0
  {
    if Atoi(k).Some? {
      assert Numeric(keys) == Numeric(keys - {k}) + {k};
    } else {
      assert Numeric(keys) == Numeric(keys - {k});
    }
  }

  lemma {:induction false} ParsedCount(order: seq<string>, keys: set<string>)
    requires IsOrder(order, keys)
    ensures |Parsed(order)| == |Numeric(keys)|
  {
    if order == [] {
      assert Numeric(keys) == {};
    } else {
      var front, k := order[..|order| - 1], order[|order| - 1];
      VisitLast(order, keys);
      ParsedCount(front, keys - {k});
      NumericWithout(keys, k);
    }
  }

  /** The integer stands among the sorted ones. */
  ghost predicate Sits(ns: seq<int>, n: int) {
    exists p :: 0 <= p < |ns| && ns[p] == n
  }

  /** A run seen from its sorted integers: each traces to a visited key for it, and no numeric key is missed. */
  lemma RunTraces<T>(m: map<string, T>, order: seq<string>, ns: seq<int>, idx: map<int, string>)
    requires IsOrder(order, m.Keys) && ns == SortInts(Parsed(order)) && idx == Idx(order)
    ensures Traceable(m, idx, ns) && ByIndexKey(m, order) == Traced(m, idx, ns)
    ensures forall p :: 0 <= p < |ns| ==> Atoi(idx[ns[p]]) == Some(ns[p])
    ensures forall p :: 0 <= p < |ns| ==> ByIndexKey(m, order)[p] == m[idx[ns[p]]]
    ensures forall k :: k in m && Atoi(k).Some? ==> Sits(ns, Atoi(k).value)
  {
    IdxTraces(m, order);
    IdxParses(order);
    SortedMembers(Parsed(order));
    forall p | 0 <= p < |ns|
      ensures Traced(m, idx, ns)[p] == m[idx[ns[p]]]
    {
      TracedAt(m, idx, ns, p);
    }
    forall k | k in m && Atoi(k).Some?
      ensures Sits(ns, Atoi(k).value)
    {
      var n := Atoi(k).value;
      assert k in order && n in Parsed(order);
      assert n in ns;
    }
  }

  /** No two numeric keys parse to one integer. */
  ghost predicate NoCollision(keys: set<string>) {
    forall k, k' :: k in keys && k' in keys && Atoi(k).Some? && Atoi(k) == Atoi(k') ==> k == k'
  }

  lemma {:induction false} ParsedDistinct(order: seq<string>, keys: set<string>)
    requires IsOrder(order, keys) && NoCollision(keys)
    ensures NoDuplicates(Parsed(order))
  {
    if order != [] {
      var front, k := order[..|order| - 1], order[|order| - 1];
      VisitLast(order, keys);
      ParsedDistinct(front, keys - {k});
      if Atoi(k).Some? {
        IdxParses(front);
        assert forall k' :: k' in front ==> k' in keys - {k};
        assert forall k' :: k' in front ==> Atoi(k') != Atoi(k);
        assert Atoi(k).value !in Idx(front);
        AppendDistinct(Parsed(front), Atoi(k).value);
      }
    }
  }

  lemma IndicesAscend(order: seq<string>, keys: set<string>)
    requires IsOrder(order, keys)
    ensures NoCollision(keys) ==> StrictlyAscending(SortInts(Parsed(order)))
  {
    if NoCollision(keys) {
      ParsedDistinct(order, keys);
      DistinctAscend(Parsed(order), SortInts(Parsed(order)));
    }
  }

  /** The map holds the value under a key that parses to the integer. */
  ghost predicate HeldUnder<T>(m: map<string, T>, n: int, v: T) {
    exists k :: k in m && Atoi(k) == Some(n) && m[k] == v
  }

  /** Even when keys collide there is one element per numeric key, and the element at each position
      of the sorted indices is a value that the map holds under a key for that index. */
  lemma ElementsAreHeld<T>(m: map<string, T>, order: seq<string>) returns (ns: seq<int>)
    requires IsOrder(order, m.Keys)
    ensures Ascending(ns) && |ns| == |ByIndexKey(m, order)| == |Numeric(m.Keys)|
    ensures NoCollision(m.Keys) ==> StrictlyAscending(ns)
    ensures forall k :: k in m && Atoi(k).Some? ==> Sits(ns, Atoi(k).value)
    ensures forall p :: 0 <= p < |ns| ==> HeldUnder(m, ns[p], ByIndexKey(m, order)[p])
  {
    ns := SortInts(Parsed(order));
    RunTraces(m, order, ns, Idx(order));
    HeldAt(m, Idx(order), ns, ByIndexKey(m, order));
    ParsedCount(order, m.Keys);
    SortedMembers(Parsed(order));
    IndicesAscend(order, m.Keys);
  }

  lemma HeldAt<T>(m: map<string, T>, idx: map<int, string>, ns: seq<int>, out: seq<T>)
    requires Traceable(m, idx, ns) && |out| == |ns|
    requires forall p :: 0 <= p < |ns| ==> Atoi(idx[ns[p]]) == Some(ns[p])
    requires forall p :: 0 <= p < |ns| ==> out[p] == m[idx[ns[p]]]
    ensures forall p :: 0 <= p < |ns| ==> HeldUnder(m, ns[p], out[p])
  {
    forall p | 0 <= p < |ns|
      ensures HeldUnder(m, ns[p], out[p])
    {
      var k := idx[ns[p]];
      assert k in m && Atoi(k) == Some(ns[p]) && m[k] == out[p];
    }
  }

  /** The name is an optional sign and decimal digits for a 64-bit integer. */
  ghost predicate IsIndexName(k: string) {
    exists n :: Denotes(k, n)
  }

  /** The value is held under a name of the index. */
  ghost predicate NamedIndex<T>(m: map<string, T>, n: int, v: T) {
    exists k :: k in m && Denotes(k, n) && m[k] == v
  }

  /** Exactly the members whose name is no index are dropped: one element stays per name of an index, in
      ascending order of the integers that these names denote. */
  lemma KeptExactly<T>(m: map<string, T>, order: seq<string>) returns (ns: seq<int>)
    requires IsOrder(order, m.Keys)
    ensures |ns| == |ByIndexKey(m, order)| == |set k | k in m && IsIndexName(k)|
    ensures forall p, q :: 0 <= p < q < |ns| ==> ns[p] <= ns[q]
    ensures forall p :: 0 <= p < |ns| ==> NamedIndex(m, ns[p], ByIndexKey(m, order)[p])
  {
    ns := ElementsAreHeld(m, order);
    NumericNames(m.Keys);
    forall p | 0 <= p < |ns|
      ensures NamedIndex(m, ns[p], ByIndexKey(m, order)[p])
    {
      var v := ByIndexKey(m, order)[p];
      assert HeldUnder(m, ns[p], v);
      var k :| k in m && Atoi(k) == Some(ns[p]) && m[k] == v;
      AtoiIff(k, ns[p]);
    }
  }

  lemma NumericNames(keys: set<string>)
    ensures Numeric(keys) == set k | k in keys && IsIndexName(k)
  {
    forall k
      ensures Atoi(k).Some? <==> IsIndexName(k)
    {
      if Atoi(k).Some? {
        AtoiIff(k, Atoi(k).value);
      }
      if n :| Denotes(k, n) {
        AtoiIff(k, n);
      }
    }
  }

  // ----- Iteration order -----

  lemma {:induction false} ParsedJoined(o: seq<string>, o': seq<string>)
    ensures Parsed(o + o') == Parsed(o) + Parsed(o')
  {
    if o' == [] {
      assert o + o' == o;
    } else {
      var front, k := o'[..|o'| - 1], o'[|o'| - 1];
      assert o' == front + [k];
      assert o + o' == o + front + [k];
      ParseKey(front, k);
      ParseKey(o + front, k);
      ParsedJoined(o, front);
    }
  }

  lemma {:induction false} ParsedPermutes(o: seq<string>, o': seq<string>)
    requires multiset(o) == multiset(o')
    ensures multiset(Parsed(o)) == multiset(Parsed(o'))
    decreases |o|
  {
    if o == [] {
      assert |multiset(o')| == |o'|;
    } else {
      var front, k := o[..|o| - 1], o[|o| - 1];
      assert o == front + [k];
      var before, after := Without(front, o', k);
      ParsedPermutes(front, before + after);
      ParsedJoined(before, after);
      ParsedJoined(before + [k], after);
      ParseKey(front, k);
      ParseKey(before, k);
    }
  }

  /** The sorted indices are the same in every run. */
  lemma SameIndices(o: seq<string>, o': seq<string>, keys: set<string>)
    requires IsOrder(o, keys) && IsOrder(o', keys)
    ensures SortInts(Parsed(o)) == SortInts(Parsed(o'))
  {
    OrdersPermute(o, o', keys);
    ParsedPermutes(o, o');
    AscendingUnique(SortInts(Parsed(o)), SortInts(Parsed(o')));
  }

  /** Keys that parse to one integer, such as "1" and "01", hold one value. */
  ghost predicate CollisionsAgree<T>(m: map<string, T>) {
    forall k, k' :: k in m && k' in m && Atoi(k).Some? && Atoi(k) == Atoi(k') ==> m[k] == m[k']
  }

  /** Different keys do parse to one integer. */
  lemma SameIndexNames()
    ensures Atoi("1") == Atoi("01") == Atoi("+1") == Some(1)
    ensures !CollisionsAgree(map["1" := 'a', "01" := 'b'])
  {
    assert Value("") == 0 && Value("0") == 0 && "01"[..1] == "0" && "1"[..0] == "" && "+1"[1..] == "1";
    assert Value("1") == 1 && Value("01") == 1;
    var m := map["1" := 'a', "01" := 'b'];
    assert "01" != "1" by {
      assert |"01"| != |"1"|;
    }
    assert m["1"] == 'a' && m["01"] == 'b';
  }

  /** Every run of the decoder on this map returns the same slice. */
  ghost predicate OrderFree<T>(m: map<string, T>) {
    forall o, o' :: IsOrder(o, m.Keys) && IsOrder(o', m.Keys) ==> ByIndexKey(m, o) == ByIndexKey(m, o')
  }

  lemma AgreeingIsOrderFree<T>(m: map<string, T>, o: seq<string>, o': seq<string>)
    requires CollisionsAgree(m) && IsOrder(o, m.Keys) && IsOrder(o', m.Keys)
    ensures ByIndexKey(m, o) == ByIndexKey(m, o')
  {
    var ns := SortInts(Parsed(o));
    SameIndices(o, o', m.Keys);
    RunTraces(m, o, ns, Idx(o));
    RunTraces(m, o', ns, Idx(o'));
  }

  lemma OrderFreeAgrees<T>(m: map<string, T>, k: string, k': string)
    requires OrderFree(m)
    requires k in m && k' in m && Atoi(k).Some? && Atoi(k) == Atoi(k')
    ensures m[k] == m[k']
  {
    var o := OrderEndingWith(m.Keys, k);
    var o' := OrderEndingWith(m.Keys, k');
    var ns := SortInts(Parsed(o));
    SameIndices(o, o', m.Keys);
    assert ByIndexKey(m, o) == ByIndexKey(m, o');
    RunTraces(m, o, ns, Idx(o));
    var p :| 0 <= p < |ns| && ns[p] == Atoi(k).value;
    LastWins(m, o, ns, p);
    LastWins(m, o', ns, p);
  }

  /** The numeric key visited last decides the elements at its index. */
  lemma LastWins<T>(m: map<string, T>, o: seq<string>, ns: seq<int>, p: nat)
    requires IsOrder(o, m.Keys) && o != [] && ns == SortInts(Parsed(o))
    requires p < |ns| && Atoi(o[|o| - 1]) == Some(ns[p])
    ensures p < |ByIndexKey(m, o)| && o[|o| - 1] in m && ByIndexKey(m, o)[p] == m[o[|o| - 1]]
  {
    RunTraces(m, o, ns, Idx(o));
    assert Idx(o)[ns[p]] == o[|o| - 1];
  }

  /** The result is independent of the iteration order exactly when colliding keys agree. */
  lemma OrderFreeIff<T>(m: map<string, T>)
    ensures OrderFree(m) <==> CollisionsAgree(m)
  {
    if CollisionsAgree(m) {
      forall o, o' | IsOrder(o, m.Keys) && IsOrder(o', m.Keys)
        ensures ByIndexKey(m, o) == ByIndexKey(m, o')
      {
        AgreeingIsOrderFree(m, o, o');
      }
    }
    if OrderFree(m) {
      forall k, k' | k in m && k' in m && Atoi(k).Some? && Atoi(k) == Atoi(k')
        ensures m[k] == m[k']
      {
        OrderFreeAgrees(m, k, k');
      }
    }
  }

  // ----- No value is lost -----

  /** The values under the numeric keys, in iteration order. */
  ghost function Held<T>(m: map<string, T>, order: seq<string>): seq<T>
    requires forall k :: k in order ==> k in m
  {
    if order == [] then []
    else
      var front, k := order[..|order| - 1], order[|order| - 1];
      Held(m, front) + if Atoi(k).Some? then [m[k]] else []
  }

  /** Every run returns the values under the numeric keys, each as often as it is held. */
  ghost predicate LosesNothing<T(!new)>(m: map<string, T>) {
    forall o :: IsOrder(o, m.Keys) ==> multiset(ByIndexKey(m, o)) == multiset(Held(m, o))
  }

  lemma {:induction false} TracedJoined<T>(m: map<string, T>, idx: map<int, string>, s: seq<int>, t: seq<int>)
    requires Traceable(m, idx, s + t)
    ensures Traceable(m, idx, s) && Traceable(m, idx, t)
    ensures Traced(m, idx, s + t) == Traced(m, idx, s) + Traced(m, idx, t)
  {
    assert forall p :: 0 <= p < |s| ==> (s + t)[p] == s[p];
    assert forall p :: 0 <= p < |t| ==> (s + t)[|s| + p] == t[p];
    if t == [] {
      assert s + t == s;
    } else {
      var front := t[..|t| - 1];
      assert (s + t)[..|s + t| - 1] == s + front;
      TracedJoined(m, idx, s, front);
    }
  }

  lemma {:induction false} TracedPermutes<T>(m: map<string, T>, idx: map<int, string>, s: seq<int>, t: seq<int>)
    requires Traceable(m, idx, s) && Traceable(m, idx, t)
    requires multiset(s) == multiset(t)
    ensures multiset(Traced(m, idx, s)) == multiset(Traced(m, idx, t))
    decreases |s|
  {
    if s == [] {
      assert |multiset(t)| == |t|;
    } else {
      var front, n := s[..|s| - 1], s[|s| - 1];
      assert s == front + [n];
      var before, after := Without(front, t, n);
      assert t == before + ([n] + after);
      TracedJoined(m, idx, before, [n] + after);
      TracedJoined(m, idx, [n], after);
      assert Traceable(m, idx, before + after);
      TracedJoined(m, idx, before, after);
      TracedPermutes(m, idx, front, before + after);
    }
  }

  lemma {:induction false} HeldIsTraced<T>(m: map<string, T>, order: seq<string>, idx: map<int, string>)
    requires Traceable(m, idx, Parsed(order))
    requires forall k :: k in order ==> k in m
    requires forall k :: k in order && Atoi(k).Some? ==>
               Atoi(k).value in idx && idx[Atoi(k).value] in m && m[idx[Atoi(k).value]] == m[k]
    ensures Traced(m, idx, Parsed(order)) == Held(m, order)
  {
    if order != [] {
      var front, k := order[..|order| - 1], order[|order| - 1];
      assert order == front + [k];
      ParseKey(front, k);
      if Atoi(k).Some? {
        TracedLast(m, idx, Parsed(front), Atoi(k).value);
      }
      HeldIsTraced(m, front, idx);
    }
  }

  lemma TracedLast<T>(m: map<string, T>, idx: map<int, string>, ns: seq<int>, n: int)
    requires Traceable(m, idx, ns + [n])
    ensures Traceable(m, idx, ns) && n in idx && idx[n] in m
    ensures Traced(m, idx, ns + [n]) == Traced(m, idx, ns) + [m[idx[n]]]
  {
    assert (ns + [n])[|ns|] == n;
    assert forall p :: 0 <= p < |ns| ==> (ns + [n])[p] == ns[p];
    assert (ns + [n])[..|ns|] == ns;
  }

  lemma AgreeingLosesNothing<T(!new)>(m: map<string, T>, order: seq<string>)
    requires CollisionsAgree(m) && IsOrder(order, m.Keys)
    ensures multiset(ByIndexKey(m, order)) == multiset(Held(m, order))
  {
    IdxTraces(m, order);
    IdxParses(order);
    HeldIsTraced(m, order, Idx(order));
    TracedPermutes(m, Idx(order), SortInts(Parsed(order)), Parsed(order));
  }

  /** Tracing one index elsewhere changes how often its values occur. */
  lemma {:induction false} RetracingShows<T(!new)>(m: map<string, T>, idx: map<int, string>, idx': map<int, string>,
                                                   ns: seq<int>, n: int, v: T)
    requires Traceable(m, idx, ns) && Traceable(m, idx', ns)
    requires forall p :: 0 <= p < |ns| ==>
               if ns[p] == n then m[idx[n]] == v != m[idx'[n]] else idx[ns[p]] == idx'[ns[p]]
    ensures multiset(Traced(m, idx, ns))[v] == multiset(Traced(m, idx', ns))[v] + multiset(ns)[n]
  {
    if ns != [] {
      var last := |ns| - 1;
      var front, n' := ns[..last], ns[last];
      RetracingShows(m, idx, idx', front, n, v);
      CountLast(ns, n);
      CountLast(Traced(m, idx, ns), v);
      CountLast(Traced(m, idx', ns), v);
      assert Traced(m, idx, ns)[..last] == Traced(m, idx, front) && Traced(m, idx, ns)[last] == m[idx[n']];
      assert Traced(m, idx', ns)[..last] == Traced(m, idx', front) && Traced(m, idx', ns)[last] == m[idx'[n']];
    }
  }

  lemma CountLast<T(!new)>(s: seq<T>, x: T)
    requires s != []
    ensures multiset(s)[x] == multiset(s[..|s| - 1])[x] + if s[|s| - 1] == x then 1 else 0
  {
    assert s == s[..|s| - 1] + [s[|s| - 1]];
  }

  /** No value is lost or repeated in any run exactly when colliding keys agree. */
  lemma LosesNothingIff<T(!new)>(m: map<string, T>)
    ensures LosesNothing(m) <==> CollisionsAgree(m)
  {
    if CollisionsAgree(m) {
      forall o | IsOrder(o, m.Keys)
        ensures multiset(ByIndexKey(m, o)) == multiset(Held(m, o))
      {
        AgreeingLosesNothing(m, o);
      }
    } else {
      var k, k' :| k in m && k' in m && Atoi(k).Some? && Atoi(k) == Atoi(k') && m[k] != m[k'];
      CollisionLoses(m, k, k');
    }
  }

  /** With disagreeing keys, visiting them last in one order or the other loses a value. */
  lemma CollisionLoses<T(!new)>(m: map<string, T>, k: string, k': string)
    requires k in m && k' in m && Atoi(k).Some? && Atoi(k) == Atoi(k') && m[k] != m[k']
    ensures !LosesNothing(m)
  {
    var rest := SomeOrder(m.Keys - {k, k'});
    var o := EndingWithBoth(m.Keys, rest, k', k);
    var o' := EndingWithBoth(m.Keys, rest, k, k');
    RunsDiffer(m, o, o', Idx(rest), k, k');
    HeldPermutes(m, rest, k, k');
  }

  lemma RunsDiffer<T(!new)>(m: map<string, T>, o: seq<string>, o': seq<string>, idx: map<int, string>,
                            k: string, k': string)
    requires k in m && k' in m && Atoi(k).Some? && m[k] != m[k']
    requires IsOrder(o, m.Keys) && Idx(o) == idx[Atoi(k).value := k]
    requires IsOrder(o', m.Keys) && Idx(o') == idx[Atoi(k).value := k']
    ensures multiset(ByIndexKey(m, o)) != multiset(ByIndexKey(m, o'))
  {
    var ns, n := SortInts(Parsed(o)), Atoi(k).value;
    SameIndices(o, o', m.Keys);
    RunTraces(m, o, ns, Idx(o));
    RunTraces(m, o', ns, Idx(o'));
    TracedDiffer(m, idx, k, k', ns, n);
  }

  lemma TracedDiffer<T(!new)>(m: map<string, T>, idx: map<int, string>, k: string, k': string, ns: seq<int>, n: int)
    requires Traceable(m, idx[n := k], ns) && Traceable(m, idx[n := k'], ns) && Sits(ns, n)
    requires k in m && k' in m && m[k] != m[k']
    ensures multiset(Traced(m, idx[n := k], ns)) != multiset(Traced(m, idx[n := k'], ns))
  {
    RetracingShows(m, idx[n := k], idx[n := k'], ns, n, m[k]);
    var p :| 0 <= p < |ns| && ns[p] == n;
    assert ns[p] in multiset(ns);
  }

  lemma EndingWithBoth(keys: set<string>, rest: seq<string>, k: string, k': string) returns (o: seq<string>)
    requires k in keys && k' in keys && k != k' && IsOrder(rest, keys - {k, k'})
    ensures o == rest + [k] + [k'] && IsOrder(o, keys)
    ensures Atoi(k).Some? && Atoi(k) == Atoi(k') ==> Idx(o) == Idx(rest)[Atoi(k').value := k']
  {
    o := rest + [k] + [k'];
    VisitNext(rest, keys - {k, k'}, k);
    VisitNext(rest + [k], keys - {k'}, k');
    assert keys - {k, k'} + {k} == keys - {k'} && keys - {k'} + {k'} == keys;
    VisitKey(rest, k);
    VisitKey(rest + [k], k');
  }

  lemma HeldPermutes<T(!new)>(m: map<string, T>, rest: seq<string>, k: string, k': string)
    requires forall i :: i in rest ==> i in m
    requires k in m && k' in m && Atoi(k).Some? && Atoi(k').Some?
    ensures multiset(Held(m, rest + [k'] + [k])) == multiset(Held(m, rest + [k] + [k']))
  {
    var o, o' := rest + [k'] + [k], rest + [k] + [k'];
    assert o[..|o| - 1] == rest + [k'] && o'[..|o'| - 1] == rest + [k];
    assert (rest + [k'])[..|rest|] == rest && (rest + [k])[..|rest|] == rest;
    assert Held(m, o) == Held(m, rest) + [m[k']] + [m[k]];
    assert Held(m, o') == Held(m, rest) + [m[k]] + [m[k']];
  }

  // ----- Round trip with the array form -----

  /** The indexed-object form of a list. */
  function Encode<T>(xs: seq<T>): map<string, T> {
    if xs == [] then map[] else Encode(xs[..|xs| - 1])[Itoa(|xs| - 1) := xs[|xs| - 1]]
  }

  ghost function Names(n: nat): seq<string> {
    seq(n, i => Itoa(i))
  }

  lemma NewName(n: nat)
    ensures Itoa(n) !in Names(n)
  {
    forall i | 0 <= i < n
      ensures Names(n)[i] != Itoa(n)
    {
      if Itoa(i) == Itoa(n) {
        ItoaInjective(i, n);
      }
    }
  }

  lemma {:induction false} EncodedNames<T>(xs: seq<T>)
    ensures IsOrder(Names(|xs|), Encode(xs).Keys)
  {
    if xs != [] {
      var n := |xs| - 1;
      EncodedNames(xs[..n]);
      NewName(n);
      VisitNext(Names(n), Encode(xs[..n]).Keys, Itoa(n));
      assert Names(|xs|) == Names(n) + [Itoa(n)];
    }
  }

  lemma {:induction false} Encoded<T>(xs: seq<T>, i: nat)
    requires i < |xs|
    ensures Itoa(i) in Encode(xs) && Encode(xs)[Itoa(i)] == xs[i]
  {
    var n := |xs| - 1;
    if i < n {
      Encoded(xs[..n], i);
      if Itoa(i) == Itoa(n) {
        ItoaInjective(i, n);
      }
    }
  }

  ghost function Indices(n: nat): seq<int> {
    seq(n, i => i)
  }

  lemma ParseNext(front: seq<string>, name: string, n: nat)
    requires Parsed(front) == Indices(n) && Atoi(name) == Some(n)
    ensures Parsed(front + [name]) == Indices(n + 1)
  {
    ParseKey(front, name);
    assert Indices(n + 1) == Indices(n) + [n];
  }

  lemma NextNames(n: nat)
    ensures Names(n + 1) == Names(n) + [Itoa(n)]
  {
  }

  lemma {:induction false} ParsedNames(n: nat)
    requires n <= MAX_INT + 1
    ensures Parsed(Names(n)) == Indices(n)
  {
    if n > 0 {
      ParsedNames(n - 1);
      NextNames(n - 1);
      AtoiInvertsItoa(n - 1);
      ParseNext(Names(n - 1), Itoa(n - 1), n - 1);
    }
  }

  /** Decoding the indexed form of a list returns the list, in every iteration order. */
  lemma RoundTrip<T>(xs: seq<T>, order: seq<string>)
    requires |xs| <= MAX_INT
    requires IsOrder(order, Encode(xs).Keys)
    ensures ByIndexKey(Encode(xs), order) == xs
  {
    EncodedNames(xs);
    forall i | 0 <= i < |xs|
      ensures Itoa(i) in Encode(xs) && Encode(xs)[Itoa(i)] == xs[i]
    {
      Encoded(xs, i);
    }
    NamedDecode(xs, Encode(xs), order);
  }

  lemma NamedDecode<T>(xs: seq<T>, m: map<string, T>, order: seq<string>)
    requires |xs| <= MAX_INT
    requires IsOrder(order, m.Keys) && IsOrder(Names(|xs|), m.Keys)
    requires forall i :: 0 <= i < |xs| ==> Itoa(i) in m && m[Itoa(i)] == xs[i]
    ensures ByIndexKey(m, order) == xs
  {
    var ns, idx := Indices(|xs|), Idx(order);
    NamesSort(|xs|, order, m.Keys);
    RunTraces(m, order, ns, idx);
    assert |ByIndexKey(m, order)| == |xs|;
    forall i | 0 <= i < |xs|
      ensures ByIndexKey(m, order)[i] == xs[i]
    {
      var k := idx[ns[i]];
      assert ns[i] == i && k in m.Keys && k in Names(|xs|);
      OnlyName(k, |xs|, i);
    }
  }

  lemma NamesSort(n: nat, order: seq<string>, keys: set<string>)
    requires n <= MAX_INT && IsOrder(order, keys) && IsOrder(Names(n), keys)
    ensures SortInts(Parsed(order)) == Indices(n)
  {
    ParsedNames(n);
    SameIndices(order, Names(n), keys);
    AscendingUnique(SortInts(Parsed(Names(n))), Indices(n));
  }

  /** Among the names of the first indices only one parses to a given index. */
  lemma OnlyName(k: string, n: nat, i: nat)
    requires n <= MAX_INT && k in Names(n) && Atoi(k) == Some(i)
    ensures k == Itoa(i)
  {
    var j :| 0 <= j < n && k == Itoa(j);
    AtoiInvertsItoa(j);
  }

  /** So the object form and the array form of a list decode to the same slice. */
  lemma FormsAgree<T>(xs: seq<T>, order: seq<string>)
    requires |xs| <= MAX_INT && IsFieldOrder(Object(Encode(xs)), order)
    ensures Decoded(Object(Encode(xs)), order) == Decoded(Array(xs), [])
  {
    RoundTrip(xs, order);
  }
}
