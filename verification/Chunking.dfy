/** When splitting the key list into requests is invisible in the returned map. */
module Chunking {
  import opened Wrappers
  import opened Orders
  import opened AssetTypes
  import opened AssetClassInfo
  import opened Resolution
  import opened Merging

  // ----- A remote end that answers class by class -----

  /** What is known of each class, given the instances requested for it in order. */
  type Answer = (string, seq<string>) -> Response

  /** Entries for a class stand under response keys that name it. */
  ghost predicate NamesOwnClass(answer: Answer) {
    forall c, instances, name :: name in answer(c, instances) ==> Class(name) == c
  }

  /** The response to a key list: the success sentinel and the answers for the requested classes. */
  function Respond(answer: Answer, keys: seq<AssetClassKey>): Response {
    map["success" := None] +
    map i, name | 0 <= i < |keys| && name in answer(keys[i].ClassID, InstancesOf(keys, keys[i].ClassID)) &&
                  Class(name) == keys[i].ClassID ::
      name := answer(Class(name), InstancesOf(keys, Class(name)))[name]
  }

  lemma {:induction false} InstancesSome(keys: seq<AssetClassKey>, c: string)
    ensures InstancesOf(keys, c) != [] <==> exists i :: 0 <= i < |keys| && keys[i].ClassID == c
  {
    if keys != [] {
      var n := |keys| - 1;
      InstancesSome(keys[..n], c);
      if keys[n].ClassID != c && InstancesOf(keys[..n], c) != [] {
        var i :| 0 <= i < n && keys[..n][i].ClassID == c;
        assert keys[i].ClassID == c;
      }
    }
  }

  /** The response has an entry of this name exactly if its class was requested and the answer has one. */
  lemma RespondHas(answer: Answer, keys: seq<AssetClassKey>, name: string)
    requires NamesOwnClass(answer) && !IsSentinel(name)
    ensures var instances := InstancesOf(keys, Class(name));
            name in Respond(answer, keys) <==> instances != [] && name in answer(Class(name), instances)
    ensures name in Respond(answer, keys) ==>
              Respond(answer, keys)[name] == answer(Class(name), InstancesOf(keys, Class(name)))[name]
  {
    InstancesSome(keys, Class(name));
  }

  /** Two requests agree on an entry as soon as they request its class for the same instances. */
  lemma SameClassSameEntry(answer: Answer, keys: seq<AssetClassKey>, keys': seq<AssetClassKey>, name: string)
    requires NamesOwnClass(answer) && UnderscoreFree(keys) && UnderscoreFree(keys')
    requires InstancesOf(keys, Class(name)) == InstancesOf(keys', Class(name))
    ensures var r, r' := Respond(answer, keys), Respond(answer, keys');
            Survives(name, r, Table(keys)) == Survives(name, r', Table(keys'))
            && (Survives(name, r, Table(keys)) ==>
                  r[name] == r'[name]
                  && Resolve(name, r[name].value, Table(keys)) == Resolve(name, r[name].value, Table(keys')))
  {
    if !IsSentinel(name) {
      RespondHas(answer, keys, name);
      RespondHas(answer, keys', name);
      TableByClass(keys, name);
      TableByClass(keys', name);
    }
  }

  // ----- Chunks -----

  function Flatten(cs: seq<seq<AssetClassKey>>): seq<AssetClassKey> {
    if cs == [] then [] else Flatten(cs[..|cs| - 1]) + cs[|cs| - 1]
  }

  /** No class is requested in two different chunks. */
  ghost predicate NoStraddle(cs: seq<seq<AssetClassKey>>) {
    forall i, j, c :: 0 <= i < j < |cs| ==> InstancesOf(cs[i], c) == [] || InstancesOf(cs[j], c) == []
  }

  lemma {:induction false} InstancesJoined(a: seq<AssetClassKey>, b: seq<AssetClassKey>, c: string)
    ensures InstancesOf(a + b, c) == InstancesOf(a, c) + InstancesOf(b, c)
  {
    if b == [] {
      assert a + b == a;
    } else {
      var n := |b| - 1;
      InstancesJoined(a, b[..n], c);
      assert (a + b)[..|a + b| - 1] == a + b[..n];
    }
  }

  lemma {:induction false} InstancesNowhere(cs: seq<seq<AssetClassKey>>, c: string)
    requires forall j :: 0 <= j < |cs| ==> InstancesOf(cs[j], c) == []
    ensures InstancesOf(Flatten(cs), c) == []
  {
    if cs != [] {
      var n := |cs| - 1;
      InstancesNowhere(cs[..n], c);
      InstancesJoined(Flatten(cs[..n]), cs[n], c);
    }
  }

  /** A chunk sees all that the whole list requests of its classes. */
  lemma {:induction false} ChunkSeesClass(cs: seq<seq<AssetClassKey>>, j: nat, c: string)
    requires NoStraddle(cs) && j < |cs| && InstancesOf(cs[j], c) != []
    ensures InstancesOf(Flatten(cs), c) == InstancesOf(cs[j], c)
  {
    var n := |cs| - 1;
    InstancesJoined(Flatten(cs[..n]), cs[n], c);
    if j == n {
      InstancesNowhere(cs[..n], c);
    } else {
      assert InstancesOf(cs[n], c) == [];
      ChunkSeesClass(cs[..n], j, c);
    }
  }

  lemma {:induction false} FlattenUnderscores(cs: seq<seq<AssetClassKey>>, j: nat)
    requires UnderscoreFree(Flatten(cs)) && j < |cs|
    ensures UnderscoreFree(cs[j])
  {
    var n := |cs| - 1;
    var front, last := Flatten(cs[..n]), cs[n];
    assert forall i :: 0 <= i < |front| ==> (front + last)[i] == front[i];
    assert forall i :: 0 <= i < |last| ==> (front + last)[|front| + i] == last[i];
    if j < n {
      FlattenUnderscores(cs[..n], j);
    }
  }

  /** These rounds request the chunks of a list from a remote end that answers class by class. */
  ghost predicate AreChunkRounds(rounds: seq<Round>, answer: Answer, cs: seq<seq<AssetClassKey>>) {
    && |rounds| == |cs| && AreRounds(rounds)
    && forall j :: 0 <= j < |cs| ==> rounds[j].keys == cs[j] && rounds[j].response == Respond(answer, cs[j])
  }

  /** The round stores its entry of this name under this key. */
  ghost predicate StoresIn(round: Round, name: string, key: string, appID: int) {
    Stores(name, key, round.response, Table(round.keys), appID)
  }

  /** The round's visit is where this description under this key comes from. */
  ghost predicate ComesFrom(round: Round, v: Visit, key: string, d: AssetDescription, appID: int) {
    && IsVisit(v, round.response) && StoresIn(round, v.name, key, appID)
    && d == Contribution(v, round.response, Table(round.keys), appID)
  }

  /** One round more: a key comes from it, or is as it was before and not stored by it. */
  lemma RoundReads(rounds: seq<Round>, appID: int, key: string) returns (v: Visit)
    requires AreRounds(rounds) && rounds != []
    ensures var m, out := MergeRounds(rounds, appID), MergeRounds(rounds[..|rounds| - 1], appID);
            var last := rounds[|rounds| - 1];
            || (key in m && ComesFrom(last, v, key, m[key], appID))
            || ((forall name :: !StoresIn(last, name, key, appID))
                && (key in m <==> key in out) && (key in m ==> m[key] == out[key]))
  {
    var out, last := MergeRounds(rounds[..|rounds| - 1], appID), rounds[|rounds| - 1];
    var i := MergeReads(out, last.walk, last.response, Table(last.keys), appID, key);
    StoredEverywhere(last.walk, last.response, Table(last.keys), appID, key);
    v := if i >= 0 then last.walk[i] else Visit("", FieldOrders([], [], [], []));
  }

  /** A key of the map left by all rounds comes from some round. */
  lemma {:induction false} RoundsSource(rounds: seq<Round>, appID: int, key: string) returns (j: int, v: Visit)
    requires AreRounds(rounds) && key in MergeRounds(rounds, appID)
    ensures 0 <= j < |rounds| && ComesFrom(rounds[j], v, key, MergeRounds(rounds, appID)[key], appID)
  {
    j := |rounds| - 1;
    v := RoundReads(rounds, appID, key);
    if !ComesFrom(rounds[j], v, key, MergeRounds(rounds, appID)[key], appID) {
      j, v := RoundsSource(rounds[..j], appID, key);
    }
  }

  /** A key stored in any round is in that map. */
  lemma {:induction false} RoundsHold(rounds: seq<Round>, appID: int, key: string, j: nat, name: string)
    requires AreRounds(rounds) && j < |rounds| && StoresIn(rounds[j], name, key, appID)
    ensures key in MergeRounds(rounds, appID)
  {
    var v := RoundReads(rounds, appID, key);
    if j < |rounds| - 1 {
      RoundsHold(rounds[..|rounds| - 1], appID, key, j, name);
    }
  }

  /** An entry with IDs of its own, in the response to any chunk, is in that map under these IDs, whatever response
      key it came under and whatever the chunk asked for. */
  lemma OwnIDsInMap(rounds: seq<Round>, appID: int, j: nat, name: string)
    requires AreRounds(rounds) && j < |rounds|
    requires name in rounds[j].response && name != "success" && name != "error" && rounds[j].response[name].Some?
    requires rounds[j].response[name].value.ClassID != "" && rounds[j].response[name].value.InstanceID != ""
    ensures var w := rounds[j].response[name].value;
            AssetDescriptionKey(appID, w.ClassID, w.InstanceID) in MergeRounds(rounds, appID)
  {
    var w := rounds[j].response[name].value;
    OwnIDsStored(rounds[j].response, Table(rounds[j].keys), appID, name);
    RoundsHold(rounds, appID, AssetDescriptionKey(appID, w.ClassID, w.InstanceID), j, name);
  }

  /** Of several rounds that store a key the last one decides it. */
  lemma {:induction false} LastRoundDecides(rounds: seq<Round>, appID: int, key: string, j: nat, name: string)
    returns (v: Visit)
    requires AreRounds(rounds) && j < |rounds| && StoresIn(rounds[j], name, key, appID)
    requires forall i, n :: j < i < |rounds| ==> !StoresIn(rounds[i], n, key, appID)
    ensures key in MergeRounds(rounds, appID)
    ensures ComesFrom(rounds[j], v, key, MergeRounds(rounds, appID)[key], appID)
  {
    v := RoundReads(rounds, appID, key);
    if j < |rounds| - 1 {
      v := LastRoundDecides(rounds[..|rounds| - 1], appID, key, j, name);
    }
  }

  // ----- Chunking is invisible -----

  lemma SentinelsNeverSurvive(name: string, r: Response, table: map<string, string>)
    requires Survives(name, r, table)
    ensures !IsSentinel(name)
  {
  }

  /** Whatever a chunk stores, the single request for the whole list stores as well, ... */
  lemma ChunkEntryInWhole(answer: Answer, cs: seq<seq<AssetClassKey>>, j: nat, name: string)
    requires NamesOwnClass(answer) && UnderscoreFree(Flatten(cs)) && NoStraddle(cs) && j < |cs|
    requires Survives(name, Respond(answer, cs[j]), Table(cs[j]))
    ensures InstancesOf(cs[j], Class(name)) == InstancesOf(Flatten(cs), Class(name))
  {
    SentinelsNeverSurvive(name, Respond(answer, cs[j]), Table(cs[j]));
    RespondHas(answer, cs[j], name);
    ChunkSeesClass(cs, j, Class(name));
  }

  /** ... and the other way round, for one chunk. */
  lemma WholeEntryInChunk(answer: Answer, cs: seq<seq<AssetClassKey>>, name: string) returns (j: nat)
    requires NamesOwnClass(answer) && UnderscoreFree(Flatten(cs)) && NoStraddle(cs)
    requires Survives(name, Respond(answer, Flatten(cs)), Table(Flatten(cs)))
    ensures j < |cs| && InstancesOf(cs[j], Class(name)) == InstancesOf(Flatten(cs), Class(name))
  {
    SentinelsNeverSurvive(name, Respond(answer, Flatten(cs)), Table(Flatten(cs)));
    RespondHas(answer, Flatten(cs), name);
    if forall i :: 0 <= i < |cs| ==> InstancesOf(cs[i], Class(name)) == [] {
      InstancesNowhere(cs, Class(name));
      assert false;
    }
    j :| 0 <= j < |cs| && InstancesOf(cs[j], Class(name)) != [];
    ChunkSeesClass(cs, j, Class(name));
  }

  /** A visit carries over between requests that agree on the visited class. */
  lemma VisitCarriesOver(answer: Answer, round: Round, round': Round, v: Visit, key: string, d: AssetDescription,
                         appID: int)
    requires NamesOwnClass(answer) && UnderscoreFree(round.keys) && UnderscoreFree(round'.keys)
    requires round.response == Respond(answer, round.keys) && round'.response == Respond(answer, round'.keys)
    requires ComesFrom(round, v, key, d, appID)
    requires InstancesOf(round.keys, Class(v.name)) == InstancesOf(round'.keys, Class(v.name))
    ensures ComesFrom(round', v, key, d, appID)
  {
    SameClassSameEntry(answer, round.keys, round'.keys, v.name);
  }

  /** The rounds of requesting the whole list at once. */
  ghost predicate IsWholeRound(whole: seq<Round>, answer: Answer, keys: seq<AssetClassKey>) {
    AreChunkRounds(whole, answer, [keys])
  }

  lemma SameSource(whole: Round, v: Visit, v': Visit, key: string, d: AssetDescription, d': AssetDescription,
                   appID: int)
    requires Consistent(whole.response, Table(whole.keys), appID)
    requires ComesFrom(whole, v, key, d, appID) && ComesFrom(whole, v', key, d', appID)
    ensures d == d'
  {
  }

  /** With no class straddling chunks and a consistent response, requesting in chunks returns the very map
      that one request for everything would, in whatever order each response is visited. */
  lemma ChunkedIsWhole(answer: Answer, cs: seq<seq<AssetClassKey>>, rounds: seq<Round>, whole: seq<Round>, appID: int)
    requires NamesOwnClass(answer) && UnderscoreFree(Flatten(cs)) && NoStraddle(cs)
    requires Consistent(Respond(answer, Flatten(cs)), Table(Flatten(cs)), appID)
    requires AreChunkRounds(rounds, answer, cs) && IsWholeRound(whole, answer, Flatten(cs))
    ensures MergeRounds(rounds, appID) == MergeRounds(whole, appID)
  {
    var m, w := MergeRounds(rounds, appID), MergeRounds(whole, appID);
    forall key
      ensures key in m <==> key in w
      ensures key in m ==> m[key] == w[key]
    {
      if key in m {
        InBoth(answer, cs, rounds, whole, appID, key);
      }
      if key in w {
        var i, v := RoundsSource(whole, appID, key);
        var j := WholeEntryInChunk(answer, cs, v.name);
        FlattenUnderscores(cs, j);
        VisitCarriesOver(answer, whole[0], rounds[j], v, key, w[key], appID);
        RoundsHold(rounds, appID, key, j, v.name);
      }
    }
  }

  lemma InBoth(answer: Answer, cs: seq<seq<AssetClassKey>>, rounds: seq<Round>, whole: seq<Round>, appID: int,
               key: string)
    requires NamesOwnClass(answer) && UnderscoreFree(Flatten(cs)) && NoStraddle(cs)
    requires Consistent(Respond(answer, Flatten(cs)), Table(Flatten(cs)), appID)
    requires AreChunkRounds(rounds, answer, cs) && IsWholeRound(whole, answer, Flatten(cs))
    requires key in MergeRounds(rounds, appID)
    ensures key in MergeRounds(whole, appID)
    ensures MergeRounds(rounds, appID)[key] == MergeRounds(whole, appID)[key]
  {
    var d := MergeRounds(rounds, appID)[key];
    var j, v := RoundsSource(rounds, appID, key);
    CarriesToWhole(answer, cs, j, rounds[j], whole[0], v, key, d, appID);
    HoldsAs(whole, v, key, d, appID);
  }

  lemma CarriesToWhole(answer: Answer, cs: seq<seq<AssetClassKey>>, j: nat, round: Round, whole: Round, v: Visit,
                       key: string, d: AssetDescription, appID: int)
    requires NamesOwnClass(answer) && UnderscoreFree(Flatten(cs)) && NoStraddle(cs) && j < |cs|
    requires round.keys == cs[j] && round.response == Respond(answer, cs[j])
    requires whole.keys == Flatten(cs) && whole.response == Respond(answer, Flatten(cs))
    requires ComesFrom(round, v, key, d, appID)
    ensures ComesFrom(whole, v, key, d, appID)
  {
    ChunkEntryInWhole(answer, cs, j, v.name);
    FlattenUnderscores(cs, j);
    VisitCarriesOver(answer, round, whole, v, key, d, appID);
  }

  /** A consistent single round holds the description that any of its visits contributes. */
  lemma HoldsAs(whole: seq<Round>, v: Visit, key: string, d: AssetDescription, appID: int)
    requires AreRounds(whole) && |whole| == 1
    requires Consistent(whole[0].response, Table(whole[0].keys), appID)
    requires ComesFrom(whole[0], v, key, d, appID)
    ensures key in MergeRounds(whole, appID) && MergeRounds(whole, appID)[key] == d
  {
    RoundsHold(whole, appID, key, 0, v.name);
    var i, v' := RoundsSource(whole, appID, key);
    SameSource(whole[0], v, v', key, d, MergeRounds(whole, appID)[key], appID);
  }

  /** Chunked and whole requests return one and the same map in every run. */
  ghost predicate AlwaysSame(answer: Answer, cs: seq<seq<AssetClassKey>>, appID: int) {
    forall rounds, whole :: AreChunkRounds(rounds, answer, cs) && IsWholeRound(whole, answer, Flatten(cs)) ==>
      MergeRounds(rounds, appID) == MergeRounds(whole, appID)
  }

  lemma {:induction false} SomeRounds(answer: Answer, cs: seq<seq<AssetClassKey>>) returns (rounds: seq<Round>)
    ensures AreChunkRounds(rounds, answer, cs)
  {
    if cs == [] {
      rounds := [];
    } else {
      var n := |cs| - 1;
      rounds := SomeRounds(answer, cs[..n]);
      var round := SomeRound(answer, cs[n]);
      RoundMore(answer, rounds, cs[..n], round);
      assert cs == cs[..n] + [cs[n]];
      rounds := rounds + [round];
    }
  }

  lemma SomeRound(answer: Answer, keys: seq<AssetClassKey>) returns (round: Round)
    ensures round.keys == keys && round.response == Respond(answer, keys) && IsWalk(round.walk, round.response)
  {
    var r := Respond(answer, keys);
    var order := SomeOrder(r.Keys);
    var walk := SomeWalk(order, r);
    round := Round(keys, r, walk);
  }

  lemma RoundMore(answer: Answer, rounds: seq<Round>, cs: seq<seq<AssetClassKey>>, round: Round)
    requires AreChunkRounds(rounds, answer, cs)
    requires round.response == Respond(answer, round.keys) && IsWalk(round.walk, round.response)
    ensures AreChunkRounds(rounds + [round], answer, cs + [round.keys])
  {
  }

  /** For a list whose classes do not straddle, chunking is invisible exactly when the response to the whole
      list is consistent. */
  lemma AlwaysSameIff(answer: Answer, cs: seq<seq<AssetClassKey>>, appID: int)
    requires NamesOwnClass(answer) && UnderscoreFree(Flatten(cs)) && NoStraddle(cs)
    ensures AlwaysSame(answer, cs, appID)
       <==> Consistent(Respond(answer, Flatten(cs)), Table(Flatten(cs)), appID)
  {
    var keys := Flatten(cs);
    if Consistent(Respond(answer, keys), Table(keys), appID) {
      forall rounds, whole | AreChunkRounds(rounds, answer, cs) && IsWholeRound(whole, answer, keys)
        ensures MergeRounds(rounds, appID) == MergeRounds(whole, appID)
      {
        ChunkedIsWhole(answer, cs, rounds, whole, appID);
      }
    }
    if AlwaysSame(answer, cs, appID) {
      AlwaysSameConsistent(answer, cs, appID);
    }
  }

  lemma AlwaysSameConsistent(answer: Answer, cs: seq<seq<AssetClassKey>>, appID: int)
    requires AlwaysSame(answer, cs, appID)
    ensures Consistent(Respond(answer, Flatten(cs)), Table(Flatten(cs)), appID)
  {
    var keys := Flatten(cs);
    var r, table := Respond(answer, keys), Table(keys);
    var rounds := SomeRounds(answer, cs);
    var m := MergeRounds(rounds, appID);
    forall walk | IsWalk(walk, r)
      ensures Merge(map[], walk, r, table, appID) == m
    {
      WholeMerge(answer, keys, walk, appID);
    }
    SameMergesConsistent(r, table, appID);
  }

  lemma WholeMerge(answer: Answer, keys: seq<AssetClassKey>, walk: seq<Visit>, appID: int)
    requires IsWalk(walk, Respond(answer, keys))
    ensures IsWholeRound([Round(keys, Respond(answer, keys), walk)], answer, keys)
    ensures MergeRounds([Round(keys, Respond(answer, keys), walk)], appID)
         == Merge(map[], walk, Respond(answer, keys), Table(keys), appID)
  {
    var whole := [Round(keys, Respond(answer, keys), walk)];
    assert whole[..0] == [];
  }
}
