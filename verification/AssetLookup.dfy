/** What a caller of `GetAssetClassInfo` can rely on: transparency of the 100-key chunks, and the lookups. */
module AssetLookup {
  import opened Wrappers
  import opened Decimal
  import opened AssetTypes
  import opened AssetClassInfo
  import opened SteamAPI
  import opened Requests
  import opened Resolution
  import opened Merging
  import opened Chunking
  import opened PairAnswers

  // ----- The chunks of a call -----

  /** The chunks are cut from the key list without loss, repetition or reordering, and all but the last are full. */
  lemma ChunksCover(keys: seq<AssetClassKey>)
    ensures Flatten(Chunks(keys)) == keys
    ensures forall j :: 0 <= j < |Chunks(keys)| ==> 0 < |Chunks(keys)[j]| <= 100
    ensures forall j :: 0 <= j < |Chunks(keys)| - 1 ==> |Chunks(keys)[j]| == 100
  {
    ChunkPrefix(keys, |Chunks(keys)|);
    assert Chunks(keys)[..|Chunks(keys)|] == Chunks(keys);
    assert CHUNK_SIZE * |Chunks(keys)| >= |keys|;
    assert keys[..|keys|] == keys;
  }

  /** So every request of a call asks for between 1 and 100 classes. */
  lemma CountWithinCap(auth: map<string, string>, appID: int, keys: seq<AssetClassKey>, j: nat)
    requires IsAuth(auth) && j < |Chunks(keys)|
    ensures var count := Atoi(Get(Params(auth, appID, Chunks(keys)[j]), "class_count"));
            count == Some(|Chunks(keys)[j]|) && 1 <= count.value <= 100
  {
    ChunksCover(keys);
    RequestIs(auth, appID, Chunks(keys)[j]);
    AtoiInvertsItoa(|Chunks(keys)[j]|);
  }

  lemma {:induction false} ChunkPrefix(keys: seq<AssetClassKey>, j: nat)
    requires j <= |Chunks(keys)|
    ensures Flatten(Chunks(keys)[..j]) == keys[..Min(CHUNK_SIZE * j, |keys|)]
  {
    if j > 0 {
      ChunkPrefix(keys, j - 1);
      assert Chunks(keys)[..j][..j - 1] == Chunks(keys)[..j - 1];
    }
  }

  /** Any two keys from different chunks have different classes: what a caller can check. */
  ghost predicate ChunksApart(cs: seq<seq<AssetClassKey>>) {
    forall i, j, p, q :: 0 <= i < j < |cs| && 0 <= p < |cs[i]| && 0 <= q < |cs[j]| ==>
      cs[i][p].ClassID != cs[j][q].ClassID
  }

  lemma NoStraddleIff(cs: seq<seq<AssetClassKey>>)
    ensures NoStraddle(cs) <==> ChunksApart(cs)
  {
    forall i, c | 0 <= i < |cs|
      ensures InstancesOf(cs[i], c) != [] <==> exists p :: 0 <= p < |cs[i]| && cs[i][p].ClassID == c
    {
      InstancesSome(cs[i], c);
    }
    if NoStraddle(cs) {
      forall i, j, p, q | 0 <= i < j < |cs| && 0 <= p < |cs[i]| && 0 <= q < |cs[j]|
        ensures cs[i][p].ClassID != cs[j][q].ClassID
      {
        var c := cs[i][p].ClassID;
        assert InstancesOf(cs[i], c) != [];
        assert InstancesOf(cs[j], c) == [];
      }
    }
  }

  lemma ChunkKey(keys: seq<AssetClassKey>, j: nat, p: nat)
    requires j < |Chunks(keys)| && p < |Chunks(keys)[j]|
    ensures CHUNK_SIZE * j + p < |keys| && Chunks(keys)[j][p] == keys[CHUNK_SIZE * j + p]
    ensures p < CHUNK_SIZE
  {
  }

  /** Pairwise distinct classes never straddle. */
  lemma DistinctNeverStraddle(keys: seq<AssetClassKey>)
    requires DistinctClasses(keys)
    ensures NoStraddle(Chunks(keys))
  {
    var cs: seq<seq<AssetClassKey>> := Chunks(keys);
    forall i, j, p, q | 0 <= i < j < |cs| && 0 <= p < |cs[i]| && 0 <= q < |cs[j]|
      ensures cs[i][p].ClassID != cs[j][q].ClassID
    {
      ChunkKey(keys, i, p);
      ChunkKey(keys, j, q);
      assert CHUNK_SIZE * i + p < CHUNK_SIZE * j + q;
    }
    NoStraddleIff(cs);
  }

  // ----- Transparency of a call -----

  /** The remote end reads the key list from the parameters and answers class by class. */
  ghost predicate Serves(server: Server, answer: Answer) {
    forall params :: server(params) == Ok(Respond(answer, ReadKeys(params)))
  }

  /** Because no request loses anything, the rounds of a call are the answers for its chunks. */
  lemma CallRounds(rounds: seq<Round>, auth: map<string, string>, server: Server, answer: Answer, appID: int,
                   keys: seq<AssetClassKey>)
    requires IsAuth(auth) && Serves(server, answer)
    requires |rounds| == |Chunks(keys)| && Answers(rounds, Ok(auth), server, appID, Chunks(keys))
    ensures AreChunkRounds(rounds, answer, Chunks(keys))
  {
    ChunksCover(keys);
    var cs := Chunks(keys);
    forall j | 0 <= j < |cs|
      ensures rounds[j].keys == cs[j] && rounds[j].response == Respond(answer, cs[j])
    {
      ServedRound(rounds[j], auth, server, answer, appID, cs[j]);
    }
  }

  lemma ServedRound(round: Round, auth: map<string, string>, server: Server, answer: Answer, appID: int,
                    chunk: seq<AssetClassKey>)
    requires IsAuth(auth) && Serves(server, answer) && |chunk| <= MAX_INT
    requires IsRound(round, Ok(auth), server, appID, chunk)
    ensures round.keys == chunk && round.response == Respond(answer, chunk)
  {
    RequestLossless(auth, appID, chunk);
  }

  /** So is the round of one request for all keys. */
  lemma WholeCall(whole: seq<Round>, auth: map<string, string>, server: Server, answer: Answer, appID: int,
                  keys: seq<AssetClassKey>)
    requires IsAuth(auth) && Serves(server, answer) && |keys| <= MAX_INT
    requires |whole| == 1 && Answers(whole, Ok(auth), server, appID, [keys])
    ensures IsWholeRound(whole, answer, keys)
  {
    RequestLossless(auth, appID, keys);
  }

  /** A call with keys of pairwise distinct classes returns the map that a single request for all the keys
      would give, for every run of either. */
  lemma CallIsTransparent(rounds: seq<Round>, whole: seq<Round>, auth: map<string, string>, server: Server,
                          answer: Answer, appID: int, keys: seq<AssetClassKey>)
    requires IsAuth(auth) && Serves(server, answer) && NamesOwnClass(answer)
    requires UnderscoreFree(keys) && DistinctClasses(keys)
    requires Consistent(Respond(answer, keys), Table(keys), appID)
    requires |rounds| == |Chunks(keys)| && Answers(rounds, Ok(auth), server, appID, Chunks(keys))
    requires |whole| == 1 && Answers(whole, Ok(auth), server, appID, [keys])
    requires |keys| <= MAX_INT
    ensures MergeRounds(rounds, appID) == MergeRounds(whole, appID)
  {
    CallRounds(rounds, auth, server, answer, appID, keys);
    WholeCall(whole, auth, server, answer, appID, keys);
    ChunksCover(keys);
    DistinctNeverStraddle(keys);
    ChunkedIsWhole(answer, Chunks(keys), rounds, whole, appID);
  }

  /** Against a remote end that answers every pair under its composite key, so does a call with any
      underscore-free classes, repeated ones included. */
  lemma CompositeCallTransparent(rounds: seq<Round>, whole: seq<Round>, auth: map<string, string>, server: Server,
                                 entry: Entries, appID: int, keys: seq<AssetClassKey>)
    requires IsAuth(auth) && Serves(server, End(ByPair, entry)) && WellBehaved(entry)
    requires UnderscoreFree(keys)
    requires |rounds| == |Chunks(keys)| && Answers(rounds, Ok(auth), server, appID, Chunks(keys))
    requires |whole| == 1 && Answers(whole, Ok(auth), server, appID, [keys])
    requires |keys| <= MAX_INT
    ensures MergeRounds(rounds, appID) == MergeRounds(whole, appID)
  {
    CallRounds(rounds, auth, server, End(ByPair, entry), appID, keys);
    WholeCall(whole, auth, server, End(ByPair, entry), appID, keys);
    ChunksCover(keys);
    CompositeInvisible(entry, Chunks(keys), appID);
  }

  // ----- Lookups -----

  /** The key list of a well-formed call. */
  ghost predicate WellFormed(keys: seq<AssetClassKey>) {
    && UnderscoreFree(keys) && DistinctClasses(keys)
    && forall i :: 0 <= i < |keys| ==> keys[i].ClassID != "" && !IsSentinel(keys[i].ClassID)
  }

  /** The answer for a pair: the entries the remote end holds when the pair alone is asked of its class. */
  function AnswerFor(answer: Answer, k: AssetClassKey): Response {
    answer(k.ClassID, [k.InstanceID])
  }

  /** Answers stand under the class or the composite key, with inner IDs that are missing or right. */
  ghost predicate Faithful(answer: Answer, keys: seq<AssetClassKey>) {
    forall k, name :: k in keys && name in AnswerFor(answer, k) ==>
      NamesKey(name, k) && (AnswerFor(answer, k)[name].Some? ==> Matches(AnswerFor(answer, k)[name].value, k))
  }

  /** The remote end has a description for the pair. */
  ghost predicate Known(answer: Answer, k: AssetClassKey) {
    exists name :: name in AnswerFor(answer, k) && AnswerFor(answer, k)[name].Some?
  }

  /** The description is one that the remote end gave for the pair. */
  ghost predicate DescriptionOf(d: AssetDescription, answer: Answer, k: AssetClassKey, appID: int) {
    exists name, os ::
      && name in AnswerFor(answer, k) && AnswerFor(answer, k)[name].Some?
      && AreFieldOrders(AnswerFor(answer, k)[name].value, os)
      && d == Described(AnswerFor(answer, k)[name].value, appID, k, os)
  }

  lemma RequestedEntry(answer: Answer, keys: seq<AssetClassKey>, k: AssetClassKey, name: string)
    requires NamesOwnClass(answer) && WellFormed(keys) && Faithful(answer, keys) && k in keys
    requires name in AnswerFor(answer, k) && AnswerFor(answer, k)[name].Some?
    ensures Survives(name, Respond(answer, keys), Table(keys))
    ensures Respond(answer, keys)[name] == AnswerFor(answer, k)[name]
    ensures Resolve(name, AnswerFor(answer, k)[name].value, Table(keys)) == k
  {
    EntryNames(k, name);
    InstancesOnce(keys, k);
    NotSentinel(k, name);
    RespondHas(answer, keys, name);
    EntryResolves(keys, k, name, AnswerFor(answer, k)[name].value);
  }

  lemma NotSentinel(k: AssetClassKey, name: string)
    requires NamesKey(name, k) && !IsSentinel(k.ClassID)
    ensures !IsSentinel(name)
  {
    if name != k.ClassID {
      assert '_' == name[|k.ClassID|];
    }
  }

  lemma SurvivorRequested(answer: Answer, keys: seq<AssetClassKey>, name: string) returns (k: AssetClassKey)
    requires NamesOwnClass(answer) && WellFormed(keys) && Faithful(answer, keys)
    requires Survives(name, Respond(answer, keys), Table(keys))
    ensures k in keys && name in AnswerFor(answer, k)
    ensures Respond(answer, keys)[name] == AnswerFor(answer, k)[name]
    ensures Resolve(name, Respond(answer, keys)[name].value, Table(keys)) == k
  {
    RespondHas(answer, keys, name);
    InstancesSome(keys, Class(name));
    var i :| 0 <= i < |keys| && keys[i].ClassID == Class(name);
    k := keys[i];
    InstancesOnce(keys, k);
    RequestedEntry(answer, keys, k, name);
  }

  lemma ChunkInherits(answer: Answer, keys: seq<AssetClassKey>, j: nat)
    requires WellFormed(keys) && Faithful(answer, keys) && j < |Chunks(keys)|
    ensures WellFormed(Chunks(keys)[j]) && Faithful(answer, Chunks(keys)[j])
    ensures forall k :: k in Chunks(keys)[j] ==> k in keys
  {
    forall p | 0 <= p < |Chunks(keys)[j]|
      ensures Chunks(keys)[j][p] in keys
    {
      ChunkKey(keys, j, p);
    }
  }

  lemma KeyInChunk(keys: seq<AssetClassKey>, k: AssetClassKey) returns (j: nat)
    requires k in keys
    ensures j < |Chunks(keys)| && k in Chunks(keys)[j]
  {
    var i :| 0 <= i < |keys| && keys[i] == k;
    j := i / CHUNK_SIZE;
    ChunkAt(keys, j);
    assert Chunks(keys)[j][i % CHUNK_SIZE] == k;
  }

  /** Everything in the returned map was requested, and describes what it is stored as. */
  lemma FoundWasRequested(answer: Answer, keys: seq<AssetClassKey>, rounds: seq<Round>, appID: int, key: string)
    returns (k: AssetClassKey)
    requires NamesOwnClass(answer) && WellFormed(keys) && Faithful(answer, keys)
    requires AreChunkRounds(rounds, answer, Chunks(keys)) && key in MergeRounds(rounds, appID)
    ensures k in keys && key == k.Key(appID) && Known(answer, k)
    ensures DescriptionOf(MergeRounds(rounds, appID)[key], answer, k, appID)
  {
    var j, v := RoundsSource(rounds, appID, key);
    ChunkInherits(answer, keys, j);
    k := SurvivorRequested(answer, Chunks(keys)[j], v.name);
  }

  lemma KnownIsFound(answer: Answer, keys: seq<AssetClassKey>, rounds: seq<Round>, appID: int, k: AssetClassKey)
    requires NamesOwnClass(answer) && WellFormed(keys) && Faithful(answer, keys)
    requires AreChunkRounds(rounds, answer, Chunks(keys)) && k in keys && Known(answer, k)
    ensures k.Key(appID) in MergeRounds(rounds, appID)
  {
    var name :| name in AnswerFor(answer, k) && AnswerFor(answer, k)[name].Some?;
    var j := KeyInChunk(keys, k);
    ChunkInherits(answer, keys, j);
    RequestedEntry(answer, Chunks(keys)[j], k, name);
    RoundsHold(rounds, appID, k.Key(appID), j, name);
  }

  /** A caller who looks up a requested pair finds a description exactly when the remote end has one for it,
      and then finds such a one, whichever chunk it was requested in. */
  lemma CallerFinds(answer: Answer, keys: seq<AssetClassKey>, rounds: seq<Round>, appID: int, k: AssetClassKey)
    requires NamesOwnClass(answer) && WellFormed(keys) && Faithful(answer, keys)
    requires AreChunkRounds(rounds, answer, Chunks(keys)) && k in keys
    ensures k.Key(appID) in MergeRounds(rounds, appID) <==> Known(answer, k)
    ensures k.Key(appID) in MergeRounds(rounds, appID) ==>
              DescriptionOf(MergeRounds(rounds, appID)[k.Key(appID)], answer, k, appID)
  {
    if Known(answer, k) {
      KnownIsFound(answer, keys, rounds, appID, k);
    }
    if k.Key(appID) in MergeRounds(rounds, appID) {
      var k' := FoundWasRequested(answer, keys, rounds, appID, k.Key(appID));
      KeyInjective(appID, k.ClassID, k.InstanceID, appID, k'.ClassID, k'.InstanceID);
    }
  }
}
