/** Chunking against a remote end that answers every requested pair on its own. */
module PairAnswers {
  import opened Wrappers
  import opened Strings
  import opened AssetTypes
  import opened AssetClassInfo
  import opened Resolution
  import opened Consistency
  import opened Chunking

  /** What the remote end has for each pair, if anything. */
  type Entries = AssetClassKey -> Option<Wire>

  /** Inner IDs are missing or those of the pair, and no indexed field is ambiguous. */
  ghost predicate WellBehaved(entry: Entries) {
    forall k :: entry(k).Some? ==> Matches(entry(k).value, k) && FieldsAgree(entry(k).value)
  }

  /** The two ways in which entries are named in a response: by pair, or by class. */
  datatype Naming = ByPair | ByClass

  function NameOf(naming: Naming, k: AssetClassKey): string {
    if naming.ByClass? then k.ClassID else k.ClassID + "_" + k.InstanceID
  }

  function Last(instances: seq<string>): string
    requires instances != []
  {
    instances[|instances| - 1]
  }

  /** The remote end as an answer class by class. A response has room for one entry under a bare class: it
      goes to the pair requested last. */
  function End(naming: Naming, entry: Entries): Answer {
    (c: string, instances: seq<string>) =>
      if '_' in c then map[]
      else if naming.ByClass? then
        if instances == [] || entry(AssetClassKey(c, Last(instances))).None? then map[]
        else map[c := entry(AssetClassKey(c, Last(instances)))]
      else
        map name | name in (set i | i in instances && entry(AssetClassKey(c, i)).Some? :: c + "_" + i) ::
          entry(AssetClassKey(c, Cut(name, '_').1))
  }

  lemma EndNames(naming: Naming, entry: Entries)
    ensures NamesOwnClass(End(naming, entry))
  {
    forall c, instances, name | name in End(naming, entry)(c, instances)
      ensures Class(name) == c
    {
      if naming.ByClass? {
        CutAbsent(c, '_');
      } else {
        var i :| i in instances && name == c + "_" + i;
        CutJoined(c, '_', i);
      }
    }
  }

  /** The pairs whose entries a request brings into the map: under composite keys all, under bare keys the
      last of each class. */
  ghost predicate Brings(naming: Naming, entry: Entries, keys: seq<AssetClassKey>, k: AssetClassKey) {
    && k in keys && entry(k).Some? && k.ClassID != ""
    && (naming.ByClass? ==>
          && !IsSentinel(k.ClassID)
          && InstancesOf(keys, k.ClassID) != [] && k.InstanceID == Last(InstancesOf(keys, k.ClassID)))
  }

  /** The response holds the pair's entry under its name, and it resolves to the pair. */
  ghost predicate HoldsPair(naming: Naming, entry: Entries, keys: seq<AssetClassKey>, k: AssetClassKey) {
    var r, name := Respond(End(naming, entry), keys), NameOf(naming, k);
    Survives(name, r, Table(keys)) && r[name] == entry(k) && entry(k).Some?
    && Resolve(name, entry(k).value, Table(keys)) == k
  }

  lemma BareResolves(keys: seq<AssetClassKey>, k: AssetClassKey, w: Wire)
    requires UnderscoreFree(keys) && k in keys && Matches(w, k)
    requires InstancesOf(keys, k.ClassID) != [] && k.InstanceID == Last(InstancesOf(keys, k.ClassID))
    ensures Resolve(k.ClassID, w, Table(keys)) == k
  {
    CutAbsent(k.ClassID, '_');
    TableByClass(keys, k.ClassID);
  }

  lemma BroughtIsHeld(naming: Naming, entry: Entries, keys: seq<AssetClassKey>, k: AssetClassKey)
    requires WellBehaved(entry) && UnderscoreFree(keys) && Brings(naming, entry, keys, k)
    ensures HoldsPair(naming, entry, keys, k)
  {
    InstancesMember(keys, k.ClassID, k.InstanceID);
    if naming.ByClass? {
      BareIsHeld(entry, keys, k);
    } else {
      CompositeIsHeld(entry, keys, k);
    }
  }

  lemma BareIsHeld(entry: Entries, keys: seq<AssetClassKey>, k: AssetClassKey)
    requires WellBehaved(entry) && UnderscoreFree(keys) && Brings(ByClass, entry, keys, k)
    ensures HoldsPair(ByClass, entry, keys, k)
  {
    EndNames(ByClass, entry);
    CutAbsent(k.ClassID, '_');
    RespondHas(End(ByClass, entry), keys, k.ClassID);
    BareResolves(keys, k, entry(k).value);
  }

  lemma CompositeIsHeld(entry: Entries, keys: seq<AssetClassKey>, k: AssetClassKey)
    requires WellBehaved(entry) && UnderscoreFree(keys) && Brings(ByPair, entry, keys, k)
    requires k.InstanceID in InstancesOf(keys, k.ClassID)
    ensures HoldsPair(ByPair, entry, keys, k)
  {
    var name := k.ClassID + "_" + k.InstanceID;
    EndNames(ByPair, entry);
    CutJoined(k.ClassID, '_', k.InstanceID);
    assert '_' in name && !IsSentinel(name);
    RespondHas(End(ByPair, entry), keys, name);
    CompositeResolves(keys, k, entry(k).value);
  }

  lemma HeldIsBrought(naming: Naming, entry: Entries, keys: seq<AssetClassKey>, name: string)
    returns (k: AssetClassKey)
    requires WellBehaved(entry) && UnderscoreFree(keys)
    requires Survives(name, Respond(End(naming, entry), keys), Table(keys))
    ensures Brings(naming, entry, keys, k) && HoldsPair(naming, entry, keys, k) && name == NameOf(naming, k)
  {
    var c := Class(name);
    var instances := InstancesOf(keys, c);
    EndNames(naming, entry);
    SentinelsNeverSurvive(name, Respond(End(naming, entry), keys), Table(keys));
    RespondHas(End(naming, entry), keys, name);
    if naming.ByClass? {
      k := AssetClassKey(c, Last(instances));
      InstancesMember(keys, c, Last(instances));
      BareResolves(keys, k, entry(k).value);
    } else {
      var i :| i in instances && entry(AssetClassKey(c, i)).Some? && name == c + "_" + i;
      k := AssetClassKey(c, i);
      InstancesMember(keys, c, i);
      CutJoined(c, '_', i);
      CompositeResolves(keys, k, entry(k).value);
    }
  }

  // ----- The map after all rounds -----

  /** Some chunk brings the pair's entry. */
  ghost predicate BringsSomewhere(naming: Naming, entry: Entries, cs: seq<seq<AssetClassKey>>, k: AssetClassKey) {
    exists j :: 0 <= j < |cs| && Brings(naming, entry, cs[j], k)
  }

  /** The description is the pair's entry, its fields read in some order. */
  ghost predicate IsEntry(d: AssetDescription, entry: Entries, k: AssetClassKey, appID: int) {
    entry(k).Some? && exists os :: AreFieldOrders(entry(k).value, os) && d == Described(entry(k).value, appID, k, os)
  }

  lemma MapBrought(naming: Naming, entry: Entries, cs: seq<seq<AssetClassKey>>, rounds: seq<Round>, appID: int,
                   key: string) returns (k: AssetClassKey)
    requires WellBehaved(entry) && UnderscoreFree(Flatten(cs))
    requires AreChunkRounds(rounds, End(naming, entry), cs) && key in MergeRounds(rounds, appID)
    ensures BringsSomewhere(naming, entry, cs, k) && key == k.Key(appID)
    ensures IsEntry(MergeRounds(rounds, appID)[key], entry, k, appID)
  {
    var j, v := RoundsSource(rounds, appID, key);
    FlattenUnderscores(cs, j);
    k := HeldIsBrought(naming, entry, cs[j], v.name);
  }

  lemma BroughtIsInMap(naming: Naming, entry: Entries, cs: seq<seq<AssetClassKey>>, rounds: seq<Round>, appID: int,
                       k: AssetClassKey)
    requires WellBehaved(entry) && UnderscoreFree(Flatten(cs))
    requires AreChunkRounds(rounds, End(naming, entry), cs) && BringsSomewhere(naming, entry, cs, k)
    ensures k.Key(appID) in MergeRounds(rounds, appID)
  {
    var j :| 0 <= j < |cs| && Brings(naming, entry, cs[j], k);
    FlattenUnderscores(cs, j);
    BroughtIsHeld(naming, entry, cs[j], k);
    RoundsHold(rounds, appID, k.Key(appID), j, NameOf(naming, k));
  }

  lemma {:induction false} FlattenHas(cs: seq<seq<AssetClassKey>>, k: AssetClassKey)
    ensures k in Flatten(cs) <==> exists j :: 0 <= j < |cs| && k in cs[j]
  {
    if cs != [] {
      var n := |cs| - 1;
      FlattenHas(cs[..n], k);
      if j :| 0 <= j < |cs| && k in cs[j] && j < n {
        assert cs[..n][j] == cs[j];
      }
    }
  }

  lemma EntryUnique(d: AssetDescription, d': AssetDescription, entry: Entries, k: AssetClassKey, appID: int)
    requires WellBehaved(entry) && IsEntry(d, entry, k, appID) && IsEntry(d', entry, k, appID)
    ensures d == d'
  {
    var os :| AreFieldOrders(entry(k).value, os) && d == Described(entry(k).value, appID, k, os);
    var os' :| AreFieldOrders(entry(k).value, os') && d' == Described(entry(k).value, appID, k, os');
    DescribedOrderFree(entry(k).value, appID, k, os, os');
  }

  lemma BroughtPlain(naming: Naming, entry: Entries, cs: seq<seq<AssetClassKey>>, k: AssetClassKey)
    requires UnderscoreFree(Flatten(cs)) && BringsSomewhere(naming, entry, cs, k)
    ensures '_' !in k.ClassID
  {
    var j :| 0 <= j < |cs| && Brings(naming, entry, cs[j], k);
    FlattenUnderscores(cs, j);
  }

  /** What the first list of chunks brings, the second does as well. */
  ghost predicate BringsNoMore(naming: Naming, entry: Entries, cs: seq<seq<AssetClassKey>>,
                               cs': seq<seq<AssetClassKey>>) {
    forall k :: BringsSomewhere(naming, entry, cs, k) ==> BringsSomewhere(naming, entry, cs', k)
  }

  ghost predicate Within(m: map<string, AssetDescription>, m': map<string, AssetDescription>) {
    forall key :: key in m ==> key in m' && m[key] == m'[key]
  }

  lemma EntryInBoth(naming: Naming, entry: Entries, cs: seq<seq<AssetClassKey>>, cs': seq<seq<AssetClassKey>>,
                    rounds: seq<Round>, rounds': seq<Round>, appID: int, key: string)
    requires WellBehaved(entry) && UnderscoreFree(Flatten(cs)) && UnderscoreFree(Flatten(cs'))
    requires AreChunkRounds(rounds, End(naming, entry), cs) && AreChunkRounds(rounds', End(naming, entry), cs')
    requires BringsNoMore(naming, entry, cs, cs') && key in MergeRounds(rounds, appID)
    ensures key in MergeRounds(rounds', appID)
    ensures MergeRounds(rounds, appID)[key] == MergeRounds(rounds', appID)[key]
  {
    var k := MapBrought(naming, entry, cs, rounds, appID, key);
    BroughtIsInMap(naming, entry, cs', rounds', appID, k);
    var k' := MapBrought(naming, entry, cs', rounds', appID, key);
    BroughtPlain(naming, entry, cs, k);
    BroughtPlain(naming, entry, cs', k');
    KeyInjective(appID, k.ClassID, k.InstanceID, appID, k'.ClassID, k'.InstanceID);
    EntryUnique(MergeRounds(rounds, appID)[key], MergeRounds(rounds', appID)[key], entry, k, appID);
  }

  lemma MapWithin(naming: Naming, entry: Entries, cs: seq<seq<AssetClassKey>>, cs': seq<seq<AssetClassKey>>,
                  rounds: seq<Round>, rounds': seq<Round>, appID: int)
    requires WellBehaved(entry) && UnderscoreFree(Flatten(cs)) && UnderscoreFree(Flatten(cs'))
    requires AreChunkRounds(rounds, End(naming, entry), cs) && AreChunkRounds(rounds', End(naming, entry), cs')
    requires BringsNoMore(naming, entry, cs, cs')
    ensures Within(MergeRounds(rounds, appID), MergeRounds(rounds', appID))
  {
    forall key | key in MergeRounds(rounds, appID)
      ensures key in MergeRounds(rounds', appID)
      ensures MergeRounds(rounds, appID)[key] == MergeRounds(rounds', appID)[key]
    {
      EntryInBoth(naming, entry, cs, cs', rounds, rounds', appID, key);
    }
  }

  lemma WithinEachOther(m: map<string, AssetDescription>, m': map<string, AssetDescription>)
    requires Within(m, m') && Within(m', m)
    ensures m == m'
  {
  }

  lemma SamePairsSameMap(naming: Naming, entry: Entries, cs: seq<seq<AssetClassKey>>, appID: int)
    requires WellBehaved(entry) && UnderscoreFree(Flatten(cs))
    requires BringsNoMore(naming, entry, cs, [Flatten(cs)]) && BringsNoMore(naming, entry, [Flatten(cs)], cs)
    ensures AlwaysSame(End(naming, entry), cs, appID)
  {
    var answer, keys := End(naming, entry), Flatten(cs);
    FlattenOne(keys);
    forall rounds, whole | AreChunkRounds(rounds, answer, cs) && IsWholeRound(whole, answer, keys)
      ensures MergeRounds(rounds, appID) == MergeRounds(whole, appID)
    {
      MapWithin(naming, entry, cs, [keys], rounds, whole, appID);
      MapWithin(naming, entry, [keys], cs, whole, rounds, appID);
      WithinEachOther(MergeRounds(rounds, appID), MergeRounds(whole, appID));
    }
  }

  lemma FlattenOne(keys: seq<AssetClassKey>)
    ensures Flatten([keys]) == keys
  {
    assert [keys][..0] == [];
  }

  lemma SomeWholeRound(answer: Answer, keys: seq<AssetClassKey>) returns (whole: Round)
    ensures IsWholeRound([whole], answer, keys)
  {
    var rounds := SomeRounds(answer, [keys]);
    whole := rounds[0];
    assert rounds == [whole];
  }

  lemma NotAlwaysSame(answer: Answer, cs: seq<seq<AssetClassKey>>, rounds: seq<Round>, whole: Round, appID: int,
                      key: string)
    requires AreChunkRounds(rounds, answer, cs) && IsWholeRound([whole], answer, Flatten(cs))
    requires key in MergeRounds(rounds, appID) && key !in MergeRounds([whole], appID)
    ensures !AlwaysSame(answer, cs, appID)
  {
  }

  // ----- Composite keys -----

  /** Under composite keys chunking never shows, however often and in whichever chunks a class or a pair is
      requested. */
  lemma CompositeInvisible(entry: Entries, cs: seq<seq<AssetClassKey>>, appID: int)
    requires WellBehaved(entry) && UnderscoreFree(Flatten(cs))
    ensures AlwaysSame(End(ByPair, entry), cs, appID)
  {
    forall k
      ensures BringsSomewhere(ByPair, entry, cs, k) <==> BringsSomewhere(ByPair, entry, [Flatten(cs)], k)
    {
      FlattenHas(cs, k);
      assert Brings(ByPair, entry, Flatten(cs), k) <==> Brings(ByPair, entry, [Flatten(cs)][0], k);
      if BringsSomewhere(ByPair, entry, [Flatten(cs)], k) {
        var j :| 0 <= j < |cs| && k in cs[j];
        assert Brings(ByPair, entry, cs[j], k);
      }
    }
    SamePairsSameMap(ByPair, entry, cs, appID);
  }

  // ----- Bare keys -----

  /** These two chunks request a class that can be stored, and end with different instances of it. */
  ghost predicate EndApart(chunk: seq<AssetClassKey>, chunk': seq<AssetClassKey>, c: string) {
    && c != "" && !IsSentinel(c) && InstancesOf(chunk, c) != [] && InstancesOf(chunk', c) != []
    && Last(InstancesOf(chunk, c)) != Last(InstancesOf(chunk', c))
  }

  /** Any two chunks that request a class end with the same instance of it. */
  ghost predicate EndAlike(cs: seq<seq<AssetClassKey>>) {
    forall i, j, c :: 0 <= i < |cs| && 0 <= j < |cs| ==> !EndApart(cs[i], cs[j], c)
  }

  /** The last instance of the whole list is the last of some chunk. */
  lemma {:induction false} LastSomewhere(cs: seq<seq<AssetClassKey>>, c: string) returns (j: nat)
    requires InstancesOf(Flatten(cs), c) != []
    ensures j < |cs| && InstancesOf(cs[j], c) != []
    ensures Last(InstancesOf(cs[j], c)) == Last(InstancesOf(Flatten(cs), c))
  {
    var n := |cs| - 1;
    InstancesJoined(Flatten(cs[..n]), cs[n], c);
    if InstancesOf(cs[n], c) != [] {
      j := n;
    } else {
      j := LastSomewhere(cs[..n], c);
    }
  }

  lemma {:induction false} ChunkInstances(cs: seq<seq<AssetClassKey>>, j: nat, c: string)
    requires j < |cs| && InstancesOf(cs[j], c) != []
    ensures InstancesOf(Flatten(cs), c) != []
  {
    var n := |cs| - 1;
    InstancesJoined(Flatten(cs[..n]), cs[n], c);
    if j < n {
      ChunkInstances(cs[..n], j, c);
    }
  }

  lemma BareSamePair(entry: Entries, cs: seq<seq<AssetClassKey>>, k: AssetClassKey)
    requires EndAlike(cs)
    ensures BringsSomewhere(ByClass, entry, cs, k) <==> BringsSomewhere(ByClass, entry, [Flatten(cs)], k)
  {
    var keys := Flatten(cs);
    assert BringsSomewhere(ByClass, entry, [keys], k) <==> Brings(ByClass, entry, [keys][0], k);
    FlattenHas(cs, k);
    if BringsSomewhere(ByClass, entry, cs, k) {
      var j :| 0 <= j < |cs| && Brings(ByClass, entry, cs[j], k);
      ChunkInstances(cs, j, k.ClassID);
      var i := LastSomewhere(cs, k.ClassID);
      assert !EndApart(cs[j], cs[i], k.ClassID);
    }
    if Brings(ByClass, entry, keys, k) {
      var i := LastSomewhere(cs, k.ClassID);
      InstancesMember(cs[i], k.ClassID, k.InstanceID);
      assert Brings(ByClass, entry, cs[i], k);
    }
  }

  lemma BareSamePairs(entry: Entries, cs: seq<seq<AssetClassKey>>)
    requires EndAlike(cs)
    ensures BringsNoMore(ByClass, entry, cs, [Flatten(cs)]) && BringsNoMore(ByClass, entry, [Flatten(cs)], cs)
  {
    forall k
      ensures BringsSomewhere(ByClass, entry, cs, k) <==> BringsSomewhere(ByClass, entry, [Flatten(cs)], k)
    {
      BareSamePair(entry, cs, k);
    }
  }

  /** Under bare keys chunking is invisible for every such remote end. */
  ghost predicate BareInvisible(cs: seq<seq<AssetClassKey>>, appID: int) {
    forall entry: Entries :: WellBehaved(entry) ==> AlwaysSame(End(ByClass, entry), cs, appID)
  }

  /** An entry that leaves its identity to the response key and the request. */
  const ANONYMOUS: Wire := Named("")

  /** A remote end that has such an entry for every pair. */
  const ANY_PAIR: Entries := k => Some(ANONYMOUS)

  lemma EndBrings(cs: seq<seq<AssetClassKey>>, j: nat, c: string, i: string)
    requires UnderscoreFree(Flatten(cs)) && j < |cs| && c != "" && !IsSentinel(c)
    requires InstancesOf(cs[j], c) != [] && i == Last(InstancesOf(cs[j], c))
    ensures '_' !in c && BringsSomewhere(ByClass, ANY_PAIR, cs, AssetClassKey(c, i))
  {
    InstancesMember(cs[j], c, i);
    assert Brings(ByClass, ANY_PAIR, cs[j], AssetClassKey(c, i));
    BroughtPlain(ByClass, ANY_PAIR, cs, AssetClassKey(c, i));
  }

  /** A chunk that ends a class otherwise than the whole list stores a pair that the single request does not. */
  lemma OtherEndShows(cs: seq<seq<AssetClassKey>>, j: nat, c: string, appID: int)
    requires UnderscoreFree(Flatten(cs)) && j < |cs| && EndApart(cs[j], Flatten(cs), c)
    ensures !AlwaysSame(End(ByClass, ANY_PAIR), cs, appID)
  {
    var i := Last(InstancesOf(cs[j], c));
    EndBrings(cs, j, c, i);
    PairShows(cs, AssetClassKey(c, i), appID);
  }

  lemma PairShows(cs: seq<seq<AssetClassKey>>, k: AssetClassKey, appID: int)
    requires UnderscoreFree(Flatten(cs)) && '_' !in k.ClassID && BringsSomewhere(ByClass, ANY_PAIR, cs, k)
    requires InstancesOf(Flatten(cs), k.ClassID) != [] && k.InstanceID != Last(InstancesOf(Flatten(cs), k.ClassID))
    ensures !AlwaysSame(End(ByClass, ANY_PAIR), cs, appID)
  {
    var answer, keys := End(ByClass, ANY_PAIR), Flatten(cs);
    var rounds := SomeRounds(answer, cs);
    var whole := SomeWholeRound(answer, keys);
    BroughtIsInMap(ByClass, ANY_PAIR, cs, rounds, appID, k);
    NotLastNotInWhole(keys, whole, k, appID);
    NotAlwaysSame(answer, cs, rounds, whole, appID, k.Key(appID));
  }

  lemma NotLastNotInWhole(keys: seq<AssetClassKey>, whole: Round, k: AssetClassKey, appID: int)
    requires UnderscoreFree(keys) && '_' !in k.ClassID && IsWholeRound([whole], End(ByClass, ANY_PAIR), keys)
    requires InstancesOf(keys, k.ClassID) != [] && k.InstanceID != Last(InstancesOf(keys, k.ClassID))
    ensures k.Key(appID) !in MergeRounds([whole], appID)
  {
    FlattenOne(keys);
    if k.Key(appID) in MergeRounds([whole], appID) {
      var k' := MapBrought(ByClass, ANY_PAIR, [keys], [whole], appID, k.Key(appID));
      BroughtPlain(ByClass, ANY_PAIR, [keys], k');
      KeyInjective(appID, k.ClassID, k.InstanceID, appID, k'.ClassID, k'.InstanceID);
      assert false;
    }
  }

  lemma ApartIsVisible(cs: seq<seq<AssetClassKey>>, i: nat, j: nat, c: string, appID: int)
    requires UnderscoreFree(Flatten(cs)) && i < |cs| && j < |cs| && EndApart(cs[i], cs[j], c)
    ensures !AlwaysSame(End(ByClass, ANY_PAIR), cs, appID)
  {
    ChunkInstances(cs, i, c);
    if EndApart(cs[i], Flatten(cs), c) {
      OtherEndShows(cs, i, c, appID);
    } else {
      OtherEndShows(cs, j, c, appID);
    }
  }

  /** Under bare keys chunking is invisible exactly when, class by class, all chunks that request a class end
      with the same instance of it. */
  lemma BareInvisibleIff(cs: seq<seq<AssetClassKey>>, appID: int)
    requires UnderscoreFree(Flatten(cs))
    ensures BareInvisible(cs, appID) <==> EndAlike(cs)
  {
    if EndAlike(cs) {
      forall entry: Entries | WellBehaved(entry)
        ensures AlwaysSame(End(ByClass, entry), cs, appID)
      {
        BareSamePairs(entry, cs);
        SamePairsSameMap(ByClass, entry, cs, appID);
      }
    } else {
      var i, j, c :| 0 <= i < |cs| && 0 <= j < |cs| && EndApart(cs[i], cs[j], c);
      ApartIsVisible(cs, i, j, c, appID);
      assert WellBehaved(ANY_PAIR);
    }
  }
}
