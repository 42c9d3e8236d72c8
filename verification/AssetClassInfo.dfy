/** `GetAssetClassInfo`: chunked requests, identity resolution of the response entries, and the merge. */
module AssetClassInfo {
  import opened Wrappers
  import opened Decimal
  import opened Strings
  import opened Orders
  import opened AssetTypes
  import opened IndexedObject
  import opened SteamAPI

  datatype AssetClassKey = AssetClassKey(ClassID: string, InstanceID: string) {
    /** The key under which a caller looks the pair up. */
    function Key(appID: int): string {
      AssetDescriptionKey(appID, ClassID, InstanceID)
    }
  }

  /** One decoded description entry; the flags keep their raw text. */
  datatype Wire = Wire(
    ClassID: string,
    InstanceID: string,
    Name: string,
    MarketHashName: string,
    Type: string,
    IconURL: string,
    IconURLLarge: string,
    Tradable: string,
    Marketable: string,
    Commodity: string,
    Tags: Field<Tag>,
    Descriptions: Field<DescriptionLine>,
    Actions: Field<Action>,
    FraudWarnings: Field<string>
  )

  /** The `result` object of a response; an entry that does not decode into a `Wire` is `None`. */
  type Response = map<string, Option<Wire>>

  /** The remote end, as a function of the parameters it is sent. */
  type Server = map<string, string> -> Result<Response, string>

  const CHUNK_SIZE := 100

  // ----- Request parameters -----

  function ClassName(i: nat): string {
    "classid" + Itoa(i)
  }

  function InstanceName(i: nat): string {
    "instanceid" + Itoa(i)
  }

  function FixedParams(auth: map<string, string>, appID: int, count: nat): map<string, string> {
    auth["appid" := Itoa(appID)]["class_count" := Itoa(count)]["language" := "en"]
  }

  /** The parameters after the first keys have been set one by one. */
  function WithKeys(base: map<string, string>, keys: seq<AssetClassKey>): map<string, string> {
    if keys == [] then base
    else
      var i := |keys| - 1;
      var params := WithKeys(base, keys[..i])[ClassName(i) := keys[i].ClassID];
      if keys[i].InstanceID != "" then params[InstanceName(i) := keys[i].InstanceID] else params
  }

  function Params(auth: map<string, string>, appID: int, keys: seq<AssetClassKey>): map<string, string> {
    WithKeys(FixedParams(auth, appID, |keys|), keys)
  }

  /** The key list as the remote end reads it: the count first, then each pair, absent meaning empty. */
  function ReadKeys(params: map<string, string>): seq<AssetClassKey> {
    var count := Atoi(Get(params, "class_count"));
    if count.None? || count.value < 0 then []
    else seq(count.value, (i: nat) => AssetClassKey(Get(params, ClassName(i)), Get(params, InstanceName(i))))
  }

  // ----- Identity resolution -----

  /** The request-side table of instances after the keys have been entered in order. */
  function Table(keys: seq<AssetClassKey>): map<string, string> {
    if keys == [] then map[]
    else
      var k := keys[|keys| - 1];
      var table := Table(keys[..|keys| - 1])[k.ClassID := k.InstanceID];
      if k.InstanceID != "" then table[k.ClassID + "_" + k.InstanceID := k.InstanceID] else table
  }

  predicate IsSentinel(name: string) {
    name == "success" || name == "error"
  }

  /** The class and instance ID that an entry ends up with: its own, else those of its response key,
      with an instance that is still missing taken from the request. */
  function Resolve(name: string, w: Wire, table: map<string, string>): AssetClassKey {
    var own := if w.ClassID == "" then Cut(name, '_') else (w.ClassID, w.InstanceID);
    AssetClassKey(own.0, if own.1 == "" && name in table then table[name] else own.1)
  }

  /** The entry is stored rather than skipped. */
  predicate Survives(name: string, r: Response, table: map<string, string>) {
    name in r && !IsSentinel(name) && r[name].Some? && Resolve(name, r[name].value, table).ClassID != ""
  }

  /** `flagToBool`. */
  function FlagToBool(raw: string): bool {
    if raw == "" then false
    else if raw[0] == 't' then true
    else if raw[0] == 'f' then false
    else if raw[0] == '"' then
      var s := TrimQuotes(raw);
      s != "" && s != "0" && s != "false"
    else raw != "0"
  }

  /** `strings.Trim` with the double quote as its cutset. */
  function TrimQuotes(s: string): string {
    if s == "" then ""
    else if s[0] == '"' then TrimQuotes(s[1..])
    else if s[|s| - 1] == '"' then TrimQuotes(s[..|s| - 1])
    else s
  }

  /** The iteration orders of the four indexed objects inside one entry. */
  datatype FieldOrders = FieldOrders(
    tags: seq<string>,
    descriptions: seq<string>,
    actions: seq<string>,
    fraudWarnings: seq<string>
  )

  ghost predicate AreFieldOrders(w: Wire, os: FieldOrders) {
    && IsFieldOrder(w.Tags, os.tags)
    && IsFieldOrder(w.Descriptions, os.descriptions)
    && IsFieldOrder(w.Actions, os.actions)
    && IsFieldOrder(w.FraudWarnings, os.fraudWarnings)
  }

  lemma SomeFieldOrder<T>(f: Field<T>) returns (order: seq<string>)
    ensures IsFieldOrder(f, order)
  {
    if f.Object? {
      order := SomeOrder(f.members.Keys);
    } else {
      order := [];
    }
  }

  lemma SomeFieldOrders(w: Wire) returns (os: FieldOrders)
    ensures AreFieldOrders(w, os)
  {
    var tags := SomeFieldOrder(w.Tags);
    var descriptions := SomeFieldOrder(w.Descriptions);
    var actions := SomeFieldOrder(w.Actions);
    var fraudWarnings := SomeFieldOrder(w.FraudWarnings);
    os := FieldOrders(tags, descriptions, actions, fraudWarnings);
  }

  /** The description an entry becomes under the identity it resolved to. */
  function Described(w: Wire, appID: int, id: AssetClassKey, os: FieldOrders): AssetDescription
    requires AreFieldOrders(w, os)
  {
    AssetDescription(
      appID, id.ClassID, id.InstanceID, w.Name, w.MarketHashName, w.Type,
      FlagToBool(w.Tradable), FlagToBool(w.Marketable), FlagToBool(w.Commodity),
      w.IconURL, w.IconURLLarge,
      Decoded(w.Descriptions, os.descriptions), Decoded(w.Tags, os.tags),
      Decoded(w.Actions, os.actions), Decoded(w.FraudWarnings, os.fraudWarnings))
  }

  /** `toAssetDescription`, on an entry whose identity has been filled in. */
  method ToAssetDescription(w: Wire, appID: int) returns (d: AssetDescription)
    ensures exists os :: AreFieldOrders(w, os) && d == Described(w, appID, AssetClassKey(w.ClassID, w.InstanceID), os)
  {
    var tags := DecodeIndexed(w.Tags);
    var descriptions := DecodeIndexed(w.Descriptions);
    var actions := DecodeIndexed(w.Actions);
    var fraudWarnings := DecodeIndexed(w.FraudWarnings);
    d := AssetDescription(
      appID, w.ClassID, w.InstanceID, w.Name, w.MarketHashName, w.Type,
      FlagToBool(w.Tradable), FlagToBool(w.Marketable), FlagToBool(w.Commodity),
      w.IconURL, w.IconURLLarge, descriptions, tags, actions, fraudWarnings);
    ghost var o1 :| IsFieldOrder(w.Tags, o1) && tags == Decoded(w.Tags, o1);
    ghost var o2 :| IsFieldOrder(w.Descriptions, o2) && descriptions == Decoded(w.Descriptions, o2);
    ghost var o3 :| IsFieldOrder(w.Actions, o3) && actions == Decoded(w.Actions, o3);
    ghost var o4 :| IsFieldOrder(w.FraudWarnings, o4) && fraudWarnings == Decoded(w.FraudWarnings, o4);
    assert AreFieldOrders(w, FieldOrders(o1, o2, o3, o4));
  }

  // ----- Merging one response -----

  /** One step of the range over a response: the key visited, and the orders its fields were decoded in. */
  datatype Visit = Visit(name: string, orders: FieldOrders)

  function VisitedNames(walk: seq<Visit>): seq<string> {
    seq(|walk|, i requires 0 <= i < |walk| => walk[i].name)
  }

  ghost predicate IsVisit(v: Visit, r: Response) {
    v.name in r && (r[v.name].Some? ==> AreFieldOrders(r[v.name].value, v.orders))
  }

  /** One of the ways in which `range` and the decoders may run over a response. */
  ghost predicate IsWalk(walk: seq<Visit>, r: Response) {
    IsOrder(VisitedNames(walk), r.Keys) && forall i :: 0 <= i < |walk| ==> IsVisit(walk[i], r)
  }

  /** The description that a visited entry contributes. */
  function Contribution(v: Visit, r: Response, table: map<string, string>, appID: int): AssetDescription
    requires IsVisit(v, r) && Survives(v.name, r, table)
  {
    var w := r[v.name].value;
    Described(w, appID, Resolve(v.name, w, table), v.orders)
  }

  function Step(out: map<string, AssetDescription>, v: Visit, r: Response, table: map<string, string>, appID: int)
    : map<string, AssetDescription>
    requires IsVisit(v, r)
  {
    if Survives(v.name, r, table) then
      var d := Contribution(v, r, table, appID);
      out[d.Key() := d]
    else out
  }

  /** The map after the visits of a walk, taken one after the other. */
  function Merge(out: map<string, AssetDescription>, walk: seq<Visit>, r: Response,
                 table: map<string, string>, appID: int): map<string, AssetDescription>
    requires forall i :: 0 <= i < |walk| ==> IsVisit(walk[i], r)
  {
    if walk == [] then out
    else Step(Merge(out, walk[..|walk| - 1], r, table, appID), walk[|walk| - 1], r, table, appID)
  }

  /** The map that a call fills, shared by all its chunks. */
  class DescriptionMap {
    var Entries: map<string, AssetDescription>

    constructor ()
      ensures Entries == map[]
    {
      Entries := map[];
    }
  }

  /** One chunk as it went: its keys, the response, and the walk the merge took. */
  datatype Round = Round(keys: seq<AssetClassKey>, response: Response, walk: seq<Visit>)

  /** What the chunk's request is answered with. */
  function Reply(auth: Result<map<string, string>, string>, server: Server, appID: int, keys: seq<AssetClassKey>)
    : Result<Response, string>
  {
    if auth.Err? then Err(auth.error) else server(Params(auth.value, appID, keys))
  }

  /** This is how requesting these keys went. */
  ghost predicate IsRound(round: Round, auth: Result<map<string, string>, string>, server: Server, appID: int,
                          keys: seq<AssetClassKey>)
  {
    && round.keys == keys && Reply(auth, server, appID, keys) == Ok(round.response)
    && IsWalk(round.walk, round.response)
  }

  /** `getAssetClassInfoChunk`. A failing request leaves the shared map as it was; a successful one
      merges the response along some walk. */
  method GetAssetClassInfoChunk(api: API, server: Server, appID: int, keys: seq<AssetClassKey>, out: DescriptionMap)
    returns (err: Option<string>, ghost round: Round)
    modifies out
    ensures err.Some? ==> Reply(api.Auth(), server, appID, keys) == Err(err.value) && out.Entries == old(out.Entries)
    ensures err.None? ==>
              && IsRound(round, api.Auth(), server, appID, keys)
              && out.Entries == Merge(old(out.Entries), round.walk, round.response, Table(keys), appID)
  {
    round := Round(keys, map[], []);
    var params := api.GetAuthParams();
    if params.Err? {
      return Some(params.error), round;
    }
    var query := params.value;
    EncodeRequest(query, appID, keys);
    var reply := server(query.Entries);
    if reply.Err? {
      return Some(reply.error), round;
    }
    var table := InstanceTable(keys);
    ghost var walk := MergeResponse(reply.value, table, appID, out);
    err, round := None, Round(keys, reply.value, walk);
  }

  /** The part of the chunk that sets the request parameters. */
  method EncodeRequest(params: Values, appID: int, keys: seq<AssetClassKey>)
    modifies params
    ensures params.Entries == Params(old(params.Entries), appID, keys)
  {
    ghost var base := FixedParams(params.Entries, appID, |keys|);
    params.Set("appid", Itoa(appID));
    params.Set("class_count", Itoa(|keys|));
    params.Set("language", "en");
    for i := 0 to |keys|
      invariant params.Entries == WithKeys(base, keys[..i])
    {
      var k := keys[i];
      assert keys[..i + 1][..i] == keys[..i];
      params.Set("classid" + Itoa(i), k.ClassID);
      if k.InstanceID != "" {
        params.Set("instanceid" + Itoa(i), k.InstanceID);
      }
    }
    assert keys[..|keys|] == keys;
  }

  /** The part of the chunk that fills `keyHasInstance`. */
  method InstanceTable(keys: seq<AssetClassKey>) returns (keyHasInstance: map<string, string>)
    ensures keyHasInstance == Table(keys)
  {
    keyHasInstance := map[];
    for i := 0 to |keys|
      invariant keyHasInstance == Table(keys[..i])
    {
      var k := keys[i];
      assert keys[..i + 1][..i] == keys[..i];
      keyHasInstance := keyHasInstance[k.ClassID := k.InstanceID];
      if k.InstanceID != "" {
        keyHasInstance := keyHasInstance[k.ClassID + "_" + k.InstanceID := k.InstanceID];
      }
    }
    assert keys[..|keys|] == keys;
  }

  lemma VisitMore(walk: seq<Visit>, visited: set<string>, v: Visit, out: map<string, AssetDescription>,
                  r: Response, table: map<string, string>, appID: int)
    requires IsOrder(VisitedNames(walk), visited) && v.name !in visited && IsVisit(v, r)
    requires forall i :: 0 <= i < |walk| ==> IsVisit(walk[i], r)
    ensures IsOrder(VisitedNames(walk + [v]), visited + {v.name})
    ensures Merge(out, walk + [v], r, table, appID) == Step(Merge(out, walk, r, table, appID), v, r, table, appID)
  {
    VisitNext(VisitedNames(walk), visited, v.name);
    assert VisitedNames(walk + [v]) == VisitedNames(walk) + [v.name];
    assert (walk + [v])[..|walk|] == walk;
  }

  /** The part of the chunk that ranges over the response, in whatever order. */
  method MergeResponse(r: Response, table: map<string, string>, appID: int, out: DescriptionMap)
    returns (ghost walk: seq<Visit>)
    modifies out
    ensures IsWalk(walk, r)
    ensures out.Entries == Merge(old(out.Entries), walk, r, table, appID)
  {
    walk := [];
    ghost var before := out.Entries;
    var unvisited := r.Keys;
    while unvisited != {}
      invariant unvisited <= r.Keys && IsOrder(VisitedNames(walk), r.Keys - unvisited)
      invariant forall i :: 0 <= i < |walk| ==> IsVisit(walk[i], r)
      invariant out.Entries == Merge(before, walk, r, table, appID)
    {
      var k :| k in unvisited;
      ghost var visited := r.Keys - unvisited;
      ghost var orders;
      orders := MergeEntry(k, r, table, appID, out);
      VisitMore(walk, visited, Visit(k, orders), before, r, table, appID);
      unvisited, walk := unvisited - {k}, walk + [Visit(k, orders)];
      assert r.Keys - unvisited == visited + {k};
    }
    assert r.Keys - unvisited == r.Keys;
  }

  /** The body of that loop. */
  method MergeEntry(k: string, r: Response, table: map<string, string>, appID: int, out: DescriptionMap)
    returns (ghost orders: FieldOrders)
    requires k in r
    modifies out
    ensures IsVisit(Visit(k, orders), r)
    ensures out.Entries == Step(old(out.Entries), Visit(k, orders), r, table, appID)
    ensures k == "success" || k == "error" || r[k].None? ==> out.Entries == old(out.Entries)
    ensures k != "success" && k != "error" && r[k].Some? && r[k].value.ClassID != "" && r[k].value.InstanceID != "" ==>
              var key := AssetDescriptionKey(appID, r[k].value.ClassID, r[k].value.InstanceID);
              key in out.Entries && out.Entries == old(out.Entries)[key := out.Entries[key]]
  {
    orders := FieldOrders([], [], [], []);
    if r[k].Some? {
      orders := SomeFieldOrders(r[k].value);
    }
    if k == "success" || k == "error" {
      return;
    }
    var raw := r[k];
    if raw.None? {
      return;
    }
    var info := raw.value;
    if info.ClassID == "" {
      var (before, after) := Cut(k, '_');
      info := info.(ClassID := before, InstanceID := after);
    }
    if info.InstanceID == "" {
      if k in table {
        info := info.(InstanceID := table[k]);
      }
    }
    if info.ClassID == "" {
      return;
    }
    var desc := ToAssetDescription(info, appID);
    orders :| AreFieldOrders(info, orders)
              && desc == Described(info, appID, AssetClassKey(info.ClassID, info.InstanceID), orders);
    out.Entries := out.Entries[AssetDescriptionKey(appID, desc.ClassID, desc.InstanceID) := desc];
  }

  // ----- The chunk loop -----

  function ChunkCount(n: nat): nat {
    (n + CHUNK_SIZE - 1) / CHUNK_SIZE
  }

  function Min(a: int, b: int): int {
    if a < b then a else b
  }

  /** The slices of the key list that are requested one by one. */
  function Chunks(keys: seq<AssetClassKey>): seq<seq<AssetClassKey>> {
    seq(ChunkCount(|keys|), (j: nat) requires j < ChunkCount(|keys|) =>
      keys[CHUNK_SIZE * j..Min(CHUNK_SIZE * (j + 1), |keys|)])
  }

  ghost predicate AreRounds(rounds: seq<Round>) {
    forall j :: 0 <= j < |rounds| ==> IsWalk(rounds[j].walk, rounds[j].response)
  }

  /** These are the rounds of requesting the first of these chunks. */
  ghost predicate Answers(rounds: seq<Round>, auth: Result<map<string, string>, string>, server: Server,
                          appID: int, cs: seq<seq<AssetClassKey>>)
  {
    && |rounds| <= |cs|
    && (forall j :: 0 <= j < |rounds| ==> IsRound(rounds[j], auth, server, appID, cs[j]))
    && AreRounds(rounds)
  }

  /** The map after all rounds. */
  function MergeRounds(rounds: seq<Round>, appID: int): map<string, AssetDescription>
    requires AreRounds(rounds)
  {
    if rounds == [] then map[]
    else
      var last := rounds[|rounds| - 1];
      Merge(MergeRounds(rounds[..|rounds| - 1], appID), last.walk, last.response, Table(last.keys), appID)
  }

  /** The server is asked for the first of these chunks in turn, and has something for each. */
  ghost predicate AllServed(auth: map<string, string>, server: Server, appID: int, cs: seq<seq<AssetClassKey>>, n: nat)
    requires n <= |cs|
  {
    forall j :: 0 <= j < n ==> server(Params(auth, appID, cs[j])).Ok?
  }

  /** The error is the one that the server gives for the first chunk it fails. */
  ghost predicate IsFirstError(error: string, auth: map<string, string>, server: Server, appID: int,
                               cs: seq<seq<AssetClassKey>>)
  {
    exists n: nat :: n < |cs| && AllServed(auth, server, appID, cs, n) && server(Params(auth, appID, cs[n])) == Err(error)
  }

  /** A call went through all chunks, and left the merge of all rounds. */
  ghost predicate Succeeds(m: map<string, AssetDescription>, auth: Result<map<string, string>, string>, server: Server,
                           appID: int, cs: seq<seq<AssetClassKey>>)
  {
    exists rounds ::
      |rounds| == |cs| && Answers(rounds, auth, server, appID, cs) && m == MergeRounds(rounds, appID)
  }

  /** A call went through some chunks, and failed with the next. */
  ghost predicate Fails(error: string, auth: Result<map<string, string>, string>, server: Server,
                        appID: int, cs: seq<seq<AssetClassKey>>)
  {
    exists rounds ::
      |rounds| < |cs| && Answers(rounds, auth, server, appID, cs)
      && Reply(auth, server, appID, cs[|rounds|]) == Err(error)
  }

  ghost predicate IsOutcome(r: Result<map<string, AssetDescription>, string>, auth: Result<map<string, string>, string>,
                            server: Server, appID: int, cs: seq<seq<AssetClassKey>>)
  {
    match r
    case Ok(m) => Succeeds(m, auth, server, appID, cs)
    case Err(e) => Fails(e, auth, server, appID, cs)
  }

  /** With credentials the outcome of a call is that of its requests, ... */
  lemma ServedOutcome(r: Result<map<string, AssetDescription>, string>, auth: map<string, string>, server: Server,
                      appID: int, cs: seq<seq<AssetClassKey>>)
    requires IsOutcome(r, Ok(auth), server, appID, cs)
    ensures if r.Ok? then AllServed(auth, server, appID, cs, |cs|) else IsFirstError(r.error, auth, server, appID, cs)
  {
    if r.Ok? {
      var rounds :| |rounds| == |cs| && Answers(rounds, Ok(auth), server, appID, cs) && r.value == MergeRounds(rounds, appID);
      RoundsServed(rounds, auth, server, appID, cs);
    } else {
      var rounds :| |rounds| < |cs| && Answers(rounds, Ok(auth), server, appID, cs)
                    && Reply(Ok(auth), server, appID, cs[|rounds|]) == Err(r.error);
      RoundsServed(rounds, auth, server, appID, cs);
      assert server(Params(auth, appID, cs[|rounds|])) == Err(r.error);
    }
  }

  lemma RoundsServed(rounds: seq<Round>, auth: map<string, string>, server: Server, appID: int,
                     cs: seq<seq<AssetClassKey>>)
    requires Answers(rounds, Ok(auth), server, appID, cs)
    ensures AllServed(auth, server, appID, cs, |rounds|)
  {
  }

  /** ... without any it fails before the first one. */
  lemma DeniedOutcome(r: Result<map<string, AssetDescription>, string>, e: string, server: Server,
                      appID: int, cs: seq<seq<AssetClassKey>>)
    requires IsOutcome(r, Err(e), server, appID, cs) && cs != []
    ensures r == Err(e)
  {
    forall rounds | Answers(rounds, Err(e), server, appID, cs)
      ensures rounds == []
    {
      NoRounds(rounds, e, server, appID, cs);
    }
  }

  lemma NoRounds(rounds: seq<Round>, e: string, server: Server, appID: int, cs: seq<seq<AssetClassKey>>)
    requires Answers(rounds, Err(e), server, appID, cs)
    ensures rounds == []
  {
    assert |rounds| > 0 ==> !IsRound(rounds[0], Err(e), server, appID, cs[0]);
  }

  /** `GetAssetClassInfo`. It succeeds exactly when every chunk does, with the merge of all rounds; else the
      first failing chunk decides the error, and no partial map is returned. Without keys nothing is asked for,
      and without credentials nothing is sent. */
  method GetAssetClassInfo(api: API, server: Server, appID: int, keys: seq<AssetClassKey>)
    returns (r: Result<map<string, AssetDescription>, string>)
    ensures IsOutcome(r, api.Auth(), server, appID, Chunks(keys))
    ensures keys == [] ==> r == Ok(map[])
    ensures keys != [] && NoCredentials(api) ==> r == Err("no access token available (no cookie jar or token set)")
    ensures !NoCredentials(api) ==>
              && api.Auth().Ok?
              && if r.Ok? then AllServed(api.Auth().value, server, appID, Chunks(keys), |Chunks(keys)|)
                 else IsFirstError(r.error, api.Auth().value, server, appID, Chunks(keys))
  {
    AuthIs(api);
    if |keys| == 0 {
      var out := new DescriptionMap();
      r := Ok(out.Entries);
      assert Answers([], api.Auth(), server, appID, Chunks(keys));
    } else {
      r := RequestChunks(api, server, appID, keys);
    }
    if api.Auth().Ok? {
      ServedOutcome(r, api.Auth().value, server, appID, Chunks(keys));
    } else if keys != [] {
      DeniedOutcome(r, api.Auth().error, server, appID, Chunks(keys));
    }
  }

  /** The loop of `GetAssetClassInfo`. */
  method RequestChunks(api: API, server: Server, appID: int, keys: seq<AssetClassKey>)
    returns (r: Result<map<string, AssetDescription>, string>)
    ensures IsOutcome(r, api.Auth(), server, appID, Chunks(keys))
  {
    ghost var rounds: seq<Round> := [];
    ghost var auth, cs := api.Auth(), Chunks(keys);
    var out := new DescriptionMap();
    ChunksReach(keys);
    var i := 0;
    while i < |keys|
      invariant i == CHUNK_SIZE * |rounds| && |rounds| <= |cs|
      invariant fresh(out) && api.Auth() == auth
      invariant Answers(rounds, auth, server, appID, cs)
      invariant out.Entries == MergeRounds(rounds, appID)
    {
      var end := i + CHUNK_SIZE;
      if end > |keys| {
        end := |keys|;
      }
      var chunk := keys[i..end];
      assert chunk == cs[|rounds|] by {
        ChunkAt(keys, |rounds|);
      }
      var err;
      ghost var round;
      err, round := GetAssetClassInfoChunk(api, server, appID, chunk, out);
      if err.Some? {
        assert Fails(err.value, auth, server, appID, cs);
        return Err(err.value);
      }
      NextRound(rounds, round, auth, server, appID, cs);
      MergeRound(rounds, round, appID);
      i, rounds := i + CHUNK_SIZE, rounds + [round];
    }
    r := Ok(out.Entries);
  }

  lemma ChunksReach(keys: seq<AssetClassKey>)
    ensures |Chunks(keys)| == ChunkCount(|keys|)
    ensures CHUNK_SIZE * ChunkCount(|keys|) >= |keys| > CHUNK_SIZE * (ChunkCount(|keys|) - 1) || keys == []
  {
  }

  lemma ChunkAt(keys: seq<AssetClassKey>, j: nat)
    requires CHUNK_SIZE * j < |keys|
    ensures j < |Chunks(keys)|
    ensures Chunks(keys)[j] == keys[CHUNK_SIZE * j..Min(CHUNK_SIZE * (j + 1), |keys|)]
  {
  }

  lemma NextRound(rounds: seq<Round>, round: Round, auth: Result<map<string, string>, string>, server: Server,
                  appID: int, cs: seq<seq<AssetClassKey>>)
    requires |rounds| < |cs| && Answers(rounds, auth, server, appID, cs)
    requires IsRound(round, auth, server, appID, cs[|rounds|])
    ensures Answers(rounds + [round], auth, server, appID, cs)
  {
    var rounds' := rounds + [round];
    forall j | 0 <= j < |rounds'|
      ensures IsRound(rounds'[j], auth, server, appID, cs[j])
    {
      if j < |rounds| {
        assert rounds'[j] == rounds[j];
      }
    }
    assert AreRounds(rounds');
  }

  lemma MergeRound(rounds: seq<Round>, round: Round, appID: int)
    requires AreRounds(rounds) && IsWalk(round.walk, round.response)
    ensures AreRounds(rounds + [round])
    ensures MergeRounds(rounds + [round], appID)
         == Merge(MergeRounds(rounds, appID), round.walk, round.response, Table(round.keys), appID)
  {
    assert (rounds + [round])[..|rounds|] == rounds;
  }
}
