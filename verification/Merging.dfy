/** What merging a response does to the map, and when the iteration order shows. */
module Merging {
  import opened Orders
  import opened AssetTypes
  import opened AssetClassInfo
  import opened Resolution

  // ----- The invariant of the map -----

  /** Every description is stored under its own key, for the requested app, with a class ID. */
  ghost predicate WellKeyed(m: map<string, AssetDescription>, appID: int) {
    forall key :: key in m ==> key == m[key].Key() && m[key].AppID == appID && m[key].ClassID != ""
  }

  /** No merge step of any walk breaks the invariant. */
  lemma {:induction false} MergeKeepsKeys(out: map<string, AssetDescription>, walk: seq<Visit>, r: Response,
                                          table: map<string, string>, appID: int)
    requires WellKeyed(out, appID)
    requires forall i :: 0 <= i < |walk| ==> IsVisit(walk[i], r)
    ensures WellKeyed(Merge(out, walk, r, table, appID), appID)
  {
    if walk != [] {
      MergeKeepsKeys(out, walk[..|walk| - 1], r, table, appID);
    }
  }

  /** So every map a call returns satisfies it. */
  lemma {:induction false} RoundsKeepKeys(rounds: seq<Round>, appID: int)
    requires AreRounds(rounds)
    ensures WellKeyed(MergeRounds(rounds, appID), appID)
  {
    if rounds != [] {
      var front, last := rounds[..|rounds| - 1], rounds[|rounds| - 1];
      RoundsKeepKeys(front, appID);
      MergeKeepsKeys(MergeRounds(front, appID), last.walk, last.response, Table(last.keys), appID);
    }
  }

  // ----- Reading a merged map -----

  /** The entry of this name is stored under this key. */
  ghost predicate Stores(name: string, key: string, r: Response, table: map<string, string>, appID: int) {
    Survives(name, r, table)
    && var id := Resolve(name, r[name].value, table);
       key == AssetDescriptionKey(appID, id.ClassID, id.InstanceID)
  }

  lemma StepReads(out: map<string, AssetDescription>, v: Visit, r: Response, table: map<string, string>,
                  appID: int, key: string)
    requires IsVisit(v, r)
    ensures var m := Step(out, v, r, table, appID);
            if Stores(v.name, key, r, table, appID) then key in m && m[key] == Contribution(v, r, table, appID)
            else (key in m <==> key in out) && (key in m ==> m[key] == out[key])
  {
  }

  /** A key of the merged map holds what the last visit stored under it contributed; a key that no visit
      is stored under is as it was before. */
  lemma {:induction false} MergeReads(out: map<string, AssetDescription>, walk: seq<Visit>, r: Response,
                                      table: map<string, string>, appID: int, key: string) returns (i: int)
    requires forall j :: 0 <= j < |walk| ==> IsVisit(walk[j], r)
    ensures -1 <= i < |walk|
    ensures forall j :: i < j < |walk| ==> !Stores(walk[j].name, key, r, table, appID)
    ensures var m := Merge(out, walk, r, table, appID);
            if i >= 0 then Stores(walk[i].name, key, r, table, appID)
                           && key in m && m[key] == Contribution(walk[i], r, table, appID)
            else (key in m <==> key in out) && (key in m ==> m[key] == out[key])
  {
    i := -1;
    if walk != [] {
      var n := |walk| - 1;
      var front, v := walk[..n], walk[n];
      i := MergeReads(out, front, r, table, appID, key);
      StepReads(Merge(out, front, r, table, appID), v, r, table, appID, key);
      if Stores(v.name, key, r, table, appID) {
        i := n;
      } else {
        NotStoredAfter(walk, i, r, table, appID, key);
      }
    }
  }

  lemma NotStoredAfter(walk: seq<Visit>, i: int, r: Response, table: map<string, string>, appID: int, key: string)
    requires walk != [] && -1 <= i < |walk| - 1
    requires var front := walk[..|walk| - 1]; forall j :: i < j < |front| ==> !Stores(front[j].name, key, r, table, appID)
    requires !Stores(walk[|walk| - 1].name, key, r, table, appID)
    ensures forall j :: i < j < |walk| ==> !Stores(walk[j].name, key, r, table, appID)
  {
    assert forall j :: 0 <= j < |walk| - 1 ==> walk[j] == walk[..|walk| - 1][j];
  }

  /** The response holds an entry for this identity that decodes, is no sentinel and has a class. */
  ghost predicate HoldsEntry(r: Response, table: map<string, string>, name: string, id: AssetClassKey) {
    && name in r && name != "success" && name != "error"
    && r[name].Some? && Identifies(name, r[name].value, table, id) && id.ClassID != ""
  }

  lemma StoresIff(name: string, key: string, r: Response, table: map<string, string>, appID: int)
    ensures Stores(name, key, r, table, appID)
       <==> exists id :: HoldsEntry(r, table, name, id) && key == AssetDescriptionKey(appID, id.ClassID, id.InstanceID)
  {
    if name in r && r[name].Some? {
      var id := Resolve(name, r[name].value, table);
      IdentityIff(name, r[name].value, table, id);
      forall id' | HoldsEntry(r, table, name, id')
        ensures id' == id
      {
        IdentityIff(name, r[name].value, table, id');
      }
    }
  }

  /** A merge adds the keys of the response's entries, and no other key. */
  lemma MergedIff(out: map<string, AssetDescription>, walk: seq<Visit>, r: Response, table: map<string, string>,
                  appID: int, key: string)
    requires IsWalk(walk, r)
    ensures key in Merge(out, walk, r, table, appID) <==>
              || key in out
              || exists name, id ::
                   HoldsEntry(r, table, name, id) && key == AssetDescriptionKey(appID, id.ClassID, id.InstanceID)
  {
    var i := MergeReads(out, walk, r, table, appID, key);
    StoredEverywhere(walk, r, table, appID, key);
    forall name
      ensures Stores(name, key, r, table, appID)
         <==> exists id :: HoldsEntry(r, table, name, id) && key == AssetDescriptionKey(appID, id.ClassID, id.InstanceID)
    {
      StoresIff(name, key, r, table, appID);
    }
  }

  /** What stands under a key of the merged map describes an entry of the response with the key's identity, or is
      what was there before. */
  lemma MergedValue(out: map<string, AssetDescription>, walk: seq<Visit>, r: Response, table: map<string, string>,
                    appID: int, key: string)
    requires IsWalk(walk, r) && key in Merge(out, walk, r, table, appID)
    ensures var d := Merge(out, walk, r, table, appID)[key];
            || (key in out && d == out[key])
            || exists name, id, os ::
                 && HoldsEntry(r, table, name, id) && key == AssetDescriptionKey(appID, id.ClassID, id.InstanceID)
                 && AreFieldOrders(r[name].value, os) && d == Described(r[name].value, appID, id, os)
  {
    var i := MergeReads(out, walk, r, table, appID, key);
    if i >= 0 {
      var name := walk[i].name;
      IdentityIff(name, r[name].value, table, Resolve(name, r[name].value, table));
      assert HoldsEntry(r, table, name, Resolve(name, r[name].value, table));
    }
  }

  /** An entry with IDs of its own is stored under them. */
  lemma OwnIDsStored(r: Response, table: map<string, string>, appID: int, name: string)
    requires name in r && name != "success" && name != "error" && r[name].Some?
    requires r[name].value.ClassID != "" && r[name].value.InstanceID != ""
    ensures Stores(name, AssetDescriptionKey(appID, r[name].value.ClassID, r[name].value.InstanceID), r, table, appID)
  {
    OwnIDsWin(name, r[name].value, table);
  }

  /** The visit stored last under a key decides its value. */
  lemma LastVisitWins(out: map<string, AssetDescription>, walk: seq<Visit>, r: Response,
                      table: map<string, string>, appID: int)
    requires forall i :: 0 <= i < |walk| ==> IsVisit(walk[i], r)
    requires walk != [] && Survives(walk[|walk| - 1].name, r, table)
    ensures var d := Contribution(walk[|walk| - 1], r, table, appID); var m := Merge(out, walk, r, table, appID);
            d.Key() in m && m[d.Key()] == d
  {
  }

  /** Every response can be walked, along any order of its keys. */
  lemma {:induction false} SomeWalk(order: seq<string>, r: Response) returns (walk: seq<Visit>)
    requires forall name :: name in order ==> name in r
    ensures VisitedNames(walk) == order && forall i :: 0 <= i < |walk| ==> IsVisit(walk[i], r)
  {
    if order == [] {
      walk := [];
    } else {
      var n := |order| - 1;
      walk := SomeWalk(order[..n], r);
      var orders := FieldOrders([], [], [], []);
      if r[order[n]].Some? {
        orders := SomeFieldOrders(r[order[n]].value);
      }
      walk := walk + [Visit(order[n], orders)];
    }
  }

  lemma WalkEndingWith(r: Response, v: Visit) returns (walk: seq<Visit>)
    requires IsVisit(v, r)
    ensures IsWalk(walk, r) && walk != [] && walk[|walk| - 1] == v
  {
    var order := OrderEndingWith(r.Keys, v.name);
    var n := |order| - 1;
    assert order == order[..n] + [v.name];
    walk := SomeWalk(order[..n], r);
    walk := walk + [v];
    assert VisitedNames(walk) == order;
  }

  // ----- Iteration order -----

  /** Entries stored under one key make one and the same description, however their fields are visited. */
  ghost predicate Consistent(r: Response, table: map<string, string>, appID: int) {
    forall v, v' ::
      && IsVisit(v, r) && Survives(v.name, r, table)
      && IsVisit(v', r) && Survives(v'.name, r, table)
      && Contribution(v, r, table, appID).Key() == Contribution(v', r, table, appID).Key()
      ==> Contribution(v, r, table, appID) == Contribution(v', r, table, appID)
  }

  /** All walks over the response leave the same map. */
  ghost predicate MergeOrderFree(r: Response, table: map<string, string>, appID: int) {
    forall out, walk, walk' :: IsWalk(walk, r) && IsWalk(walk', r) ==>
      Merge(out, walk, r, table, appID) == Merge(out, walk', r, table, appID)
  }

  lemma StoredEverywhere(walk: seq<Visit>, r: Response, table: map<string, string>, appID: int, key: string)
    requires IsWalk(walk, r)
    ensures (exists i :: 0 <= i < |walk| && Stores(walk[i].name, key, r, table, appID))
       <==> (exists name :: Stores(name, key, r, table, appID))
  {
    if name :| Stores(name, key, r, table, appID) {
      assert name in r.Keys && name in VisitedNames(walk);
      var i :| 0 <= i < |walk| && VisitedNames(walk)[i] == name;
      assert walk[i].name == name;
    }
  }

  lemma ConsistentMerge(out: map<string, AssetDescription>, walk: seq<Visit>, walk': seq<Visit>, r: Response,
                        table: map<string, string>, appID: int)
    requires Consistent(r, table, appID) && IsWalk(walk, r) && IsWalk(walk', r)
    ensures Merge(out, walk, r, table, appID) == Merge(out, walk', r, table, appID)
  {
    var m, m' := Merge(out, walk, r, table, appID), Merge(out, walk', r, table, appID);
    forall key
      ensures key in m <==> key in m'
      ensures key in m ==> m[key] == m'[key]
    {
      var i := MergeReads(out, walk, r, table, appID, key);
      var i' := MergeReads(out, walk', r, table, appID, key);
      StoredEverywhere(walk, r, table, appID, key);
      StoredEverywhere(walk', r, table, appID, key);
    }
  }

  lemma OrderFreeConsistent(r: Response, table: map<string, string>, appID: int, v: Visit, v': Visit)
    requires forall walk, walk' :: IsWalk(walk, r) && IsWalk(walk', r) ==>
               Merge(map[], walk, r, table, appID) == Merge(map[], walk', r, table, appID)
    requires IsVisit(v, r) && Survives(v.name, r, table)
    requires IsVisit(v', r) && Survives(v'.name, r, table)
    requires Contribution(v, r, table, appID).Key() == Contribution(v', r, table, appID).Key()
    ensures Contribution(v, r, table, appID) == Contribution(v', r, table, appID)
  {
    var walk := WalkEndingWith(r, v);
    var walk' := WalkEndingWith(r, v');
    LastVisitWins(map[], walk, r, table, appID);
    LastVisitWins(map[], walk', r, table, appID);
  }

  lemma SameMergesConsistent(r: Response, table: map<string, string>, appID: int)
    requires forall walk, walk' :: IsWalk(walk, r) && IsWalk(walk', r) ==>
               Merge(map[], walk, r, table, appID) == Merge(map[], walk', r, table, appID)
    ensures Consistent(r, table, appID)
  {
    forall v, v' |
      && IsVisit(v, r) && Survives(v.name, r, table)
      && IsVisit(v', r) && Survives(v'.name, r, table)
      && Contribution(v, r, table, appID).Key() == Contribution(v', r, table, appID).Key()
      ensures Contribution(v, r, table, appID) == Contribution(v', r, table, appID)
    {
      OrderFreeConsistent(r, table, appID, v, v');
    }
  }

  /** The merged map is independent of the iteration order exactly when the response is consistent. */
  lemma MergeOrderFreeIff(r: Response, table: map<string, string>, appID: int)
    ensures MergeOrderFree(r, table, appID) <==> Consistent(r, table, appID)
  {
    if Consistent(r, table, appID) {
      forall out, walk, walk' | IsWalk(walk, r) && IsWalk(walk', r)
        ensures Merge(out, walk, r, table, appID) == Merge(out, walk', r, table, appID)
      {
        ConsistentMerge(out, walk, walk', r, table, appID);
      }
    }
    if MergeOrderFree(r, table, appID) {
      SameMergesConsistent(r, table, appID);
    }
  }
}
