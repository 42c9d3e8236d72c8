/** Which instance a response key is granted by the request, and what entries resolve to. */
module Resolution {
  import opened Wrappers
  import opened Strings
  import opened AssetClassInfo

  /** The class that a response key names. */
  function Class(name: string): string {
    Cut(name, '_').0
  }

  ghost predicate UnderscoreFree(keys: seq<AssetClassKey>) {
    forall i :: 0 <= i < |keys| ==> '_' !in keys[i].ClassID
  }

  /** The instances requested for a class, in request order. */
  function InstancesOf(keys: seq<AssetClassKey>, c: string): seq<string> {
    if keys == [] then []
    else
      var k := keys[|keys| - 1];
      InstancesOf(keys[..|keys| - 1], c) + if k.ClassID == c then [k.InstanceID] else []
  }

  /** What the table holds for a response key, told from the instances requested for its class alone:
      the last of them for a bare class, and for a composite key its own instance if that was requested. */
  function Granted(instances: seq<string>, name: string): Option<string> {
    if '_' !in name then
      if instances == [] then None else Some(instances[|instances| - 1])
    else
      var i := Cut(name, '_').1;
      if i != "" && i in instances then Some(i) else None
  }

  function TableEntry(table: map<string, string>, name: string): Option<string> {
    if name in table then Some(table[name]) else None
  }

  /** The two table entries that a requested key makes, as response keys. */
  lemma EntryNames(k: AssetClassKey, name: string)
    requires '_' !in k.ClassID
    ensures name == k.ClassID <==> '_' !in name && Class(name) == k.ClassID
    ensures name == k.ClassID + "_" + k.InstanceID
       <==> '_' in name && Class(name) == k.ClassID && Cut(name, '_').1 == k.InstanceID
  {
    CutRejoins(name, '_');
    CutAbsent(k.ClassID, '_');
    CutJoined(k.ClassID, '_', k.InstanceID);
  }

  /** The request table decides every response key by its own class: what was requested for other
      classes, before or after, does not show. */
  lemma {:induction false} TableByClass(keys: seq<AssetClassKey>, name: string)
    requires UnderscoreFree(keys)
    ensures TableEntry(Table(keys), name) == Granted(InstancesOf(keys, Class(name)), name)
  {
    if keys != [] {
      var front, k := keys[..|keys| - 1], keys[|keys| - 1];
      TableByClass(front, name);
      EntryNames(k, name);
    }
  }

  lemma {:induction false} InstancesMember(keys: seq<AssetClassKey>, c: string, i: string)
    ensures i in InstancesOf(keys, c) <==> AssetClassKey(c, i) in keys
  {
    if keys != [] {
      var front, k := keys[..|keys| - 1], keys[|keys| - 1];
      InstancesMember(front, c, i);
      assert keys == front + [k];
    }
  }

  // ----- Every entry, whatever its IDs -----

  /** The class and this instance, or if it is empty the one that the table has for the response key. */
  ghost predicate Fills(id: AssetClassKey, c: string, i: string, name: string, table: map<string, string>) {
    && id.ClassID == c
    && id.InstanceID == if i != "" then i else if name in table then table[name] else ""
  }

  /** The response key is these two strings around its first underscore. */
  predicate Parts(name: string, c: string, i: string) {
    '_' !in c && name == c + "_" + i
  }

  /** The identity of an entry, source by source: the IDs in the entry as soon as it has a class; else what stands
      before and after the first underscore of the response key; and the request only where no instance is left. */
  ghost predicate Identifies(name: string, w: Wire, table: map<string, string>, id: AssetClassKey) {
    if w.ClassID != "" then Fills(id, w.ClassID, w.InstanceID, name, table)
    else if '_' in name then exists c, i :: Parts(name, c, i) && Fills(id, c, i, name, table)
    else Fills(id, name, "", name, table)
  }

  /** Every entry resolves to the one identity that its sources give. */
  lemma IdentityIff(name: string, w: Wire, table: map<string, string>, id: AssetClassKey)
    ensures Identifies(name, w, table, id) <==> id == Resolve(name, w, table)
  {
    if '_' in name {
      PartsAreCut(name);
    } else {
      CutAbsent(name, '_');
    }
  }

  lemma PartsAreCut(name: string)
    requires '_' in name
    ensures Parts(name, Cut(name, '_').0, Cut(name, '_').1)
    ensures forall c, i :: Parts(name, c, i) ==> (c, i) == Cut(name, '_')
  {
    CutRejoins(name, '_');
    forall c, i | Parts(name, c, i)
      ensures (c, i) == Cut(name, '_')
    {
      CutJoined(c, '_', i);
    }
  }

  /** The IDs inside an entry win: over the response key and over the request, for every key and every table. An
      entry with both keeps both, one with a class keeps that, and its instance unless it is empty. */
  lemma OwnIDsWin(name: string, w: Wire, table: map<string, string>)
    requires w.ClassID != ""
    ensures Resolve(name, w, table).ClassID == w.ClassID
    ensures w.InstanceID != "" ==> Resolve(name, w, table) == AssetClassKey(w.ClassID, w.InstanceID)
  {
    IdentityIff(name, w, table, Resolve(name, w, table));
  }

  /** The requested key makes an entry of this name in the request table. */
  ghost predicate Enters(k: AssetClassKey, name: string) {
    name == k.ClassID || (k.InstanceID != "" && name == k.ClassID + "_" + k.InstanceID)
  }

  /** The table holds, for every key list, the names its keys enter, each with the instance of the last of them. */
  lemma {:induction false} TableReads(keys: seq<AssetClassKey>, name: string) returns (n: int)
    ensures name in Table(keys) <==> n >= 0
    ensures n >= 0 ==> n < |keys| && Enters(keys[n], name) && Table(keys)[name] == keys[n].InstanceID
    ensures forall m :: 0 <= m < |keys| && n < m ==> !Enters(keys[m], name)
  {
    n := -1;
    if keys != [] {
      var last := |keys| - 1;
      n := TableReads(keys[..last], name);
      if Enters(keys[last], name) {
        n := last;
      }
    }
  }

  // ----- Entries for requested pairs -----

  /** The entry's inner IDs are missing or those of the requested key. */
  predicate Matches(w: Wire, k: AssetClassKey) {
    w.ClassID in {"", k.ClassID} && w.InstanceID in {"", k.InstanceID}
  }

  /** An entry under the composite key of a requested pair resolves to that pair, however often its class
      was requested. */
  lemma CompositeResolves(keys: seq<AssetClassKey>, k: AssetClassKey, w: Wire)
    requires UnderscoreFree(keys) && k in keys && Matches(w, k)
    ensures Resolve(k.ClassID + "_" + k.InstanceID, w, Table(keys)) == k
  {
    var name := k.ClassID + "_" + k.InstanceID;
    TableByClass(keys, name);
    EntryNames(k, name);
    InstancesMember(keys, k.ClassID, k.InstanceID);
  }

  /** An entry under the bare class, without an instance of its own, resolves to a requested pair of that
      class exactly when the pair's instance is the one requested last. */
  lemma {:induction false} BareResolvesIff(keys: seq<AssetClassKey>, k: AssetClassKey, w: Wire)
    requires UnderscoreFree(keys) && k in keys
    requires w.ClassID in {"", k.ClassID} && w.InstanceID == ""
    ensures InstancesOf(keys, k.ClassID) != []
    ensures Resolve(k.ClassID, w, Table(keys)) == k
       <==> k.InstanceID == InstancesOf(keys, k.ClassID)[|InstancesOf(keys, k.ClassID)| - 1]
  {
    TableByClass(keys, k.ClassID);
    EntryNames(k, k.ClassID);
    InstancesMember(keys, k.ClassID, k.InstanceID);
    CutAbsent(k.ClassID, '_');
  }

  /** The classes of the list are pairwise distinct. */
  ghost predicate DistinctClasses(keys: seq<AssetClassKey>) {
    forall i, j :: 0 <= i < j < |keys| ==> keys[i].ClassID != keys[j].ClassID
  }

  lemma {:induction false} InstancesNone(keys: seq<AssetClassKey>, c: string)
    requires forall i :: 0 <= i < |keys| ==> keys[i].ClassID != c
    ensures InstancesOf(keys, c) == []
  {
    if keys != [] {
      InstancesNone(keys[..|keys| - 1], c);
    }
  }

  lemma {:induction false} InstancesOnce(keys: seq<AssetClassKey>, k: AssetClassKey)
    requires DistinctClasses(keys) && k in keys
    ensures InstancesOf(keys, k.ClassID) == [k.InstanceID]
  {
    var front, last := keys[..|keys| - 1], keys[|keys| - 1];
    if k == last {
      InstancesNone(front, k.ClassID);
    } else {
      assert k in front;
      InstancesOnce(front, k);
    }
  }

  /** The response keys under which a requested pair may be answered. */
  predicate NamesKey(name: string, k: AssetClassKey) {
    name == k.ClassID || name == k.ClassID + "_" + k.InstanceID
  }

  /** With each class requested once, an entry for a pair resolves to the pair whose lookup key a caller
      computes, from whichever source its IDs come. */
  lemma EntryResolves(keys: seq<AssetClassKey>, k: AssetClassKey, name: string, w: Wire)
    requires UnderscoreFree(keys) && DistinctClasses(keys) && k in keys
    requires NamesKey(name, k) && Matches(w, k)
    ensures Resolve(name, w, Table(keys)) == k
  {
    if name == k.ClassID + "_" + k.InstanceID {
      CompositeResolves(keys, k, w);
    } else {
      InstancesOnce(keys, k);
      TableByClass(keys, name);
      EntryNames(k, name);
      CutAbsent(name, '_');
    }
  }
}
