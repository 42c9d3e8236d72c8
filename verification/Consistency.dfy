/** When the iteration order over a response shows in the merged map, told from the response itself. */
module Consistency {
  import opened Wrappers
  import opened Strings
  import opened Orders
  import opened AssetTypes
  import opened IndexedObject
  import opened AssetClassInfo
  import opened Merging

  ghost predicate FieldAgrees<T>(f: Field<T>) {
    f.Object? ==> CollisionsAgree(f.members)
  }

  /** No indexed object inside the entry has keys for one index with different values. */
  ghost predicate FieldsAgree(w: Wire) {
    FieldAgrees(w.Tags) && FieldAgrees(w.Descriptions) && FieldAgrees(w.Actions) && FieldAgrees(w.FraudWarnings)
  }

  lemma FieldOrderFree<T>(f: Field<T>, o: seq<string>, o': seq<string>)
    requires FieldAgrees(f) && IsFieldOrder(f, o) && IsFieldOrder(f, o')
    ensures Decoded(f, o) == Decoded(f, o')
  {
    if f.Object? {
      AgreeingIsOrderFree(f.members, o, o');
    }
  }

  lemma DescribedOrderFree(w: Wire, appID: int, id: AssetClassKey, os: FieldOrders, os': FieldOrders)
    requires FieldsAgree(w) && AreFieldOrders(w, os) && AreFieldOrders(w, os')
    ensures Described(w, appID, id, os) == Described(w, appID, id, os')
  {
    FieldOrderFree(w.Tags, os.tags, os'.tags);
    FieldOrderFree(w.Descriptions, os.descriptions, os'.descriptions);
    FieldOrderFree(w.Actions, os.actions, os'.actions);
    FieldOrderFree(w.FraudWarnings, os.fraudWarnings, os'.fraudWarnings);
  }

  /** The stored entries resolve to pairwise distinct identities, of underscore-free classes. */
  ghost predicate DistinctIdentities(r: Response, table: map<string, string>) {
    && (forall n :: Survives(n, r, table) ==> '_' !in Resolve(n, r[n].value, table).ClassID)
    && (forall n, n' :: Survives(n, r, table) && Survives(n', r, table) && n != n' ==>
          Resolve(n, r[n].value, table) != Resolve(n', r[n'].value, table))
  }

  /** Distinct identities and agreeing fields make a response consistent, and so its merge independent of
      the iteration order. */
  lemma DistinctIsConsistent(r: Response, table: map<string, string>, appID: int)
    requires DistinctIdentities(r, table)
    requires forall n :: Survives(n, r, table) ==> FieldsAgree(r[n].value)
    ensures Consistent(r, table, appID)
  {
    forall v, v' |
      && IsVisit(v, r) && Survives(v.name, r, table)
      && IsVisit(v', r) && Survives(v'.name, r, table)
      && Contribution(v, r, table, appID).Key() == Contribution(v', r, table, appID).Key()
      ensures Contribution(v, r, table, appID) == Contribution(v', r, table, appID)
    {
      var id, id' := Resolve(v.name, r[v.name].value, table), Resolve(v'.name, r[v'.name].value, table);
      KeyInjective(appID, id.ClassID, id.InstanceID, appID, id'.ClassID, id'.InstanceID);
      assert v.name == v'.name;
      DescribedOrderFree(r[v.name].value, appID, id, v.orders, v'.orders);
    }
  }

  // ----- The exact condition -----

  /** Two entries make the same description, their fields read in some order. */
  ghost predicate SameDescription(w: Wire, id: AssetClassKey, w': Wire, id': AssetClassKey, appID: int) {
    exists os, os' ::
      AreFieldOrders(w, os) && AreFieldOrders(w', os') && Described(w, appID, id, os) == Described(w', appID, id', os')
  }

  /** No stored entry has colliding index keys with different values, and entries stored under one key
      make the same description. */
  ghost predicate Unambiguous(r: Response, table: map<string, string>, appID: int) {
    && (forall n :: Survives(n, r, table) ==> FieldsAgree(r[n].value))
    && (forall n, n', key :: Stores(n, key, r, table, appID) && Stores(n', key, r, table, appID) ==>
          SameDescription(r[n].value, Resolve(n, r[n].value, table),
                          r[n'].value, Resolve(n', r[n'].value, table), appID))
  }

  lemma UnambiguousIsConsistent(r: Response, table: map<string, string>, appID: int)
    requires Unambiguous(r, table, appID)
    ensures Consistent(r, table, appID)
  {
    forall v, v' |
      && IsVisit(v, r) && Survives(v.name, r, table)
      && IsVisit(v', r) && Survives(v'.name, r, table)
      && Contribution(v, r, table, appID).Key() == Contribution(v', r, table, appID).Key()
      ensures Contribution(v, r, table, appID) == Contribution(v', r, table, appID)
    {
      var w, w' := r[v.name].value, r[v'.name].value;
      var id, id' := Resolve(v.name, w, table), Resolve(v'.name, w', table);
      var key := AssetDescriptionKey(appID, id.ClassID, id.InstanceID);
      assert Stores(v.name, key, r, table, appID) && Stores(v'.name, key, r, table, appID);
      assert SameDescription(w, id, w', id', appID);
      var os, os' :| AreFieldOrders(w, os) && AreFieldOrders(w', os')
                     && Described(w, appID, id, os) == Described(w', appID, id', os');
      DescribedOrderFree(w, appID, id, os, v.orders);
      DescribedOrderFree(w', appID, id', os', v'.orders);
    }
  }

  /** Reading one field in two orders, and the others in one. */
  lemma FieldShows<T>(f: Field<T>)
    requires forall o, o' :: IsFieldOrder(f, o) && IsFieldOrder(f, o') ==> Decoded(f, o) == Decoded(f, o')
    ensures FieldAgrees(f)
  {
    if f.Object? {
      forall o, o' | IsOrder(o, f.members.Keys) && IsOrder(o', f.members.Keys)
        ensures ByIndexKey(f.members, o) == ByIndexKey(f.members, o')
      {
        assert IsFieldOrder(f, o) && IsFieldOrder(f, o');
        assert Decoded(f, o) == Decoded(f, o');
      }
      OrderFreeIff(f.members);
    }
  }

  lemma ContributionsAgree(r: Response, table: map<string, string>, appID: int, n: string,
                           os: FieldOrders, os': FieldOrders)
    requires Consistent(r, table, appID) && Survives(n, r, table)
    requires AreFieldOrders(r[n].value, os) && AreFieldOrders(r[n].value, os')
    ensures Described(r[n].value, appID, Resolve(n, r[n].value, table), os)
         == Described(r[n].value, appID, Resolve(n, r[n].value, table), os')
  {
    var v, v' := Visit(n, os), Visit(n, os');
    assert IsVisit(v, r) && IsVisit(v', r);
    assert Contribution(v, r, table, appID) == Contribution(v', r, table, appID);
  }

  lemma ConsistentFieldsAgree(r: Response, table: map<string, string>, appID: int, n: string)
    requires Consistent(r, table, appID) && Survives(n, r, table)
    ensures FieldsAgree(r[n].value)
  {
    var w := r[n].value;
    var os := SomeFieldOrders(w);
    forall o, o' | IsFieldOrder(w.Tags, o) && IsFieldOrder(w.Tags, o')
      ensures Decoded(w.Tags, o) == Decoded(w.Tags, o')
    {
      ContributionsAgree(r, table, appID, n, os.(tags := o), os.(tags := o'));
    }
    forall o, o' | IsFieldOrder(w.Descriptions, o) && IsFieldOrder(w.Descriptions, o')
      ensures Decoded(w.Descriptions, o) == Decoded(w.Descriptions, o')
    {
      ContributionsAgree(r, table, appID, n, os.(descriptions := o), os.(descriptions := o'));
    }
    forall o, o' | IsFieldOrder(w.Actions, o) && IsFieldOrder(w.Actions, o')
      ensures Decoded(w.Actions, o) == Decoded(w.Actions, o')
    {
      ContributionsAgree(r, table, appID, n, os.(actions := o), os.(actions := o'));
    }
    forall o, o' | IsFieldOrder(w.FraudWarnings, o) && IsFieldOrder(w.FraudWarnings, o')
      ensures Decoded(w.FraudWarnings, o) == Decoded(w.FraudWarnings, o')
    {
      ContributionsAgree(r, table, appID, n, os.(fraudWarnings := o), os.(fraudWarnings := o'));
    }
    FieldShows(w.Tags);
    FieldShows(w.Descriptions);
    FieldShows(w.Actions);
    FieldShows(w.FraudWarnings);
  }

  lemma ConsistentSameDescription(r: Response, table: map<string, string>, appID: int, n: string, n': string, key: string)
    requires Consistent(r, table, appID) && Stores(n, key, r, table, appID) && Stores(n', key, r, table, appID)
    ensures SameDescription(r[n].value, Resolve(n, r[n].value, table),
                            r[n'].value, Resolve(n', r[n'].value, table), appID)
  {
    var os := SomeFieldOrders(r[n].value);
    var os' := SomeFieldOrders(r[n'].value);
    var v, v' := Visit(n, os), Visit(n', os');
    assert IsVisit(v, r) && IsVisit(v', r);
    assert Contribution(v, r, table, appID) == Contribution(v', r, table, appID);
  }

  lemma ConsistentIff(r: Response, table: map<string, string>, appID: int)
    ensures Consistent(r, table, appID) <==> Unambiguous(r, table, appID)
  {
    if Unambiguous(r, table, appID) {
      UnambiguousIsConsistent(r, table, appID);
    }
    if Consistent(r, table, appID) {
      forall n | Survives(n, r, table)
        ensures FieldsAgree(r[n].value)
      {
        ConsistentFieldsAgree(r, table, appID, n);
      }
      forall n, n', key | Stores(n, key, r, table, appID) && Stores(n', key, r, table, appID)
        ensures SameDescription(r[n].value, Resolve(n, r[n].value, table),
                                r[n'].value, Resolve(n', r[n'].value, table), appID)
      {
        ConsistentSameDescription(r, table, appID, n, n', key);
      }
    }
  }

  /** The merged map is independent of every iteration order, over the response and inside its entries, exactly
      when the response is unambiguous. */
  lemma MergeOrderFreeExactly(r: Response, table: map<string, string>, appID: int)
    ensures MergeOrderFree(r, table, appID) <==> Unambiguous(r, table, appID)
  {
    MergeOrderFreeIff(r, table, appID);
    ConsistentIff(r, table, appID);
  }

  // ----- A response whose order shows -----

  function Named(name: string): Wire {
    Wire("", "", name, "", "", "", "", "", "", "", Missing, Missing, Missing, Missing)
  }

  /** Two entries that name one class in two ways. */
  const TWICE: Response := map["1" := Some(Named("one")), "1_" := Some(Named("other"))]

  lemma OrderShows(appID: int)
    ensures !MergeOrderFree(TWICE, map[], appID)
  {
    assert Resolve("1", Named("one"), map[]) == AssetClassKey("1", "") by {
      CutAbsent("1", '_');
    }
    assert Resolve("1_", Named("other"), map[]) == AssetClassKey("1", "") by {
      CutJoined("1", '_', "");
      assert "1" + "_" + "" == "1_";
    }
    var key := AssetDescriptionKey(appID, "1", "");
    assert Stores("1", key, TWICE, map[], appID) && Stores("1_", key, TWICE, map[], appID);
    assert !SameDescription(Named("one"), AssetClassKey("1", ""), Named("other"), AssetClassKey("1", ""), appID);
    MergeOrderFreeExactly(TWICE, map[], appID);
  }
}
