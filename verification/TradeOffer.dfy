/** The description index that `GetTradeOffers` and `GetTradeOfferWithDescriptions` build. */
module TradeOffers {
  import opened Wrappers
  import opened AssetTypes

  datatype TradeOffer = TradeOffer(
    ID: string,
    PartnerAccountID: nat,
    ItemsToGive: seq<TradeAsset>,
    ItemsToReceive: seq<TradeAsset>
  )

  datatype GetTradeOfferResult = GetTradeOfferResult(
    Offer: TradeOffer,
    Descriptions: Option<map<string, AssetDescription>>
  )

  /** The decoded response; `Descriptions` starts as the nil map, `None`. */
  class TradeOffersResponse {
    var SentOffers: seq<TradeOffer>
    var ReceivedOffers: seq<TradeOffer>
    var NextCursor: nat
    var Descriptions: Option<map<string, AssetDescription>>

    constructor (sent: seq<TradeOffer>, received: seq<TradeOffer>, next: nat)
      ensures SentOffers == sent && ReceivedOffers == received && NextCursor == next
      ensures Descriptions == None
    {
      SentOffers, ReceivedOffers, NextCursor := sent, received, next;
      Descriptions := None;
    }

    /** The loop that fills `Descriptions`; with nothing to index the nil map stays. */
    method IndexDescriptions(descriptions: seq<AssetDescription>)
      modifies this`Descriptions
      ensures Descriptions == if descriptions == [] then old(Descriptions) else Indexed(descriptions)
    {
      if |descriptions| > 0 {
        Descriptions := Some(map[]);
        for n := 0 to |descriptions|
          invariant Descriptions == Some(IndexOf(descriptions[..n]))
        {
          var d := descriptions[n];
          assert descriptions[..n + 1][..n] == descriptions[..n];
          Descriptions := Some(Descriptions.value[AssetDescriptionKey(d.AppID, d.ClassID, d.InstanceID) := d]);
        }
        assert descriptions[..|descriptions|] == descriptions;
      }
    }
  }

  /** The part of `GetTradeOffers` that follows decoding. */
  method GetTradeOffers(sent: seq<TradeOffer>, received: seq<TradeOffer>, next: nat,
                        descriptions: seq<AssetDescription>)
    returns (out: TradeOffersResponse)
    ensures fresh(out)
    ensures out.SentOffers == sent && out.ReceivedOffers == received && out.NextCursor == next
    ensures out.Descriptions == Indexed(descriptions)
  {
    out := new TradeOffersResponse(sent, received, next);
    out.IndexDescriptions(descriptions);
  }

  /** The part of `GetTradeOfferWithDescriptions` that follows decoding. */
  method GetTradeOfferWithDescriptions(offer: Option<TradeOffer>, descriptions: seq<AssetDescription>)
    returns (r: Result<GetTradeOfferResult, string>)
    ensures r == match offer
                 case None => Err("offer not found")
                 case Some(o) => Ok(GetTradeOfferResult(o, Indexed(descriptions)))
  {
    if offer.None? {
      return Err("offer not found");
    }
    var descs: Option<map<string, AssetDescription>> := None;
    if |descriptions| > 0 {
      descs := Some(map[]);
      for n := 0 to |descriptions|
        invariant descs == Some(IndexOf(descriptions[..n]))
      {
        var d := descriptions[n];
        assert descriptions[..n + 1][..n] == descriptions[..n];
        descs := Some(descs.value[AssetDescriptionKey(d.AppID, d.ClassID, d.InstanceID) := d]);
      }
      assert descriptions[..|descriptions|] == descriptions;
    }
    r := Ok(GetTradeOfferResult(offer.value, descs));
  }

  /** The map left by storing the descriptions in order: a later one replaces an earlier one. */
  function IndexOf(descriptions: seq<AssetDescription>): map<string, AssetDescription> {
    if descriptions == [] then map[]
    else
      var last := descriptions[|descriptions| - 1];
      IndexOf(descriptions[..|descriptions| - 1])[last.Key() := last]
  }

  function Indexed(descriptions: seq<AssetDescription>): Option<map<string, AssetDescription>> {
    if descriptions == [] then None else Some(IndexOf(descriptions))
  }

  /** The index holds, for every list, exactly the keys of its descriptions, each with the last one of that
      key, whatever underscores they hold; it is nil exactly for the empty list. */
  lemma {:induction false} IndexHolds(descriptions: seq<AssetDescription>, key: string) returns (n: int)
    ensures Indexed(descriptions).None? <==> descriptions == []
    ensures n >= 0 ==> IsLastOf(descriptions, key, n) && Lookup(Indexed(descriptions), key) == Some(descriptions[n])
    ensures n < 0 ==> NoneHas(descriptions, key) && Lookup(Indexed(descriptions), key) == None
  {
    n := -1;
    if descriptions != [] {
      var front, last := descriptions[..|descriptions| - 1], descriptions[|descriptions| - 1];
      n := IndexHolds(front, key);
      if last.Key() == key {
        n := |descriptions| - 1;
      } else {
        LastOfFront(descriptions, key, n);
      }
    }
  }

  ghost predicate NoneHas(descriptions: seq<AssetDescription>, key: string) {
    forall n :: 0 <= n < |descriptions| ==> descriptions[n].Key() != key
  }

  lemma LastOfFront(descriptions: seq<AssetDescription>, key: string, n: int)
    requires descriptions != [] && descriptions[|descriptions| - 1].Key() != key
    ensures n >= 0 && IsLastOf(descriptions[..|descriptions| - 1], key, n) ==> IsLastOf(descriptions, key, n)
    ensures NoneHas(descriptions[..|descriptions| - 1], key) ==> NoneHas(descriptions, key)
  {
    assert forall m :: 0 <= m < |descriptions| - 1 ==> descriptions[m] == descriptions[..|descriptions| - 1][m];
  }

  /** The last of the descriptions with this key. */
  ghost predicate IsLastOf(descriptions: seq<AssetDescription>, key: string, n: nat) {
    n < |descriptions| && descriptions[n].Key() == key
    && forall m :: n < m < |descriptions| ==> descriptions[m].Key() != key
  }

  /** Reading a Go map: a nil map holds nothing. */
  function Lookup(index: Option<map<string, AssetDescription>>, key: string): Option<AssetDescription> {
    if index.Some? && key in index.value then Some(index.value[key]) else None
  }

  predicate Describes(d: AssetDescription, asset: TradeAsset) {
    d.AppID == asset.AppID && d.ClassID == asset.ClassID && d.InstanceID == asset.InstanceID
  }

  /** The last description with the asset's own app, class and instance ID: what the index stands for. */
  function Scan(descriptions: seq<AssetDescription>, asset: TradeAsset): (r: Option<AssetDescription>)
    ensures r.Some? ==> exists n: nat ::
                IsLast(descriptions, asset, n) && descriptions[n] == r.value
    ensures r.None? ==> forall n :: 0 <= n < |descriptions| ==> !Describes(descriptions[n], asset)
  {
    if descriptions == [] then None
    else
      var n := |descriptions| - 1;
      if Describes(descriptions[n], asset) then
        assert IsLast(descriptions, asset, n);
        Some(descriptions[n])
      else
        LastStays(descriptions, asset);
        Scan(descriptions[..n], asset)
  }

  /** The last of the descriptions with the asset's app, class and instance. */
  ghost predicate IsLast(descriptions: seq<AssetDescription>, asset: TradeAsset, n: nat) {
    n < |descriptions| && Describes(descriptions[n], asset)
    && forall m :: n < m < |descriptions| ==> !Describes(descriptions[m], asset)
  }

  lemma LastStays(descriptions: seq<AssetDescription>, asset: TradeAsset)
    requires descriptions != [] && !Describes(descriptions[|descriptions| - 1], asset)
    ensures forall n: nat :: IsLast(descriptions[..|descriptions| - 1], asset, n) ==> IsLast(descriptions, asset, n)
  {
  }

  ghost predicate PlainClasses(descriptions: seq<AssetDescription>) {
    forall n :: 0 <= n < |descriptions| ==> '_' !in descriptions[n].ClassID
  }

  /** The index answers every lookup as a linear scan would. */
  lemma {:induction false} LookupIsScan(descriptions: seq<AssetDescription>, asset: TradeAsset)
    requires PlainClasses(descriptions) && '_' !in asset.ClassID
    ensures Lookup(Indexed(descriptions), asset.DescriptionKey()) == Scan(descriptions, asset)
  {
    if descriptions != [] {
      var n := |descriptions| - 1;
      var last := descriptions[n];
      LookupIsScan(descriptions[..n], asset);
      assert Describes(last, asset) ==> last.Key() == asset.DescriptionKey();
      if last.Key() == asset.DescriptionKey() {
        KeyInjective(last.AppID, last.ClassID, last.InstanceID, asset.AppID, asset.ClassID, asset.InstanceID);
      }
    }
  }

  /** The index answers for this asset as a scan does, whatever well-formed list it was built from. */
  ghost predicate LookupIsSound(asset: TradeAsset) {
    forall descriptions ::
      PlainClasses(descriptions) ==>
        Lookup(Indexed(descriptions), asset.DescriptionKey()) == Scan(descriptions, asset)
  }

  /** An asset's own class ID must be free of underscores too, and that is all it takes. */
  lemma LookupIsSoundIff(asset: TradeAsset)
    ensures LookupIsSound(asset) <==> '_' !in asset.ClassID
  {
    if '_' in asset.ClassID {
      var (x, y) := Strings.Cut(asset.ClassID, '_');
      Strings.CutRejoins(asset.ClassID, '_');
      var d := AssetDescription(asset.AppID, x, y + "_" + asset.InstanceID,
                                "", "", "", false, false, false, "", "", [], [], [], []);
      KeysMeet(d.AppID, d.ClassID, d.InstanceID, asset.AppID, asset.ClassID, asset.InstanceID);
      assert d.ClassID + "_" + d.InstanceID == asset.ClassID + "_" + asset.InstanceID;
      assert [d][..0] == [];
      assert PlainClasses([d]);
      assert Lookup(Indexed([d]), asset.DescriptionKey()) != Scan([d], asset);
    } else {
      forall descriptions | PlainClasses(descriptions)
        ensures Lookup(Indexed(descriptions), asset.DescriptionKey()) == Scan(descriptions, asset)
      {
        LookupIsScan(descriptions, asset);
      }
    }
  }
}
