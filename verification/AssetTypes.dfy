/** Trade assets, their descriptions, and the flattened key that links the two. */
module AssetTypes {
  import opened Decimal
  import opened Strings

  datatype DescriptionLine = DescriptionLine(Type: string, Value: string, Color: string)

  datatype Tag = Tag(
    Category: string,
    InternalName: string,
    LocalizedCategoryName: string,
    LocalizedTagName: string,
    Color: string
  )

  datatype Action = Action(Link: string, Name: string)

  datatype AssetDescription = AssetDescription(
    AppID: int,
    ClassID: string,
    InstanceID: string,
    Name: string,
    MarketHashName: string,
    Type: string,
    Tradable: bool,
    Marketable: bool,
    Commodity: bool,
    IconURL: string,
    IconURLLarge: string,
    Descriptions: seq<DescriptionLine>,
    Tags: seq<Tag>,
    Actions: seq<Action>,
    FraudWarnings: seq<string>
  ) {
    /** The key under which every map of descriptions stores this description. */
    function Key(): string {
      AssetDescriptionKey(AppID, ClassID, InstanceID)
    }
  }

  datatype TradeAsset = TradeAsset(
    AppID: int,
    ContextID: string,
    AssetID: string,
    CurrencyID: string,
    ClassID: string,
    InstanceID: string,
    Amount: string,
    Missing: bool
  ) {
    /** The key to look this asset's description up with. */
    function DescriptionKey(): string {
      AssetDescriptionKey(AppID, ClassID, InstanceID)
    }
  }

  function AssetDescriptionKey(appID: int, classID: string, instanceID: string): string {
    Itoa(appID) + "_" + classID + "_" + instanceID
  }

  /** One key spelled out. */
  lemma KeyReads()
    ensures AssetDescriptionKey(440, "101", "1") == "440_101_1"
  {
    assert Digits(4) == "4" && Digits(44) == "44" && Digits(440) == "440";
  }

  /** Everything two identities with one key have in common, and no more than that. */
  lemma KeysMeet(a: int, c: string, i: string, a': int, c': string, i': string)
    ensures AssetDescriptionKey(a, c, i) == AssetDescriptionKey(a', c', i')
       <==> a == a' && c + "_" + i == c' + "_" + i'
  {
    var rest, rest' := c + "_" + i, c' + "_" + i';
    assert AssetDescriptionKey(a, c, i) == Itoa(a) + "_" + rest;
    assert AssetDescriptionKey(a', c', i') == Itoa(a') + "_" + rest';
    CutPrinted(a, rest);
    CutPrinted(a', rest');
    if Itoa(a) == Itoa(a') {
      ItoaInjective(a, a');
    }
  }

  /** The first underscore of a key ends the app ID, whatever its sign. */
  lemma CutPrinted(a: int, rest: string)
    ensures Cut(Itoa(a) + "_" + rest, '_') == (Itoa(a), rest)
  {
    if '_' in Itoa(a) {
      ItoaAlphabet(a, '_');
      assert false;
    }
    CutJoined(Itoa(a), '_', rest);
  }

  /** The key is injective on underscore-free class IDs, whatever the app and instance IDs. */
  lemma KeyInjective(a: int, c: string, i: string, a': int, c': string, i': string)
    requires '_' !in c && '_' !in c'
    requires AssetDescriptionKey(a, c, i) == AssetDescriptionKey(a', c', i')
    ensures a == a' && c == c' && i == i'
  {
    KeysMeet(a, c, i, a', c', i');
    CutJoined(c, '_', i);
    CutJoined(c', '_', i');
  }

  /** No other identity at all shares this one's key. */
  ghost predicate KeyIsUnique(a: int, c: string, i: string) {
    forall a', c', i' ::
      AssetDescriptionKey(a', c', i') == AssetDescriptionKey(a, c, i) ==> a' == a && c' == c && i' == i
  }

  /** Exactly the identities without underscores have a key to themselves. */
  lemma KeyIsUniqueIff(a: int, c: string, i: string)
    ensures KeyIsUnique(a, c, i) <==> '_' !in c && '_' !in i
  {
    if '_' in c {
      var (x, y) := Cut(c, '_');
      CutRejoins(c, '_');
      assert c + "_" + i == x + "_" + (y + "_" + i);
      KeysMeet(a, c, i, a, x, y + "_" + i);
      assert x != c && !KeyIsUnique(a, c, i);
    } else if '_' in i {
      var (x, y) := Cut(i, '_');
      CutRejoins(i, '_');
      assert c + "_" + i == (c + "_" + x) + "_" + y;
      KeysMeet(a, c, i, a, c + "_" + x, y);
      assert c + "_" + x != c && !KeyIsUnique(a, c, i);
    } else {
      forall a', c', i' | AssetDescriptionKey(a', c', i') == AssetDescriptionKey(a, c, i)
        ensures a' == a && c' == c && i' == i
      {
        KeysMeet(a', c', i', a, c, i);
        OneUnderscore(c', i', c, i);
      }
    }
  }

  /** A string with one underscore splits at it in only one way. */
  lemma OneUnderscore(c': string, i': string, c: string, i: string)
    requires c' + "_" + i' == c + "_" + i
    requires '_' !in c && '_' !in i
    ensures c' == c && i' == i
  {
    var s := c + "_" + i;
    assert s[|c'|] == '_';
    assert forall k :: 0 <= k < |s| && s[k] == '_' ==> k == |c|;
    assert c' == s[..|c'|] && c == s[..|c|];
    assert i' == s[|c'| + 1..] && i == s[|c| + 1..];
  }
}
