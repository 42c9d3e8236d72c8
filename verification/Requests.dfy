/** The parameter map of a chunk's request loses nothing of the key list. */
module Requests {
  import opened Wrappers
  import opened Decimal
  import opened SteamAPI
  import opened AssetClassInfo

  const FIXED: set<string> := {"key", "access_token", "appid", "class_count", "language"}

  /** Indexed names are distinct from each other and from every fixed name. */
  lemma NamesApart(i: nat, j: nat)
    ensures ClassName(i) != InstanceName(j)
    ensures ClassName(i) == ClassName(j) ==> i == j
    ensures InstanceName(i) == InstanceName(j) ==> i == j
  {
    assert ClassName(i)[0] == 'c' && InstanceName(j)[0] == 'i';
    assert ClassName(i)[7..] == Itoa(i) && ClassName(j)[7..] == Itoa(j);
    assert InstanceName(i)[10..] == Itoa(i) && InstanceName(j)[10..] == Itoa(j);
    if Itoa(i) == Itoa(j) {
      ItoaInjective(i, j);
    }
  }

  lemma FixedApart(i: nat)
    ensures ClassName(i) !in FIXED && InstanceName(i) !in FIXED
  {
    assert ClassName(i)[0] == 'c' && InstanceName(i)[0] == 'i';
    assert ClassName(i)[5] == 'i' && "class_count"[5] == '_';
  }

  /** Setting the indexed parameters leaves every other parameter alone, ... */
  lemma {:induction false} OthersKept(base: map<string, string>, keys: seq<AssetClassKey>, name: string)
    requires forall i: nat :: i < |keys| ==> name != ClassName(i) && name != InstanceName(i)
    ensures name in WithKeys(base, keys) <==> name in base
    ensures name in base ==> WithKeys(base, keys)[name] == base[name]
  {
    if keys != [] {
      OthersKept(base, keys[..|keys| - 1], name);
    }
  }

  /** ... and makes every pair of the list readable. */
  lemma {:induction false} PairReadable(base: map<string, string>, keys: seq<AssetClassKey>, i: nat)
    requires i < |keys| && ClassName(i) !in base && InstanceName(i) !in base
    ensures Get(WithKeys(base, keys), ClassName(i)) == keys[i].ClassID
    ensures Get(WithKeys(base, keys), InstanceName(i)) == keys[i].InstanceID
  {
    var n := |keys| - 1;
    if i < n {
      PairReadable(base, keys[..n], i);
      EarlierKept(base, keys, i);
    } else {
      LastReadable(base, keys);
    }
  }

  lemma EarlierKept(base: map<string, string>, keys: seq<AssetClassKey>, i: nat)
    requires i < |keys| - 1
    ensures var params, earlier := WithKeys(base, keys), WithKeys(base, keys[..|keys| - 1]);
            && Get(params, ClassName(i)) == Get(earlier, ClassName(i))
            && Get(params, InstanceName(i)) == Get(earlier, InstanceName(i))
  {
    var n := |keys| - 1;
    NamesApart(i, n);
    NamesApart(n, i);
    OtherKept(base, keys, ClassName(i));
    OtherKept(base, keys, InstanceName(i));
  }

  lemma OtherKept(base: map<string, string>, keys: seq<AssetClassKey>, name: string)
    requires keys != [] && name != ClassName(|keys| - 1) && name != InstanceName(|keys| - 1)
    ensures Get(WithKeys(base, keys), name) == Get(WithKeys(base, keys[..|keys| - 1]), name)
  {
  }

  lemma LastReadable(base: map<string, string>, keys: seq<AssetClassKey>)
    requires keys != [] && InstanceName(|keys| - 1) !in base
    ensures Get(WithKeys(base, keys), ClassName(|keys| - 1)) == keys[|keys| - 1].ClassID
    ensures Get(WithKeys(base, keys), InstanceName(|keys| - 1)) == keys[|keys| - 1].InstanceID
  {
    var n := |keys| - 1;
    NamesApart(n, n);
    LastInstanceFresh(base, keys[..n]);
  }

  /** Setting some parameters leaves room for the next instance. */
  lemma LastInstanceFresh(base: map<string, string>, keys: seq<AssetClassKey>)
    requires InstanceName(|keys|) !in base
    ensures InstanceName(|keys|) !in WithKeys(base, keys)
  {
    var n := |keys|;
    forall j: nat | j < n
      ensures InstanceName(n) != ClassName(j) && InstanceName(n) != InstanceName(j)
    {
      NamesApart(n, j);
      NamesApart(j, n);
    }
    OthersKept(base, keys, InstanceName(n));
  }

  /** The remote end reads back exactly the key list, the app ID, the language and the authentication. */
  lemma RequestLossless(auth: map<string, string>, appID: int, keys: seq<AssetClassKey>)
    requires IsAuth(auth) && |keys| <= MAX_INT
    ensures ReadKeys(Params(auth, appID, keys)) == keys
    ensures Get(Params(auth, appID, keys), "appid") == Itoa(appID)
    ensures Get(Params(auth, appID, keys), "language") == "en"
    ensures forall name :: name in auth ==> Get(Params(auth, appID, keys), name) == auth[name]
  {
    var base, params := FixedParams(auth, appID, |keys|), Params(auth, appID, keys);
    AtoiInvertsItoa(|keys|);
    forall name | name in FIXED
      ensures name in params <==> name in base
      ensures name in base ==> params[name] == base[name]
    {
      FixedKept(base, keys, name);
    }
    assert "appid" in FIXED && "class_count" in FIXED && "language" in FIXED;
    assert Get(params, "class_count") == Itoa(|keys|);
    forall i: nat | i < |keys|
      ensures AssetClassKey(Get(params, ClassName(i)), Get(params, InstanceName(i))) == keys[i]
    {
      FixedApart(i);
      PairReadable(base, keys, i);
    }
  }

  /** The names that a request for a key list sets next to the authentication. */
  ghost predicate IsRequestName(name: string, keys: seq<AssetClassKey>) {
    || name in {"appid", "class_count", "language"}
    || NamesSomePair(name, keys)
  }

  ghost predicate NamesSomePair(name: string, keys: seq<AssetClassKey>) {
    exists i: nat :: i < |keys| && IsPairName(name, i, keys[i])
  }

  ghost predicate IsPairName(name: string, i: nat, k: AssetClassKey) {
    name == "classid" + Itoa(i) || (name == "instanceid" + Itoa(i) && k.InstanceID != "")
  }

  /** A request name by name: the app ID, the number of keys, the language, each pair under its index, its
      instance only if there is one, the authentication, and nothing else. */
  lemma RequestIs(auth: map<string, string>, appID: int, keys: seq<AssetClassKey>)
    requires IsAuth(auth)
    ensures var params := Params(auth, appID, keys);
            && Get(params, "appid") == Itoa(appID)
            && Get(params, "class_count") == Itoa(|keys|)
            && Get(params, "language") == "en"
            && (forall i: nat :: i < |keys| ==>
                  && Get(params, "classid" + Itoa(i)) == keys[i].ClassID
                  && Get(params, "instanceid" + Itoa(i)) == keys[i].InstanceID)
            && (forall name :: name in auth ==> Get(params, name) == auth[name])
            && (forall name :: name in params <==> name in auth || IsRequestName(name, keys))
  {
    var base, params := FixedParams(auth, appID, |keys|), Params(auth, appID, keys);
    FixedKept(base, keys, "appid");
    FixedKept(base, keys, "class_count");
    FixedKept(base, keys, "language");
    forall name | name in auth
      ensures Get(params, name) == auth[name]
    {
      FixedKept(base, keys, name);
    }
    forall i: nat | i < |keys|
      ensures Get(params, "classid" + Itoa(i)) == keys[i].ClassID
      ensures Get(params, "instanceid" + Itoa(i)) == keys[i].InstanceID
    {
      FixedApart(i);
      PairReadable(base, keys, i);
    }
    forall name
      ensures name in params <==> name in auth || IsRequestName(name, keys)
    {
      NamesSet(base, keys, name);
    }
  }

  lemma {:induction false} NamesSet(base: map<string, string>, keys: seq<AssetClassKey>, name: string)
    ensures name in WithKeys(base, keys) <==> name in base || NamesSomePair(name, keys)
  {
    if keys != [] {
      NamesSet(base, keys[..|keys| - 1], name);
      LastPairSets(base, keys, name);
      NamesLastPair(name, keys);
    }
  }

  lemma LastPairSets(base: map<string, string>, keys: seq<AssetClassKey>, name: string)
    requires keys != []
    ensures var n := |keys| - 1;
            name in WithKeys(base, keys) <==> name in WithKeys(base, keys[..n]) || IsPairName(name, n, keys[n])
  {
  }

  lemma NamesLastPair(name: string, keys: seq<AssetClassKey>)
    requires keys != []
    ensures var n := |keys| - 1;
            NamesSomePair(name, keys) <==> NamesSomePair(name, keys[..n]) || IsPairName(name, n, keys[n])
  {
    var front := keys[..|keys| - 1];
    assert forall i :: 0 <= i < |front| ==> front[i] == keys[i];
    if i: nat :| i < |front| && IsPairName(name, i, front[i]) {
      assert IsPairName(name, i, keys[i]);
    }
  }

  /** The credential of a client reaches the remote end: the API key under `key` with no token beside it,
      whatever jar and token there are, and without an API key the token under `access_token` alone. */
  lemma CredentialSent(api: API, appID: int, keys: seq<AssetClassKey>)
    requires api.Auth().Ok?
    ensures var params := Params(api.Auth().value, appID, keys);
            if api.APIKey != "" then
              "key" in params && params["key"] == api.APIKey && "access_token" !in params
            else
              "access_token" in params && api.Token() == Ok(params["access_token"]) && "key" !in params
  {
    AuthIs(api);
    var base := FixedParams(api.Auth().value, appID, |keys|);
    FixedKept(base, keys, "key");
    FixedKept(base, keys, "access_token");
  }

  lemma FixedKept(base: map<string, string>, keys: seq<AssetClassKey>, name: string)
    requires name in FIXED
    ensures name in WithKeys(base, keys) <==> name in base
    ensures name in base ==> WithKeys(base, keys)[name] == base[name]
  {
    forall i: nat | i < |keys|
      ensures name != ClassName(i) && name != InstanceName(i)
    {
      FixedApart(i);
    }
    OthersKept(base, keys, name);
  }
}
