/** The API client: which credential a request carries, and how the cookie yields its token. */
module SteamAPI {
  import opened Wrappers
  import opened Strings

  datatype Cookie = Cookie(Name: string, Value: string)

  /** The URL-encoded "||" between the Steam ID and the token. */
  const SEPARATOR: string := "%7C%7C"

  const LOGIN_COOKIE: string := "steamLoginSecure"

  const NO_COOKIE: string := "missing steamLoginSecure cookie"
  const BAD_COOKIE: string := "unsplittable steamLoginSecure cookie"
  const NO_TOKEN: string := "no access token available (no cookie jar or token set)"

  /** `url.Values` as far as it is used here: every name holds the one value last set. */
  class Values {
    var Entries: map<string, string>

    constructor ()
      ensures Entries == map[]
    {
      Entries := map[];
    }

    method Set(name: string, value: string)
      modifies this
      ensures Entries == old(Entries)[name := value]
    {
      Entries := Entries[name := value];
    }
  }

  /** The token of the first login cookie, between its first separator and the next one. */
  function TokenOf(cookies: seq<Cookie>): Result<string, string> {
    if cookies == [] then Err(NO_COOKIE)
    else if cookies[0].Name == LOGIN_COOKIE then
      var parts := Split(cookies[0].Value, SEPARATOR);
      if |parts| < 2 then Err(BAD_COOKIE) else Ok(parts[1])
    else TokenOf(cookies[1..])
  }

  method ExtractAccessToken(cookies: seq<Cookie>) returns (r: Result<string, string>)
    ensures r == TokenOf(cookies)
  {
    for i := 0 to |cookies|
      invariant TokenOf(cookies) == TokenOf(cookies[i..])
    {
      var cookie := cookies[i];
      assert cookies[i..][1..] == cookies[i + 1..];
      if cookie.Name == LOGIN_COOKIE {
        var parts := Split(cookie.Value, SEPARATOR);
        if |parts| < 2 {
          return Err(BAD_COOKIE);
        }
        return Ok(parts[1]);
      }
    }
    assert cookies[|cookies|..] == [];
    r := Err(NO_COOKIE);
  }

  /** The client. The cookie jar is seen through the cookies it holds for steamcommunity.com. */
  class API {
    var Jar: Option<seq<Cookie>>
    var AccessToken: string
    var APIKey: string

    constructor (jar: Option<seq<Cookie>>, apiKey: string)
      ensures Jar == jar && AccessToken == "" && APIKey == apiKey
    {
      Jar, AccessToken, APIKey := jar, "", apiKey;
    }

    method SetAccessToken(token: string)
      modifies this`AccessToken
      ensures AccessToken == token
    {
      AccessToken := token;
    }

    method SetAPIKey(key: string)
      modifies this`APIKey
      ensures APIKey == key
    {
      APIKey := key;
    }

    /** The cookie's token if there is one, else the one set by hand. */
    function Token(): Result<string, string>
      reads this
    {
      if Jar.Some? && TokenOf(Jar.value).Ok? then TokenOf(Jar.value)
      else if AccessToken != "" then Ok(AccessToken)
      else Err(NO_TOKEN)
    }

    /** The one parameter that authenticates a request: the API key wins over any token. */
    function Auth(): Result<map<string, string>, string>
      reads this
    {
      if APIKey != "" then Ok(map["key" := APIKey])
      else
        match Token()
        case Ok(token) => Ok(map["access_token" := token])
        case Err(e) => Err(e)
    }

    method GetAccessToken() returns (r: Result<string, string>)
      ensures r == Token()
    {
      if Jar.Some? {
        var token := ExtractAccessToken(Jar.value);
        if token.Ok? {
          return token;
        }
      }
      if AccessToken != "" {
        return Ok(AccessToken);
      }
      r := Err(NO_TOKEN);
    }

    method GetAuthParams() returns (r: Result<Values, string>)
      ensures APIKey != "" ==> r.Ok? && r.value.Entries == map["key" := APIKey]
      ensures APIKey == "" && r.Ok? ==>
                Token() == Ok(Get(r.value.Entries, "access_token")) && r.value.Entries.Keys == {"access_token"}
      ensures r.Err? <==> APIKey == "" && Token().Err?
      ensures r.Ok? <==> Auth().Ok?
      ensures r.Ok? ==> fresh(r.value) && r.value.Entries == Auth().value
      ensures r.Err? ==> r.error == Auth().error
    {
      if APIKey != "" {
        var v := new Values();
        v.Set("key", APIKey);
        return Ok(v);
      }
      var token := GetAccessToken();
      if token.Err? {
        return Err(token.error);
      }
      var v := new Values();
      v.Set("access_token", token.value);
      r := Ok(v);
    }
  }

  /** `url.Values.Get`. */
  function Get(params: map<string, string>, name: string): string {
    if name in params then params[name] else ""
  }

  /** The authentication parameter is one of these two. */
  ghost predicate IsAuth(auth: map<string, string>) {
    auth.Keys <= {"key", "access_token"}
  }

  /** What the client authenticates with is. */
  lemma ClientAuth(api: API)
    ensures api.Auth().Ok? ==> IsAuth(api.Auth().value)
  {
  }

  /** The first login cookie. */
  ghost predicate IsFirstLogin(cookies: seq<Cookie>, n: nat) {
    && n < |cookies| && cookies[n].Name == "steamLoginSecure"
    && forall m :: 0 <= m < n ==> cookies[m].Name != "steamLoginSecure"
  }

  /** The jar has a login cookie, and the first one splits. */
  ghost predicate JarHoldsToken(jar: Option<seq<Cookie>>) {
    jar.Some? && exists n: nat :: IsFirstLogin(jar.value, n) && Occurs(jar.value[n].Value, "%7C%7C")
  }

  /** The client is without a token exactly when none was set by hand and the jar holds none. */
  lemma NoTokenIff(api: API)
    ensures api.Token() == Err("no access token available (no cookie jar or token set)")
       <==> api.AccessToken == "" && !JarHoldsToken(api.Jar)
    ensures api.Token().Err? ==> api.Token() == Err("no access token available (no cookie jar or token set)")
  {
    if api.Jar.Some? {
      TokenFound(api.Jar.value);
    }
  }

  /** The client is without credentials. */
  ghost predicate NoCredentials(api: API)
    reads api
  {
    api.APIKey == "" && api.AccessToken == "" && !JarHoldsToken(api.Jar)
  }

  /** What a client authenticates with: its API key and nothing else, whatever jar and token it has; without
      one its token and nothing else; without either it fails, exactly then. */
  lemma AuthIs(api: API)
    ensures api.APIKey != "" ==> api.Auth() == Ok(map["key" := api.APIKey])
    ensures api.APIKey == "" && api.Token().Ok? ==> api.Auth() == Ok(map["access_token" := api.Token().value])
    ensures api.Auth().Err? <==> NoCredentials(api)
    ensures api.Auth().Err? ==> api.Auth() == Err("no access token available (no cookie jar or token set)")
  {
    NoTokenIff(api);
  }

  lemma TokenFound(cookies: seq<Cookie>)
    ensures TokenOf(cookies).Ok? <==> JarHoldsToken(Some(cookies))
  {
    if n: nat :| IsFirstLogin(cookies, n) {
      TokenFoundIff(cookies, n);
      assert forall m: nat :: IsFirstLogin(cookies, m) ==> m == n;
    } else {
      NoFirstLogin(cookies, |cookies|);
      NoLoginCookie(cookies);
    }
  }

  lemma {:induction false} NoFirstLogin(cookies: seq<Cookie>, k: nat)
    requires k <= |cookies| && forall n: nat :: !IsFirstLogin(cookies, n)
    ensures forall m :: 0 <= m < k ==> cookies[m].Name != "steamLoginSecure"
  {
    if k > 0 {
      NoFirstLogin(cookies, k - 1);
      assert !IsFirstLogin(cookies, k - 1);
    }
  }

  /** A token in the jar wins over one set by hand: a client whose first login cookie is an ID and a token
      authenticates with that token, so a refreshed cookie takes effect at once. */
  lemma CookieWins(api: API, before: seq<Cookie>, id: string, token: string, after: seq<Cookie>)
    requires api.Jar == Some(before + [Cookie("steamLoginSecure", id + "%7C%7C" + token)] + after)
    requires forall i :: 0 <= i < |before| ==> before[i].Name != "steamLoginSecure"
    requires '%' !in id && !Occurs(token, "%7C%7C")
    ensures api.Token() == Ok(token)
    ensures api.APIKey == "" ==> api.Auth() == Ok(map["access_token" := token])
  {
    CookieInverted(before, id, token, after);
  }

  /** Without a token in the jar the one set by hand is used, if there is one. */
  lemma HandSetToken(api: API)
    requires !JarHoldsToken(api.Jar) && api.AccessToken != ""
    ensures api.Token() == Ok(api.AccessToken)
  {
    if api.Jar.Some? {
      TokenFound(api.Jar.value);
    }
  }

  /** The separator first occurs right after an ID without percent signs. */
  lemma IndexAfterID(id: string, rest: string)
    requires '%' !in id
    ensures Index(id + "%7C%7C" + rest, "%7C%7C") == |id|
  {
    var s := id + "%7C%7C" + rest;
    var i := Index(s, "%7C%7C");
    assert s[|id|..|id| + 6] == "%7C%7C";
    assert At(s, "%7C%7C", |id|);
    assert s[i..i + 6][0] == '%';
    assert forall j :: 0 <= j < |id| ==> s[j] == id[j];
  }

  /** The cookie format is inverted exactly for the tokens that do not hold the separator, whatever
      cookies of other names come first. */
  lemma CookieInverted(before: seq<Cookie>, id: string, token: string, after: seq<Cookie>)
    requires forall i :: 0 <= i < |before| ==> before[i].Name != "steamLoginSecure"
    requires '%' !in id
    ensures TokenOf(before + [Cookie("steamLoginSecure", id + "%7C%7C" + token)] + after) == Ok(token)
       <==> !Occurs(token, "%7C%7C")
  {
    var value := id + "%7C%7C" + token;
    SkipOthers(before, [Cookie("steamLoginSecure", value)] + after);
    assert before + [Cookie("steamLoginSecure", value)] + after == before + ([Cookie("steamLoginSecure", value)] + after);
    IndexAfterID(id, token);
    assert value[|id| + 6..] == token;
    assert Split(value, "%7C%7C") == [value[..|id|]] + Split(token, "%7C%7C");
    assert Contains(token, "%7C%7C") <==> Occurs(token, "%7C%7C");
  }

  /** With a login cookie the first one decides: a token is found exactly when its value holds the separator. */
  lemma TokenFoundIff(cookies: seq<Cookie>, n: nat)
    requires IsFirstLogin(cookies, n)
    ensures TokenOf(cookies).Ok? <==> Occurs(cookies[n].Value, "%7C%7C")
    ensures TokenOf(cookies).Err? ==> TokenOf(cookies) == Err("unsplittable steamLoginSecure cookie")
  {
    assert cookies == cookies[..n] + cookies[n..];
    SkipOthers(cookies[..n], cookies[n..]);
    SplitApart(cookies[n].Value);
  }

  /** The token stands after the separator at this position, which is the first, and reaches to the next
      separator or to the end. */
  ghost predicate IsTokenAt(value: string, i: nat, token: string) {
    && At(value, "%7C%7C", i) && (forall j: nat :: j < i ==> !At(value, "%7C%7C", j))
    && var rest := value[i + 6..];
       && token <= rest && (forall j: nat :: j < |token| ==> !At(rest, "%7C%7C", j))
       && (token == rest || At(rest, "%7C%7C", |token|))
  }

  /** That token is the one extracted from the first login cookie, with more separators or without. */
  lemma TokenIs(cookies: seq<Cookie>, n: nat, i: nat, token: string)
    requires IsFirstLogin(cookies, n) && IsTokenAt(cookies[n].Value, i, token)
    ensures TokenOf(cookies) == Ok(token)
  {
    var value := cookies[n].Value;
    assert cookies == cookies[..n] + cookies[n..];
    SkipOthers(cookies[..n], cookies[n..]);
    IndexIs(value, "%7C%7C", i);
    TokenFirst(value[i + 6..], token);
    assert Split(value, "%7C%7C") == [value[..i]] + Split(value[i + 6..], "%7C%7C");
  }

  /** So it is the one that a client with such a jar uses, whatever was set by hand. */
  lemma JarTokenUsed(api: API, n: nat, i: nat, token: string)
    requires api.Jar.Some? && IsFirstLogin(api.Jar.value, n) && IsTokenAt(api.Jar.value[n].Value, i, token)
    ensures api.Token() == Ok(token)
  {
    TokenIs(api.Jar.value, n, i, token);
  }

  lemma TokenFirst(rest: string, token: string)
    requires token <= rest && forall j: nat :: j < |token| ==> !At(rest, "%7C%7C", j)
    requires token == rest || At(rest, "%7C%7C", |token|)
    ensures Split(rest, "%7C%7C")[0] == token
  {
    if At(rest, "%7C%7C", |token|) {
      IndexIs(rest, "%7C%7C", |token|);
    } else {
      assert forall j: nat :: At(rest, "%7C%7C", j) ==> j < |rest|;
    }
  }

  /** Without one the search fails as such. */
  lemma NoLoginCookie(cookies: seq<Cookie>)
    requires forall m :: 0 <= m < |cookies| ==> cookies[m].Name != "steamLoginSecure"
    ensures TokenOf(cookies) == Err("missing steamLoginSecure cookie")
  {
    assert cookies == cookies + [];
    SkipOthers(cookies, []);
  }

  lemma SplitApart(value: string)
    ensures |Split(value, "%7C%7C")| >= 2 <==> Occurs(value, "%7C%7C")
  {
    assert Contains(value, "%7C%7C") <==> Occurs(value, "%7C%7C");
  }

  lemma {:induction false} SkipOthers(before: seq<Cookie>, rest: seq<Cookie>)
    requires forall i :: 0 <= i < |before| ==> before[i].Name != "steamLoginSecure"
    ensures TokenOf(before + rest) == TokenOf(rest)
  {
    if before == [] {
      assert before + rest == rest;
    } else {
      SkipOthers(before[1..], rest);
      assert (before + rest)[1..] == before[1..] + rest;
    }
  }
}
