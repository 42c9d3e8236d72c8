# steamapi: a verified model of the Steam Web API client core

A Dafny model of the hand-written logic in the `steamapi` package, with proofs of what its callers
rely on. `dafny verify dfyconfig.toml` checks all of it.

* **Descriptions by key** (`AssetTypes`, `TradeOffers`): the flattened key `app_class_instance`, and the
  index of descriptions that trade-offer responses are turned into.
* **Asset class lookups** (`AssetClassInfo` and the proofs in `Requests`, `Resolution`, `Merging`,
  `Consistency`, `WireForms`, `Chunking`, `PairAnswers`, `AssetLookup`): the key list is cut into chunks of 100,
  each chunk is encoded into request parameters, each response entry is given an identity from its own IDs, its response key or
  the request, and everything is merged into one shared map.
* **Indexed objects** (`IndexedObject`): `{"0": …, "1": …}` decoded into slices.
* **Log-safe body snippets** (`Utf8`, `HttpError`, `LogSafety`, `Layouts`, `Summaries`): trimming, HTML
  detection, whitespace collapsing and truncation on a rune boundary, on arbitrary bytes.
* **Schema pages** (`EconItems`, `PageRuns`): the loop that follows cursors, as a state machine over its calls.
* **Credentials** (`SteamAPI`): the API key, the token set by hand, and the token inside the login cookie.

## How the model is laid out

Code that works step by step is a method with the source's loop, over a class where it changes an object
(`API`, `Values`, `DescriptionMap`, `TradeOffersResponse`). Each such method is proved to compute a function
(`Merge`, `ByIndexKey`, `Snippet`, `Run`, …), and the properties are lemmas about these functions.

Go leaves the order of ranging over a map open. Here a loop over a map picks any key that is left, and
reports the order it took in a ghost result: `order` for one indexed object, a walk (`seq<Visit>`) for one
response, a `seq<Round>` for a whole call. A lemma about all orders or walks therefore speaks of all
executions.

The remote end is a function of the parameters it is sent (for pages, of the call number as well). Raw JSON
fields are represented by their first byte and the outcome of decoding them; an entry that does not decode is
`None`. A JSON `null` entry decodes into an entry with all fields empty, as in the source.

Strings are sequences of characters where only ASCII separators matter, and sequences of bytes in the snippet
code. Lower-casing is modelled on ASCII letters: no other rune lower-cases to a letter of the HTML marks
(`h t m l e a d b o y c p`), so the classification is that of full Unicode lower-casing.
`IsUtf8Char` is the production UTF8-char of section 4 of RFC 3629.

## Results worth knowing

* Chunking never shows against a remote end that answers each pair under its composite key, however often a class
  is requested (`PairAnswers.CompositeInvisible`). Under bare keys it shows for some remote end **exactly when two
  chunks end with different instances of one class** (`PairAnswers.BareInvisibleIff`): both instances then reach the
  map, and a single request would bring the last one only. For any remote end that answers class by class and
  consistently it suffices that no class is requested in two chunks (`Chunking.ChunkedIsWhole`), as with pairwise
  distinct classes.
* Merging a response, and decoding an indexed object, depend on Go's map iteration order in general. The exact
  conditions are `Consistency.MergeOrderFreeExactly` and `IndexedObject.OrderFreeIff`. Entries named `1` and `1_`
  that differ show the order (`Consistency.OrderShows`); keys such as `"1"` and `"01"` with different values lose
  one of the values (`IndexedObject.LosesNothingIff`).
* The flattened key is ambiguous for IDs with underscores (`AssetTypes.KeyIsUniqueIff`).
* An entry with IDs of its own is stored under them, whatever response key it came under (`Resolution.OwnIDsWin`,
  `Chunking.OwnIDsInMap`).
* A bare response key resolves to the **last** instance requested for its class (`Resolution.BareResolvesIff`).
* `GetAllSchemaItems` never returns against a server that names the cursor zero (`EconItems.EndlessServer`): the source
  does not send a cursor that is not positive, and so starts over. It ends exactly when no set of cursors leads from
  the first page only to itself (`EconItems.ServerHaltsIff`); increasing cursors suffice (`EconItems.IncreasingHalts`).
  When it ends it has all items or the error of the first failing page, never a part (`PageRuns.ReturnsIff`).
* The snippet of every body is determined byte by byte from its words and the whitespace around them
  (`Summaries.SummaryIs`).
* The documentation of the snippet promises a one-line summary; a truncated summary has a space right before the
  marker exactly when the text is cut right after one (`LogSafety.MarkerAfterSpaceIff`, `LogSafety.MarkerAfterSpace`).

## Model

| member | source | states |
|---|---|---|
| Decimal.AtoiInvertsItoa | steamapi/assetclassinfo.go:279-286 | parsing a printed integer gives it back, exactly for 64-bit integers |
| Decimal.AtoiIff | steamapi/assetclassinfo.go:280-283 | a name parses to an integer exactly when it is an optional sign and decimal digits that denote that integer, within 64 bits |
| Decimal.ItoaIs | steamapi/tradeoffer_types.go:68-70 | a printed integer is its shortest decimal name |
| AssetTypes.KeyReads | steamapi/tradeoffer_types.go:66-70 | one key spelled out |
| AssetTypes.KeysMeet | steamapi/tradeoffer_types.go:66-70 | two identities share a key exactly when the app IDs are equal and class and instance read the same when joined by an underscore |
| AssetTypes.KeyInjective | steamapi/tradeoffer_types.go:66-70 | the key is injective over all app IDs, underscore-free class IDs and arbitrary instance IDs |
| AssetTypes.KeyIsUniqueIff | steamapi/tradeoffer_types.go:66-70 | an identity shares its key with no other at all exactly when neither ID holds an underscore |
| TradeOffers.TradeOffersResponse.IndexDescriptions | steamapi/tradeoffer.go:122-128 | the response's map becomes the index of the list, and stays nil for an empty list |
| TradeOffers.GetTradeOffers | steamapi/tradeoffer.go:122-130 | a fresh response with the decoded offers and the index of its descriptions |
| TradeOffers.GetTradeOfferWithDescriptions | steamapi/tradeoffer.go:173-188 | "offer not found" without an offer, else the offer with the index of its descriptions |
| TradeOffers.IndexHolds | steamapi/tradeoffer.go:122-128 | for every list the index holds exactly the keys of its descriptions, each with the last one of that key, and is nil exactly for the empty list |
| TradeOffers.LookupIsScan | steamapi/tradeoffer.go:122-128 | looking an asset up yields the last description in the list with its app, class and instance, and nothing if there is none |
| TradeOffers.LookupIsSoundIff | steamapi/tradeoffer_types.go:60-70 | over all well-formed lists lookup and scan agree for an asset exactly when its own class ID is underscore-free |
| SteamAPI.ExtractAccessToken | steamapi/steamapi.go:95-110 | the search returns the token of the first login cookie, or the error for none or for one that does not split |
| SteamAPI.CookieInverted | steamapi/steamapi.go:93-110 | after any other cookies, a cookie of percent-free ID, separator and token yields the token exactly when the token does not hold the separator |
| SteamAPI.TokenFoundIff | steamapi/steamapi.go:99-109 | the first login cookie decides: a token is found exactly when its value holds the separator, else it is reported as unsplittable |
| SteamAPI.TokenIs | steamapi/steamapi.go:95-110 | of the first `steamLoginSecure` cookie the token is what stands between the first `%7C%7C` and the next one, or the end |
| SteamAPI.NoLoginCookie | steamapi/steamapi.go:99-109 | without a login cookie the search reports it as missing |
| Strings.SplitJoins | steamapi/steamapi.go:101-105 | the parts of a split join back to the string and none holds the separator |
| SteamAPI.NoTokenIff | steamapi/steamapi.go:79-91 | asking for a token fails exactly when none was set by hand and the jar is nil, has no login cookie, or its first login cookie does not split |
| SteamAPI.CookieWins | steamapi/steamapi.go:79-91 | the token of a splittable first login cookie is used whatever was set by hand, and authenticates a client without API key |
| SteamAPI.HandSetToken | steamapi/steamapi.go:79-91 | without a token in the jar the one set by hand is used |
| SteamAPI.JarTokenUsed | steamapi/steamapi.go:79-91 | that token is the one used, whatever was set by hand |
| SteamAPI.AuthIs | steamapi/steamapi.go:122-137 | a client authenticates with its API key alone, whatever jar and token it has; without one with its token alone; it fails exactly without both |
| SteamAPI.API.GetAuthParams | steamapi/steamapi.go:124-137 | fresh parameters with `key` alone if there is an API key, else `access_token` alone, else the token's error |
| IndexedObject.MapByIndexKey | steamapi/assetclassinfo.go:273-293 | in whatever order the map is visited, the values traced back from the sorted integer keys |
| IndexedObject.ElementsAreHeld | steamapi/assetclassinfo.go:277-292 | even with colliding keys: one element per numeric key, each held under a key for the integer at its sorted position; those integers ascend strictly when no two keys parse alike |
| IndexedObject.KeptExactly | steamapi/assetclassinfo.go:278-291 | exactly the members whose name is no optional sign with decimal digits in range are dropped; the others stay in the order of the integers they denote |
| IndexedObject.OrderFreeIff | steamapi/assetclassinfo.go:277-292 | all iteration orders give one result exactly when keys that parse alike hold equal values |
| IndexedObject.LosesNothingIff | steamapi/assetclassinfo.go:277-292 | all iteration orders return the values under numeric keys as a permutation exactly under the same condition |
| IndexedObject.SameIndexNames | steamapi/assetclassinfo.go:280-286 | a concrete pair of keys that collide |
| IndexedObject.RoundTrip | steamapi/assetclassinfo.go:269-293 | decoding the indexed form of a list returns the list, in every iteration order |
| IndexedObject.DecodeIndexed | steamapi/assetclassinfo.go:191-267 | the four decoders: arrays as they are, objects by index, everything else empty |
| IndexedObject.FormsAgree | steamapi/assetclassinfo.go:191-267 | the object and the array form of a list decode to the same slice |
| AssetClassInfo.EncodeRequest | steamapi/assetclassinfo.go:62-70 | the parameters set are those of the key list, added to what was there |
| Requests.RequestLossless | steamapi/assetclassinfo.go:58-70 | the key list, app ID, language and authentication can all be read back from the parameters |
| Requests.RequestIs | steamapi/assetclassinfo.go:58-70 | a request name by name: `appid`, `class_count`, `language`, `classid` and `instanceid` by index, the authentication, and nothing else |
| Requests.CredentialSent | steamapi/assetclassinfo.go:58-61 | with an API key the remote end reads `key` and finds no `access_token`; without one it is the other way round |
| AssetClassInfo.InstanceTable | steamapi/assetclassinfo.go:98-104 | the request table after all keys have been entered in order |
| Resolution.TableReads | steamapi/assetclassinfo.go:98-104 | for every key list the table holds the names its keys enter, each with the instance of the last of them |
| Resolution.IdentityIff | steamapi/assetclassinfo.go:114-127 | for every response key, entry and table: the identity is that of the entry if it has a class, else that of the two parts of the response key, with the request filling in a missing instance only |
| Resolution.OwnIDsWin | steamapi/assetclassinfo.go:114-127 | class and instance of an entry are replaced by neither the response key nor the request |
| Resolution.TableByClass | steamapi/assetclassinfo.go:98-104 | what the table grants a response key depends on its own class alone: the last instance for a bare class, its own requested instance for a composite key |
| Resolution.CompositeResolves | steamapi/assetclassinfo.go:114-127 | an entry under a requested composite key resolves to that pair even with repeated classes |
| Resolution.BareResolvesIff | steamapi/assetclassinfo.go:114-127 | an entry under a bare class resolves to a requested pair exactly when it was the last of its class |
| Resolution.EntryResolves | steamapi/assetclassinfo.go:114-127 | with distinct classes, an entry with missing or matching inner IDs resolves to the requested pair |
| AssetClassInfo.ToAssetDescription | steamapi/assetclassinfo.go:166-189 | the description made of an entry, with its flags and lists decoded |
| WireForms.FlagFalseIff | steamapi/assetclassinfo.go:295-317 | exactly the raw texts that read as false: none, a bare 0, what starts with f, and nothing, 0 or false between any number of quotes, one in front at least |
| WireForms.FlagReadsBack | steamapi/assetclassinfo.go:295-317 | a flag reads back from each of its wire shapes; a missing or empty one is false |
| WireForms.DescriptionReadsBack | steamapi/assetclassinfo.go:166-189 | a description reads back whole from an entry that carries it in any mix of wire shapes, in every iteration order |
| AssetClassInfo.MergeEntry | steamapi/assetclassinfo.go:106-133 | one visited entry is skipped, or stored under the key of the identity it resolves to, which is that of its own IDs if it has both; nothing else changes |
| AssetClassInfo.MergeResponse | steamapi/assetclassinfo.go:106-134 | the whole response is merged along some walk over all its keys |
| Merging.MergeKeepsKeys | steamapi/assetclassinfo.go:128-132 | every merge step keeps the invariant: stored under its own key, the requested app ID, a class ID that is not empty |
| Merging.RoundsKeepKeys | steamapi/assetclassinfo.go:38-55 | the map of a whole call satisfies that invariant |
| Merging.MergeReads | steamapi/assetclassinfo.go:106-133 | each key of the merged map holds what the last visit stored under it contributed, and is untouched if there is none |
| Merging.MergedIff | steamapi/assetclassinfo.go:106-133 | a merge adds the keys of exactly the entries that decode, are not `success` or `error`, and have a class |
| Merging.MergedValue | steamapi/assetclassinfo.go:106-133 | what stands under a key describes an entry of the response with the key's identity, or was there before |
| Merging.MergeOrderFreeIff | steamapi/assetclassinfo.go:106-133 | the merged map is the same for every walk exactly when visits stored under one key contribute the same description |
| Consistency.MergeOrderFreeExactly | steamapi/assetclassinfo.go:106-133 | told from the response alone: that is so exactly when no stored entry has colliding index keys with different values and entries stored under one key make the same description |
| Consistency.OrderShows | steamapi/assetclassinfo.go:106-133 | a concrete response of two entries, named `1` and `1_`, whose iteration order shows in the map |
| Consistency.DistinctIsConsistent | steamapi/assetclassinfo.go:106-133 | pairwise distinct identities and collision-free indexed fields meet that condition |
| AssetClassInfo.GetAssetClassInfoChunk | steamapi/assetclassinfo.go:57-135 | a failing request leaves the shared map alone; a successful one merges its response with the chunk's own table |
| AssetClassInfo.GetAssetClassInfo | steamapi/assetclassinfo.go:38-61 | no keys give an empty map; no credentials give that error; else success exactly when the server has a response for every chunk, with the merge of all rounds, and otherwise its first error and no map |
| AssetLookup.ChunksCover | steamapi/assetclassinfo.go:43-53 | the chunks concatenate to the key list, and hold 100 keys each but the last, which holds between 1 and 100 |
| AssetLookup.CountWithinCap | steamapi/assetclassinfo.go:35-36 | the class count that the remote end reads is that of the chunk, between 1 and 100 |
| Chunking.LastRoundDecides | steamapi/assetclassinfo.go:44-54 | of several chunks that store a key the last one decides it |
| Chunking.OwnIDsInMap | steamapi/assetclassinfo.go:106-133 | an entry with IDs of its own, in the response to any chunk, is in the map under these IDs |
| Chunking.ChunkedIsWhole | steamapi/assetclassinfo.go:44-54 | with no straddling class and a consistent response, chunked requests return the map of a single request, in every run |
| Chunking.AlwaysSameIff | steamapi/assetclassinfo.go:44-54 | for a fixed class-by-class remote end that is so exactly when the whole response is consistent |
| PairAnswers.CompositeInvisible | steamapi/assetclassinfo.go:36-54 | against a remote end that answers each pair under its composite key, chunking never shows, for any underscore-free classes however often requested |
| PairAnswers.BareInvisibleIff | steamapi/assetclassinfo.go:36-54 | over all remote ends that answer a class under its bare key with the pair requested last, chunking is invisible exactly when all chunks that request a class end with the same instance of it |
| AssetLookup.NoStraddleIff | steamapi/assetclassinfo.go:44-54 | no class straddles exactly when any two keys of different chunks differ in class |
| AssetLookup.DistinctNeverStraddle | steamapi/assetclassinfo.go:44-54 | pairwise distinct classes never straddle |
| AssetLookup.CallIsTransparent | steamapi/assetclassinfo.go:36-55 | end to end, through the encoded parameters: a call with distinct classes equals one request for all its keys |
| AssetLookup.CompositeCallTransparent | steamapi/assetclassinfo.go:36-55 | end to end against composite keys the same holds for any underscore-free classes, repeated ones included |
| AssetLookup.CallerFinds | steamapi/assetclassinfo.go:30-34 | looking up a requested pair finds a description exactly when the remote end has one for it, and then such a one |
| AssetLookup.FoundWasRequested | steamapi/assetclassinfo.go:30-34 | the map holds nothing but descriptions of requested pairs, under their lookup keys |
| Utf8.ValidIff | steamapi/httperror.go:45-51 | the decoder accepts exactly the concatenations of RFC 3629 characters |
| Utf8.ValidPrefixIff | steamapi/httperror.go:46-49 | a prefix of valid text is valid exactly when it ends at a rune start or at the end |
| Utf8.CharIff | steamapi/httperror.go:45-51 | the characters of the grammar in RFC 3629 are exactly the encodings of the Unicode scalar values |
| Layouts.LayoutCollapses | steamapi/httperror.go:29-44 | for every way to read a body as words with whitespace around them: trimming leaves what stands from the first word to the last, and collapsing puts one space byte in the place of each gap |
| Layouts.CollapsedIff | steamapi/httperror.go:44 | every body can be read so, and its collapsed text is what any such reading gives |
| HttpError.ContainsAny | steamapi/httperror.go:55-62 | true exactly when some candidate occurs as a substring |
| HttpError.ErrorBodySnippet | steamapi/httperror.go:28-53 | the loop version computes the snippet function |
| Summaries.SummaryIs | steamapi/httperror.go:28-53 | the whole summary in bytes and literal texts: the length of an HTML body, else the words on one line, cut at the last byte within 256 that is no continuation byte and marked |
| Summaries.HtmlIff | steamapi/httperror.go:34-42 | the HTML marks spelled out, in either letter case, the tags within 512 bytes |
| Summaries.SummaryIsOneLine | steamapi/httperror.go:20-27 | no summary of a body that is not HTML holds a byte from 0x09 to 0x0D, an encoded space other than 0x20, two spaces in a row, or a space at either end |
| LogSafety.CollapseKeeps | steamapi/httperror.go:29-44 | for every byte sequence the collapsed text holds the body's visible runes in order |
| LogSafety.SnippetTidy | steamapi/httperror.go:44-52 | for every body that is not HTML the summary has no whitespace but single U+0020 between other runes |
| LogSafety.CollapseUnchangedIff | steamapi/httperror.go:44 | collapsing leaves a body as it is exactly when it is one line with single spaces between words |
| LogSafety.CollapseIdempotent | steamapi/httperror.go:44 | collapsing a second time changes nothing, for every byte sequence |
| LogSafety.SnippetUnchangedIff | steamapi/httperror.go:28-53 | a body within the cap that is not HTML is its own summary exactly under the same condition |
| LogSafety.MarkerAfterSpaceIff | steamapi/httperror.go:45-51 | a truncated summary has a space before its marker exactly when the byte before the cut of the collapsed text is a space |
| LogSafety.MarkerAfterSpace | steamapi/httperror.go:45-51 | a concrete body whose summary has one |
| LogSafety.SnippetBounded | steamapi/httperror.go:9-13 | every summary is at most 256 + 14 bytes long |
| LogSafety.TruncationMaximal | steamapi/httperror.go:45-51 | of a valid body over the cap, the kept prefix is valid, the longest valid one within the cap, and at most 3 bytes below it |
| LogSafety.IsHtmlIff | steamapi/httperror.go:34-42 | HTML is what starts with a document opening or has a tag ending within the first 512 bytes of the trimmed body, in any letter case |
| LogSafety.HtmlHidden | steamapi/httperror.go:26-42 | two HTML bodies have the same summary exactly when they are equally long |
| LogSafety.NeverStartsHtml | steamapi/httperror.go:20-53 | no summary starts like an HTML document, in any letter case |
| LogSafety.EmptyIff | steamapi/httperror.go:29-32 | the summary is empty exactly when the body is all whitespace |
| EconItems.GetSchemaItems | steamapi/econitems.go:23-55 | one page is requested with authentication, a positive cursor and the language; without credentials it fails before a request |
| EconItems.QueryReadsBack | steamapi/econitems.go:29-34 | the cursor is sent exactly when it is positive, and reads back; so do language and authentication |
| EconItems.GetAllSchemaItems | steamapi/econitems.go:68-100 | watched for any number of calls, the loop is where its state machine is: still running with the items so far, or returned with all items or the error of the first failing page; without credentials it fails in its first call |
| PageRuns.QueryIff | steamapi/econitems.go:29-34 | a page request holds the authentication, the cursor if positive, the language if there is one, and nothing else |
| PageRuns.PageCredentialSent | steamapi/econitems.go:23-27 | with an API key the server reads `key` and finds no `access_token`; without one it is the other way round |
| PageRuns.ReturnsIff | steamapi/econitems.go:72-99 | told from requests and replies: the loop returns a list exactly when pages follow each other up to one without a cursor, and then all their items in order; it returns an error exactly when the first reply that is no page has it, with its stage, cause and cursor |
| PageRuns.FailedPageFails | steamapi/econitems.go:73-86 | a failing page of any stage, after any pages, makes the loop return that error and no list |
| EconItems.AllPagesCollected | steamapi/econitems.go:68-100 | against any server paging a list with positive cursors and pages that move on, after any number of calls above the number of items the loop has ended with exactly the list |
| EconItems.EveryScheduleCollected | steamapi/econitems.go:68-100 | the same for a server that reads positions off the requests and chooses page sizes freely |
| EconItems.RestartNeverEnds | steamapi/econitems.go:29-31 | against a stateless server a cursor of zero or below makes the loop run forever |
| EconItems.EndlessServer | steamapi/econitems.go:68-97 | a concrete server, which always names the cursor zero, against which the loop never ends |
| EconItems.HaltsIff | steamapi/econitems.go:72-97 | for every server, also one whose answers change from call to call: the loop ends exactly when no set of numbered cursors leads from the first request only to itself |
| EconItems.ServerHaltsIff | steamapi/econitems.go:72-97 | for a server that answers equal requests alike: exactly when no set of cursors leads from the first page only to itself |
| EconItems.IncreasingHalts | steamapi/econitems.go:72-97 | against cursors that increase up to a bound the loop is over after one call more than the bound |
| EconItems.HaltsWithoutRepeats | steamapi/econitems.go:72-97 | seen from a run against a stateless server: the loop ends exactly when no request is sent twice |

## Left out

- EconItems.GetAllSchemaItems: returns its state after a given number of calls, because the source has no bound on its loop and a method must terminate; the texts wrapped around the cause of an error are left out.
- PairAnswers.BareInvisibleIff: the entry under a bare key is that of the pair requested last; a remote end that falls back to an earlier pair, or mixes the two ways of naming entries, is covered by `Chunking.AlwaysSameIff` for chunks without common classes alone.
- Chunking.AlwaysSameIff: the answer for a class depends on the instances requested for that class, in order; remote ends that mix classes are not covered.
- SteamAPI.API.GetAuthParams: the cookie jar is read as it is during the call; a token refreshed between two chunks of one call is not modelled.
- HTTP transport, contexts, status codes and the `X-Eresult` header, response bodies and the 500 ms pause: the remote end is a function.
- JSON decoding: fields arrive decoded; a nil slice and an empty one are the same empty sequence.
- URL encoding of the parameters, which is a library's; the parameter map is what the remote end sees.
- Client options and the base URL; the remaining parameters of `GetTradeOffers`, which are set one by one from its options.
- Fields of an entry that never reach a description (market name and the two colours).
- Full Unicode lower-casing, as explained above; whitespace is the full Unicode set.
- `HTTPStatusError`, which formats the snippet behind a status code; `GetTradeOffer`, `authentication.go`, `twofactor.go` and `time.go`: request plumbing.
- Generated protocol code and the other packages of the repository.
