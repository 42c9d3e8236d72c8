/** What `GetAllSchemaItems` returns, told from the requests that a server is sent and its replies to them. */
module PageRuns {
  import opened Wrappers
  import opened Decimal
  import opened SteamAPI
  import opened EconItems

  // ----- One request -----

  /** The request holds the authentication, the cursor if it is positive, the language if there is one, and nothing
      else. */
  ghost predicate AsksFor(params: map<string, string>, auth: map<string, string>, start: int, language: string) {
    && (forall name :: name in params <==>
          name in auth || (name == "start" && start > 0) || (name == "language" && language != ""))
    && (forall name :: name in auth ==> params[name] == auth[name])
    && (start > 0 ==> params["start"] == Itoa(start))
    && (language != "" ==> params["language"] == language)
  }

  lemma QueryIff(params: map<string, string>, auth: map<string, string>, start: int, language: string)
    requires IsAuth(auth)
    ensures AsksFor(params, auth, start, language) <==> params == Query(auth, GetSchemaItemsOptions(start, language))
  {
    var query := Query(auth, GetSchemaItemsOptions(start, language));
    assert AsksFor(query, auth, start, language);
    if AsksFor(params, auth, start, language) {
      forall name
        ensures name in params <==> name in query
        ensures name in params ==> params[name] == query[name]
      {
      }
    }
  }

  /** The credential of a client reaches the server with every page: the API key under `key` with no token beside
      it, and without an API key the token under `access_token` alone. */
  lemma PageCredentialSent(api: API, opts: GetSchemaItemsOptions)
    requires api.Auth().Ok?
    ensures var params := Query(api.Auth().value, opts);
            if api.APIKey != "" then
              "key" in params && params["key"] == api.APIKey && "access_token" !in params
            else
              "access_token" in params && api.Token() == Ok(params["access_token"]) && "key" !in params
  {
    AuthIs(api);
    QueryIff(Query(api.Auth().value, opts), api.Auth().value, opts.Start, opts.Language);
  }

  // ----- Whole runs -----

  /** The reply is the server's, in the call with this number, to the request for this cursor. */
  ghost predicate IsReply(reply: PageReply, server: PageServer, auth: map<string, string>, language: string,
                          call: nat, start: int)
  {
    exists params :: AsksFor(params, auth, start, language) && reply == server(call, params)
  }

  /** From the cursor zero on, each cursor is answered by a page that names the next one. */
  ghost predicate Follows(starts: seq<int>, pages: seq<PageReply>, server: PageServer, auth: map<string, string>,
                          language: string)
  {
    && |starts| == |pages| + 1 && starts[0] == 0
    && forall i :: 0 <= i < |pages| ==>
         && IsReply(pages[i], server, auth, language, i, starts[i])
         && pages[i].Page? && pages[i].Next == Some(starts[i + 1])
  }

  /** The items of the pages, in order. */
  function Collected(pages: seq<PageReply>): seq<string> {
    if pages == [] then []
    else
      var last := pages[|pages| - 1];
      Collected(pages[..|pages| - 1]) + if last.Page? then last.Items else []
  }

  /** What the last reply makes of the pages before it: all items if it is a page without a cursor, and if it is no
      page the error of its stage and cause, for a failed request with its cursor. */
  ghost predicate Concludes(pages: seq<PageReply>, start: int, last: PageReply, result: Result<seq<string>, Error>) {
    match last
    case Page(items, next) => next == None && result == Ok(Collected(pages) + items)
    case HTTPFailure(cause) => result == Err(PageError(start, cause))
    case ReadFailure(cause) => result == Err(ReadError(cause))
    case DecodeFailure(cause) => result == Err(DecodeError(cause))
  }

  /** Pages lead from the first request to one whose reply concludes with this result. */
  ghost predicate LeadsTo(server: PageServer, auth: map<string, string>, language: string,
                          starts: seq<int>, pages: seq<PageReply>, last: PageReply,
                          result: Result<seq<string>, Error>)
  {
    && Follows(starts, pages, server, auth, language)
    && IsReply(last, server, auth, language, |pages|, starts[|pages|])
    && Concludes(pages, starts[|pages|], last, result)
  }

  lemma ReplyIff(reply: PageReply, server: PageServer, auth: map<string, string>, language: string,
                 call: nat, start: int)
    requires IsAuth(auth)
    ensures IsReply(reply, server, auth, language, call, start)
       <==> reply == SourceOf(Ok(auth), server, language)(call, start)
  {
    var query := Query(auth, GetSchemaItemsOptions(start, language));
    QueryIff(query, auth, start, language);
    forall params | AsksFor(params, auth, start, language)
      ensures params == query
    {
      QueryIff(params, auth, start, language);
    }
  }

  /** Pages that follow each other are what the loop has seen so far. */
  lemma {:induction false} FollowedRuns(starts: seq<int>, pages: seq<PageReply>, server: PageServer,
                                        auth: map<string, string>, language: string)
    requires IsAuth(auth) && Follows(starts, pages, server, auth, language)
    ensures Run(SourceOf(Ok(auth), server, language), |pages|) == Running(starts[|pages|], Collected(pages))
  {
    if pages != [] {
      var n := |pages| - 1;
      FollowsLess(starts, pages, server, auth, language);
      FollowedRuns(starts[..n + 1], pages[..n], server, auth, language);
      ReplyIff(pages[n], server, auth, language, n, starts[n]);
    }
  }

  lemma FollowsLess(starts: seq<int>, pages: seq<PageReply>, server: PageServer, auth: map<string, string>,
                    language: string)
    requires pages != [] && Follows(starts, pages, server, auth, language)
    ensures Follows(starts[..|pages|], pages[..|pages| - 1], server, auth, language)
    ensures IsReply(pages[|pages| - 1], server, auth, language, |pages| - 1, starts[|pages| - 1])
  {
  }

  /** What the loop has seen while it runs are pages that follow each other. */
  lemma {:induction false} RunFollows(server: PageServer, auth: map<string, string>, language: string, n: nat)
    returns (starts: seq<int>, pages: seq<PageReply>)
    requires IsAuth(auth) && Run(SourceOf(Ok(auth), server, language), n).Running?
    ensures |pages| == n && Follows(starts, pages, server, auth, language)
  {
    if n == 0 {
      starts, pages := [0], [];
    } else {
      RunsUntil(SourceOf(Ok(auth), server, language), n - 1, n);
      starts, pages := RunFollows(server, auth, language, n - 1);
      FollowedRuns(starts, pages, server, auth, language);
      var page := NextPage(server, auth, language, n - 1, starts[n - 1]);
      FollowsMore(starts, pages, page, server, auth, language);
      starts, pages := starts + [page.Next.value], pages + [page];
    }
  }

  /** A loop that runs on was given a page that names a cursor. */
  lemma NextPage(server: PageServer, auth: map<string, string>, language: string, n: nat, start: int)
    returns (page: PageReply)
    requires IsAuth(auth)
    requires var fetch := SourceOf(Ok(auth), server, language);
             Run(fetch, n).Running? && Run(fetch, n).start == start && Run(fetch, n + 1).Running?
    ensures IsReply(page, server, auth, language, n, start) && page.Page? && page.Next.Some?
  {
    page := SourceOf(Ok(auth), server, language)(n, start);
    ReplyIff(page, server, auth, language, n, start);
  }

  lemma FollowsMore(starts: seq<int>, pages: seq<PageReply>, page: PageReply, server: PageServer,
                    auth: map<string, string>, language: string)
    requires Follows(starts, pages, server, auth, language) && page.Page? && page.Next.Some?
    requires IsReply(page, server, auth, language, |pages|, starts[|pages|])
    ensures Follows(starts + [page.Next.value], pages + [page], server, auth, language)
  {
  }

  lemma ConcludedRun(server: PageServer, auth: map<string, string>, language: string,
                     starts: seq<int>, pages: seq<PageReply>, last: PageReply, result: Result<seq<string>, Error>)
    requires IsAuth(auth) && LeadsTo(server, auth, language, starts, pages, last, result)
    ensures Run(SourceOf(Ok(auth), server, language), |pages| + 1) == Returned(result)
  {
    FollowedRuns(starts, pages, server, auth, language);
    ReplyIff(last, server, auth, language, |pages|, starts[|pages|]);
  }

  /** The last call before the loop returns. */
  lemma {:induction false} LastCall(fetch: Source, n: nat) returns (m: nat)
    requires Run(fetch, n).Returned?
    ensures m < n && Run(fetch, m).Running? && Run(fetch, m + 1) == Run(fetch, n)
  {
    if Run(fetch, n - 1).Running? {
      m := n - 1;
    } else {
      m := LastCall(fetch, n - 1);
    }
  }

  lemma RunConcluded(server: PageServer, auth: map<string, string>, language: string, n: nat)
    returns (starts: seq<int>, pages: seq<PageReply>, last: PageReply)
    requires IsAuth(auth) && Run(SourceOf(Ok(auth), server, language), n).Returned?
    ensures LeadsTo(server, auth, language, starts, pages, last, Run(SourceOf(Ok(auth), server, language), n).result)
  {
    var fetch := SourceOf(Ok(auth), server, language);
    var m := LastCall(fetch, n);
    starts, pages := RunFollows(server, auth, language, m);
    FollowedRuns(starts, pages, server, auth, language);
    last := fetch(m, starts[m]);
    ReplyIff(last, server, auth, language, m, starts[m]);
  }

  /** The loop returns the items of all pages, in order, exactly when each call up to some call is answered by a page
      and that one alone names no cursor; it returns an error exactly when the first reply that is no page says so. */
  lemma ReturnsIff(server: PageServer, auth: map<string, string>, language: string, result: Result<seq<string>, Error>)
    requires IsAuth(auth)
    ensures (exists n :: Run(SourceOf(Ok(auth), server, language), n) == Returned(result))
       <==> exists starts, pages, last :: LeadsTo(server, auth, language, starts, pages, last, result)
  {
    if n :| Run(SourceOf(Ok(auth), server, language), n) == Returned(result) {
      var starts, pages, last := RunConcluded(server, auth, language, n);
    }
    if starts, pages, last :| LeadsTo(server, auth, language, starts, pages, last, result) {
      ConcludedRun(server, auth, language, starts, pages, last, result);
    }
  }

  /** No partial list: an error of any stage, after any pages, is all that the loop returns. */
  lemma FailedPageFails(server: PageServer, auth: map<string, string>, language: string,
                        starts: seq<int>, pages: seq<PageReply>, last: PageReply, calls: nat)
    requires IsAuth(auth) && Follows(starts, pages, server, auth, language) && calls > |pages|
    requires IsReply(last, server, auth, language, |pages|, starts[|pages|]) && !last.Page?
    ensures var s := Run(SourceOf(Ok(auth), server, language), calls);
            && s.Returned? && s.result.Err?
            && (last.HTTPFailure? ==> s.result.error == PageError(starts[|pages|], last.cause))
            && (last.ReadFailure? ==> s.result.error == ReadError(last.cause))
            && (last.DecodeFailure? ==> s.result.error == DecodeError(last.cause))
  {
    var error :=
      match last
      case HTTPFailure(cause) => PageError(starts[|pages|], cause)
      case ReadFailure(cause) => ReadError(cause)
      case DecodeFailure(cause) => DecodeError(cause);
    ConcludedRun(server, auth, language, starts, pages, last, Err(error));
    StaysReturned(SourceOf(Ok(auth), server, language), |pages| + 1, calls);
  }
}
