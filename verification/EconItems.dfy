/** `GetAllSchemaItems`: the loop that follows the cursors a server hands out. */
module EconItems {
  import opened Wrappers
  import opened Decimal
  import opened SteamAPI

  datatype GetSchemaItemsOptions = GetSchemaItemsOptions(Start: int, Language: string)

  /** What comes back for one page: the decoded page, or the stage that failed. Items are raw JSON. */
  datatype PageReply =
    | Page(Items: seq<string>, Next: Option<int>)
    | HTTPFailure(cause: string)
    | ReadFailure(cause: string)
    | DecodeFailure(cause: string)

  /** What the call reports when a page fails: the stage, and for a failed request its cursor. */
  datatype Error = PageError(start: int, cause: string) | ReadError(cause: string) | DecodeError(cause: string)

  /** The remote end, as a function of the number of the call and the parameters it is sent. */
  type PageServer = (nat, map<string, string>) -> PageReply

  /** The parameters of a page request: the cursor is sent only if it is positive. */
  function Query(auth: map<string, string>, opts: GetSchemaItemsOptions): map<string, string> {
    var params := if opts.Start > 0 then auth["start" := Itoa(opts.Start)] else auth;
    if opts.Language != "" then params["language" := opts.Language] else params
  }

  /** The outcome of requesting one page. */
  function Fetch(auth: Result<map<string, string>, string>, server: PageServer, call: nat, opts: GetSchemaItemsOptions)
    : PageReply
  {
    if auth.Err? then HTTPFailure(auth.error) else server(call, Query(auth.value, opts))
  }

  /** `GetSchemaItems`, with reading and decoding of the body folded into the reply. */
  method GetSchemaItems(api: API, server: PageServer, call: nat, opts: GetSchemaItemsOptions) returns (reply: PageReply)
    ensures reply == Fetch(api.Auth(), server, call, opts)
    ensures NoCredentials(api) ==> reply == HTTPFailure("no access token available (no cookie jar or token set)")
  {
    AuthIs(api);
    var params := api.GetAuthParams();
    if params.Err? {
      return HTTPFailure(params.error);
    }
    var query := params.value;
    if opts.Start > 0 {
      query.Set("start", Itoa(opts.Start));
    }
    if opts.Language != "" {
      query.Set("language", opts.Language);
    }
    reply := server(call, query.Entries);
  }

  // ----- The loop as a state machine -----

  /** Before each call the loop is about to request a page; it ends with all items or an error. */
  datatype State = Running(start: int, items: seq<string>) | Returned(result: Result<seq<string>, Error>)

  /** What the calls of one loop bring, by the number of the call and its cursor. */
  type Source = (nat, int) -> PageReply

  function SourceOf(auth: Result<map<string, string>, string>, server: PageServer, language: string): Source {
    (call: nat, start: int) => Fetch(auth, server, call, GetSchemaItemsOptions(start, language))
  }

  function Advance(fetch: Source, call: nat, s: State): State {
    if s.Returned? then s
    else
      match fetch(call, s.start)
      case HTTPFailure(cause) => Returned(Err(PageError(s.start, cause)))
      case ReadFailure(cause) => Returned(Err(ReadError(cause)))
      case DecodeFailure(cause) => Returned(Err(DecodeError(cause)))
      case Page(items, next) =>
        if next.None? then Returned(Ok(s.items + items)) else Running(next.value, s.items + items)
  }

  /** The state after the first n calls. */
  function Run(fetch: Source, n: nat): State {
    if n == 0 then Running(0, []) else Advance(fetch, n - 1, Run(fetch, n - 1))
  }

  /** `GetAllSchemaItems`, watched for some number of calls. The source puts no bound on its loop, so for every
      number of calls this says what has happened until then: the loop has returned, or runs on. */
  method GetAllSchemaItems(api: API, server: PageServer, language: string, calls: nat) returns (s: State)
    ensures s == Run(SourceOf(api.Auth(), server, language), calls)
    ensures NoCredentials(api) && calls > 0 ==>
              s == Returned(Err(PageError(0, "no access token available (no cookie jar or token set)")))
  {
    AuthIs(api);
    if api.Auth().Err? && calls > 0 {
      FirstCallDenied(api.Auth().error, server, language, calls);
    }
    ghost var fetch := SourceOf(api.Auth(), server, language);
    var allItems: seq<string> := [];
    var opts := GetSchemaItemsOptions(0, language);
    for call := 0 to calls
      invariant opts.Language == language && Run(fetch, call) == Running(opts.Start, allItems)
    {
      var reply := GetSchemaItems(api, server, call, opts);
      assert Run(fetch, call + 1) == Advance(fetch, call, Run(fetch, call));
      if Run(fetch, call + 1).Returned? {
        StaysReturned(fetch, call + 1, calls);
      }
      match reply
      case HTTPFailure(cause) =>
        return Returned(Err(PageError(opts.Start, cause)));
      case ReadFailure(cause) =>
        return Returned(Err(ReadError(cause)));
      case DecodeFailure(cause) =>
        return Returned(Err(DecodeError(cause)));
      case Page(items, next) =>
        allItems := allItems + items;
        if next.None? {
          return Returned(Ok(allItems));
        }
        opts := opts.(Start := next.value);
    }
    s := Running(opts.Start, allItems);
  }

  /** Without credentials the loop fails in its first call, before a server is asked. */
  lemma FirstCallDenied(e: string, server: PageServer, language: string, calls: nat)
    requires calls > 0
    ensures Run(SourceOf(Err(e), server, language), calls) == Returned(Err(PageError(0, e)))
  {
    var fetch := SourceOf(Err(e), server, language);
    assert Run(fetch, 1) == Advance(fetch, 0, Run(fetch, 0));
    StaysReturned(fetch, 1, calls);
  }

  /** Once the loop has returned it stays so. */
  lemma {:induction false} StaysReturned(fetch: Source, m: nat, n: nat)
    requires m <= n && Run(fetch, m).Returned?
    ensures Run(fetch, n) == Run(fetch, m)
  {
    if m < n {
      StaysReturned(fetch, m, n - 1);
    }
  }

  lemma RunsUntil(fetch: Source, m: nat, n: nat)
    requires m <= n && Run(fetch, n).Running?
    ensures Run(fetch, m).Running?
  {
    if Run(fetch, m).Returned? {
      StaysReturned(fetch, m, n);
    }
  }

  /** The loop returns at most one thing. */
  lemma OneResult(fetch: Source, m: nat, n: nat)
    requires Run(fetch, m).Returned? && Run(fetch, n).Returned?
    ensures Run(fetch, m) == Run(fetch, n)
  {
    if m <= n {
      StaysReturned(fetch, m, n);
    } else {
      StaysReturned(fetch, n, m);
    }
  }

  // ----- A server that pages a list -----

  /** The cursor of a position: the first page is asked for without one. */
  function Cursor(at: nat -> int, p: nat): int {
    if p == 0 then 0 else at(p)
  }

  /** Asked for a position, in whichever call, the server returns some stretch of the list from there and the
      positive cursor of its end; it may end only with the list, and must move on otherwise. */
  ghost predicate PagesList(fetch: Source, list: seq<string>, at: nat -> int) {
    forall call: nat, p: nat :: p <= |list| ==>
      PageFrom(fetch(call, Cursor(at, p)), list, at, p)
  }

  ghost predicate PageFrom(reply: PageReply, list: seq<string>, at: nat -> int, p: nat) {
    && reply.Page?
    && var q := p + |reply.Items|;
       && p <= q <= |list| && reply.Items == list[p..q]
       && if reply.Next.Some? then p < q && reply.Next.value == at(q) > 0 else q == |list|
  }

  /** While it runs, the loop holds a prefix of the list, longer with every call, and asks for the rest. */
  lemma {:induction false} PrefixSoFar(fetch: Source, list: seq<string>, at: nat -> int, n: nat) returns (p: nat)
    requires PagesList(fetch, list, at)
    ensures (n <= p <= |list| && Run(fetch, n) == Running(Cursor(at, p), list[..p])) || Run(fetch, n) == Returned(Ok(list))
  {
    p := 0;
    if n > 0 {
      p := PrefixSoFar(fetch, list, at, n - 1);
      var before := Run(fetch, n - 1);
      if before.Running? {
        var reply := fetch(n - 1, Cursor(at, p));
        assert PageFrom(reply, list, at, p);
        var q := p + |reply.Items|;
        assert list[..p] + list[p..q] == list[..q];
        assert q == |list| ==> list[..q] == list;
        p := q;
      }
    }
  }

  /** For every page schedule the loop is over after at most one call more than the list has items, with the
      whole list in order, each item once. */
  lemma AllPagesCollected(fetch: Source, list: seq<string>, at: nat -> int, n: nat)
    requires PagesList(fetch, list, at) && n > |list|
    ensures Run(fetch, n) == Returned(Ok(list))
  {
    var p := PrefixSoFar(fetch, list, at, n);
  }

  /** The request tells the cursor exactly when it is positive, the language when there is one, and
      the authentication always. */
  lemma QueryReadsBack(auth: map<string, string>, opts: GetSchemaItemsOptions)
    requires IsAuth(auth) && opts.Start <= MAX_INT
    ensures var params := Query(auth, opts);
            && ("start" in params <==> opts.Start > 0)
            && ("start" in params ==> Atoi(params["start"]) == Some(opts.Start))
            && ("language" in params <==> opts.Language != "")
            && ("language" in params ==> params["language"] == opts.Language)
            && (forall name :: name in auth ==> name in params && params[name] == auth[name])
  {
    AtoiInvertsItoa(opts.Start);
  }

  /** A server that reads positions in the list off the request, and cuts pages of any sizes it likes: at least
      one item, as long as there is one. */
  function PagingServer(list: seq<string>, extra: (nat, nat) -> nat): PageServer {
    (call: nat, params: map<string, string>) =>
      var start := if "start" in params then Atoi(params["start"]) else Some(0);
      if start.None? || start.value < 0 || start.value > |list| then HTTPFailure("bad start")
      else
        var p: nat := start.value;
        var q := p + 1 + extra(call, p);
        if q < |list| then Page(list[p..q], Some(q)) else Page(list[p..], None)
  }

  /** Whatever page sizes it chooses for whichever call, the loop ends with the whole list. */
  lemma EveryScheduleCollected(auth: map<string, string>, language: string, list: seq<string>, extra: (nat, nat) -> nat)
    requires IsAuth(auth) && |list| <= MAX_INT
    ensures var fetch := SourceOf(Ok(auth), PagingServer(list, extra), language);
            Halts(fetch) && forall n, r :: Run(fetch, n) == Returned(r) ==> r == Ok(list)
  {
    var fetch, at := SourceOf(Ok(auth), PagingServer(list, extra), language), (p: nat) => p as int;
    forall call: nat, p: nat | p <= |list|
      ensures PageFrom(fetch(call, Cursor(at, p)), list, at, p)
    {
      QueryReadsBack(auth, GetSchemaItemsOptions(Cursor(at, p), language));
    }
    AllPagesCollected(fetch, list, at, |list| + 1);
    forall n, r | Run(fetch, n) == Returned(r)
      ensures r == Ok(list)
    {
      OneResult(fetch, n, |list| + 1);
    }
  }

  // ----- Exactly when the loop ends -----

  /** The loop returns after some number of calls. */
  ghost predicate Halts(fetch: Source) {
    exists n :: Run(fetch, n).Returned?
  }

  /** The page names another one. */
  predicate GoesOn(reply: PageReply) {
    reply.Page? && reply.Next.Some?
  }

  /** Call and cursor lead to a page that names another one, within the set. */
  ghost predicate StaysIn(fetch: Source, trap: iset<(nat, int)>, call: nat, start: int) {
    GoesOn(fetch(call, start)) && (call + 1, fetch(call, start).Next.value) in trap
  }

  /** The first request lies in the set, and nothing leads out of it. */
  ghost predicate IsTrap(fetch: Source, trap: iset<(nat, int)>) {
    && (0, 0) in trap
    && forall call: nat, start: int {:trigger StaysIn(fetch, trap, call, start)} ::
         (call, start) in trap ==> StaysIn(fetch, trap, call, start)
  }

  lemma {:induction false} Trapped(fetch: Source, trap: iset<(nat, int)>, n: nat)
    requires IsTrap(fetch, trap)
    ensures Run(fetch, n).Running? && (n, Run(fetch, n).start) in trap
  {
    if n > 0 {
      Trapped(fetch, trap, n - 1);
      assert StaysIn(fetch, trap, n - 1, Run(fetch, n - 1).start);
    }
  }

  /** For every server, whatever it keeps in mind between calls: the loop ends exactly when what the server
      answers holds no trap, a set of numbered cursors that leads from the first request only to itself. */
  lemma HaltsIff(fetch: Source)
    ensures Halts(fetch) <==> !exists trap :: IsTrap(fetch, trap)
  {
    if trap :| IsTrap(fetch, trap) {
      forall n: nat
        ensures Run(fetch, n).Running?
      {
        Trapped(fetch, trap, n);
      }
    }
    if !Halts(fetch) {
      RunTraps(fetch);
    }
  }

  lemma RunTraps(fetch: Source)
    requires !Halts(fetch)
    ensures exists trap :: IsTrap(fetch, trap)
  {
    var trap := iset p: (nat, int) | Run(fetch, p.0).Running? && Run(fetch, p.0).start == p.1;
    forall call: nat, start: int | (call, start) in trap
      ensures StaysIn(fetch, trap, call, start)
    {
      assert Run(fetch, call + 1).Running?;
    }
    assert (0, 0) in trap;
    assert IsTrap(fetch, trap);
  }

  lemma {:induction false} CursorGrows(fetch: Source, n: nat)
    requires forall call, start :: GoesOn(fetch(call, start)) ==> fetch(call, start).Next.value > start
    ensures Run(fetch, n).Running? ==> Run(fetch, n).start >= n
  {
    if n > 0 {
      CursorGrows(fetch, n - 1);
    }
  }

  /** A server whose cursors increase and stay within a bound is done after so many calls. */
  lemma IncreasingHalts(fetch: Source, bound: nat)
    requires forall call, start :: GoesOn(fetch(call, start)) ==> start < fetch(call, start).Next.value <= bound
    ensures Run(fetch, bound + 1).Returned?
  {
    CursorGrows(fetch, bound);
    assert Run(fetch, bound + 1) == Advance(fetch, bound, Run(fetch, bound));
  }

  // ----- Stateless servers -----

  /** What the server sees of a cursor: all cursors that are not positive ask for the first page. */
  function Seen(start: int): nat {
    if start > 0 then start else 0
  }

  /** Whenever they come, requests that look alike to the server are answered alike. */
  ghost predicate Stateless(fetch: Source) {
    && (forall call, start :: fetch(call, start) == fetch(0, start))
    && (forall start :: start <= 0 ==> fetch(0, start) == fetch(0, 0))
  }

  /** A server that does not look at the number of the call makes the loop's source stateless: the cursor is
      all that changes from request to request, and only a positive one is sent. */
  lemma StatelessServer(auth: Result<map<string, string>, string>, server: PageServer, language: string)
    requires forall call, params :: server(call, params) == server(0, params)
    ensures Stateless(SourceOf(auth, server, language))
  {
    var fetch := SourceOf(auth, server, language);
    forall start | start <= 0
      ensures fetch(0, start) == fetch(0, 0)
    {
      assert forall params :: Query(params, GetSchemaItemsOptions(start, language))
                           == Query(params, GetSchemaItemsOptions(0, language));
    }
  }

  /** Calls i and j send the same request. */
  ghost predicate SameRequest(fetch: Source, i: nat, j: nat) {
    Run(fetch, i).Running? && Run(fetch, j).Running? && Seen(Run(fetch, i).start) == Seen(Run(fetch, j).start)
  }

  /** After equal requests the loop returns in both cases or sends equal requests again. */
  lemma SeenDecides(fetch: Source, i: nat, j: nat)
    requires Stateless(fetch) && SameRequest(fetch, i, j) && Run(fetch, i + 1).Running?
    ensures SameRequest(fetch, i + 1, j + 1)
  {
    assert fetch(i, Run(fetch, i).start) == fetch(j, Run(fetch, j).start);
  }

  lemma {:induction false} InStep(fetch: Source, i: nat, j: nat, d: nat)
    requires Stateless(fetch) && SameRequest(fetch, i, j) && Run(fetch, i + d).Running?
    ensures SameRequest(fetch, i + d, j + d)
    decreases d
  {
    if d > 0 {
      RunsUntil(fetch, i + 1, i + d);
      SeenDecides(fetch, i, j);
      InStep(fetch, i + 1, j + 1, d - 1);
    }
  }

  /** A request sent twice is sent forever. */
  lemma {:induction false} RepeatRunsOn(fetch: Source, i: nat, j: nat, n: nat)
    requires Stateless(fetch) && i < j && SameRequest(fetch, i, j)
    ensures Run(fetch, n).Running?
    decreases n
  {
    if n <= j {
      RunsUntil(fetch, n, j);
    } else {
      RepeatRunsOn(fetch, i, j, n - (j - i));
      InStep(fetch, i, j, n - j);
    }
  }

  /** A cursor of zero or below makes the loop start over, and never end. */
  lemma RestartNeverEnds(fetch: Source, n: nat)
    requires Stateless(fetch) && n > 0 && Run(fetch, n).Running? && Run(fetch, n).start <= 0
    ensures !Halts(fetch)
  {
    forall m: nat
      ensures Run(fetch, m).Running?
    {
      RepeatRunsOn(fetch, 0, n, m);
    }
  }

  /** A server that always hands out the cursor zero. */
  const ENDLESS: PageServer := (call, params) => Page([], Some(0))

  /** Against it the loop never ends. */
  lemma EndlessServer(auth: map<string, string>, language: string)
    ensures !Halts(SourceOf(Ok(auth), ENDLESS, language))
  {
    var fetch := SourceOf(Ok(auth), ENDLESS, language);
    StatelessServer(Ok(auth), ENDLESS, language);
    assert Run(fetch, 0) == Running(0, []) && Run(fetch, 1) == Running(0, []);
    RestartNeverEnds(fetch, 1);
  }

  /** The reply to a cursor names a cursor within the set. */
  ghost predicate LeadsInto(reply: PageReply, cursors: iset<nat>) {
    GoesOn(reply) && Seen(reply.Next.value) in cursors
  }

  /** The first page is in the set of cursors, and nothing the server answers leads out of it. */
  ghost predicate IsCycle(server: PageServer, auth: map<string, string>, language: string, cursors: iset<nat>) {
    && 0 in cursors
    && forall c :: c in cursors ==> LeadsInto(server(0, Query(auth, GetSchemaItemsOptions(c, language))), cursors)
  }

  /** For a server that answers equal requests alike the trap is a set of cursors: the loop ends exactly when no
      set of cursors leads from the first page only to itself. */
  lemma ServerHaltsIff(auth: map<string, string>, server: PageServer, language: string)
    requires forall call, params :: server(call, params) == server(0, params)
    ensures Halts(SourceOf(Ok(auth), server, language))
       <==> !exists cursors :: IsCycle(server, auth, language, cursors)
  {
    var fetch := SourceOf(Ok(auth), server, language);
    StatelessServer(Ok(auth), server, language);
    HaltsIff(fetch);
    if cursors :| IsCycle(server, auth, language, cursors) {
      CycleTraps(fetch, auth, server, language, cursors);
    }
    if trap :| IsTrap(fetch, trap) {
      TrapCycles(fetch, auth, server, language, trap);
    }
  }

  lemma CycleTraps(fetch: Source, auth: map<string, string>, server: PageServer, language: string, cursors: iset<nat>)
    requires fetch == SourceOf(Ok(auth), server, language) && Stateless(fetch)
    requires IsCycle(server, auth, language, cursors)
    ensures exists trap :: IsTrap(fetch, trap)
  {
    var trap := iset p: (nat, int) | Seen(p.1) in cursors;
    forall call: nat, start: int | (call, start) in trap
      ensures StaysIn(fetch, trap, call, start)
    {
      assert fetch(call, start) == fetch(0, start) == fetch(0, Seen(start));
      assert LeadsInto(fetch(0, Seen(start)), cursors);
    }
    assert IsTrap(fetch, trap);
  }

  ghost predicate SeenIn(trap: iset<(nat, int)>, c: nat) {
    exists call: nat, start: int :: (call, start) in trap && Seen(start) == c
  }

  lemma TrapCycles(fetch: Source, auth: map<string, string>, server: PageServer, language: string,
                   trap: iset<(nat, int)>)
    requires fetch == SourceOf(Ok(auth), server, language) && Stateless(fetch)
    requires IsTrap(fetch, trap)
    ensures exists cursors :: IsCycle(server, auth, language, cursors)
  {
    var cursors := iset c: nat | SeenIn(trap, c);
    assert Seen(0) == 0;
    forall c | c in cursors
      ensures LeadsInto(server(0, Query(auth, GetSchemaItemsOptions(c, language))), cursors)
    {
      var call: nat, start: int :| (call, start) in trap && Seen(start) == c;
      assert StaysIn(fetch, trap, call, start);
      assert fetch(call, start) == fetch(0, start) == fetch(0, c);
    }
    assert IsCycle(server, auth, language, cursors);
  }

  /** Cursors are Go integers. */
  ghost predicate CursorsFit(fetch: Source) {
    forall call, start :: fetch(call, start).Page? && fetch(call, start).Next.Some? ==>
      MIN_INT <= fetch(call, start).Next.value <= MAX_INT
  }

  ghost predicate NeverRepeats(fetch: Source) {
    forall i: nat, j: nat :: i < j ==> !SameRequest(fetch, i, j)
  }

  function SeenUpTo(fetch: Source, n: nat): seq<nat>
    requires forall i: nat :: i < n ==> Run(fetch, i).Running?
  {
    seq(n, i requires 0 <= i < n => Seen(Run(fetch, i).start))
  }

  /** Distinct numbers below a bound are no more than the bound. */
  lemma {:induction false} Pigeonhole(s: seq<nat>, bound: nat)
    requires forall i, j :: 0 <= i < j < |s| ==> s[i] != s[j]
    requires forall i :: 0 <= i < |s| ==> s[i] < bound
    ensures |s| <= bound
    decreases |s|, bound
  {
    if |s| > 1 {
      assert s[0] < bound;
      if i :| 0 <= i < |s| && s[i] == bound - 1 {
        Pigeonhole(s[..i] + s[i + 1..], bound - 1);
      } else {
        Pigeonhole(s, bound - 1);
      }
    } else if |s| == 1 {
      assert s[0] < bound;
    }
  }

  lemma {:induction false} SeenFits(fetch: Source, n: nat)
    requires CursorsFit(fetch) && Run(fetch, n).Running?
    ensures Seen(Run(fetch, n).start) <= MAX_INT
  {
    if n > 0 {
      RunsUntil(fetch, n - 1, n);
    }
  }

  /** Seen from a run: it ends exactly when no request is sent twice, and then before every request there is
      has been sent. */
  lemma HaltsWithoutRepeats(fetch: Source)
    requires Stateless(fetch) && CursorsFit(fetch)
    ensures Halts(fetch) <==> NeverRepeats(fetch)
    ensures Halts(fetch) <==> Run(fetch, MAX_INT + 2).Returned?
  {
    if Halts(fetch) {
      forall i: nat, j: nat | i < j
        ensures !SameRequest(fetch, i, j)
      {
        var n :| Run(fetch, n).Returned?;
        if SameRequest(fetch, i, j) {
          RepeatRunsOn(fetch, i, j, n);
        }
      }
    }
    if NeverRepeats(fetch) && Run(fetch, MAX_INT + 2).Running? {
      TooManyRequests(fetch, MAX_INT + 2);
      assert false;
    }
  }

  lemma TooManyRequests(fetch: Source, n: nat)
    requires CursorsFit(fetch) && NeverRepeats(fetch) && Run(fetch, n).Running?
    ensures n <= MAX_INT + 1
  {
    forall i: nat | i < n
      ensures Run(fetch, i).Running? && Seen(Run(fetch, i).start) <= MAX_INT
    {
      RunsUntil(fetch, i, n);
      SeenFits(fetch, i);
    }
    var s := SeenUpTo(fetch, n);
    forall i, j | 0 <= i < j < |s|
      ensures s[i] != s[j]
    {
      assert !SameRequest(fetch, i, j);
    }
    Pigeonhole(s, MAX_INT + 1);
  }
}
