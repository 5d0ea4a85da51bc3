/**
 The gateway's login and read handlers as one state machine over the token store, the
 cache-aside protocol and an immutable role table. Handlers of many requests interleave at
 every point where the code takes or releases a lock.
 */
module Gateway {
  import opened Common
  import opened Strings
  import opened ServiceAccounts
  import opened Rbac
  import opened SecretPath
  import Cache = CacheSpec
  import Aside = CacheAside
  import Tokens = TokenSpec
  import History = TokenHistory

  const SECOND := 1_000_000_000

  datatype Server = Server(
    roles: map<string, Role>,
    quota: int,
    defaultTtl: int,
    roleTtl: map<string, int>,
    cache: Cache.Config,
    prefix: string)

  datatype LoginBody = Unreadable | Malformed | Body(jwt: string, role: string)

  datatype Response =
    | Error(status: int, message: string)
    | LoginOk(token: string, accessor: string, identity: Identity, policies: seq<string>, leaseSeconds: int)
    | SecretOk(data: Option<Secret>)

  const DENIED := Error(403, "permission denied")
  const BAD_PATH := Error(400, "invalid secret path")

  /** A read request: answered at once, or let through to the backend, or answered by it. */
  datatype Request =
    | Refused(response: Response)
    | Authorized(path: string)
    | Reading(path: string, reader: nat)
    | Answered(path: string, response: Response)

  datatype State = State(tokens: Tokens.Store, aside: Aside.State, requests: seq<Request>)

  datatype Event =
    | Login(body: LoginBody, validated: Option<Identity>, random: Option<(string, string)>, now: int)
    | Read(token: string, rawPath: string, now: int)   // checks path, token and access
    | Lookup(request: nat, now: int)                   // an authorized request consults the cache
    | Fetch(reader: nat, reply: Aside.Reply)           // the secret store answers
    | Store(reader: nat, now: int)                     // the answer is written to the cache
    | Respond(request: nat)
    | Revoke(token: string)
    | Sweep(now: int)

  const INIT := State(Tokens.EMPTY, Aside.INIT, [])

  // ----- Handlers -----

  function TtlForRole(server: Server, role: string): int
  {
    if role in server.roleTtl && server.roleTtl[role] > 0 then server.roleTtl[role] else server.defaultTtl
  }

  /** Integer division that truncates toward zero. */
  function Truncated(x: int, y: int): (q: int)
    requires y > 0
    ensures x >= 0 ==> q * y <= x < (q + 1) * y
    ensures x < 0 ==> (q - 1) * y < x <= q * y
  {
    if x >= 0 then x / y else -((-x) / y)
  }

  /** The validator and the random source are outside; their answers are parameters. */
  function HandleLogin(server: Server, tokens: Tokens.Store, body: LoginBody, validated: Option<Identity>,
                       random: Option<(string, string)>, now: int): (r: (Tokens.Store, Response))
  {
    match body
    case Unreadable => (tokens, Error(400, "error reading request body"))
    case Malformed => (tokens, Error(400, "invalid request body"))
    case Body(jwt, role) =>
      if jwt == "" || role == "" then (tokens, Error(400, "missing required fields: jwt and role"))
      else if validated.None? then (tokens, DENIED)
      else if !BindingAllowed(server.roles, role, validated.value.namespace, validated.value.serviceAccount) then (tokens, DENIED)
      else
        var identity := validated.value.(role := role);
        var ttl := TtlForRole(server, role);
        match Tokens.Issue(server.quota, tokens, random, identity, ttl, now)
        case (tokens', Issued(token, accessor)) =>
          (tokens', LoginOk(token, accessor, identity, ["default", role], Truncated(ttl, SECOND)))
        case (tokens', TooManyTokens) => (tokens', DENIED)
        case (tokens', RandomFailure) => (tokens', DENIED)
  }

  /** The part of a read that comes before the backend. */
  function Admit(server: Server, tokens: Tokens.Store, token: string, rawPath: string, now: int): (r: Request)
    ensures r == Authorized(TrimPrefix(rawPath, "/")) || r == Refused(BAD_PATH) || r == Refused(DENIED)
    ensures r == Refused(BAD_PATH) <==> !WellFormed(TrimPrefix(rawPath, "/"))
  {
    var path := TrimPrefix(rawPath, "/");
    if !WellFormed(path) then Refused(BAD_PATH)
    else match Tokens.Verify(tokens, token, now)
      case None => Refused(DENIED)
      case Some(id) => if AccessAllowed(server.roles, id, path) then Authorized(path) else Refused(DENIED)
  }

  function ResponseTo(outcome: Aside.Outcome): (r: Response)
  {
    match outcome
    case Served(value) => SecretOk(value)
    case NotFound => Error(404, "secret not found")
    case Unavailable => Error(502, "backend unavailable")
    case OtherError => Error(502, "backend error")
  }

  function Step(server: Server, st: State, ev: Event): (r: State)
  {
    match ev
    case Login(body, validated, random, now) =>
      st.(tokens := HandleLogin(server, st.tokens, body, validated, random, now).0)
    case Read(token, rawPath, now) =>
      st.(requests := st.requests + [Admit(server, st.tokens, token, rawPath, now)])
    case Lookup(n, now) =>
      if n < |st.requests| && st.requests[n].Authorized? then
        var path := st.requests[n].path;
        st.(aside := Aside.Step(server.cache, st.aside, Aside.Begin(server.prefix + path, now)),
            requests := st.requests[n := Reading(path, |st.aside.readers|)])
      else st
    case Fetch(r, reply) => st.(aside := Aside.Step(server.cache, st.aside, Aside.Answer(r, reply)))
    case Store(r, now) => st.(aside := Aside.Step(server.cache, st.aside, Aside.Finish(r, now)))
    case Respond(n) =>
      if n < |st.requests| && st.requests[n].Reading? && st.requests[n].reader < |st.aside.readers|
         && st.aside.readers[st.requests[n].reader].Done? then
        var Reading(path, reader) := st.requests[n];
        st.(requests := st.requests[n := Answered(path, ResponseTo(st.aside.readers[reader].outcome))])
      else st
    case Revoke(token) => st.(tokens := Tokens.Revoke(st.tokens, token))
    case Sweep(now) => st.(tokens := Tokens.Sweep(st.tokens, now))
  }

  function Run(server: Server, evs: seq<Event>): (st: State)
  {
    if evs == [] then INIT else Step(server, Run(server, evs[..|evs|-1]), evs[|evs|-1])
  }

  // ----- The token store of a run -----

  /** A login that reaches the token store. */
  predicate Reaches(server: Server, ev: Event)
  {
    && ev.Login? && ev.body.Body? && ev.body.jwt != "" && ev.body.role != "" && ev.validated.Some?
    && BindingAllowed(server.roles, ev.body.role, ev.validated.value.namespace, ev.validated.value.serviceAccount)
  }

  /** What an event does to the token store; an issue without randomness does nothing. */
  function TokenOp(server: Server, ev: Event): Tokens.Op
  {
    if Reaches(server, ev) then
      Tokens.OpIssue(ev.random, ev.validated.value.(role := ev.body.role), TtlForRole(server, ev.body.role), ev.now)
    else match ev
      case Revoke(token) => Tokens.OpRevoke(token)
      case Sweep(now) => Tokens.OpSweep(now)
      case _ => Tokens.OpIssue(None, Identity("", "", "", ""), 0, 0)
  }

  function TokenOps(server: Server, evs: seq<Event>): (ops: seq<Tokens.Op>)
    ensures |ops| == |evs| && forall i :: 0 <= i < |evs| ==> ops[i] == TokenOp(server, evs[i])
  {
    seq(|evs|, i requires 0 <= i < |evs| => TokenOp(server, evs[i]))
  }

  lemma TokenOpsPrefix(server: Server, evs: seq<Event>, n: nat)
    requires n <= |evs|
    ensures TokenOps(server, evs[..n]) == TokenOps(server, evs)[..n]
  {
  }

  /** The token store of a run is the store's own run of the projected operations, event by event. */
  lemma {:induction false} TokensRun(server: Server, evs: seq<Event>)
    ensures Run(server, evs).tokens == Tokens.Run(server.quota, TokenOps(server, evs))
  {
    if evs != [] {
      TokensRun(server, evs[..|evs|-1]);
      TokenOpsPrefix(server, evs, |evs| - 1);
    }
  }

  /** What the login at event `l` was answered. */
  ghost function LoginAnswer(server: Server, evs: seq<Event>, l: nat): Response
    requires l < |evs| && evs[l].Login?
  {
    HandleLogin(server, Run(server, evs[..l]).tokens, evs[l].body, evs[l].validated, evs[l].random, evs[l].now).1
  }

  /** Event `l` is a login that was answered 200 with `token`. */
  ghost predicate LoggedInAt(server: Server, evs: seq<Event>, l: nat, token: string)
  {
    l < |evs| && evs[l].Login? && LoginAnswer(server, evs, l).LoginOk? && LoginAnswer(server, evs, l).token == token
  }

  lemma IssuedIsLogin(server: Server, evs: seq<Event>, l: nat, token: string)
    requires l < |evs|
    ensures Tokens.IssuedAt(server.quota, TokenOps(server, evs), l, token) <==> LoggedInAt(server, evs, l, token)
    ensures LoggedInAt(server, evs, l, token) ==> Reaches(server, evs[l])
  {
    TokensRun(server, evs[..l]);
    TokenOpsPrefix(server, evs, l);
  }

  /** Since login `l`, `token` was not revoked, not handed out again, and not swept after its expiry. */
  ghost predicate StillHeld(server: Server, evs: seq<Event>, l: nat, token: string)
    requires l < |evs| && Reaches(server, evs[l])
  {
    forall j :: l < j < |evs| ==>
      && evs[j] != Revoke(token)
      && !LoggedInAt(server, evs, j, token)
      && (evs[j].Sweep? ==> evs[j].now <= evs[l].now + TtlForRole(server, evs[l].body.role))
  }

  /** Login `l` of the run entitles the bearer of `token` to read `path` at time `now`. */
  ghost predicate Entitles(server: Server, evs: seq<Event>, l: nat, token: string, path: string, now: int)
  {
    && LoggedInAt(server, evs, l, token) && Reaches(server, evs[l])
    && StillHeld(server, evs, l, token)
    && now <= evs[l].now + TtlForRole(server, evs[l].body.role)
    && MayAssume(server.roles, evs[l].body.role, evs[l].validated.value.namespace, evs[l].validated.value.serviceAccount)
    && PathListed(server.roles[evs[l].body.role], path)
  }

  lemma HeldIsSource(server: Server, evs: seq<Event>, l: nat, token: string)
    requires l < |evs|
    ensures History.Source(server.quota, TokenOps(server, evs), l, token) <==>
              LoggedInAt(server, evs, l, token) && Reaches(server, evs[l]) && StillHeld(server, evs, l, token)
  {
    IssuedIsLogin(server, evs, l, token);
    if LoggedInAt(server, evs, l, token) {
      forall j | l < j < |evs|
        ensures Tokens.IssuedAt(server.quota, TokenOps(server, evs), j, token) <==> LoggedInAt(server, evs, j, token)
        ensures TokenOps(server, evs)[j] == Tokens.OpRevoke(token) <==> evs[j] == Revoke(token)
      {
        IssuedIsLogin(server, evs, j, token);
      }
    }
  }

  /** Every identity in the store is bound to the role it carries, so the recheck on access never fails. */
  lemma {:induction false} StoredIdentityIsBound(server: Server, evs: seq<Event>, token: string)
    requires token in Run(server, evs).tokens.byToken
    ensures var id := Run(server, evs).tokens.byToken[token].identity;
            MayAssume(server.roles, id.role, id.namespace, id.serviceAccount)
    ensures var id := Run(server, evs).tokens.byToken[token].identity;
            forall path :: AccessAllowed(server.roles, id, path) <==> PathListed(server.roles[id.role], path)
  {
    TokensRun(server, evs);
    var l := History.StoredFromSource(server.quota, TokenOps(server, evs), token);
    IssuedIsLogin(server, evs, l, token);
    var id := Run(server, evs).tokens.byToken[token].identity;
    BindingExactly(server.roles, id.role, id.namespace, id.serviceAccount);
  }

  /**
   Admission, exactly: a read gets past the checks if and only if its path is well formed
   and some login of the run, still standing and no older than its role's TTL, was bound to
   a role with a pattern for the path.
   */
  lemma {:induction false} AdmittedExactly(server: Server, evs: seq<Event>, token: string, rawPath: string, now: int)
    ensures var path := TrimPrefix(rawPath, "/");
            Admit(server, Run(server, evs).tokens, token, rawPath, now) == Authorized(path) <==>
              WellFormed(path) && exists l: nat :: Entitles(server, evs, l, token, path, now)
  {
    var path := TrimPrefix(rawPath, "/");
    var ops := TokenOps(server, evs);
    TokensRun(server, evs);
    if Admit(server, Run(server, evs).tokens, token, rawPath, now) == Authorized(path) {
      var l := History.StoredFromSource(server.quota, ops, token);
      HeldIsSource(server, evs, l, token);
      BindingExactly(server.roles, evs[l].body.role, evs[l].validated.value.namespace, evs[l].validated.value.serviceAccount);
      assert Entitles(server, evs, l, token, path, now);
    }
    forall l: nat | Entitles(server, evs, l, token, path, now) && WellFormed(path)
      ensures Admit(server, Run(server, evs).tokens, token, rawPath, now) == Authorized(path)
    {
      HeldIsSource(server, evs, l, token);
      History.SourceIsStored(server.quota, ops, l, token);
    }
  }

  // ----- The cache-aside protocol inside a run -----

  function AsideEvent(st: State, server: Server, ev: Event): Aside.Event
  {
    match ev
    case Lookup(n, now) =>
      if n < |st.requests| && st.requests[n].Authorized? then Aside.Begin(server.prefix + st.requests[n].path, now) else Aside.Idle
    case Fetch(r, reply) => Aside.Answer(r, reply)
    case Store(r, now) => Aside.Finish(r, now)
    case _ => Aside.Idle
  }

  function AsideEvents(server: Server, evs: seq<Event>): (r: seq<Aside.Event>)
    ensures |r| == |evs| && forall i :: 0 <= i < |evs| ==> r[i] == AsideEvent(Run(server, evs[..i]), server, evs[i])
  {
    seq(|evs|, i requires 0 <= i < |evs| => AsideEvent(Run(server, evs[..i]), server, evs[i]))
  }

  lemma AsideEventsPrefix(server: Server, evs: seq<Event>, n: nat)
    requires n <= |evs|
    ensures AsideEvents(server, evs[..n]) == AsideEvents(server, evs)[..n]
  {
    forall i | 0 <= i < n ensures AsideEvents(server, evs[..n])[i] == AsideEvents(server, evs)[i] {
      assert evs[..n][..i] == evs[..i];
    }
  }

  lemma AsideStep(server: Server, st: State, ev: Event)
    ensures Step(server, st, ev).aside == Aside.Step(server.cache, st.aside, AsideEvent(st, server, ev))
  {
    hide HandleLogin, Admit, Aside.StoreReply, Cache.Get;
  }

  /** The cache and the readers of a run are the cache-aside protocol's own run, event by event. */
  lemma {:induction false} AsideRun(server: Server, evs: seq<Event>)
    ensures Run(server, evs).aside == Aside.Run(server.cache, AsideEvents(server, evs))
  {
    hide Step, Aside.Step, AsideEvent;
    if evs != [] {
      var n := |evs| - 1;
      AsideRun(server, evs[..n]);
      AsideEventsPrefix(server, evs, n);
      AsideStep(server, Run(server, evs[..n]), evs[n]);
    }
  }

  /** At event `j` the secret store answered a running fetch of `id` with `reply`. */
  ghost predicate FetchedAt(server: Server, evs: seq<Event>, j: nat, id: string, reply: Aside.Reply)
  {
    && j < |evs| && evs[j].Fetch? && evs[j].reply == reply
    && evs[j].reader < |Run(server, evs[..j]).aside.readers|
    && Run(server, evs[..j]).aside.readers[evs[j].reader] == Aside.Fetching(id)
  }

  lemma PrefixFetched(server: Server, evs: seq<Event>, n: nat, j: nat, id: string, reply: Aside.Reply)
    requires j < n <= |evs|
    ensures FetchedAt(server, evs[..n], j, id, reply) <==> FetchedAt(server, evs, j, id, reply)
  {
    assert evs[..n][..j] == evs[..j];
  }

  /** Event `b` is the lookup with which request `n` became reader `r`'s. */
  ghost predicate LookedUpAt(server: Server, evs: seq<Event>, b: nat, n: nat, r: nat)
  {
    && b < |evs| && evs[b].Lookup? && evs[b].request == n
    && n < |Run(server, evs[..b]).requests| && Run(server, evs[..b]).requests[n].Authorized?
    && |Run(server, evs[..b]).aside.readers| == r
  }

  /** A request being read has a reader, which began for it and reads the request's own path. */
  lemma {:induction false} ReaderReadsItsPath(server: Server, evs: seq<Event>, n: nat) returns (b: nat)
    requires n < |Run(server, evs).requests| && Run(server, evs).requests[n].Reading?
    ensures var Reading(path, r) := Run(server, evs).requests[n];
            && r < |Run(server, evs).aside.readers| && Run(server, evs).aside.readers[r].id == server.prefix + path
            && LookedUpAt(server, evs, b, n, r)
  {
    hide HandleLogin, Admit, Cache.Get, Aside.StoreReply;
    var last := |evs| - 1;
    var before := Run(server, evs[..last]);
    if n < |before.requests| && before.requests[n].Reading? {
      b := ReaderReadsItsPath(server, evs[..last], n);
      assert evs[..last][..b] == evs[..b];
    } else {
      b := last;
    }
  }

  /** At event `k` reader `fetcher`, holding the answer `reply` for `id`, wrote it to the cache. */
  ghost predicate WrittenAt(server: Server, evs: seq<Event>, k: nat, fetcher: nat, id: string, reply: Aside.Reply)
  {
    && k < |evs| && evs[k].Store? && evs[k].reader == fetcher
    && fetcher < |Run(server, evs[..k]).aside.readers|
    && Run(server, evs[..k]).aside.readers[fetcher] == Aside.Fetched(id, reply)
    && server.cache.enabled && Aside.Lifetime(server.cache, reply) > 0
  }

  /** The answer that `fetcher` wrote at `k` was the last one written for `id` before event `b`. */
  ghost predicate LastWrittenAt(server: Server, evs: seq<Event>, b: nat, k: nat, fetcher: nat, id: string, reply: Aside.Reply)
  {
    && k < b && WrittenAt(server, evs, k, fetcher, id, reply)
    && (forall l, r, other :: k < l < b ==> !WrittenAt(server, evs, l, r, id, other))
  }

  /**
   The secret store's answer `reply` to the fetch of `id` that `fetcher` completed at event
   `j` is current for the cache lookup of reader `r` at event `b`: either it is the reader's
   own fetch, after the lookup, or `fetcher` had written it to the cache, at `k`, at most the
   TTL (for not-found, the negative TTL) before the lookup, and nobody had written `id` since.
   */
  ghost predicate CurrentAt(server: Server, evs: seq<Event>, b: nat, r: nat, j: nat, k: nat, fetcher: nat, id: string, reply: Aside.Reply)
  {
    && FetchedAt(server, evs, j, id, reply) && evs[j].reader == fetcher
    && b < |evs| && evs[b].Lookup?
    && ((b < j && fetcher == r) ||
        (&& j < k && LastWrittenAt(server, evs, b, k, fetcher, id, reply)
         && evs[b].now <= evs[k].now + Aside.Lifetime(server.cache, reply)))
  }

  lemma PrefixWritten(server: Server, evs: seq<Event>, n: nat, k: nat, fetcher: nat, id: string, reply: Aside.Reply)
    requires k < n <= |evs|
    ensures WrittenAt(server, evs[..n], k, fetcher, id, reply) <==> WrittenAt(server, evs, k, fetcher, id, reply)
  {
    assert evs[..n][..k] == evs[..k];
  }

  lemma PrefixCurrent(server: Server, evs: seq<Event>, n: nat, b: nat, r: nat, j: nat, k: nat, fetcher: nat, id: string, reply: Aside.Reply)
    requires n <= |evs| && CurrentAt(server, evs[..n], b, r, j, k, fetcher, id, reply)
    ensures CurrentAt(server, evs, b, r, j, k, fetcher, id, reply)
  {
    hide Run, WrittenAt;
    PrefixFetched(server, evs, n, j, id, reply);
    if k < n {
      PrefixWritten(server, evs, n, k, fetcher, id, reply);
    }
    forall l, r', other | k < l < b ensures WrittenAt(server, evs, l, r', id, other) <==> WrittenAt(server, evs[..n], l, r', id, other) {
      PrefixWritten(server, evs, n, l, r', id, other);
    }
  }

  /** A write of the protocol's run is a write of the gateway's. */
  lemma WroteIsWritten(server: Server, evs: seq<Event>, b: nat, k: nat, fetcher: nat, id: string, reply: Aside.Reply)
    requires k < b <= |evs|
    ensures Aside.WroteAt(server.cache, AsideEvents(server, evs), k, fetcher, id, reply) <==> WrittenAt(server, evs, k, fetcher, id, reply)
    ensures Aside.WroteAt(server.cache, AsideEvents(server, evs)[..b], k, fetcher, id, reply) <==> WrittenAt(server, evs, k, fetcher, id, reply)
  {
    hide Step, Run, Aside.Step, Aside.Run;
    AsideRun(server, evs[..k]);
    AsideEventsPrefix(server, evs, k);
    assert AsideEvents(server, evs)[..b][..k] == AsideEvents(server, evs)[..k];
  }

  lemma LastWrite(server: Server, evs: seq<Event>, b: nat, k: nat, fetcher: nat, id: string, reply: Aside.Reply)
    requires k < b <= |evs|
    requires Aside.WroteAt(server.cache, AsideEvents(server, evs), k, fetcher, id, reply)
    requires Aside.UndisturbedSince(server.cache, AsideEvents(server, evs)[..b], k, id)
    ensures LastWrittenAt(server, evs, b, k, fetcher, id, reply)
  {
    hide AsideEvents, Aside.WroteAt, WrittenAt;
    WroteIsWritten(server, evs, b, k, fetcher, id, reply);
    forall l: nat, r, other | k < l < b ensures !WrittenAt(server, evs, l, r, id, other) {
      WroteIsWritten(server, evs, b, l, r, id, other);
      assert AsideEvents(server, evs)[..b][l] != Aside.Flush;
    }
  }

  lemma ReaderFromFetch(server: Server, evs: seq<Event>, n: nat, r: nat, b: nat) returns (j: nat, k: nat, fetcher: nat, reply: Aside.Reply)
    requires r < |Run(server, evs).aside.readers| && Run(server, evs).aside.readers[r].Done? && LookedUpAt(server, evs, b, n, r)
    ensures var reader := Run(server, evs).aside.readers[r];
            CurrentAt(server, evs, b, r, j, k, fetcher, reader.id, reply) && reader.outcome == Aside.OutcomeOf(reply)
  {
    hide Step, Run, Aside.Step, Aside.Run, LastWrittenAt;
    var asides := AsideEvents(server, evs);
    AsideRun(server, evs);
    AsideRun(server, evs[..b]);
    AsideEventsPrefix(server, evs, b);
    j, k, fetcher, reply := Aside.DoneFromFetch(server.cache, asides, r, b);
    AsideRun(server, evs[..j]);
    AsideEventsPrefix(server, evs, j);
    if j < k < b {
      LastWrite(server, evs, b, k, fetcher, Run(server, evs).aside.readers[r].id, reply);
    }
  }

  /** The answer a client gets for what the secret store replied. */
  ghost predicate Renders(response: Response, reply: Aside.Reply)
  {
    && (reply.Found? ==> response == SecretOk(reply.value))
    && (reply.Missing? || reply.MissingUncached? ==> response == Error(404, "secret not found"))
    && (reply.Outage? ==> response == Error(502, "backend unavailable"))
    && (reply.Fault? ==> response == Error(502, "backend error"))
  }

  /**
   Every answer that comes through the backend, be it a secret, a 404 or a 502, is what the
   secret store replied to a fetch of the request's own id, and it is current for the
   request's own lookup.
   */
  lemma {:induction false} ResponseFromFetch(server: Server, evs: seq<Event>, n: nat)
    returns (b: nat, r: nat, j: nat, k: nat, fetcher: nat, reply: Aside.Reply)
    requires n < |Run(server, evs).requests| && Run(server, evs).requests[n].Answered?
    ensures LookedUpAt(server, evs, b, n, r)
    ensures var Answered(path, response) := Run(server, evs).requests[n];
            CurrentAt(server, evs, b, r, j, k, fetcher, server.prefix + path, reply) && Renders(response, reply)
  {
    hide HandleLogin, Admit, Aside.Step, CurrentAt;
    var last := |evs| - 1;
    var before := Run(server, evs[..last]);
    var path := Run(server, evs).requests[n].path;
    if n < |before.requests| && before.requests[n].Answered? {
      b, r, j, k, fetcher, reply := ResponseFromFetch(server, evs[..last], n);
    } else {
      r := before.requests[n].reader;
      b := ReaderReadsItsPath(server, evs[..last], n);
      j, k, fetcher, reply := ReaderFromFetch(server, evs[..last], n, r, b);
    }
    PrefixCurrent(server, evs, last, b, r, j, k, fetcher, server.prefix + path, reply);
    assert evs[..last][..b] == evs[..b];
  }

  /** With an unchanging secret store the gateway answers every admitted read as if it had no cache. */
  lemma {:induction false} GatewayIsTransparent(server: Server, evs: seq<Event>, backend: string -> Aside.Reply, n: nat)
    requires forall j, id, reply :: FetchedAt(server, evs, j, id, reply) ==> reply == backend(id)
    requires n < |Run(server, evs).requests| && Run(server, evs).requests[n].Answered?
    ensures var Answered(path, response) := Run(server, evs).requests[n];
            Renders(response, backend(server.prefix + path))
  {
    var b, r, j, k, fetcher, reply := ResponseFromFetch(server, evs, n);
  }

  /** Event `m` is the read that became request `n`. */
  ghost predicate ReadAt(server: Server, evs: seq<Event>, m: nat, n: nat)
  {
    m < |evs| && evs[m].Read? && |Run(server, evs[..m]).requests| == n
  }

  /** A request never turns into another one: a refusal stays, an admitted one keeps its path; new ones come from reads. */
  lemma RequestStep(server: Server, st: State, ev: Event, n: nat)
    requires n < |Step(server, st, ev).requests|
    ensures n < |st.requests| ==>
              var was, next := st.requests[n], Step(server, st, ev).requests[n];
              if was.Refused? then next == was else !next.Refused? && next.path == was.path
    ensures n >= |st.requests| ==>
              && ev.Read? && n == |st.requests|
              && Step(server, st, ev).requests[n] == Admit(server, st.tokens, ev.token, ev.rawPath, ev.now)
  {
    hide HandleLogin, Admit, Aside.Step;
  }

  lemma {:induction false} RequestFromRead(server: Server, evs: seq<Event>, n: nat) returns (m: nat)
    requires n < |Run(server, evs).requests|
    ensures ReadAt(server, evs, m, n)
    ensures var admitted := Admit(server, Run(server, evs[..m]).tokens, evs[m].token, evs[m].rawPath, evs[m].now);
            var request := Run(server, evs).requests[n];
            if request.Refused? then admitted == request else admitted == Authorized(request.path)
  {
    hide Step, Admit;
    var last := |evs| - 1;
    RequestStep(server, Run(server, evs[..last]), evs[last], n);
    if n < |Run(server, evs[..last]).requests| {
      m := RequestFromRead(server, evs[..last], n);
      assert evs[..last][..m] == evs[..m];
    } else {
      m := last;
    }
  }

  lemma {:induction false} RequestsNeverShrink(server: Server, evs: seq<Event>, n: nat)
    requires n <= |evs|
    ensures |Run(server, evs[..n]).requests| <= |Run(server, evs).requests|
  {
    hide HandleLogin, Admit, Aside.Step;
    if n == |evs| {
      assert evs[..n] == evs;
    } else {
      RequestsNeverShrink(server, evs[..|evs|-1], n);
      assert evs[..|evs|-1][..n] == evs[..n];
    }
  }

  /** A request looks the cache up after the read that made it. */
  lemma LookupAfterRead(server: Server, evs: seq<Event>, m: nat, b: nat, n: nat, r: nat)
    requires ReadAt(server, evs, m, n) && LookedUpAt(server, evs, b, n, r)
    ensures m < b
  {
    hide Run;
    if b < m {
      assert evs[..m][..b] == evs[..b];
      RequestsNeverShrink(server, evs[..m], b);
    }
  }

  /**
   Whole-run safety. Whenever a read is answered 200, the run has an earlier login that was
   answered with that very token no more than its role's TTL before the read, by an identity
   bound to the role; the token was not revoked in between; the path is well formed and
   matches a pattern of the role; and the data is what the secret store answered for
   exactly that path: to the request itself, after its own cache lookup, or to a reader that
   wrote the answer to the cache at most the TTL before that lookup, as the last one to do so.
   */
  lemma {:induction false} EverySecretIsEntitled(server: Server, evs: seq<Event>, n: nat)
    returns (m: nat, l: nat, b: nat, r: nat, j: nat, k: nat, fetcher: nat)
    requires n < |Run(server, evs).requests| && Run(server, evs).requests[n].Answered? && Run(server, evs).requests[n].response.SecretOk?
    ensures ReadAt(server, evs, m, n) && l < m < b && l < |evs| && LookedUpAt(server, evs, b, n, r)
    ensures var Answered(path, SecretOk(data)) := Run(server, evs).requests[n];
            && path == TrimPrefix(evs[m].rawPath, "/") && WellFormed(path)
            && Entitles(server, evs[..m], l, evs[m].token, path, evs[m].now)
            && evs[l].Login? && evs[l].body.Body? && evs[l].validated.Some?
            && MayAssume(server.roles, evs[l].body.role, evs[l].validated.value.namespace, evs[l].validated.value.serviceAccount)
            && PathListed(server.roles[evs[l].body.role], path)
            && CurrentAt(server, evs, b, r, j, k, fetcher, server.prefix + path, Aside.Found(data))
  {
    m := RequestFromRead(server, evs, n);
    var path := Run(server, evs).requests[n].path;
    AdmittedExactly(server, evs[..m], evs[m].token, evs[m].rawPath, evs[m].now);
    l :| Entitles(server, evs[..m], l, evs[m].token, path, evs[m].now);
    var reply;
    b, r, j, k, fetcher, reply := ResponseFromFetch(server, evs, n);
    LookupAfterRead(server, evs, m, b, n, r);
  }

  // ----- Refusals reveal nothing about secrets -----

  /** The events that touch tokens or admit requests, in order. */
  function Public(evs: seq<Event>): seq<Event>
  {
    if evs == [] then []
    else
      var rest, ev := Public(evs[..|evs|-1]), evs[|evs|-1];
      if ev.Login? || ev.Read? || ev.Revoke? || ev.Sweep? then rest + [ev] else rest
  }

  /** The answers to the logins of a run, in order. */
  function LoginAnswers(server: Server, evs: seq<Event>): seq<Response>
  {
    if evs == [] then []
    else
      var before, ev := evs[..|evs|-1], evs[|evs|-1];
      if ev.Login? then
        LoginAnswers(server, before) + [HandleLogin(server, Run(server, before).tokens, ev.body, ev.validated, ev.random, ev.now).1]
      else LoginAnswers(server, before)
  }

  /** What a client learns at admission: refused with which answer, or let through. */
  function Admission(r: Request): Request
  {
    if r.Refused? then r else Authorized(r.path)
  }

  ghost predicate SameAdmissions(a: seq<Request>, b: seq<Request>)
  {
    |a| == |b| && forall i :: 0 <= i < |a| ==> Admission(a[i]) == Admission(b[i])
  }

  /** Removing the last event of a run when it is not public changes no token and no admission. */
  lemma PrivateEvent(server: Server, evs: seq<Event>)
    requires evs != [] && (var ev := evs[|evs|-1]; !(ev.Login? || ev.Read? || ev.Revoke? || ev.Sweep?))
    ensures var before := evs[..|evs|-1];
            && Public(before) == Public(evs)
            && Run(server, before).tokens == Run(server, evs).tokens
            && LoginAnswers(server, before) == LoginAnswers(server, evs)
            && SameAdmissions(Run(server, before).requests, Run(server, evs).requests)
  {
    hide HandleLogin, Admit, Aside.Step;
  }

  /** One public event in two states that agree on tokens and admissions. */
  lemma SamePublicStep(server: Server, a: State, b: State, ev: Event)
    requires ev.Login? || ev.Read? || ev.Revoke? || ev.Sweep?
    requires a.tokens == b.tokens && SameAdmissions(a.requests, b.requests)
    ensures Step(server, a, ev).tokens == Step(server, b, ev).tokens
    ensures SameAdmissions(Step(server, a, ev).requests, Step(server, b, ev).requests)
  {
    hide HandleLogin, Admit, Aside.Step;
  }

  /**
   Two runs with the same logins, reads, revocations and sweeps, but any secrets, any cache
   contents and any progress of backend reads, have the same token store, answer every login
   alike, and refuse the same reads with the same answers.
   */
  lemma {:induction false} RefusalsIgnoreSecrets(server: Server, a: seq<Event>, b: seq<Event>)
    requires Public(a) == Public(b)
    ensures Run(server, a).tokens == Run(server, b).tokens
    ensures LoginAnswers(server, a) == LoginAnswers(server, b)
    ensures SameAdmissions(Run(server, a).requests, Run(server, b).requests)
    decreases |a| + |b|
  {
    hide HandleLogin, Step;
    if a != [] && Public(a[..|a|-1]) == Public(a) {
      PrivateEvent(server, a);
      RefusalsIgnoreSecrets(server, a[..|a|-1], b);
    } else if b != [] && Public(b[..|b|-1]) == Public(b) {
      PrivateEvent(server, b);
      RefusalsIgnoreSecrets(server, a, b[..|b|-1]);
    } else if a != [] && b != [] {
      var pa, pb := Public(a[..|a|-1]), Public(b[..|b|-1]);
      assert Public(a) == pa + [a[|a|-1]] && Public(b) == pb + [b[|b|-1]];
      assert a[|a|-1] == Public(a)[|pa|] && b[|b|-1] == Public(b)[|pb|];
      assert pa == Public(a)[..|Public(a)|-1] && pb == Public(b)[..|Public(b)|-1];
      RefusalsIgnoreSecrets(server, a[..|a|-1], b[..|b|-1]);
      SamePublicStep(server, Run(server, a[..|a|-1]), Run(server, b[..|b|-1]), a[|a|-1]);
    }
  }

  /**
   Every 400 or 403 to a read is given at admission; it says only whether the path is well
   formed, and giving it changes neither the tokens nor the cache.
   */
  lemma {:induction false} RefusalShape(server: Server, evs: seq<Event>, n: nat)
    requires n < |Run(server, evs).requests|
    ensures var r := Run(server, evs).requests[n];
            && (r.Refused? ==> r.response == Error(400, "invalid secret path") || r.response == Error(403, "permission denied"))
            && (r.Answered? ==> r.response.SecretOk? || (r.response.Error? && r.response.status in {404, 502}))
    ensures exists m: nat :: ReadAt(server, evs, m, n)
              && (Run(server, evs).requests[n] == Refused(Error(400, "invalid secret path")) <==> !WellFormed(TrimPrefix(evs[m].rawPath, "/")))
              && Step(server, Run(server, evs[..m]), evs[m]).aside == Run(server, evs[..m]).aside
              && Step(server, Run(server, evs[..m]), evs[m]).tokens == Run(server, evs[..m]).tokens
  {
    var m := RequestFromRead(server, evs, n);
    assert ReadAt(server, evs, m, n);
    if Run(server, evs).requests[n].Answered? {
      var b, r, j, k, fetcher, reply := ResponseFromFetch(server, evs, n);
    }
  }

  // ----- What a login answers -----

  /** The answer to a login that fails: 400 with the fault of its body, or one and the same 403. */
  ghost predicate Rejects(body: LoginBody, response: Response)
  {
    match body
    case Unreadable => response == Error(400, "error reading request body")
    case Malformed => response == Error(400, "invalid request body")
    case Body(jwt, role) =>
      if jwt == "" || role == "" then response == Error(400, "missing required fields: jwt and role")
      else response == Error(403, "permission denied")
  }

  /**
   A login is answered 200 exactly when it carries both fields, the validator vouched for an
   identity bound to the role, the random source worked and the quota has room; it hands out
   the token drawn, and the lease is the TTL in whole seconds. Otherwise nothing is stored
   and, once the body is in order, the answer is always the same 403.
   */
  lemma {:induction false} LoginExactly(server: Server, tokens: Tokens.Store, body: LoginBody, validated: Option<Identity>,
                     random: Option<(string, string)>, now: int)
    ensures var (tokens', response) := HandleLogin(server, tokens, body, validated, random, now);
            var ready := body.Body? && body.jwt != "" && body.role != "";
            && (response.LoginOk? <==>
                  && ready && validated.Some? && random.Some?
                  && BindingAllowed(server.roles, body.role, validated.value.namespace, validated.value.serviceAccount)
                  && (server.quota > 0 ==> Tokens.Count(tokens, IdentityKey(validated.value)) < server.quota))
            && (response.LoginOk? ==>
                  && random.value.0 == response.token && random.value.1 == response.accessor
                  && response.identity.role == body.role && response.policies == ["default", body.role]
                  && response.identity.namespace == validated.value.namespace
                  && response.identity.serviceAccount == validated.value.serviceAccount
                  && response.identity.uid == validated.value.uid
                  && (TtlForRole(server, body.role) >= 0 ==>
                        response.leaseSeconds * SECOND <= TtlForRole(server, body.role) < (response.leaseSeconds + 1) * SECOND)
                  && Tokens.Verify(tokens', response.token, now + TtlForRole(server, body.role)) == Some(response.identity)
                  && Tokens.Verify(tokens', response.token, now + TtlForRole(server, body.role) + 1).None?)
            && (!response.LoginOk? ==> tokens' == tokens && Rejects(body, response))
  {
  }

  // ----- The lease a login promises -----

  /** `ttl` is the role's own lifetime if the table has a positive one, and the default otherwise. */
  ghost predicate IsTtl(server: Server, role: string, ttl: int)
  {
    if role in server.roleTtl && server.roleTtl[role] > 0 then ttl == server.roleTtl[role] else ttl == server.defaultTtl
  }

  /** `lease` is `ttl` in whole seconds, cut off toward zero. */
  ghost predicate IsLease(lease: int, ttl: int)
  {
    if ttl >= 0 then lease * 1_000_000_000 <= ttl < (lease + 1) * 1_000_000_000
    else (lease - 1) * 1_000_000_000 < ttl <= lease * 1_000_000_000
  }

  /**
   A token lives for exactly its role's TTL, the role's own if it has a positive one and the
   default otherwise: unless it is revoked or handed out again, it verifies to the identity
   that logged in until the login plus the TTL, sweeps notwithstanding, and to nothing
   afterwards. The lease in the login's answer is that TTL in whole seconds.
   */
  lemma {:induction false} LeaseIsHonoured(server: Server, evs: seq<Event>, l: nat, token: string, now: int, ttl: int)
    requires LoggedInAt(server, evs, l, token) && evs[l].body.Body? && IsTtl(server, evs[l].body.role, ttl)
    requires forall j :: l < j < |evs| ==> evs[j] != Revoke(token) && !LoggedInAt(server, evs, j, token)
    requires forall j :: 0 <= j < |evs| && evs[j].Sweep? ==> evs[j].now <= now
    ensures evs[l].validated.Some?
    ensures Tokens.Verify(Run(server, evs).tokens, token, now) ==
              if now <= evs[l].now + ttl then Some(evs[l].validated.value.(role := evs[l].body.role)) else None
    ensures IsLease(LoginAnswer(server, evs, l).leaseSeconds, ttl)
  {
    hide Run, HandleLogin, LoginAnswer;
    IssuedIsLogin(server, evs, l, token);
    TokensRun(server, evs);
    LeaseIsTtl(server, evs, l, token);
    assert ttl == TtlForRole(server, evs[l].body.role);
    if now <= evs[l].now + ttl {
      assert StillHeld(server, evs, l, token);
      HeldIsSource(server, evs, l, token);
      History.SourceIsStored(server.quota, TokenOps(server, evs), l, token);
    } else if token in Run(server, evs).tokens.byToken {
      var i := History.StoredFromSource(server.quota, TokenOps(server, evs), token);
      HeldIsSource(server, evs, i, token);
      assert i == l;
    }
  }

  lemma LeaseIsTtl(server: Server, evs: seq<Event>, l: nat, token: string)
    requires LoggedInAt(server, evs, l, token) && Reaches(server, evs[l])
    ensures LoginAnswer(server, evs, l).LoginOk?
    ensures LoginAnswer(server, evs, l).leaseSeconds == Truncated(TtlForRole(server, evs[l].body.role), SECOND)
  {
    hide Run;
  }
}
