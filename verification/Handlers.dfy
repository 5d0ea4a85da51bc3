/**
 The two handlers as they run: ordered effects on the token store, the backend's cache and
 the response. Each is proved to be the corresponding step of module Gateway.
 */
module Handlers {
  import opened Common
  import opened ServiceAccounts
  import opened CacheImpl
  import opened AwsBackend
  import opened TokenStore
  import Strings
  import SecretPath
  import Rbac
  import Aside = CacheAside
  import Spec = CacheSpec
  import G = Gateway

  class Handlers {
    const server: G.Server
    const tokens: TokenStore
    const backend: AwsBackend

    ghost predicate Valid()
      reads this, tokens, backend.cache, backend.cache.Repr
    {
      && tokens.Valid() && tokens.maxTokensPerIdentity == server.quota
      && backend.cache.Valid() && backend.cache.cfg == server.cache && backend.prefix == server.prefix
      && tokens !in backend.cache.Repr
    }

    constructor (server: G.Server, tokens: TokenStore, backend: AwsBackend)
      requires tokens.Valid() && tokens.maxTokensPerIdentity == server.quota
      requires backend.cache.Valid() && backend.cache.cfg == server.cache && backend.prefix == server.prefix
      requires tokens !in backend.cache.Repr
      ensures Valid() && this.server == server && this.tokens == tokens && this.backend == backend
    {
      this.server, this.tokens, this.backend := server, tokens, backend;
    }

    method Login(body: G.LoginBody, validated: Option<Identity>, random: Option<(string, string)>, now: int) returns (response: G.Response)
      requires Valid()
      modifies tokens
      ensures Valid()
      ensures (tokens.State(), response) == G.HandleLogin(server, old(tokens.State()), body, validated, random, now)
    {
      hide Cache.Valid, Rbac.MayAssume, Rbac.BindingAllowed, TokenStore.Valid;
      match body {
        case Unreadable => return G.Error(400, "error reading request body");
        case Malformed => return G.Error(400, "invalid request body");
        case Body(jwt, role) =>
          if jwt == "" || role == "" {
            return G.Error(400, "missing required fields: jwt and role");
          }
          if validated.None? {
            return G.DENIED;
          }
          var identity := validated.value;
          var bound := Rbac.CheckBinding(server.roles, role, identity.namespace, identity.serviceAccount);
          Rbac.BindingExactly(server.roles, role, identity.namespace, identity.serviceAccount);
          if !bound {
            return G.DENIED;
          }
          identity := identity.(role := role);
          var ttl := G.TtlForRole(server, role);
          var issued := tokens.IssueToken(random, identity, ttl, now);
          if !issued.Issued? {
            return G.DENIED;
          }
          return G.LoginOk(issued.token, issued.accessor, identity, ["default", role], G.Truncated(ttl, G.SECOND));
      }
    }

    /**
     One read from start to end, with the clock readings and the secret store as
     parameters. The response is written before the map is wiped, and the wipe does not
     reach the cache. A refused read touches nothing.
     */
    method ReadSecret(token: string, rawPath: string, now: int, client: string -> ClientReply, lookedUp: int, stored: int) returns (response: G.Response)
      requires Valid()
      modifies backend.cache.Repr
      ensures Valid()
      ensures match G.Admit(server, tokens.State(), token, rawPath, now) {
                case Refused(refusal) => response == refusal && (forall o :: o in old(backend.cache.Repr) ==> unchanged(o))
                case Authorized(path) =>
                  var (slots, outcome) := Aside.Solo(server.cache, old(backend.cache.slots), server.prefix + path, ReplyOf(client(server.prefix + path)), lookedUp, stored);
                  backend.cache.slots == slots && response == G.ResponseTo(outcome)
                case _ => false
              }
    {
      hide Cache.Valid, TokenStore.Valid, Aside.Solo, Answers, Rbac.MayAssume, Rbac.PathListed, Rbac.AccessAllowed, SecretPath.WellFormed;
      var path := Strings.TrimPrefix(rawPath, "/");
      var verdict := SecretPath.Validate(path);
      if verdict.Invalid? {
        return G.BAD_PATH;
      }
      var identity := tokens.VerifyToken(token, now);
      if identity.None? {
        return G.DENIED;
      }
      var ok := Rbac.CheckAccess(server.roles, identity, path);
      Rbac.AccessExactly(server.roles, identity.value, path);
      if !ok {
        return G.DENIED;
      }
      var data, outcome := backend.GetSecret(path, client, lookedUp, stored);
      match outcome {
        case NotFound => return G.Error(404, "secret not found");
        case Unavailable => return G.Error(502, "backend unavailable");
        case OtherError => return G.Error(502, "backend error");
        case Served(_) =>
      }
      response := G.SecretOk(if data == null then None else Some(data.m));
      ClearMap(data);
    }
  }

  /** The five events of one read, from admission to answer, the request being number `n` and its reader number `r`. */
  function ReadEvents(n: nat, r: nat, token: string, rawPath: string, now: int, reply: Aside.Reply, lookedUp: int, stored: int): (evs: seq<G.Event>)
    ensures |evs| == 5
  {
    [G.Read(token, rawPath, now), G.Lookup(n, lookedUp), G.Fetch(r, reply), G.Store(r, stored), G.Respond(n)]
  }

  /** A run continued from a state. */
  function Continue(server: G.Server, st: G.State, evs: seq<G.Event>): G.State
    decreases |evs|
  {
    if evs == [] then st else Continue(server, G.Step(server, st, evs[0]), evs[1..])
  }

  lemma {:induction false} RunContinues(server: G.Server, a: seq<G.Event>, b: seq<G.Event>)
    ensures G.Run(server, a + b) == Continue(server, G.Run(server, a), b)
    decreases |b|
  {
    hide G.Step;
    if b == [] {
      assert a + b == a;
    } else {
      assert (a + [b[0]]) + b[1..] == a + b;
      assert (a + [b[0]])[..|a|] == a;
      RunContinues(server, a + [b[0]], b[1..]);
    }
  }

  /** The reader's three steps in a crowd of others do what they do alone. */
  lemma SoloInACrowd(server: G.Server, st: Aside.State, id: string, reply: Aside.Reply, lookedUp: int, stored: int)
    ensures var r := |st.readers|;
            var begun := Aside.Step(server.cache, st, Aside.Begin(id, lookedUp));
            var answered := Aside.Step(server.cache, begun, Aside.Answer(r, reply));
            var done := Aside.Step(server.cache, answered, Aside.Finish(r, stored));
            var (slots, outcome) := Aside.Solo(server.cache, st.cache, id, reply, lookedUp, stored);
            done == Aside.State(slots, st.readers + [Aside.Done(id, outcome)]) && |begun.readers| == r + 1
  {
    hide Spec.Get, Aside.StoreReply;
  }

  /** The four events after admission, on an admitted request. */
  lemma AdmittedSteps(server: G.Server, st: G.State, path: string, reply: Aside.Reply, lookedUp: int, stored: int)
    requires st.requests != [] && st.requests[|st.requests|-1] == G.Authorized(path)
    ensures var n, r := |st.requests| - 1, |st.aside.readers|;
            var looked := G.Step(server, st, G.Lookup(n, lookedUp));
            var fetched := G.Step(server, looked, G.Fetch(r, reply));
            var written := G.Step(server, fetched, G.Store(r, stored));
            var (slots, outcome) := Aside.Solo(server.cache, st.aside.cache, server.prefix + path, reply, lookedUp, stored);
            G.Step(server, written, G.Respond(n)) ==
              G.State(st.tokens, Aside.State(slots, st.aside.readers + [Aside.Done(server.prefix + path, outcome)]),
                      st.requests[n := G.Answered(path, G.ResponseTo(outcome))])
  {
    hide Aside.Step, Aside.Solo, G.ResponseTo;
    SoloInACrowd(server, st.aside, server.prefix + path, reply, lookedUp, stored);
  }

  /** The four events after admission, on a refused request, do nothing. */
  lemma RefusedSteps(server: G.Server, st: G.State, reply: Aside.Reply, lookedUp: int, stored: int)
    requires st.requests != [] && st.requests[|st.requests|-1].Refused?
    ensures var n, r := |st.requests| - 1, |st.aside.readers|;
            && G.Step(server, st, G.Lookup(n, lookedUp)) == st && G.Step(server, st, G.Fetch(r, reply)) == st
            && G.Step(server, st, G.Store(r, stored)) == st && G.Step(server, st, G.Respond(n)) == st
  {
  }

  /**
   What ReadSecret is proved to do is what its five events do at the end of any run of the
   gateway: the same refusal, or the same answer and the same cache.
   */
  lemma {:induction false} ReadIsItsEvents(server: G.Server, evs: seq<G.Event>, token: string, rawPath: string, now: int,
                                           reply: Aside.Reply, lookedUp: int, stored: int)
    ensures var st := G.Run(server, evs);
            var n, r := |st.requests|, |st.aside.readers|;
            var st' := G.Run(server, evs + ReadEvents(n, r, token, rawPath, now, reply, lookedUp, stored));
            match G.Admit(server, st.tokens, token, rawPath, now)
            case Authorized(path) =>
              var (slots, outcome) := Aside.Solo(server.cache, st.aside.cache, server.prefix + path, reply, lookedUp, stored);
              st' == G.State(st.tokens, Aside.State(slots, st.aside.readers + [Aside.Done(server.prefix + path, outcome)]),
                             st.requests + [G.Answered(path, G.ResponseTo(outcome))])
            case refused => st' == G.State(st.tokens, st.aside, st.requests + [refused])
  {
    hide Aside.Solo, Aside.Step, G.Run, G.Admit;
    var st := G.Run(server, evs);
    var n, r := |st.requests|, |st.aside.readers|;
    var tail := ReadEvents(n, r, token, rawPath, now, reply, lookedUp, stored);
    RunContinues(server, evs, tail);
    var s1 := G.Step(server, st, tail[0]);
    FiveEvents(server, st, tail);
    var admitted := G.Admit(server, st.tokens, token, rawPath, now);
    if admitted.Authorized? {
      AdmittedSteps(server, s1, admitted.path, reply, lookedUp, stored);
    } else {
      RefusedSteps(server, s1, reply, lookedUp, stored);
    }
  }

  lemma FiveEvents(server: G.Server, st: G.State, evs: seq<G.Event>)
    requires |evs| == 5
    ensures Continue(server, st, evs) ==
              G.Step(server, G.Step(server, G.Step(server, G.Step(server, G.Step(server, st, evs[0]), evs[1]), evs[2]), evs[3]), evs[4])
  {
    hide G.Step;
    assert evs[1..][1..] == evs[2..] && evs[2..][1..] == evs[3..] && evs[3..][1..] == evs[4..] && evs[4..][1..] == [];
    var s2 := G.Step(server, G.Step(server, st, evs[0]), evs[1]);
    var s4 := G.Step(server, G.Step(server, s2, evs[2]), evs[3]);
    assert Continue(server, st, evs) == Continue(server, s2, evs[2..]);
    assert Continue(server, s2, evs[2..]) == Continue(server, s4, evs[4..]);
    assert Continue(server, s4, evs[4..]) == Continue(server, G.Step(server, s4, evs[4]), []);
  }
}
