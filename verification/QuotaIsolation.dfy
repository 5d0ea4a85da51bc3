/**
 The quota is each account's own: what other accounts do never changes which tokens an
 account holds nor whether it is let in.
 */
module QuotaIsolation {
  import opened Common
  import opened ServiceAccounts
  import opened TokenSpec
  import History = TokenHistory
  import G = Gateway
  import Rbac

  // ----- In the token store -----

  /** The stored entries that are counted under `key`. */
  function Share(st: Store, key: string): (r: map<string, TokenEntry>)
  {
    map t | t in st.byToken && IdentityKey(st.byToken[t].identity) == key :: st.byToken[t]
  }

  lemma ShareIsStored(st: Store, key: string)
    ensures |Share(st, key)| == Stored(st, key)
  {
    assert Share(st, key).Keys == OfKey(st.byToken, st.byToken.Keys, key);
  }

  /** The operations that concern `key`: its own issues, and every revocation and sweep. */
  predicate Concerns(op: Op, key: string)
  {
    op.OpIssue? ==> IdentityKey(op.identity) == key
  }

  function Own(ops: seq<Op>, key: string): (r: seq<Op>)
  {
    if ops == [] then []
    else
      var rest, op := Own(ops[..|ops|-1], key), ops[|ops|-1];
      if Concerns(op, key) then rest + [op] else rest
  }

  /** Issues that do not overwrite, on the full store and on a store that holds only the share of `key`. */
  lemma ShareAfterIssue(max: int, st: Store, own: Store, op: Op, key: string)
    requires op.OpIssue? && own.byToken == Share(st, key) && Count(st, key) == Count(own, key) && !Redraws(max, st, op)
    ensures Share(Apply(max, st, op), key) == if Concerns(op, key) then Apply(max, own, op).byToken else own.byToken
    ensures Concerns(op, key) ==> !Redraws(max, own, op)
  {
    var st' := Apply(max, st, op);
    if st' != st {
      var t := op.random.value.0;
      assert st'.byToken == st.byToken[t := st'.byToken[t]];
    }
  }

  lemma ShareAfterPurge(st: Store, ts: set<string>, key: string)
    ensures Share(Purge(st, ts), key) == Share(st, key) - ts
  {
  }

  lemma ShareAfterRevoke(max: int, st: Store, own: Store, token: string, key: string)
    requires Bounded(max, st) && Bounded(max, own) && own.byToken == Share(st, key)
    ensures Revoke(own, token).byToken == Share(Revoke(st, token), key)
  {
    if token in st.byToken {
      RevokeIsPurge(max, st, token);
      ShareAfterPurge(st, {token}, key);
    }
  }

  lemma ShareAfterSweep(st: Store, own: Store, now: int, key: string)
    requires own.byToken == Share(st, key)
    ensures Sweep(own, now).byToken == Share(Sweep(st, now), key)
  {
    ShareAfterPurge(st, Expired(st, now), key);
    assert Share(st, key) - Expired(st, now) == own.byToken - Expired(own, now);
  }

  /** One operation on the full store and, if it concerns `key`, on the store of its share. */
  lemma OwnStep(max: int, st: Store, own: Store, op: Op, key: string)
    requires Bounded(max, st) && Bounded(max, own) && Exact(st) && Exact(own) && own.byToken == Share(st, key)
    requires !Redraws(max, st, op)
    ensures Concerns(op, key) ==> Apply(max, own, op).byToken == Share(Apply(max, st, op), key) && Exact(Apply(max, own, op))
    ensures !Concerns(op, key) ==> own.byToken == Share(Apply(max, st, op), key)
  {
    hide Share, Purge, Bounded, Exact;
    SameCount(st, own, key);
    match op {
      case OpIssue(_, _, _, _) => ShareAfterIssue(max, st, own, op, key);
      case OpRevoke(token) => ShareAfterRevoke(max, st, own, token, key);
      case OpSweep(now) => ShareAfterSweep(st, own, now, key);
    }
    if Concerns(op, key) {
      ApplyExact(max, own, op);
    }
  }

  lemma SameCount(st: Store, own: Store, key: string)
    requires Exact(st) && Exact(own) && own.byToken == Share(st, key)
    ensures Count(st, key) == Count(own, key)
  {
    ShareIsStored(st, key);
    assert Share(own, key) == own.byToken;
    ShareIsStored(own, key);
    assert Stored(st, key) == Count(st, key) && Stored(own, key) == Count(own, key);
  }

  /**
   With fresh tokens, what a key holds after any run is what a store of its own would hold
   that saw only the operations concerning it.
   */
  lemma {:induction false} OwnRun(max: int, ops: seq<Op>, key: string)
    requires FreshRun(max, ops)
    ensures Run(max, Own(ops, key)).byToken == Share(Run(max, ops), key)
    ensures Exact(Run(max, Own(ops, key)))
  {
    hide Apply;
    if ops == [] {
      EmptyExact();
    } else {
      var n := |ops| - 1;
      var before, op := ops[..n], ops[n];
      FreshBefore(max, ops);
      OwnRun(max, before, key);
      RunExact(max, before);
      RunBounded(max, before);
      RunBounded(max, Own(before, key));
      OwnStep(max, Run(max, before), Run(max, Own(before, key)), op, key);
      if Concerns(op, key) {
        assert Own(ops, key)[..|Own(before, key)|] == Own(before, key);
      }
    }
  }

  /** So an issue succeeds or is refused as it would be with nobody else there. */
  lemma {:induction false} OthersNeverRefuse(max: int, ops: seq<Op>, random: Option<(string, string)>, id: Identity, ttl: int, now: int)
    requires FreshRun(max, ops)
    ensures Issue(max, Run(max, ops), random, id, ttl, now).1 ==
            Issue(max, Run(max, Own(ops, IdentityKey(id))), random, id, ttl, now).1
  {
    var key := IdentityKey(id);
    OwnRun(max, ops, key);
    RunExact(max, ops);
    SameCount(Run(max, ops), Run(max, Own(ops, key)), key);
  }

  // ----- In the gateway -----

  /** Every identity the validator vouched for came out of the username parser. */
  ghost predicate Vouched(evs: seq<G.Event>)
  {
    forall i :: 0 <= i < |evs| && evs[i].Login? && evs[i].validated.Some? ==> Authenticated(evs[i].validated.value)
  }

  predicate SameAccount(a: Identity, b: Identity)
  {
    a.namespace == b.namespace && a.serviceAccount == b.serviceAccount
  }

  /** The stored tokens of one service account in one namespace. */
  function Held(st: Store, id: Identity): (r: map<string, TokenEntry>)
  {
    map t | t in st.byToken && SameAccount(st.byToken[t].identity, id) :: st.byToken[t]
  }

  lemma StoredIsVouched(server: G.Server, evs: seq<G.Event>, token: string)
    requires Vouched(evs) && token in G.Run(server, evs).tokens.byToken
    ensures Authenticated(G.Run(server, evs).tokens.byToken[token].identity)
  {
    hide Authenticated, G.Run, TokenSpec.Run;
    G.TokensRun(server, evs);
    var l := History.StoredFromSource(server.quota, G.TokenOps(server, evs), token);
    G.IssuedIsLogin(server, evs, l, token);
    var a, b := evs[l].validated.value, G.Run(server, evs).tokens.byToken[token].identity;
    assert Authenticated(a) && b == a.(role := b.role);
    SameAccountVouched(a, b);
  }

  lemma SameAccountVouched(a: Identity, b: Identity)
    requires Authenticated(a) && SameAccount(a, b)
    ensures Authenticated(b)
  {
  }

  /** Among authenticated identities the counter of a key is the counter of one account. */
  lemma HeldIsShare(server: G.Server, evs: seq<G.Event>, id: Identity)
    requires Vouched(evs) && Authenticated(id)
    ensures Held(G.Run(server, evs).tokens, id) == Share(G.Run(server, evs).tokens, IdentityKey(id))
  {
    hide Authenticated, G.Run;
    var st := G.Run(server, evs).tokens;
    forall t | t in st.byToken ensures SameAccount(st.byToken[t].identity, id) <==> IdentityKey(st.byToken[t].identity) == IdentityKey(id) {
      StoredIsVouched(server, evs, t);
      SharedCounter(st.byToken[t].identity, id);
    }
  }

  /** No account ever holds more tokens than the quota. */
  lemma {:induction false} AccountQuota(server: G.Server, evs: seq<G.Event>, id: Identity)
    requires Vouched(evs) && server.quota > 0
    ensures |Held(G.Run(server, evs).tokens, id)| <= server.quota
  {
    hide Authenticated, G.Run;
    var st := G.Run(server, evs).tokens;
    if t :| t in Held(st, id) {
      var owner := st.byToken[t].identity;
      StoredIsVouched(server, evs, t);
      assert Held(st, owner) == Held(st, id);
      HeldIsShare(server, evs, owner);
      ShareIsStored(st, IdentityKey(owner));
      G.TokensRun(server, evs);
      QuotaHolds(server.quota, G.TokenOps(server, evs), IdentityKey(owner));
    }
  }

  /**
   A login after any run with fresh tokens is answered 200 exactly when it carries both
   fields, the validator vouched for an identity bound to the role, the random source worked,
   and the account itself holds fewer tokens than the quota; it hands out the token and
   accessor drawn, for that identity in that role. Otherwise nothing is stored, and once the body is in order the answer is always the same 403.
   */
  lemma {:induction false} LoginSucceedsExactly(server: G.Server, evs: seq<G.Event>, body: G.LoginBody, validated: Option<Identity>,
                                                random: Option<(string, string)>, now: int)
    requires Vouched(evs) && (validated.Some? ==> Authenticated(validated.value))
    requires FreshRun(server.quota, G.TokenOps(server, evs))
    ensures var st := G.Run(server, evs).tokens;
            var (st', response) := G.HandleLogin(server, st, body, validated, random, now);
            var ready := body.Body? && body.jwt != "" && body.role != "";
            && (response.LoginOk? <==>
                  && ready && validated.Some? && random.Some?
                  && Rbac.MayAssume(server.roles, body.role, validated.value.namespace, validated.value.serviceAccount)
                  && (server.quota > 0 ==> |Held(st, validated.value)| < server.quota))
            && (response.LoginOk? ==>
                  && (response.token, response.accessor) == random.value && response.policies == ["default", body.role]
                  && response.identity == validated.value.(role := body.role))
            && (!response.LoginOk? ==> st' == st && G.Rejects(body, response))
  {
    hide Authenticated, G.Run;
    var st := G.Run(server, evs).tokens;
    G.LoginExactly(server, st, body, validated, random, now);
    if validated.Some? {
      var key := IdentityKey(validated.value);
      if body.Body? {
        Rbac.BindingExactly(server.roles, body.role, validated.value.namespace, validated.value.serviceAccount);
      }
      HeldIsShare(server, evs, validated.value);
      ShareIsStored(st, key);
      G.TokensRun(server, evs);
      RunExact(server.quota, G.TokenOps(server, evs));
      assert Stored(st, key) == Count(st, key);
    }
  }

  /** The event concerns the account: a login of its own, or a revocation or a sweep. */
  predicate IsOwn(ev: G.Event, id: Identity)
  {
    (ev.Login? && ev.validated.Some? && SameAccount(ev.validated.value, id)) || ev.Revoke? || ev.Sweep?
  }

  function OwnEvents(evs: seq<G.Event>, id: Identity): (r: seq<G.Event>)
  {
    if evs == [] then []
    else
      var rest, ev := OwnEvents(evs[..|evs|-1], id), evs[|evs|-1];
      if IsOwn(ev, id) then rest + [ev] else rest
  }

  /** Only own events make operations that concern the account's key. */
  lemma {:induction false} OwnOps(server: G.Server, evs: seq<G.Event>, id: Identity)
    requires Vouched(evs) && Authenticated(id)
    ensures Own(G.TokenOps(server, evs), IdentityKey(id)) == Own(G.TokenOps(server, OwnEvents(evs, id)), IdentityKey(id))
  {
    hide Authenticated, IdentityKey;
    if evs != [] {
      var n, key := |evs| - 1, IdentityKey(id);
      var before, ev := evs[..n], evs[n];
      OwnOps(server, before, id);
      G.TokenOpsPrefix(server, evs, n);
      EventConcerns(server, ev, id);
      var own := OwnEvents(before, id);
      if OwnEvents(evs, id) != own {
        G.TokenOpsPrefix(server, own + [ev], |own|);
        assert (own + [ev])[..|own|] == own;
      }
    }
  }

  lemma KeyIsLong(id: Identity)
    requires Authenticated(id)
    ensures |IdentityKey(id)| > 1
  {
    var username :| ParseUsername(username) == Some((id.namespace, id.serviceAccount));
    ParseExactly(username, id.namespace, id.serviceAccount);
  }

  lemma EventConcerns(server: G.Server, ev: G.Event, id: Identity)
    requires Authenticated(id) && (ev.Login? && ev.validated.Some? ==> Authenticated(ev.validated.value))
    ensures Concerns(G.TokenOp(server, ev), IdentityKey(id)) ==> IsOwn(ev, id)
  {
    hide Authenticated, ParseUsername;
    KeyIsLong(id);
    if G.Reaches(server, ev) {
      assert IdentityKey(G.TokenOp(server, ev).identity) == IdentityKey(ev.validated.value);
      SharedCounter(ev.validated.value, id);
    }
  }

  /**
   Two runs with fresh tokens that agree on an account's own logins, on revocations and on
   sweeps, whatever other accounts do in them, leave the account holding the same tokens and
   answer its next login alike.
   */
  lemma {:induction false} OtherAccountsNeverMatter(server: G.Server, a: seq<G.Event>, b: seq<G.Event>, id: Identity, body: G.LoginBody,
                                                    random: Option<(string, string)>, now: int)
    requires Vouched(a) && Vouched(b) && Authenticated(id) && OwnEvents(a, id) == OwnEvents(b, id)
    requires FreshRun(server.quota, G.TokenOps(server, a)) && FreshRun(server.quota, G.TokenOps(server, b))
    ensures Held(G.Run(server, a).tokens, id) == Held(G.Run(server, b).tokens, id)
    ensures G.HandleLogin(server, G.Run(server, a).tokens, body, Some(id), random, now).1 ==
            G.HandleLogin(server, G.Run(server, b).tokens, body, Some(id), random, now).1
  {
    hide Authenticated, FreshRun, G.Run, G.HandleLogin, Own, TokenSpec.Run;
    var key := IdentityKey(id);
    OwnOps(server, a, id);
    OwnOps(server, b, id);
    HeldIsShare(server, a, id);
    HeldIsShare(server, b, id);
    G.TokensRun(server, a);
    G.TokensRun(server, b);
    OwnRun(server.quota, G.TokenOps(server, a), key);
    OwnRun(server.quota, G.TokenOps(server, b), key);
    RunExact(server.quota, G.TokenOps(server, a));
    RunExact(server.quota, G.TokenOps(server, b));
    SameCount(G.Run(server, a).tokens, TokenSpec.Run(server.quota, Own(G.TokenOps(server, a), key)), key);
    SameCount(G.Run(server, b).tokens, TokenSpec.Run(server.quota, Own(G.TokenOps(server, b), key)), key);
    SameAnswer(server, G.Run(server, a).tokens, G.Run(server, b).tokens, body, id, random, now);
  }

  /** The answer to a login depends on the store only through the account's counter. */
  lemma SameAnswer(server: G.Server, a: Store, b: Store, body: G.LoginBody, id: Identity, random: Option<(string, string)>, now: int)
    requires Count(a, IdentityKey(id)) == Count(b, IdentityKey(id))
    ensures G.HandleLogin(server, a, body, Some(id), random, now).1 == G.HandleLogin(server, b, body, Some(id), random, now).1
  {
  }
}
