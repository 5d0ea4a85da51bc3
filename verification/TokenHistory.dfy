/**
 Verification against history: what VerifyToken answers is a function of which tokens were
 issued and revoked, and sweeps cannot be observed through it.
 */
module TokenHistory {
  import opened Common
  import opened ServiceAccounts
  import opened TokenSpec

  function ExpiryOf(op: Op): int
    requires op.OpIssue?
  {
    op.now + op.ttl
  }

  /** Nothing after operation `i` took `token` away: no revocation, no new issue of it, no sweep reading the clock past its expiry. */
  ghost predicate Survives(max: int, ops: seq<Op>, i: nat, token: string)
    requires i < |ops| && ops[i].OpIssue?
  {
    forall j :: i < j < |ops| ==>
      && ops[j] != OpRevoke(token)
      && !IssuedAt(max, ops, j, token)
      && (ops[j].OpSweep? ==> ops[j].now <= ExpiryOf(ops[i]))
  }

  /** Operation `i` is where the stored entry of `token` comes from. */
  ghost predicate Source(max: int, ops: seq<Op>, i: nat, token: string)
  {
    i < |ops| && IssuedAt(max, ops, i, token) && Survives(max, ops, i, token)
  }

  lemma PrefixSource(max: int, ops: seq<Op>, i: nat, token: string)
    requires ops != [] && i < |ops| - 1
    ensures var before, last := ops[..|ops|-1], ops[|ops|-1];
            Source(max, ops, i, token) <==>
              Source(max, before, i, token) && last != OpRevoke(token) && !IssuedAt(max, ops, |ops| - 1, token)
              && (last.OpSweep? ==> last.now <= ExpiryOf(ops[i]))
  {
    var n := |ops| - 1;
    forall j | 0 <= j < n ensures IssuedAt(max, ops[..n], j, token) <==> IssuedAt(max, ops, j, token) {
      PrefixIssued(max, ops, n, j, token);
    }
  }

  /** A stored entry has exactly one source, and says what was issued there. */
  lemma {:induction false} StoredFromSource(max: int, ops: seq<Op>, token: string) returns (i: nat)
    requires token in Run(max, ops).byToken
    ensures Source(max, ops, i, token)
    ensures var e := Run(max, ops).byToken[token];
            e == TokenEntry(token, ops[i].random.value.1, ops[i].identity, ops[i].now, ExpiryOf(ops[i]))
  {
    var n := |ops| - 1;
    RunBounded(max, ops[..n]);
    if IssuedAt(max, ops, n, token) {
      i := n;
    } else {
      i := StoredFromSource(max, ops[..n], token);
      PrefixSource(max, ops, i, token);
    }
  }

  lemma {:induction false} SourceIsStored(max: int, ops: seq<Op>, i: nat, token: string)
    requires Source(max, ops, i, token)
    ensures token in Run(max, ops).byToken
    ensures Run(max, ops).byToken[token].identity == ops[i].identity
    ensures Run(max, ops).byToken[token].token == token && Run(max, ops).byToken[token].expiresAt == ExpiryOf(ops[i])
  {
    var n := |ops| - 1;
    RunBounded(max, ops[..n]);
    if i < n {
      PrefixSource(max, ops, i, token);
      SourceIsStored(max, ops[..n], i, token);
    }
  }

  /**
   VerifyToken accepts a token for an identity exactly when the run issued it to that
   identity, nothing since took it away, and the clock is not past issue time plus TTL.
   No assumption on the clock or on the random source.
   */
  lemma {:induction false} VerifyIsHistory(max: int, ops: seq<Op>, token: string, now: int, id: Identity)
    ensures Verify(Run(max, ops), token, now) == Some(id) <==>
              exists i: nat :: Source(max, ops, i, token) && ops[i].identity == id && now <= ExpiryOf(ops[i])
  {
    if Verify(Run(max, ops), token, now) == Some(id) {
      var i := StoredFromSource(max, ops, token);
    }
    forall i: nat | Source(max, ops, i, token) && ops[i].identity == id && now <= ExpiryOf(ops[i])
      ensures Verify(Run(max, ops), token, now) == Some(id)
    {
      SourceIsStored(max, ops, i, token);
    }
  }

  /** No sweep of the run read the clock past `now`; a monotone clock gives this. */
  ghost predicate NotBeforeSweeps(ops: seq<Op>, now: int)
  {
    forall j :: 0 <= j < |ops| && ops[j].OpSweep? ==> ops[j].now <= now
  }

  /** Issued at `i`, and neither revoked nor issued again since. */
  ghost predicate LastIssued(max: int, ops: seq<Op>, i: nat, token: string)
  {
    && i < |ops| && IssuedAt(max, ops, i, token)
    && (forall j :: i < j < |ops| ==> ops[j] != OpRevoke(token) && !IssuedAt(max, ops, j, token))
  }

  /** When the clock does not run backwards, sweeps drop out of the condition. */
  lemma {:induction false} VerifyIsHistoryMonotone(max: int, ops: seq<Op>, token: string, now: int, id: Identity)
    requires NotBeforeSweeps(ops, now)
    ensures Verify(Run(max, ops), token, now) == Some(id) <==>
              exists i: nat :: LastIssued(max, ops, i, token) && ops[i].identity == id && now <= ExpiryOf(ops[i])
  {
    VerifyIsHistory(max, ops, token, now, id);
    forall i: nat | LastIssued(max, ops, i, token) && now <= ExpiryOf(ops[i]) ensures Source(max, ops, i, token) {
    }
  }

  /** The clock assumption is needed: a sweep that read a later clock removes a token that is still good. */
  lemma {:induction false} BackwardClockForgets()
    ensures var id := Identity("sa", "", "ns", "r");
            var ops := [OpIssue(Some(("t", "a")), id, 10, 0), OpSweep(20)];
            LastIssued(0, ops, 0, "t") && 5 <= ExpiryOf(ops[0]) && Verify(Run(0, ops), "t", 5).None?
  {
    var id := Identity("sa", "", "ns", "r");
    var ops := [OpIssue(Some(("t", "a")), id, 10, 0), OpSweep(20)];
    assert ops[..1] == [ops[0]] && ops[..1][..0] == [] && ops[..0] == [];
    assert Run(0, ops[..1]) == Apply(0, EMPTY, ops[0]);
    assert Run(0, ops) == Sweep(Run(0, ops[..1]), 20);
  }

  // ----- Sweeps cannot be observed -----

  function WithoutSweeps(ops: seq<Op>): seq<Op>
  {
    if ops == [] then []
    else
      var rest := WithoutSweeps(ops[..|ops|-1]);
      if ops[|ops|-1].OpSweep? then rest else rest + [ops[|ops|-1]]
  }

  /** Which of the run's issue attempts succeeded, in order. */
  function IssueLog(max: int, ops: seq<Op>): seq<bool>
  {
    if ops == [] then []
    else
      var rest := IssueLog(max, ops[..|ops|-1]);
      var op := ops[|ops|-1];
      if op.OpIssue?
      then rest + [Issue(max, Run(max, ops[..|ops|-1]), op.random, op.identity, op.ttl, op.now).1.Issued?]
      else rest
  }

  /** A store that never sweeps and is told which issues succeed. */
  function Ideal(ops: seq<Op>, log: seq<bool>): map<string, TokenEntry>
    decreases |ops|
  {
    if ops == [] then map[]
    else
      var op, before := ops[|ops|-1], ops[..|ops|-1];
      match op
      case OpIssue(random, id, ttl, now) =>
        if log == [] then Ideal(before, log)
        else
          var rest := Ideal(before, log[..|log|-1]);
          if log[|log|-1] && random.Some?
          then rest[random.value.0 := TokenEntry(random.value.0, random.value.1, id, now, now + ttl)] else rest
      case OpRevoke(token) => Ideal(before, log) - {token}
      case OpSweep(now) => Ideal(before, log)
  }

  ghost predicate SweptAway(ops: seq<Op>, e: TokenEntry)
  {
    exists j :: 0 <= j < |ops| && ops[j].OpSweep? && ops[j].now > e.expiresAt
  }

  /** The real store is the ideal one, less entries some sweep saw as expired. */
  ghost predicate Tracks(max: int, ops: seq<Op>)
  {
    var live, ideal := Run(max, ops).byToken, Ideal(WithoutSweeps(ops), IssueLog(max, ops));
    && (forall t :: t in live ==> t in ideal && ideal[t] == live[t])
    && (forall t :: t in ideal && t !in live ==> SweptAway(ops, ideal[t]))
  }

  lemma SweptAwayLater(ops: seq<Op>, e: TokenEntry)
    requires ops != [] && SweptAway(ops[..|ops|-1], e)
    ensures SweptAway(ops, e)
  {
    var j :| 0 <= j < |ops| - 1 && ops[..|ops|-1][j].OpSweep? && ops[..|ops|-1][j].now > e.expiresAt;
    assert ops[j].OpSweep?;
  }

  lemma SweptNow(ops: seq<Op>, e: TokenEntry)
    requires ops != [] && ops[|ops|-1].OpSweep? && ops[|ops|-1].now > e.expiresAt
    ensures SweptAway(ops, e)
  {
  }

  /** What an operation does to the tokens stored. */
  lemma TokensAfter(max: int, st: Store, op: Op)
    requires Bounded(max, st)
    ensures Apply(max, st, op).byToken ==
              match op {
                case OpIssue(random, id, ttl, now) =>
                  if Issue(max, st, random, id, ttl, now).1.Issued?
                  then st.byToken[random.value.0 := TokenEntry(random.value.0, random.value.1, id, now, now + ttl)] else st.byToken
                case OpRevoke(token) => st.byToken - {token}
                case OpSweep(now) => st.byToken - Expired(st, now)
              }
    ensures op.OpIssue? && Issue(max, st, op.random, op.identity, op.ttl, op.now).1.Issued? ==> op.random.Some?
  {
  }

  lemma {:induction false} RunTracks(max: int, ops: seq<Op>)
    ensures Tracks(max, ops)
  {
    hide Issue, TokenSpec.Apply, Bounded, SweptAway;
    if ops != [] {
      var n := |ops| - 1;
      var before, last := ops[..n], ops[n];
      RunTracks(max, before);
      RunBounded(max, before);
      TokensAfter(max, Run(max, before), last);
      var live, ideal := Run(max, before).byToken, Ideal(WithoutSweeps(before), IssueLog(max, before));
      var live', ideal' := Run(max, ops).byToken, Ideal(WithoutSweeps(ops), IssueLog(max, ops));
      if !last.OpSweep? {
        assert WithoutSweeps(ops)[..|WithoutSweeps(ops)|-1] == WithoutSweeps(before);
      }
      if last.OpIssue? {
        assert IssueLog(max, ops)[..|IssueLog(max, ops)|-1] == IssueLog(max, before);
      }
      forall t | t in ideal' && t !in live' ensures SweptAway(ops, ideal'[t]) {
        if t !in live {
          SweptAwayLater(ops, ideal[t]);
        } else {
          SweptNow(ops, ideal'[t]);
        }
      }
    }
  }

  /**
   Two runs that differ only in their sweeps, and in which the same issues succeed, answer
   every VerifyToken alike.
   */
  lemma {:induction false} SweepsAreInvisible(max: int, a: seq<Op>, b: seq<Op>, token: string, now: int)
    requires WithoutSweeps(a) == WithoutSweeps(b) && IssueLog(max, a) == IssueLog(max, b)
    requires NotBeforeSweeps(a, now) && NotBeforeSweeps(b, now)
    ensures Verify(Run(max, a), token, now) == Verify(Run(max, b), token, now)
  {
    RunTracks(max, a);
    RunTracks(max, b);
    RunBounded(max, a);
    RunBounded(max, b);
  }
}
