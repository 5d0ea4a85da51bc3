/**
 The meaning of the token store: two maps, and each locked method as a function on them.
 What the store promises over every run is proved here.
 */
module TokenSpec {
  import opened Common
  import opened ServiceAccounts

  datatype TokenEntry = TokenEntry(token: string, accessor: string, identity: Identity, createdAt: int, expiresAt: int)

  datatype Store = Store(byToken: map<string, TokenEntry>, counts: map<string, int>)

  datatype IssueResult = Issued(token: string, accessor: string) | TooManyTokens | RandomFailure

  const EMPTY := Store(map[], map[])

  /** The recorded count of an identity key; absent means zero. */
  function Count(st: Store, key: string): int
  {
    if key in st.counts then st.counts[key] else 0
  }

  /** `random` is what the random source gives for token and accessor; None if it fails. `max` <= 0 means no quota. */
  function Issue(max: int, st: Store, random: Option<(string, string)>, id: Identity, ttl: int, now: int): (r: (Store, IssueResult))
  {
    if random.None? then (st, RandomFailure)
    else
      var key := IdentityKey(id);
      if max > 0 && Count(st, key) >= max then (st, TooManyTokens)
      else
        var (token, accessor) := random.value;
        (Store(st.byToken[token := TokenEntry(token, accessor, id, now, now + ttl)], st.counts[key := Count(st, key) + 1]),
         Issued(token, accessor))
  }

  function Verify(st: Store, token: string, now: int): (r: Option<Identity>)
  {
    if token in st.byToken && st.byToken[token].token == token && now <= st.byToken[token].expiresAt
    then Some(st.byToken[token].identity) else None
  }

  /** Removes one entry and its share of the count. */
  function Delete(st: Store, e: TokenEntry): (r: Store)
  {
    var key := IdentityKey(e.identity);
    Store(st.byToken - {e.token}, if Count(st, key) <= 1 then st.counts - {key} else st.counts[key := Count(st, key) - 1])
  }

  function Revoke(st: Store, token: string): (r: Store)
  {
    if token in st.byToken then Delete(st, st.byToken[token]) else st
  }

  function Expired(st: Store, now: int): (r: set<string>)
  {
    set t | t in st.byToken && now > st.byToken[t].expiresAt
  }

  /** The tokens among `ts` that belong to `key`. */
  function OfKey(byToken: map<string, TokenEntry>, ts: set<string>, key: string): set<string>
  {
    set t | t in ts && t in byToken && IdentityKey(byToken[t].identity) == key
  }

  /** How many stored tokens an identity key really has. */
  function Stored(st: Store, key: string): nat
  {
    |OfKey(st.byToken, st.byToken.Keys, key)|
  }

  /** The store without the tokens `ts`, every count reduced by its share and dropped at zero. */
  function Purge(st: Store, ts: set<string>): (r: Store)
  {
    Store(st.byToken - ts,
          map k | k in st.counts && st.counts[k] > |OfKey(st.byToken, ts, k)| :: st.counts[k] - |OfKey(st.byToken, ts, k)|)
  }

  function Sweep(st: Store, now: int): (r: Store)
  {
    Purge(st, Expired(st, now))
  }

  // ----- Counters -----

  /** Entries are filed under their own token, and no count falls below what is stored or exceeds the quota. */
  ghost predicate Bounded(max: int, st: Store)
  {
    && (forall t :: t in st.byToken ==> st.byToken[t].token == t)
    && (forall k :: k in st.counts ==> st.counts[k] >= 1 && (max > 0 ==> st.counts[k] <= max))
    && (forall k :: Stored(st, k) <= Count(st, k))
  }

  /** Every count is the number of stored tokens. */
  ghost predicate Exact(st: Store)
  {
    forall k :: Stored(st, k) == Count(st, k)
  }

  lemma OfKeyStep(byToken: map<string, TokenEntry>, ts: set<string>, t: string, key: string)
    requires t in byToken && t !in ts
    ensures |OfKey(byToken, ts + {t}, key)| == |OfKey(byToken, ts, key)| + (if IdentityKey(byToken[t].identity) == key then 1 else 0)
  {
    if IdentityKey(byToken[t].identity) == key {
      assert OfKey(byToken, ts + {t}, key) == OfKey(byToken, ts, key) + {t};
    } else {
      assert OfKey(byToken, ts + {t}, key) == OfKey(byToken, ts, key);
    }
  }

  /** Purging leaves, of each key, exactly the tokens not purged. */
  lemma PurgeStored(st: Store, ts: set<string>, key: string)
    requires ts <= st.byToken.Keys
    ensures Stored(Purge(st, ts), key) == Stored(st, key) - |OfKey(st.byToken, ts, key)|
  {
    var all, gone := OfKey(st.byToken, st.byToken.Keys, key), OfKey(st.byToken, ts, key);
    var left := Purge(st, ts).byToken;
    assert OfKey(left, left.Keys, key) == all - gone;
    assert gone <= all;
    assert all == gone + (all - gone);
  }

  /** Purging keeps the bounds, and keeps exactness. */
  lemma {:induction false} PurgeKeeps(max: int, st: Store, ts: set<string>)
    requires Bounded(max, st) && ts <= st.byToken.Keys
    ensures Bounded(max, Purge(st, ts))
    ensures Exact(st) ==> Exact(Purge(st, ts))
  {
    var r := Purge(st, ts);
    forall k
      ensures Stored(r, k) <= Count(r, k)
      ensures Exact(st) ==> Stored(r, k) == Count(r, k)
    {
      PurgeStored(st, ts, k);
      assert Stored(st, k) <= Count(st, k);
    }
  }

  /** Deleting one more entry of a partly purged store purges one more token: the order of a sweep does not matter. */
  lemma {:induction false} DeleteIsPurge(max: int, st: Store, ts: set<string>, t: string)
    requires Bounded(max, st) && ts <= st.byToken.Keys && t in st.byToken && t !in ts
    ensures Delete(Purge(st, ts), st.byToken[t]) == Purge(st, ts + {t})
  {
    var key := IdentityKey(st.byToken[t].identity);
    var cur, next := Purge(st, ts), Purge(st, ts + {t});
    forall k ensures |OfKey(st.byToken, ts + {t}, k)| == |OfKey(st.byToken, ts, k)| + (if key == k then 1 else 0) {
      OfKeyStep(st.byToken, ts, t, k);
    }
    assert |OfKey(st.byToken, ts + {t}, key)| <= Stored(st, key) by {
      SubsetSize(OfKey(st.byToken, ts + {t}, key), OfKey(st.byToken, st.byToken.Keys, key));
    }
    assert Stored(st, key) <= Count(st, key);
    assert cur.byToken - {t} == next.byToken;
    var deleted := Delete(cur, st.byToken[t]).counts;
    forall k ensures (k in deleted <==> k in next.counts) && (k in deleted ==> deleted[k] == next.counts[k]) {
    }
    assert deleted == next.counts;
  }

  lemma PurgeLeaves(st: Store, ts: set<string>, t: string)
    requires t in st.byToken && t !in ts
    ensures t in Purge(st, ts).byToken && Purge(st, ts).byToken[t] == st.byToken[t]
  {
  }

  lemma PurgeNothing(max: int, st: Store)
    requires Bounded(max, st)
    ensures Purge(st, {}) == st
  {
    assert forall k :: OfKey(st.byToken, {}, k) == {};
    assert Purge(st, {}).counts == st.counts;
  }

  lemma RevokeIsPurge(max: int, st: Store, token: string)
    requires Bounded(max, st) && token in st.byToken
    ensures Revoke(st, token) == Purge(st, {token})
  {
    PurgeNothing(max, st);
    DeleteIsPurge(max, st, {}, token);
    assert {} + {token} == {token};
  }

  lemma UpdateOfKey(m: map<string, TokenEntry>, t: string, e: TokenEntry, key: string)
    ensures |OfKey(m[t := e], m[t := e].Keys, key)| == |OfKey(m, m.Keys - {t}, key)| + (if IdentityKey(e.identity) == key then 1 else 0)
  {
    var others := OfKey(m, m.Keys - {t}, key);
    if IdentityKey(e.identity) == key {
      assert OfKey(m[t := e], m[t := e].Keys, key) == others + {t};
    } else {
      assert OfKey(m[t := e], m[t := e].Keys, key) == others;
    }
  }

  /** How an issue changes the number of stored tokens of each key. */
  lemma IssueStored(max: int, st: Store, random: Option<(string, string)>, id: Identity, ttl: int, now: int, key: string)
    requires Issue(max, st, random, id, ttl, now).1.Issued?
    ensures var (r, issued) := Issue(max, st, random, id, ttl, now);
            var t := issued.token;
            Stored(r, key) == Stored(st, key)
              - (if t in st.byToken && IdentityKey(st.byToken[t].identity) == key then 1 else 0)
              + (if IdentityKey(id) == key then 1 else 0)
  {
    var (t, accessor) := random.value;
    UpdateOfKey(st.byToken, t, TokenEntry(t, accessor, id, now, now + ttl), key);
    if t in st.byToken {
      OfKeyStep(st.byToken, st.byToken.Keys - {t}, t, key);
      assert st.byToken.Keys - {t} + {t} == st.byToken.Keys;
    } else {
      assert st.byToken.Keys - {t} == st.byToken.Keys;
    }
  }

  lemma IssueKeeps(max: int, st: Store, random: Option<(string, string)>, id: Identity, ttl: int, now: int)
    requires Bounded(max, st)
    ensures Bounded(max, Issue(max, st, random, id, ttl, now).0)
  {
    var (r, issued) := Issue(max, st, random, id, ttl, now);
    if issued.Issued? {
      forall k ensures Stored(r, k) <= Count(r, k) {
        IssueStored(max, st, random, id, ttl, now, k);
        assert Stored(st, k) <= Count(st, k);
      }
    }
  }

  /** An issue keeps the counters exact exactly when the token drawn is not already stored. */
  lemma {:induction false} IssueExactIffFresh(max: int, st: Store, random: Option<(string, string)>, id: Identity, ttl: int, now: int)
    requires Exact(st) && Issue(max, st, random, id, ttl, now).1.Issued?
    ensures Exact(Issue(max, st, random, id, ttl, now).0) <==> random.value.0 !in st.byToken
  {
    var r := Issue(max, st, random, id, ttl, now).0;
    var t := random.value.0;
    forall k ensures t !in st.byToken ==> Stored(r, k) == Count(r, k) {
      IssueStored(max, st, random, id, ttl, now, k);
      assert Stored(st, k) == Count(st, k);
    }
    if t in st.byToken {
      var k := IdentityKey(st.byToken[t].identity);
      IssueStored(max, st, random, id, ttl, now, k);
      assert Stored(st, k) == Count(st, k);
      assert Stored(r, k) != Count(r, k);
    }
  }

  // ----- The total -----

  /** The sum of all counts. */
  ghost function Total(counts: map<string, int>): int
  {
    if counts == map[] then 0
    else
      var k :| k in counts;
      counts[k] + Total(counts - {k})
  }

  /** The tokens stored under keys other than `k`. */
  function Others(byToken: map<string, TokenEntry>, k: string): map<string, TokenEntry>
  {
    map t | t in byToken && IdentityKey(byToken[t].identity) != k :: byToken[t]
  }

  lemma OthersOfKey(byToken: map<string, TokenEntry>, k: string, key: string)
    ensures var rest := Others(byToken, k);
            OfKey(rest, rest.Keys, key) == if key == k then {} else OfKey(byToken, byToken.Keys, key)
  {
  }

  /** Setting one key aside takes its tokens, and nothing else, out of the store. */
  lemma OneKeyAside(st: Store, k: string, rest: Store)
    requires rest == Store(Others(st.byToken, k), st.counts - {k})
    ensures |st.byToken| == Stored(st, k) + |rest.byToken|
    ensures forall key :: Stored(rest, key) == if key == k then 0 else Stored(st, key)
  {
    hide IdentityKey;
    forall key ensures Stored(rest, key) == if key == k then 0 else Stored(st, key) {
      OthersOfKey(st.byToken, k, key);
    }
    KeyAndOthers(st.byToken, k);
  }

  lemma KeyAndOthers(byToken: map<string, TokenEntry>, k: string)
    ensures |byToken| == |OfKey(byToken, byToken.Keys, k)| + |Others(byToken, k)|
  {
    hide IdentityKey;
    var mine, rest := OfKey(byToken, byToken.Keys, k), Others(byToken, k);
    assert byToken.Keys == mine + rest.Keys;
    assert |rest| == |rest.Keys|;
  }

  /** The counts of a store bound the number of its tokens, and sum up to it when they are exact. */
  lemma {:induction false} CountsSumUp(st: Store)
    requires forall k :: Stored(st, k) <= Count(st, k)
    ensures |st.byToken| <= Total(st.counts)
    ensures Exact(st) ==> |st.byToken| == Total(st.counts)
    decreases |st.counts|
  {
    hide Stored, Others;
    if st.counts == map[] {
      NothingCounted(st);
    } else {
      var k :| k in st.counts && Total(st.counts) == st.counts[k] + Total(st.counts - {k});
      var rest := Store(Others(st.byToken, k), st.counts - {k});
      OneKeyAside(st, k, rest);
      forall key ensures Stored(rest, key) <= Count(rest, key) && (Exact(st) ==> Stored(rest, key) == Count(rest, key)) {
        assert Stored(st, key) <= Count(st, key);
      }
      CountsSumUp(rest);
      assert Stored(st, k) <= Count(st, k);
    }
  }

  lemma EveryTokenCounts(st: Store, t: string)
    requires t in st.byToken
    ensures Stored(st, IdentityKey(st.byToken[t].identity)) > 0
  {
    assert t in OfKey(st.byToken, st.byToken.Keys, IdentityKey(st.byToken[t].identity));
  }

  lemma NothingCounted(st: Store)
    requires (forall k :: Stored(st, k) <= Count(st, k)) && st.counts == map[]
    ensures |st.byToken| == 0
  {
    if t :| t in st.byToken {
      EveryTokenCounts(st, t);
    }
  }

  // ----- Runs -----

  datatype Op =
    | OpIssue(random: Option<(string, string)>, identity: Identity, ttl: int, now: int)
    | OpRevoke(token: string)
    | OpSweep(now: int)

  function Apply(max: int, st: Store, op: Op): (r: Store)
  {
    match op
    case OpIssue(random, id, ttl, now) => Issue(max, st, random, id, ttl, now).0
    case OpRevoke(token) => Revoke(st, token)
    case OpSweep(now) => Sweep(st, now)
  }

  function Run(max: int, ops: seq<Op>): (st: Store)
  {
    if ops == [] then EMPTY else Apply(max, Run(max, ops[..|ops|-1]), ops[|ops|-1])
  }

  /** Operation `i` of the run issued `token`. */
  predicate IssuedAt(max: int, ops: seq<Op>, i: nat, token: string)
    requires i < |ops|
  {
    && ops[i].OpIssue?
    && ops[i].random.Some? && ops[i].random.value.0 == token
    && Issue(max, Run(max, ops[..i]), ops[i].random, ops[i].identity, ops[i].ttl, ops[i].now).1.Issued?
  }

  /** Every token issued in the run was not stored at that moment. */
  ghost predicate FreshRun(max: int, ops: seq<Op>)
  {
    forall i, t :: 0 <= i < |ops| && IssuedAt(max, ops, i, t) ==> t !in Run(max, ops[..i]).byToken
  }

  lemma ApplyKeeps(max: int, st: Store, op: Op)
    requires Bounded(max, st)
    ensures Bounded(max, Apply(max, st, op))
  {
    match op
    case OpIssue(random, id, ttl, now) => IssueKeeps(max, st, random, id, ttl, now);
    case OpRevoke(token) =>
      if token in st.byToken {
        RevokeIsPurge(max, st, token);
        PurgeKeeps(max, st, {token});
      }
    case OpSweep(now) => PurgeKeeps(max, st, Expired(st, now));
  }

  lemma EmptyExact()
    ensures Exact(EMPTY)
  {
    assert forall k :: OfKey(EMPTY.byToken, EMPTY.byToken.Keys, k) == {};
  }

  /** Whatever the random source returns, the counts stay upper bounds. */
  lemma {:induction false} RunBounded(max: int, ops: seq<Op>)
    ensures Bounded(max, Run(max, ops))
  {
    if ops == [] {
      EmptyExact();
    } else {
      RunBounded(max, ops[..|ops|-1]);
      ApplyKeeps(max, Run(max, ops[..|ops|-1]), ops[|ops|-1]);
    }
  }

  /** So a positive quota is never exceeded by the tokens actually stored. */
  lemma {:induction false} QuotaHolds(max: int, ops: seq<Op>, key: string)
    requires max > 0
    ensures Stored(Run(max, ops), key) <= max
  {
    RunBounded(max, ops);
    assert Stored(Run(max, ops), key) <= Count(Run(max, ops), key);
  }

  lemma PrefixIssued(max: int, ops: seq<Op>, n: nat, i: nat, token: string)
    requires i < n <= |ops|
    ensures IssuedAt(max, ops[..n], i, token) <==> IssuedAt(max, ops, i, token)
  {
    assert ops[..n][..i] == ops[..i];
  }

  /** The operation issues a token that is stored already. */
  predicate Redraws(max: int, st: Store, op: Op)
  {
    && op.OpIssue? && op.random.Some? && op.random.value.0 in st.byToken
    && Issue(max, st, op.random, op.identity, op.ttl, op.now).1.Issued?
  }

  /** The run before the last operation drew fresh tokens if the whole run did. */
  lemma FreshBefore(max: int, ops: seq<Op>)
    requires ops != [] && FreshRun(max, ops)
    ensures FreshRun(max, ops[..|ops|-1])
    ensures !Redraws(max, Run(max, ops[..|ops|-1]), ops[|ops|-1])
  {
    hide Run;
    var n := |ops| - 1;
    var before := ops[..n];
    forall i, t | 0 <= i < n && IssuedAt(max, before, i, t) ensures t !in Run(max, before[..i]).byToken {
      PrefixIssued(max, ops, n, i, t);
      assert before[..i] == ops[..i];
    }
    if ops[n].OpIssue? && ops[n].random.Some? {
      assert Issue(max, Run(max, before), ops[n].random, ops[n].identity, ops[n].ttl, ops[n].now).1.Issued? ==>
               IssuedAt(max, ops, n, ops[n].random.value.0);
    }
  }

  /** An operation that draws no stored token keeps the counters exact. */
  lemma ApplyExact(max: int, st: Store, op: Op)
    requires Bounded(max, st) && Exact(st) && !Redraws(max, st, op)
    ensures Exact(Apply(max, st, op))
  {
    match op
    case OpIssue(random, id, ttl, now) =>
      if Issue(max, st, random, id, ttl, now).1.Issued? {
        IssueExactIffFresh(max, st, random, id, ttl, now);
      }
    case OpRevoke(token) =>
      if token in st.byToken {
        RevokeIsPurge(max, st, token);
        PurgeKeeps(max, st, {token});
      }
    case OpSweep(now) => PurgeKeeps(max, st, Expired(st, now));
  }

  /** With fresh tokens the counts are exact after every run: conservation of counters. */
  lemma {:induction false} RunExact(max: int, ops: seq<Op>)
    requires FreshRun(max, ops)
    ensures Exact(Run(max, ops))
  {
    if ops == [] {
      EmptyExact();
    } else {
      var n := |ops| - 1;
      FreshBefore(max, ops);
      RunExact(max, ops[..n]);
      RunBounded(max, ops[..n]);
      ApplyExact(max, Run(max, ops[..n]), ops[n]);
    }
  }

  /** With fresh tokens, a login is refused for quota exactly when that many tokens are stored. */
  lemma {:induction false} RefusedExactlyAtQuota(max: int, ops: seq<Op>, random: Option<(string, string)>, id: Identity, ttl: int, now: int)
    requires FreshRun(max, ops) && random.Some? && max > 0
    ensures Issue(max, Run(max, ops), random, id, ttl, now).1.TooManyTokens? <==> Stored(Run(max, ops), IdentityKey(id)) == max
  {
    RunExact(max, ops);
    QuotaHolds(max, ops, IdentityKey(id));
    assert Stored(Run(max, ops), IdentityKey(id)) == Count(Run(max, ops), IdentityKey(id));
  }
}
