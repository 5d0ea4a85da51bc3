/** The token store as it is built: two maps that the locked methods update in place. */
module TokenStore {
  import opened Common
  import opened ServiceAccounts
  import Spec = TokenSpec

  class TokenStore {
    const maxTokensPerIdentity: int
    var byToken: map<string, Spec.TokenEntry>
    var identityCnt: map<string, int>

    ghost function State(): Spec.Store
      reads this
    {
      Spec.Store(byToken, identityCnt)
    }

    ghost predicate Valid()
      reads this
    {
      Spec.Bounded(maxTokensPerIdentity, State())
    }

    constructor (maxTokensPerIdentity: int)
      ensures this.maxTokensPerIdentity == maxTokensPerIdentity
      ensures Valid() && State() == Spec.EMPTY && Spec.Exact(State())
    {
      this.maxTokensPerIdentity := maxTokensPerIdentity;
      byToken, identityCnt := map[], map[];
      new;
      Spec.EmptyExact();
    }

    /** A missing count reads as zero. */
    method CountOf(key: string) returns (n: int)
      ensures n == Spec.Count(State(), key)
    {
      n := if key in identityCnt then identityCnt[key] else 0;
    }

    /** `random` is what the random source gives, and `now` the clock reading. */
    method IssueToken(random: Option<(string, string)>, identity: Identity, ttl: int, now: int) returns (r: Spec.IssueResult)
      requires Valid()
      modifies this
      ensures Valid()
      ensures (State(), r) == Spec.Issue(maxTokensPerIdentity, old(State()), random, identity, ttl, now)
    {
      Spec.IssueKeeps(maxTokensPerIdentity, State(), random, identity, ttl, now);
      if random.None? {
        return Spec.RandomFailure;
      }
      var (token, accessor) := random.value;
      var key := IdentityKey(identity);
      var n := CountOf(key);
      if maxTokensPerIdentity > 0 && n >= maxTokensPerIdentity {
        return Spec.TooManyTokens;
      }
      byToken := byToken[token := Spec.TokenEntry(token, accessor, identity, now, now + ttl)];
      identityCnt := identityCnt[key := n + 1];
      return Spec.Issued(token, accessor);
    }

    /** Reads only: verification never extends a token's life. */
    method VerifyToken(token: string, now: int) returns (r: Option<Identity>)
      ensures r == Spec.Verify(State(), token, now)
    {
      if token !in byToken || byToken[token].token != token {
        return None;
      }
      var entry := byToken[token];
      if now > entry.expiresAt {
        return None;
      }
      return Some(entry.identity);
    }

    method DeleteLocked(e: Spec.TokenEntry)
      modifies this
      ensures State() == Spec.Delete(old(State()), e)
    {
      byToken := byToken - {e.token};
      var key := IdentityKey(e.identity);
      var n := CountOf(key);
      if n <= 1 {
        identityCnt := identityCnt - {key};
      } else {
        identityCnt := identityCnt[key := n - 1];
      }
    }

    method RevokeToken(token: string)
      requires Valid()
      modifies this
      ensures Valid() && State() == Spec.Revoke(old(State()), token)
    {
      Spec.ApplyKeeps(maxTokensPerIdentity, State(), Spec.OpRevoke(token));
      if token in byToken {
        DeleteLocked(byToken[token]);
      }
    }

    /** Deletes while iterating, in any order; the result does not depend on the order. */
    method CleanupExpired(now: int) returns (removed: nat)
      requires Valid()
      modifies this
      ensures Valid() && State() == Spec.Sweep(old(State()), now)
      ensures removed == |Spec.Expired(old(State()), now)|
    {
      hide Spec.Purge, Spec.Delete, Spec.Stored;
      ghost var st := State();
      ghost var purged: set<string> := {};
      var todo := byToken.Keys;
      removed := 0;
      Spec.PurgeNothing(maxTokensPerIdentity, st);
      while todo != {}
        invariant todo <= st.byToken.Keys && purged <= Spec.Expired(st, now) && purged !! todo
        invariant Spec.Expired(st, now) <= purged + todo
        invariant State() == Spec.Purge(st, purged) && removed == |purged|
      {
        var t :| t in todo;
        Spec.PurgeLeaves(st, purged, t);
        if now > byToken[t].expiresAt {
          Spec.DeleteIsPurge(maxTokensPerIdentity, st, purged, t);
          DeleteLocked(byToken[t]);
          purged := purged + {t};
          removed := removed + 1;
        }
        todo := todo - {t};
      }
      assert purged == Spec.Expired(st, now);
      Spec.PurgeKeeps(maxTokensPerIdentity, st, purged);
    }

    /** The number of stored tokens: at most what the counters add up to, and exactly that when they are exact. */
    method TokenCount() returns (n: nat)
      ensures n == |State().byToken|
      ensures Valid() ==> n <= Spec.Total(identityCnt)
      ensures Valid() && Spec.Exact(State()) ==> n == Spec.Total(identityCnt)
    {
      if Valid() {
        Spec.CountsSumUp(State());
      }
      n := |byToken|;
    }
  }
}
