/** Cache-aside reading does use its cache: an answer that was stored and stands is served without a fetch. */
module AsideHits {
  import opened Common
  import opened CacheSpec
  import opened CacheHits
  import Aside = CacheAside

  // ----- Events and the cache operations they perform -----

  lemma {:induction false} OpsPrefix(cfg: Config, evs: seq<Aside.Event>, n: nat)
    requires n <= |evs|
    ensures |Aside.OpsOf(cfg, evs[..n])| <= |Aside.OpsOf(cfg, evs)|
    ensures Aside.OpsOf(cfg, evs)[..|Aside.OpsOf(cfg, evs[..n])|] == Aside.OpsOf(cfg, evs[..n])
  {
    hide Aside.EventOps;
    if n == |evs| {
      assert evs[..n] == evs;
    } else {
      OpsPrefix(cfg, evs[..|evs|-1], n);
      assert evs[..|evs|-1][..n] == evs[..n];
    }
  }

  /** Event `e` performs operation `l` of the run. */
  ghost predicate PerformedBy(cfg: Config, evs: seq<Aside.Event>, l: nat, e: nat)
  {
    && e < |evs| && l < |Aside.OpsOf(cfg, evs)|
    && Aside.EventOps(Aside.Run(cfg, evs[..e]), evs[e]) == [Aside.OpsOf(cfg, evs)[l]]
  }

  /** Every operation from the `n`-th event on is performed by one of those events. */
  lemma {:induction false} OpAfter(cfg: Config, evs: seq<Aside.Event>, n: nat, l: nat) returns (e: nat)
    requires n <= |evs| && |Aside.OpsOf(cfg, evs[..n])| <= l < |Aside.OpsOf(cfg, evs)|
    ensures n <= e < |evs| && PerformedBy(cfg, evs, l, e)
  {
    hide Aside.EventOps, Aside.Run;
    assert evs[..|evs|] == evs;
    var last := |evs| - 1;
    var before := evs[..last];
    assert before[..n] == evs[..n];
    var ops := Aside.OpsOf(cfg, before);
    if l < |ops| {
      e := OpAfter(cfg, before, n, l);
      assert before[..e] == evs[..e];
    } else {
      e := last;
      AtMostOneOp(Aside.Run(cfg, before), evs[last]);
    }
  }

  lemma AtMostOneOp(st: Aside.State, ev: Aside.Event)
    ensures |Aside.EventOps(st, ev)| <= 1
  {
  }

  /** The operation that stores an answer. */
  function WriteOp(id: string, reply: Aside.Reply, now: int): Op
  {
    if reply.Found? then OpSet(id, reply.value, now) else OpSetNegative(id, now)
  }

  /** Storing an answer is the next operation of the run, and a write. */
  lemma WriteIsNext(cfg: Config, evs: seq<Aside.Event>, k: nat, r: nat, id: string, reply: Aside.Reply)
    requires Aside.WroteAt(cfg, evs, k, r, id, reply)
    ensures Aside.Storable(reply)
    ensures Aside.OpsOf(cfg, evs[..k+1]) == Aside.OpsOf(cfg, evs[..k]) + [WriteOp(id, reply, evs[k].now)]
    ensures Writes(cfg, WriteOp(id, reply, evs[k].now))
  {
    hide Aside.Run, Aside.Step;
    var j := Aside.HeldAnswer(cfg, evs[..k], r);
    assert evs[..k+1][..k] == evs[..k];
  }

  /** An operation that disturbs `id` is performed by an event that does. */
  lemma DisturbingEvent(cfg: Config, evs: seq<Aside.Event>, l: nat, e: nat, id: string)
    requires PerformedBy(cfg, evs, l, e) && Disturbs(cfg, Aside.OpsOf(cfg, evs)[l], id)
    ensures evs[e] == Aside.Forget(id) || evs[e] == Aside.Flush || exists r: nat, reply :: Aside.WroteAt(cfg, evs, e, r, id, reply)
  {
    hide Aside.Run, Aside.Step, Aside.OpsOf;
    var st := Aside.Run(cfg, evs[..e]);
    if evs[e].Finish? {
      assert Aside.WroteAt(cfg, evs, e, evs[e].reader, id, st.readers[evs[e].reader].reply);
    }
  }

  /** What the reader at `k` stored is the standing write of its id. */
  lemma StoredStands(cfg: Config, evs: seq<Aside.Event>, k: nat, r: nat, id: string, reply: Aside.Reply)
    requires Aside.WroteAt(cfg, evs, k, r, id, reply) && Aside.UndisturbedSince(cfg, evs, k, id)
    ensures var ops, w := Aside.OpsOf(cfg, evs), |Aside.OpsOf(cfg, evs[..k])|;
            StandingWrite(cfg, ops, w, id) && ops[w] == WriteOp(id, reply, evs[k].now)
  {
    hide Aside.Run, Aside.OpsOf, Aside.EventOps, PerformedBy, Writes;
    var ops, w := Aside.OpsOf(cfg, evs), |Aside.OpsOf(cfg, evs[..k])|;
    WriteIsNext(cfg, evs, k, r, id, reply);
    OpsPrefix(cfg, evs, k + 1);
    assert ops[w] == ops[..w+1][w];
    forall l | w < l < |ops| ensures !Disturbs(cfg, ops[l], id) {
      var e := OpAfter(cfg, evs, k + 1, l);
      if Disturbs(cfg, ops[l], id) {
        DisturbingEvent(cfg, evs, l, e, id);
      }
    }
  }

  /** Since event `k`, the lookups of `id` came within the lifetime of the answer stored then. */
  ghost predicate LookedUpInTime(cfg: Config, evs: seq<Aside.Event>, k: nat, id: string, reply: Aside.Reply)
    requires k < |evs| && evs[k].Finish?
  {
    forall l :: k < l < |evs| && evs[l].Begin? && evs[l].id == id ==> evs[l].now <= evs[k].now + Aside.Lifetime(cfg, reply)
  }

  lemma StoredLookedUpInTime(cfg: Config, evs: seq<Aside.Event>, k: nat, r: nat, id: string, reply: Aside.Reply)
    requires Aside.WroteAt(cfg, evs, k, r, id, reply) && Aside.UndisturbedSince(cfg, evs, k, id)
    requires LookedUpInTime(cfg, evs, k, id, reply)
    ensures var ops, w := Aside.OpsOf(cfg, evs), |Aside.OpsOf(cfg, evs[..k])|;
            StandingWrite(cfg, ops, w, id) && CacheHits.LookedUpInTime(cfg, ops, w, id)
  {
    hide Aside.Run, Aside.OpsOf, Aside.EventOps, Aside.UndisturbedSince, PerformedBy;
    var ops, w := Aside.OpsOf(cfg, evs), |Aside.OpsOf(cfg, evs[..k])|;
    StoredStands(cfg, evs, k, r, id, reply);
    WriteIsNext(cfg, evs, k, r, id, reply);
    forall l | w < l < |ops| && ops[l].OpGet? && ops[l].path == id ensures ops[l].now <= WrittenSlot(cfg, ops[w]).expiresAt {
      var e := OpAfter(cfg, evs, k + 1, l);
      LookupEvent(cfg, evs, l, e);
    }
  }

  lemma LookupEvent(cfg: Config, evs: seq<Aside.Event>, l: nat, e: nat)
    requires PerformedBy(cfg, evs, l, e) && Aside.OpsOf(cfg, evs)[l].OpGet?
    ensures evs[e] == Aside.Begin(Aside.OpsOf(cfg, evs)[l].path, Aside.OpsOf(cfg, evs)[l].now)
  {
    hide Aside.Run, Aside.OpsOf;
  }

  /** Event `t` is the store at `k` itself, or a later lookup of `id` that hit. */
  ghost predicate TouchedAt(cfg: Config, evs: seq<Aside.Event>, k: nat, t: nat, id: string)
  {
    t < |evs| &&
    (t == k || (k < t && evs[t].Begin? && evs[t].id == id && Get(cfg, Aside.Run(cfg, evs[..t]).cache, id, evs[t].now).1.Hit?))
  }

  /** The ids other than `id` that were stored or hit after event `t`. */
  ghost function OthersTouched(cfg: Config, evs: seq<Aside.Event>, t: nat, id: string): set<string>
    requires t < |evs|
  {
    TouchedSince(cfg, Aside.OpsOf(cfg, evs), |Aside.OpsOf(cfg, evs[..t+1])|) - {id}
  }

  lemma WriteTouches(cfg: Config, ops: seq<Op>, op: Op)
    requires Writes(cfg, op)
    ensures Touches(cfg, ops + [op], op.path)
  {
  }

  lemma HitTouches(cfg: Config, ops: seq<Op>, id: string, now: int)
    requires Get(cfg, Run(cfg, ops), id, now).1.Hit?
    ensures Touches(cfg, ops + [OpGet(id, now)], id)
  {
    assert (ops + [OpGet(id, now)])[..|ops|] == ops;
  }

  lemma LookupIsNext(cfg: Config, evs: seq<Aside.Event>, t: nat)
    requires t < |evs| && evs[t].Begin?
    ensures Aside.OpsOf(cfg, evs[..t+1]) == Aside.OpsOf(cfg, evs[..t]) + [OpGet(evs[t].id, evs[t].now)]
  {
    hide Aside.Run;
    assert evs[..t+1][..t] == evs[..t];
  }

  lemma TouchIsAnOp(cfg: Config, evs: seq<Aside.Event>, k: nat, t: nat, r: nat, id: string, reply: Aside.Reply)
    requires Aside.WroteAt(cfg, evs, k, r, id, reply) && TouchedAt(cfg, evs, k, t, id)
    ensures var ops := Aside.OpsOf(cfg, evs[..t+1]); |ops| == |Aside.OpsOf(cfg, evs[..t])| + 1 && Touches(cfg, ops, id)
  {
    hide Aside.Run, Aside.OpsOf, Run, Get, Touches, Writes;
    if t == k {
      WriteIsNext(cfg, evs, k, r, id, reply);
      WriteTouches(cfg, Aside.OpsOf(cfg, evs[..t]), WriteOp(id, reply, evs[k].now));
    } else {
      Aside.CacheRunsItsOps(cfg, evs[..t]);
      LookupIsNext(cfg, evs, t);
      HitTouches(cfg, Aside.OpsOf(cfg, evs[..t]), id, evs[t].now);
    }
  }

  /**
   Whoever looks an id up while an answer stored for it stands is served that answer at
   once, without a fetch: no one wrote, forgot or flushed it since, every lookup since came
   within its lifetime, this one does too, and since the store or a later hit fewer other
   ids were touched than the cache can hold.
   */
  lemma {:induction false} LiveAnswerIsServed(cfg: Config, evs: seq<Aside.Event>, k: nat, t: nat, r: nat, id: string, reply: Aside.Reply, now: int)
    requires Aside.WroteAt(cfg, evs, k, r, id, reply) && Aside.UndisturbedSince(cfg, evs, k, id)
    requires LookedUpInTime(cfg, evs, k, id, reply) && now <= evs[k].now + (if reply.Found? then cfg.ttl else cfg.negativeTtl)
    requires TouchedAt(cfg, evs, k, t, id) && |OthersTouched(cfg, evs, t, id)| < cfg.maxEntries
    ensures Aside.Step(cfg, Aside.Run(cfg, evs), Aside.Begin(id, now)).readers ==
            Aside.Run(cfg, evs).readers + [Aside.Done(id, if reply.Found? then Aside.Served(reply.value) else Aside.NotFound)]
  {
    hide Aside.Run, Aside.OpsOf, Aside.WroteAt, Aside.UndisturbedSince, LookedUpInTime, StandingWrite, Get, Touches, TouchedSince;
    var ops := Aside.OpsOf(cfg, evs);
    StoredStands(cfg, evs, k, r, id, reply);
    StoredLookedUpInTime(cfg, evs, k, r, id, reply);
    TouchIsAnOp(cfg, evs, k, t, r, id, reply);
    OpsPrefix(cfg, evs, t + 1);
    OpsPrefix(cfg, evs[..t], k);
    assert evs[..t][..k] == evs[..k];
    Aside.CacheRunsItsOps(cfg, evs);
    StandingWriteHits(cfg, ops, |Aside.OpsOf(cfg, evs[..k])|, |Aside.OpsOf(cfg, evs[..t])|, id, now);
  }
}
