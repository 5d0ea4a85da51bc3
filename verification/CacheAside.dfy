/**
 Cache-aside reading as a concurrent protocol. A backend read looks the secret up, fetches
 it on a miss, and stores the answer; the cache lock is held only inside a lookup and inside
 a store, so the steps of many readers interleave.
 */
module CacheAside {
  import opened Common
  import opened CacheSpec

  /**
   What the secret store itself answers. Found(None) is a secret whose decoded map is nil;
   only Found and Missing are ever stored; Fault is an error of no known kind.
   */
  datatype Reply = Found(value: Option<Secret>) | Missing | MissingUncached | Outage | Fault

  /** What GetSecret returns. */
  datatype Outcome = Served(value: Option<Secret>) | NotFound | Unavailable | OtherError

  predicate Storable(reply: Reply)
  {
    reply.Found? || reply.Missing?
  }

  /** A reader that missed is fetching, then holds an answer it has not stored yet, then is done. */
  datatype Phase =
    | Fetching(id: string)
    | Fetched(id: string, reply: Reply)
    | Done(id: string, outcome: Outcome)

  /** Readers are numbered in the order they began. */
  datatype State = State(cache: seq<Slot>, readers: seq<Phase>)

  datatype Event =
    | Begin(id: string, now: int)              // a new reader's lookup
    | Answer(reader: nat, reply: Reply)        // the fetch of a reader comes back
    | Finish(reader: nat, now: int)            // the reader stores the answer and returns
    | Forget(id: string)                       // someone invalidates an entry
    | Flush                                    // someone clears the cache
    | Idle                                     // something else happens

  const INIT := State([], [])

  function OutcomeOf(reply: Reply): Outcome
  {
    match reply
    case Found(value) => Served(value)
    case Missing => NotFound
    case MissingUncached => NotFound
    case Outage => Unavailable
    case Fault => OtherError
  }

  function StoreReply(cfg: Config, s: seq<Slot>, id: string, reply: Reply, now: int): seq<Slot>
  {
    match reply
    case Found(value) => Set(cfg, s, id, value, now)
    case Missing => SetNegative(cfg, s, id, now)
    case _ => s
  }

  function Step(cfg: Config, st: State, ev: Event): (r: State)
  {
    match ev
    case Begin(id, now) =>
      var (cache, found) := Get(cfg, st.cache, id, now);
      State(cache, st.readers + [match found
                                 case Miss => Fetching(id)
                                 case Hit(value, negative) => Done(id, if negative then NotFound else Served(value))])
    case Answer(r, reply) =>
      if r < |st.readers| && st.readers[r].Fetching? then
        var id := st.readers[r].id;
        st.(readers := st.readers[r := if Storable(reply) then Fetched(id, reply) else Done(id, OutcomeOf(reply))])
      else st
    case Finish(r, now) =>
      if r < |st.readers| && st.readers[r].Fetched? then
        var Fetched(id, reply) := st.readers[r];
        State(StoreReply(cfg, st.cache, id, reply, now), st.readers[r := Done(id, OutcomeOf(reply))])
      else st
    case Forget(id) => st.(cache := Without(st.cache, id))
    case Flush => st.(cache := [])
    case Idle => st
  }

  function Run(cfg: Config, evs: seq<Event>): (st: State)
  {
    if evs == [] then INIT else Step(cfg, Run(cfg, evs[..|evs|-1]), evs[|evs|-1])
  }

  /** One reader alone, start to end: what it leaves in the cache and what it returns. */
  function Solo(cfg: Config, s: seq<Slot>, id: string, reply: Reply, lookedUp: int, stored: int): (r: (seq<Slot>, Outcome))
  {
    var begun := Step(cfg, State(s, []), Begin(id, lookedUp));
    var answered := Step(cfg, begun, Answer(0, reply));
    var done := Step(cfg, answered, Finish(0, stored));
    (done.cache, done.readers[0].outcome)
  }

  // ----- The protocol drives the cache through its own operations only -----

  /** The cache operation an event performs, if any. */
  function EventOps(st: State, ev: Event): seq<Op>
  {
    match ev
    case Begin(id, now) => [OpGet(id, now)]
    case Answer(_, _) => []
    case Finish(r, now) =>
      if r < |st.readers| && st.readers[r].Fetched? then
        match st.readers[r].reply
        case Found(value) => [OpSet(st.readers[r].id, value, now)]
        case Missing => [OpSetNegative(st.readers[r].id, now)]
        case _ => []
      else []
    case Forget(id) => [OpInvalidate(id)]
    case Flush => [OpFlush]
    case Idle => []
  }

  function OpsOf(cfg: Config, evs: seq<Event>): seq<Op>
  {
    if evs == [] then []
    else OpsOf(cfg, evs[..|evs|-1]) + EventOps(Run(cfg, evs[..|evs|-1]), evs[|evs|-1])
  }

  lemma StepDoesItsOps(cfg: Config, st: State, ev: Event)
    ensures var ops := EventOps(st, ev);
            if ops == [] then Step(cfg, st, ev).cache == st.cache
            else |ops| == 1 && Step(cfg, st, ev).cache == Apply(cfg, st.cache, ops[0])
  {
    hide Get, Set, SetNegative, Without;
  }

  lemma {:induction false} CacheRunsItsOps(cfg: Config, evs: seq<Event>)
    ensures Run(cfg, evs).cache == CacheSpec.Run(cfg, OpsOf(cfg, evs))
    ensures Inv(cfg, Run(cfg, evs).cache)
  {
    hide Step, EventOps, Apply, Inv;
    RunInv(cfg, OpsOf(cfg, evs));
    if evs != [] {
      var before := evs[..|evs|-1];
      CacheRunsItsOps(cfg, before);
      StepDoesItsOps(cfg, Run(cfg, before), evs[|evs|-1]);
      var a, b := OpsOf(cfg, before), OpsOf(cfg, evs);
      if b != a {
        assert b[..|b|-1] == a;
      }
    }
  }

  // ----- Where a cached answer comes from -----

  /** At event `j` the fetch that reader `r` had running for `id` came back with `reply`. */
  ghost predicate AnsweredAt(cfg: Config, evs: seq<Event>, j: nat, r: nat, id: string, reply: Reply)
  {
    && j < |evs| && evs[j] == Answer(r, reply)
    && r < |Run(cfg, evs[..j]).readers| && Run(cfg, evs[..j]).readers[r] == Fetching(id)
  }

  /** The lifetime of an answer in the cache. */
  function Lifetime(cfg: Config, reply: Reply): int
  {
    if reply.Found? then cfg.ttl else cfg.negativeTtl
  }

  /** At event `k` reader `r`, holding `reply` for `id`, wrote it to the cache. */
  ghost predicate WroteAt(cfg: Config, evs: seq<Event>, k: nat, r: nat, id: string, reply: Reply)
  {
    && k < |evs| && evs[k].Finish? && evs[k].reader == r
    && r < |Run(cfg, evs[..k]).readers| && Run(cfg, evs[..k]).readers[r] == Fetched(id, reply)
    && cfg.enabled && Lifetime(cfg, reply) > 0
  }

  /** Since event `k` nobody wrote `id` again, invalidated it or cleared the cache. */
  ghost predicate UndisturbedSince(cfg: Config, evs: seq<Event>, k: nat, id: string)
  {
    forall l :: k < l < |evs| ==>
      && evs[l] != Forget(id) && evs[l] != Flush
      && (forall r, reply :: !WroteAt(cfg, evs, l, r, id, reply))
  }

  /** The slot `e` is what reader `r` wrote at event `k`, and the last word on its id. */
  ghost predicate Origin(cfg: Config, evs: seq<Event>, k: nat, r: nat, reply: Reply, e: Slot)
  {
    && WroteAt(cfg, evs, k, r, e.path, reply)
    && Storable(reply)
    && e == Slot(e.path, if reply.Found? then reply.value else None, reply.Missing?, evs[k].now + Lifetime(cfg, reply))
    && UndisturbedSince(cfg, evs, k, e.path)
  }

  lemma PrefixWrote(cfg: Config, evs: seq<Event>, n: nat, k: nat, r: nat, id: string, reply: Reply)
    requires k < n <= |evs|
    ensures WroteAt(cfg, evs[..n], k, r, id, reply) <==> WroteAt(cfg, evs, k, r, id, reply)
    ensures AnsweredAt(cfg, evs[..n], k, r, id, reply) <==> AnsweredAt(cfg, evs, k, r, id, reply)
  {
    assert evs[..n][..k] == evs[..k];
  }

  /** An origin survives an event that does not disturb its id. */
  lemma OriginExtends(cfg: Config, evs: seq<Event>, n: nat, k: nat, r: nat, reply: Reply, e: Slot)
    requires |evs| == n + 1 && Origin(cfg, evs[..n], k, r, reply, e)
    requires evs[n] != Forget(e.path) && evs[n] != Flush
    requires forall r', reply' :: !WroteAt(cfg, evs, n, r', e.path, reply')
    ensures Origin(cfg, evs, k, r, reply, e)
  {
    PrefixWrote(cfg, evs, n, k, r, e.path, reply);
    forall l, r', reply' | k < l < n ensures !WroteAt(cfg, evs, l, r', e.path, reply') {
      PrefixWrote(cfg, evs, n, l, r', e.path, reply');
    }
  }

  /** A reader that holds an answer got it from its own fetch. */
  lemma {:induction false} HeldAnswer(cfg: Config, evs: seq<Event>, r: nat) returns (j: nat)
    requires r < |Run(cfg, evs).readers| && Run(cfg, evs).readers[r].Fetched?
    ensures AnsweredAt(cfg, evs, j, r, Run(cfg, evs).readers[r].id, Run(cfg, evs).readers[r].reply)
    ensures Storable(Run(cfg, evs).readers[r].reply)
  {
    var n := |evs| - 1;
    var before := Run(cfg, evs[..n]);
    var Fetched(id, reply) := Run(cfg, evs).readers[r];
    if r < |before.readers| && before.readers[r] == Fetched(id, reply) {
      j := HeldAnswer(cfg, evs[..n], r);
      PrefixWrote(cfg, evs, n, j, r, id, reply);
    } else {
      j := n;
    }
  }

  /** Every slot in the cache is the last undisturbed write of its id. */
  lemma {:induction false} SlotOrigin(cfg: Config, evs: seq<Event>, e: Slot) returns (k: nat, r: nat, reply: Reply)
    requires e in Run(cfg, evs).cache
    ensures Origin(cfg, evs, k, r, reply, e)
  {
    var n := |evs| - 1;
    var before := Run(cfg, evs[..n]);
    if evs[n].Finish? && evs[n].reader < |before.readers| && before.readers[evs[n].reader].Fetched?
       && cfg.enabled && Lifetime(cfg, before.readers[evs[n].reader].reply) > 0
       && before.readers[evs[n].reader].id == e.path {
      k, r, reply := n, evs[n].reader, before.readers[evs[n].reader].reply;
      var j := HeldAnswer(cfg, evs[..n], r);
      WrittenSlot(cfg, before.cache, e.path, reply, evs[n].now, e);
    } else {
      StepKeepsOnly(cfg, before, evs[n], e);
      k, r, reply := SlotOrigin(cfg, evs[..n], e);
      OriginExtends(cfg, evs, n, k, r, reply, e);
    }
  }

  /** After a write, the slot of that id is the one written. */
  lemma WrittenSlot(cfg: Config, s: seq<Slot>, id: string, reply: Reply, now: int, e: Slot)
    requires cfg.enabled && Lifetime(cfg, reply) > 0 && Storable(reply)
    requires e in StoreReply(cfg, s, id, reply, now) && e.path == id
    ensures e == Slot(id, if reply.Found? then reply.value else None, reply.Missing?, now + Lifetime(cfg, reply))
  {
    assert e !in Without(s, id);
  }

  /** An event that does not write `e.path` creates no slot for it, and disturbs none it keeps. */
  lemma StepKeepsOnly(cfg: Config, st: State, ev: Event, e: Slot)
    requires e in Step(cfg, st, ev).cache
    requires !(ev.Finish? && ev.reader < |st.readers| && st.readers[ev.reader].Fetched?
               && cfg.enabled && Lifetime(cfg, st.readers[ev.reader].reply) > 0 && st.readers[ev.reader].id == e.path)
    ensures e in st.cache && ev != Forget(e.path) && ev != Flush
  {
    if ev.Finish? && ev.reader < |st.readers| && st.readers[ev.reader].Fetched? {
      var Fetched(id, reply) := st.readers[ev.reader];
      if StoreReply(cfg, st.cache, id, reply, ev.now) != st.cache {
        assert e in Without(st.cache, id);
      }
    }
  }

  /**
   Bounded staleness over every interleaving: a lookup that hits is answered by a fetch of
   that same id that some reader completed and stored, the last such store still standing,
   no more than the TTL before the lookup; for a not-found answer, the negative TTL. An
   error is never the answer.
   */
  lemma {:induction false} HitIsARecentFetch(cfg: Config, evs: seq<Event>, id: string, now: int) returns (j: nat, k: nat, r: nat, reply: Reply)
    requires Get(cfg, Run(cfg, evs).cache, id, now).1.Hit?
    ensures j < k < |evs|
    ensures AnsweredAt(cfg, evs, j, r, id, reply) && WroteAt(cfg, evs, k, r, id, reply) && Storable(reply)
    ensures UndisturbedSince(cfg, evs, k, id)
    ensures now <= evs[k].now + (if reply.Missing? then cfg.negativeTtl else cfg.ttl)
    ensures Get(cfg, Run(cfg, evs).cache, id, now).1 ==
              if reply.Found? then Hit(reply.value, false) else Hit(None, true)
  {
    var e := Find(Run(cfg, evs).cache, id).value;
    k, r, reply := SlotOrigin(cfg, evs, e);
    j := HeldAnswer(cfg, evs[..k], r);
    PrefixWrote(cfg, evs, k, j, r, id, reply);
  }

  /** Event `b` is the lookup with which reader `r` began. */
  ghost predicate BeganAt(cfg: Config, evs: seq<Event>, b: nat, r: nat)
  {
    b < |evs| && evs[b].Begin? && |Run(cfg, evs[..b]).readers| == r
  }

  lemma {:induction false} ReadersGrow(cfg: Config, evs: seq<Event>, b: nat)
    requires b < |evs| && evs[b].Begin?
    ensures |Run(cfg, evs).readers| > |Run(cfg, evs[..b]).readers|
  {
    var n := |evs| - 1;
    if b < n {
      ReadersGrow(cfg, evs[..n], b);
      assert evs[..n][..b] == evs[..b];
    }
  }

  /**
   An answer `reply` from the fetch at `j` is current for a lookup at event `b` by reader `r`:
   it was fetched by that reader after the lookup, or its own fetcher had stored it, at `k`,
   no longer before the lookup than such an answer may be kept, and nothing had replaced or
   removed it since.
   */
  ghost predicate Current(cfg: Config, evs: seq<Event>, b: nat, r: nat, j: nat, k: nat, fetcher: nat, id: string, reply: Reply)
  {
    && b < |evs| && evs[b].Begin?
    && AnsweredAt(cfg, evs, j, fetcher, id, reply)
    && ((b < j && fetcher == r) ||
        (&& j < k < b && WroteAt(cfg, evs, k, fetcher, id, reply) && evs[b].now <= evs[k].now + Lifetime(cfg, reply)
         && UndisturbedSince(cfg, evs[..b], k, id)))
  }

  lemma CurrentExtends(cfg: Config, evs: seq<Event>, n: nat, b: nat, r: nat, j: nat, k: nat, fetcher: nat, id: string, reply: Reply)
    requires n <= |evs| && Current(cfg, evs[..n], b, r, j, k, fetcher, id, reply)
    ensures Current(cfg, evs, b, r, j, k, fetcher, id, reply)
  {
    PrefixWrote(cfg, evs, n, j, fetcher, id, reply);
    assert evs[..n][..b] == evs[..b];
    if k < n {
      PrefixWrote(cfg, evs, n, k, fetcher, id, reply);
    }
  }

  /** A reader that is done stays so; it gets done by its fetch coming back, or by storing the answer it holds. */
  lemma ReaderStep(cfg: Config, st: State, ev: Event, r: nat)
    requires r < |st.readers|
    ensures r < |Step(cfg, st, ev).readers| && Step(cfg, st, ev).readers[r].id == st.readers[r].id
    ensures var was, now := st.readers[r], Step(cfg, st, ev).readers[r];
            if was.Done? then now == was
            else now.Done? ==>
              || (ev.Answer? && ev.reader == r && was == Fetching(now.id) && now.outcome == OutcomeOf(ev.reply))
              || (was.Fetched? && now.outcome == OutcomeOf(was.reply))
  {
    hide Get, StoreReply, OutcomeOf;
  }

  /** A reader that is done at once has hit the cache. */
  lemma DoneAtOnce(cfg: Config, st: State, ev: Event)
    requires ev.Begin? && |Step(cfg, st, ev).readers| > |st.readers| && Step(cfg, st, ev).readers[|st.readers|].Done?
    ensures var found := Get(cfg, st.cache, ev.id, ev.now).1;
            && found.Hit?
            && Step(cfg, st, ev).readers[|st.readers|] == Done(ev.id, if found.negative then NotFound else Served(found.value))
  {
    hide Get;
  }

  /** Whatever a reader returns is a current answer of some completed fetch of that same id. */
  lemma {:induction false} DoneFromFetch(cfg: Config, evs: seq<Event>, r: nat, b: nat)
    returns (j: nat, k: nat, fetcher: nat, reply: Reply)
    requires r < |Run(cfg, evs).readers| && Run(cfg, evs).readers[r].Done? && BeganAt(cfg, evs, b, r)
    ensures Current(cfg, evs, b, r, j, k, fetcher, Run(cfg, evs).readers[r].id, reply)
    ensures Run(cfg, evs).readers[r].outcome == OutcomeOf(reply)
  {
    hide Step, Get, UndisturbedSince;
    var n := |evs| - 1;
    var before := Run(cfg, evs[..n]);
    var id := Run(cfg, evs).readers[r].id;
    if b < n {
      ReadersGrow(cfg, evs[..n], b);
      assert evs[..n][..b] == evs[..b];
      ReaderStep(cfg, before, evs[n], r);
      if before.readers[r].Done? {
        j, k, fetcher, reply := DoneFromFetch(cfg, evs[..n], r, b);
        CurrentExtends(cfg, evs, n, b, r, j, k, fetcher, id, reply);
      } else if before.readers[r].Fetching? {
        j, k, fetcher, reply := n, 0, r, evs[n].reply;
      } else {
        j := HeldAnswer(cfg, evs[..n], r);
        k, fetcher, reply := 0, r, before.readers[r].reply;
        PrefixWrote(cfg, evs, n, j, r, id, reply);
        AnsweredAfterBegin(cfg, evs, j, r, b);
      }
    } else {
      DoneAtOnce(cfg, before, evs[n]);
      j, k, fetcher, reply := HitIsARecentFetch(cfg, evs[..n], id, evs[n].now);
      PrefixWrote(cfg, evs, n, j, fetcher, id, reply);
      PrefixWrote(cfg, evs, n, k, fetcher, id, reply);
    }
  }

  /** A reader's fetch comes back after the reader began. */
  lemma AnsweredAfterBegin(cfg: Config, evs: seq<Event>, j: nat, r: nat, b: nat)
    requires j < |evs| && evs[j].Answer? && r < |Run(cfg, evs[..j]).readers| && BeganAt(cfg, evs, b, r)
    ensures b < j
  {
    if j < b {
      assert evs[..b][..j] == evs[..j];
      ReadersNeverShrink(cfg, evs[..b], j);
    }
  }

  lemma {:induction false} ReadersNeverShrink(cfg: Config, evs: seq<Event>, j: nat)
    requires j <= |evs|
    ensures |Run(cfg, evs).readers| >= |Run(cfg, evs[..j]).readers|
  {
    if j == |evs| {
      assert evs[..j] == evs;
    } else {
      ReadersNeverShrink(cfg, evs[..|evs|-1], j);
      assert evs[..|evs|-1][..j] == evs[..j];
    }
  }

  /** Every reader began at some lookup. */
  lemma {:induction false} ReaderBegan(cfg: Config, evs: seq<Event>, r: nat) returns (b: nat)
    requires r < |Run(cfg, evs).readers|
    ensures BeganAt(cfg, evs, b, r)
  {
    var n := |evs| - 1;
    if r < |Run(cfg, evs[..n]).readers| {
      b := ReaderBegan(cfg, evs[..n], r);
      assert evs[..n][..b] == evs[..b];
    } else {
      b := n;
    }
  }

  // ----- A backend that does not change -----

  /** Every fetch that completed in the run answered as `backend` does. */
  ghost predicate AnswersFrom(cfg: Config, evs: seq<Event>, backend: string -> Reply)
  {
    forall j, r, id, reply :: AnsweredAt(cfg, evs, j, r, id, reply) ==> reply == backend(id)
  }

  /** Over an unchanging backend, every reader gets the answer it would have got without a cache. */
  lemma {:induction false} CachingIsTransparent(cfg: Config, evs: seq<Event>, backend: string -> Reply, r: nat)
    requires AnswersFrom(cfg, evs, backend)
    requires r < |Run(cfg, evs).readers| && Run(cfg, evs).readers[r].Done?
    ensures Run(cfg, evs).readers[r].outcome == OutcomeOf(backend(Run(cfg, evs).readers[r].id))
  {
    var b := ReaderBegan(cfg, evs, r);
    var j, k, fetcher, reply := DoneFromFetch(cfg, evs, r, b);
  }
}
