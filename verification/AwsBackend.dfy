/** The AWS backend's read: cache lookup, fetch, store; and who owns the map it returns. */
module AwsBackend {
  import opened Common
  import opened CacheImpl
  import Spec = CacheSpec
  import Aside = CacheAside

  /** The secret manager's answer, with a secret string already decoded to its pairs. */
  datatype ClientReply = Parsed(pairs: Secret) | ResourceNotFound | Failed

  function ReplyOf(reply: ClientReply): Aside.Reply
  {
    match reply
    case Parsed(pairs) => Aside.Found(Some(pairs))
    case ResourceNotFound => Aside.Missing
    case Failed => Aside.Outage
  }

  /**
   What a read must do, given what its lookup found: a hit is returned as it is and nothing is
   stored; on a miss a failure is returned and nothing is stored, while not-found and the
   pairs of a secret are returned and found again by every lookup within their lifetime.
   */
  ghost predicate Answers(cfg: Spec.Config, looked: (seq<Spec.Slot>, Spec.Lookup), id: string, reply: ClientReply, stored: int,
                          slots: seq<Spec.Slot>, outcome: Aside.Outcome)
  {
    match looked.1
    case Hit(value, negative) => slots == looked.0 && outcome == if negative then Aside.NotFound else Aside.Served(value)
    case Miss =>
      match reply
      case Failed => slots == looked.0 && outcome == Aside.Unavailable
      case ResourceNotFound =>
        outcome == Aside.NotFound && Spec.KeptFor(cfg, looked.0, slots, id, cfg.negativeTtl, stored, Spec.Hit(None, true))
      case Parsed(pairs) =>
        outcome == Aside.Served(Some(pairs)) && Spec.KeptFor(cfg, looked.0, slots, id, cfg.ttl, stored, Spec.Hit(Some(pairs), false))
  }

  class AwsBackend {
    const cache: Cache
    const prefix: string

    constructor (prefix: string, cfg: Spec.RawConfig)
      ensures cache.Valid() && fresh(cache) && fresh(cache.Repr)
      ensures cache.slots == [] && cache.cfg == Spec.Normalize(cfg) && this.prefix == prefix
    {
      cache := new Cache(cfg);
      this.prefix := prefix;
    }

    /**
     The caller owns the map it gets: it is never one the cache holds, whether it comes
     from a hit or from a fetch.
     */
    method GetSecret(path: string, client: string -> ClientReply, lookedUp: int, stored: int) returns (data: SecretMap?, outcome: Aside.Outcome)
      requires cache.Valid()
      modifies cache.Repr
      ensures cache.Valid() && fresh(cache.Repr - old(cache.Repr))
      ensures (cache.slots, outcome) == Aside.Solo(cache.cfg, old(cache.slots), prefix + path, ReplyOf(client(prefix + path)), lookedUp, stored)
      ensures Answers(cache.cfg, Spec.Get(cache.cfg, old(cache.slots), prefix + path, lookedUp), prefix + path, client(prefix + path), stored, cache.slots, outcome)
      ensures outcome.Served? ==> outcome.value == Contents(data)
      ensures data != null ==> outcome.Served? && fresh(data) && data !in cache.Repr
    {
      hide Spec.Get, Spec.Set, Spec.SetNegative, Spec.KeptFor, Cache.Consistent;
      var id := prefix + path;
      var value, hit, isNegative := cache.Get(id, lookedUp);
      if hit {
        if isNegative {
          return null, Aside.NotFound;
        }
        return value, Aside.Served(if value == null then None else Some(value.m));
      }
      var reply := client(id);
      Spec.StoredThenFound(cache.cfg, cache.slots, id, if reply.Parsed? then Some(reply.pairs) else None, stored);
      match reply {
        case ResourceNotFound =>
          cache.SetNegative(id, stored);
          return null, Aside.NotFound;
        case Failed =>
          return null, Aside.Unavailable;
        case Parsed(pairs) =>
          var result := new SecretMap(pairs);
          cache.Set(id, result, stored);
          return result, Aside.Served(Some(pairs));
      }
    }
  }

  /** Overwrites and deletes every entry, in whatever order the keys come. */
  method ClearMap(m: SecretMap?)
    modifies m
    ensures m != null ==> m.m == map[]
  {
    if m == null {
      return;
    }
    var todo := m.m.Keys;
    while todo != {}
      invariant m.m.Keys == todo
    {
      var k :| k in todo;
      m.m := m.m[k := ""];
      m.m := m.m - {k};
      todo := todo - {k};
    }
  }

  /** Whatever happens to objects the cache does not own, the cache answers as before. */
  twostate lemma OutsideChangesAreHarmless(cache: Cache, path: string, now: int)
    requires old(cache.Valid())
    requires forall o :: o in old(cache.Repr) ==> unchanged(o)
    ensures cache.Valid() && cache.slots == old(cache.slots)
    ensures Spec.Get(cache.cfg, cache.slots, path, now) == old(Spec.Get(cache.cfg, cache.slots, path, now))
  {
  }
}
