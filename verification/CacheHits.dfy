/**
 What a cache answers, stated on the history of its operations: a hit is the last write of
 its path, still standing and within its lifetime, and such a write does hit.
 */
module CacheHits {
  import opened Common
  import opened CacheSpec

  /** The operation stores something under its path. */
  predicate Writes(cfg: Config, op: Op)
  {
    cfg.enabled && ((op.OpSet? && cfg.ttl > 0) || (op.OpSetNegative? && cfg.negativeTtl > 0))
  }

  /** The slot that a write leaves behind. */
  function WrittenSlot(cfg: Config, op: Op): Slot
    requires Writes(cfg, op)
  {
    if op.OpSet? then Slot(op.path, op.value, false, op.now + cfg.ttl) else Slot(op.path, None, true, op.now + cfg.negativeTtl)
  }

  /** Operation `w` wrote `path`, and nothing after it wrote or invalidated `path` or cleared the cache. */
  ghost predicate StandingWrite(cfg: Config, ops: seq<Op>, w: nat, path: string)
  {
    && w < |ops| && Writes(cfg, ops[w]) && ops[w].path == path
    && forall l :: w < l < |ops| ==> !Disturbs(cfg, ops[l], path)
  }

  predicate Disturbs(cfg: Config, op: Op, path: string)
  {
    op == OpInvalidate(path) || op == OpFlush || (Writes(cfg, op) && op.path == path)
  }

  lemma WriteInFront(cfg: Config, s: seq<Slot>, op: Op)
    requires Inv(cfg, s) && Writes(cfg, op)
    ensures |Apply(cfg, s, op)| > 0 && Apply(cfg, s, op)[0] == WrittenSlot(cfg, op)
    ensures forall e :: e in Apply(cfg, s, op) ==> e == WrittenSlot(cfg, op) || (e in s && e.path != op.path)
  {
    hide Find;
  }

  lemma OthersComeFromBefore(cfg: Config, s: seq<Slot>, op: Op, e: Slot)
    requires !Writes(cfg, op) && e in Apply(cfg, s, op)
    ensures e in s && op != OpInvalidate(e.path) && op != OpFlush
  {
  }

  /** Every slot in the cache is its path's standing write. */
  lemma {:induction false} SlotIsStandingWrite(cfg: Config, ops: seq<Op>, e: Slot) returns (w: nat)
    requires e in Run(cfg, ops)
    ensures StandingWrite(cfg, ops, w, e.path) && e == WrittenSlot(cfg, ops[w])
  {
    hide Apply, Inv;
    var n := |ops| - 1;
    RunInv(cfg, ops[..n]);
    if Writes(cfg, ops[n]) {
      WriteInFront(cfg, Run(cfg, ops[..n]), ops[n]);
    } else {
      OthersComeFromBefore(cfg, Run(cfg, ops[..n]), ops[n], e);
    }
    if Writes(cfg, ops[n]) && e == WrittenSlot(cfg, ops[n]) {
      w := n;
    } else {
      w := SlotIsStandingWrite(cfg, ops[..n], e);
      assert forall l :: w < l < n ==> ops[..n][l] == ops[l];
    }
  }

  /** A path has at most one standing write. */
  lemma OneStandingWrite(cfg: Config, ops: seq<Op>, v: nat, w: nat, path: string)
    requires StandingWrite(cfg, ops, v, path) && StandingWrite(cfg, ops, w, path)
    ensures v == w
  {
  }

  /**
   A hit is answered with exactly what the standing write of the path stored, and no later
   than its lifetime allows.
   */
  lemma {:induction false} HitIsStandingWrite(cfg: Config, ops: seq<Op>, path: string, now: int) returns (w: nat)
    requires Get(cfg, Run(cfg, ops), path, now).1.Hit?
    ensures StandingWrite(cfg, ops, w, path)
    ensures Get(cfg, Run(cfg, ops), path, now).1 == if ops[w].OpSet? then Hit(ops[w].value, false) else Hit(None, true)
    ensures now <= ops[w].now + (if ops[w].OpSet? then cfg.ttl else cfg.negativeTtl)
  {
    var e := Find(Run(cfg, ops), path).value;
    w := SlotIsStandingWrite(cfg, ops, e);
  }

  /** Since operation `w`, `path` was looked up only within the lifetime of that write. */
  ghost predicate LookedUpInTime(cfg: Config, ops: seq<Op>, w: nat, path: string)
    requires w < |ops| && Writes(cfg, ops[w])
  {
    forall l :: w < l < |ops| && ops[l].OpGet? && ops[l].path == path ==> ops[l].now <= WrittenSlot(cfg, ops[w]).expiresAt
  }

  lemma StandingPrefix(cfg: Config, ops: seq<Op>, w: nat, n: nat, path: string)
    requires StandingWrite(cfg, ops, w, path) && w < n <= |ops|
    ensures StandingWrite(cfg, ops[..n], w, path) && ops[..n][w] == ops[w]
  {
    assert forall l :: w < l < n ==> ops[..n][l] == ops[l];
  }

  /** A lookup in time finds the standing write if it finds the path at all. */
  lemma FoundInTime(cfg: Config, ops: seq<Op>, w: nat, path: string, now: int)
    requires StandingWrite(cfg, ops, w, path) && Find(Run(cfg, ops), path).Some?
    requires now <= WrittenSlot(cfg, ops[w]).expiresAt
    ensures Find(Run(cfg, ops), path).value == WrittenSlot(cfg, ops[w])
    ensures Get(cfg, Run(cfg, ops), path, now).1 == if ops[w].OpSet? then Hit(ops[w].value, false) else Hit(None, true)
  {
    var e := Find(Run(cfg, ops), path).value;
    var v := SlotIsStandingWrite(cfg, ops, e);
    OneStandingWrite(cfg, ops, v, w, path);
  }

  /** While the write stands and is looked up in time, nothing removes it. */
  lemma StandingIsNotRemoved(cfg: Config, ops: seq<Op>, w: nat, t: nat, path: string)
    requires StandingWrite(cfg, ops, w, path) && LookedUpInTime(cfg, ops, w, path) && w <= t
    ensures NotRemoved(cfg, ops, t + 1, path)
  {
    hide Run, Get, Find;
    forall l | t + 1 <= l < |ops|
      ensures ops[l] != OpInvalidate(path) && ops[l] != OpFlush
      ensures ops[l].OpGet? && ops[l].path == path && Find(Run(cfg, ops[..l]), path).Some? ==> Get(cfg, Run(cfg, ops[..l]), path, ops[l].now).1.Hit?
    {
      assert !Disturbs(cfg, ops[l], path);
      StandingPrefix(cfg, ops, w, l, path);
      if ops[l].OpGet? && ops[l].path == path && Find(Run(cfg, ops[..l]), path).Some? {
        FoundInTime(cfg, ops[..l], w, path, ops[l].now);
      }
    }
  }

  /**
   A live write hits: if the last write of a path stands, was looked up only in time, and
   since some touch of the path fewer other paths were touched than the cache can hold, then
   a lookup within its lifetime answers exactly what was written.
   */
  lemma {:induction false} StandingWriteHits(cfg: Config, ops: seq<Op>, w: nat, t: nat, path: string, now: int)
    requires StandingWrite(cfg, ops, w, path) && LookedUpInTime(cfg, ops, w, path)
    requires w <= t < |ops| && Touches(cfg, ops[..t+1], path)
    requires |TouchedSince(cfg, ops, t + 1) - {path}| < cfg.maxEntries
    requires now <= ops[w].now + (if ops[w].OpSet? then cfg.ttl else cfg.negativeTtl)
    ensures Get(cfg, Run(cfg, ops), path, now).1 == if ops[w].OpSet? then Hit(ops[w].value, false) else Hit(None, true)
  {
    hide Run, Get, Find, Touches, TouchedSince, NotRemoved, StandingWrite, LookedUpInTime;
    assert Writes(cfg, ops[w]) by { WriteOf(cfg, ops, w, path); }
    StandingIsNotRemoved(cfg, ops, w, t, path);
    TouchedPathIsRetained(cfg, ops, t + 1, path);
    FoundInTime(cfg, ops, w, path, now);
  }

  lemma WriteOf(cfg: Config, ops: seq<Op>, w: nat, path: string)
    requires StandingWrite(cfg, ops, w, path)
    ensures Writes(cfg, ops[w])
  {
  }

  /** In particular right after the write, whatever else the cache holds. */
  lemma {:induction false} WriteThenHit(cfg: Config, ops: seq<Op>, op: Op, now: int)
    requires Writes(cfg, op) && now <= WrittenSlot(cfg, op).expiresAt
    ensures Get(cfg, Run(cfg, ops + [op]), op.path, now).1 == if op.OpSet? then Hit(op.value, false) else Hit(None, true)
  {
    hide Run, Get;
    var all, n := ops + [op], |ops|;
    assert all[..n+1] == all && StandingWrite(cfg, all, n, op.path);
    assert Touches(cfg, all, op.path);
    StandingWriteHits(cfg, all, n, n, op.path, now);
  }
}
