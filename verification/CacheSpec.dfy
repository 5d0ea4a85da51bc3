/**
 The abstract meaning of the secret cache: a list of slots, most recently used first.
 Every operation is a function on that list. The imperative cache (module CacheImpl) is
 proved to compute exactly these functions; what the cache promises is proved here.
 */
module CacheSpec {
  import opened Common

  const DEFAULT_MAX_ENTRIES := 10000

  datatype RawConfig = RawConfig(enabled: bool, ttl: int, negativeTtl: int, maxEntries: int)

  /** A configuration after construction: a non-positive bound has been replaced by the default. */
  type Config = c: RawConfig | c.maxEntries >= 1 witness RawConfig(false, 0, 0, 1)

  function Normalize(raw: RawConfig): (cfg: Config)
    ensures raw.maxEntries >= 1 ==> cfg == raw
    ensures raw.maxEntries < 1 ==> cfg == raw.(maxEntries := 10000)
  {
    if raw.maxEntries <= 0 then raw.(maxEntries := DEFAULT_MAX_ENTRIES) else raw
  }

  /** `value` is None for a nil map: every negative slot, and a positive slot that was stored from nil. */
  datatype Slot = Slot(path: string, value: Option<Secret>, negative: bool, expiresAt: int)

  datatype Lookup = Miss | Hit(value: Option<Secret>, negative: bool)

  function Find(s: seq<Slot>, path: string): (r: Option<Slot>)
    ensures r.Some? ==> r.value in s && r.value.path == path
    ensures r.None? ==> forall e :: e in s ==> e.path != path
  {
    if s == [] then None
    else if s[0].path == path then Some(s[0])
    else Find(s[1..], path)
  }

  function Without(s: seq<Slot>, path: string): (r: seq<Slot>)
    ensures forall e :: e in r <==> e in s && e.path != path
    ensures |r| <= |s|
  {
    if s == [] then []
    else if s[0].path == path then Without(s[1..], path)
    else [s[0]] + Without(s[1..], path)
  }

  function Get(cfg: Config, s: seq<Slot>, path: string, now: int): (r: (seq<Slot>, Lookup))
  {
    if !cfg.enabled then (s, Miss)
    else match Find(s, path)
      case None => (s, Miss)
      case Some(e) =>
        if now > e.expiresAt then (Without(s, path), Miss)
        else ([e] + Without(s, path), Hit(if e.negative then None else e.value, e.negative))
  }

  function Store(cfg: Config, s: seq<Slot>, path: string, value: Option<Secret>, negative: bool, ttl: int, now: int): (r: seq<Slot>)
  {
    var front := [Slot(path, value, negative, now + ttl)] + Without(s, path);
    if Find(s, path).Some? || |front| <= cfg.maxEntries then front else front[..cfg.maxEntries]
  }

  function Set(cfg: Config, s: seq<Slot>, path: string, value: Option<Secret>, now: int): (r: seq<Slot>)
  {
    if !cfg.enabled || cfg.ttl <= 0 then s else Store(cfg, s, path, value, false, cfg.ttl, now)
  }

  function SetNegative(cfg: Config, s: seq<Slot>, path: string, now: int): (r: seq<Slot>)
  {
    if !cfg.enabled || cfg.negativeTtl <= 0 then s else Store(cfg, s, path, None, true, cfg.negativeTtl, now)
  }

  // ----- Runs -----

  datatype Op =
    | OpGet(path: string, now: int)
    | OpSet(path: string, value: Option<Secret>, now: int)
    | OpSetNegative(path: string, now: int)
    | OpInvalidate(path: string)
    | OpFlush

  function Apply(cfg: Config, s: seq<Slot>, op: Op): (r: seq<Slot>)
  {
    match op
    case OpGet(path, now) => Get(cfg, s, path, now).0
    case OpSet(path, value, now) => Set(cfg, s, path, value, now)
    case OpSetNegative(path, now) => SetNegative(cfg, s, path, now)
    case OpInvalidate(path) => Without(s, path)
    case OpFlush => []
  }

  /** The cache after a sequence of operations, from empty. */
  function Run(cfg: Config, ops: seq<Op>): (s: seq<Slot>)
  {
    if ops == [] then [] else Apply(cfg, Run(cfg, ops[..|ops|-1]), ops[|ops|-1])
  }

  // ----- The invariant of every reachable state -----

  ghost predicate DistinctPaths(s: seq<Slot>)
  {
    forall i, j :: 0 <= i < j < |s| ==> s[i].path != s[j].path
  }

  ghost predicate Inv(cfg: Config, s: seq<Slot>)
  {
    && DistinctPaths(s)
    && |s| <= cfg.maxEntries
    && (forall e :: e in s && e.negative ==> e.value.None?)
  }

  lemma {:induction false} WithoutDistinct(s: seq<Slot>, path: string)
    requires DistinctPaths(s)
    ensures DistinctPaths(Without(s, path))
  {
    if s != [] {
      WithoutDistinct(s[1..], path);
      var rest := Without(s[1..], path);
      forall i | 0 <= i < |rest| ensures s[0].path != rest[i].path {
        assert rest[i] in s[1..];
      }
    }
  }

  lemma {:induction false} WithoutAbsent(s: seq<Slot>, path: string)
    requires forall e :: e in s ==> e.path != path
    ensures Without(s, path) == s
  {
    if s != [] {
      WithoutAbsent(s[1..], path);
    }
  }

  /** With distinct paths, removing a path removes exactly its position. */
  lemma {:induction false} WithoutAt(s: seq<Slot>, i: nat)
    requires DistinctPaths(s) && i < |s|
    ensures Without(s, s[i].path) == s[..i] + s[i+1..]
    ensures Find(s, s[i].path) == Some(s[i])
  {
    if i == 0 {
      assert forall e :: e in s[1..] ==> e.path != s[0].path;
      WithoutAbsent(s[1..], s[0].path);
    } else {
      WithoutAt(s[1..], i - 1);
      ShiftCut(s, i);
    }
  }

  lemma ShiftCut(s: seq<Slot>, i: nat)
    requires 0 < i < |s|
    ensures s[1..][i-1] == s[i] && s[..i] + s[i+1..] == [s[0]] + (s[1..][..i-1] + s[1..][i..])
  {
    assert s[..i] == [s[0]] + s[1..][..i-1] && s[i+1..] == s[1..][i..];
  }

  /** Rewriting the slot of a path changes nothing about the others. */
  lemma WithoutRewrite(s: seq<Slot>, i: nat, e: Slot)
    requires DistinctPaths(s) && i < |s| && e.path == s[i].path
    ensures Without(s[i := e], e.path) == Without(s, e.path)
  {
    WithoutAt(s, i);
    WithoutAt(s[i := e], i);
  }

  lemma FindPosition(s: seq<Slot>, path: string) returns (i: nat)
    requires Find(s, path).Some?
    ensures i < |s| && s[i].path == path
  {
    var e := Find(s, path).value;
    i :| i < |s| && s[i] == e;
  }

  lemma FrontDistinct(e: Slot, rest: seq<Slot>)
    requires DistinctPaths(rest) && (forall x :: x in rest ==> x.path != e.path)
    ensures DistinctPaths([e] + rest)
  {
  }

  lemma StoreInv(cfg: Config, s: seq<Slot>, path: string, value: Option<Secret>, negative: bool, ttl: int, now: int)
    requires Inv(cfg, s) && (negative ==> value.None?)
    ensures Inv(cfg, Store(cfg, s, path, value, negative, ttl, now))
  {
    hide Without, Find, DistinctPaths;
    WithoutDistinct(s, path);
    var front := [Slot(path, value, negative, now + ttl)] + Without(s, path);
    FrontDistinct(front[0], Without(s, path));
    assert forall n :: 0 <= n <= |front| ==> DistinctPaths(front[..n]) by {
      PrefixDistinct(front);
    }
    if Find(s, path).Some? {
      var i := FindPosition(s, path);
      WithoutAt(s, i);
    }
  }

  lemma PrefixDistinct(s: seq<Slot>)
    requires DistinctPaths(s)
    ensures forall n :: 0 <= n <= |s| ==> DistinctPaths(s[..n])
  {
  }

  lemma GetInv(cfg: Config, s: seq<Slot>, path: string, now: int)
    requires Inv(cfg, s)
    ensures Inv(cfg, Get(cfg, s, path, now).0)
  {
    hide Without, Find, DistinctPaths;
    WithoutDistinct(s, path);
    if Find(s, path).Some? {
      FrontDistinct(Find(s, path).value, Without(s, path));
      var i := FindPosition(s, path);
      WithoutAt(s, i);
    }
  }

  /**
   In every reachable state paths are distinct, the size never exceeds the bound, and a
   negative slot holds no value.
   */
  lemma {:induction false} RunInv(cfg: Config, ops: seq<Op>)
    ensures Inv(cfg, Run(cfg, ops))
  {
    if ops != [] {
      var before := ops[..|ops|-1];
      RunInv(cfg, before);
      match ops[|ops|-1]
      case OpGet(path, now) => GetInv(cfg, Run(cfg, before), path, now);
      case OpSet(path, value, now) => StoreInv(cfg, Run(cfg, before), path, value, false, cfg.ttl, now);
      case OpSetNegative(path, now) => StoreInv(cfg, Run(cfg, before), path, None, true, cfg.negativeTtl, now);
      case OpInvalidate(path) => WithoutDistinct(Run(cfg, before), path);
      case OpFlush =>
    }
  }

  /**
   A store puts the written slot first and keeps all the others in order, except that a
   new path in a full cache costs exactly the last slot. The slot just written is never the
   one evicted.
   */
  lemma {:induction false} StoreEvictsOnlyTheLast(cfg: Config, s: seq<Slot>, path: string, value: Option<Secret>, negative: bool, ttl: int, now: int)
    requires Inv(cfg, s)
    ensures var r := Store(cfg, s, path, value, negative, ttl, now);
            var written := Slot(path, value, negative, now + ttl);
            && |r| >= 1 && r[0] == written
            && (forall i :: 0 <= i < |s| && s[i].path == path ==> r == [written] + s[..i] + s[i+1..])
            && (Find(s, path).None? && |s| < cfg.maxEntries ==> r == [written] + s)
            && (Find(s, path).None? && |s| == cfg.maxEntries ==> r == [written] + s[..|s|-1])
  {
    hide Store, DistinctPaths;
    var written := Slot(path, value, negative, now + ttl);
    if Find(s, path).None? {
      StoreNew(cfg, s, path, value, negative, ttl, now);
    } else {
      var k := FindPosition(s, path);
      StoreOver(cfg, s, k, value, negative, ttl, now);
      OnePosition(s, k);
      assert [written] + (s[..k] + s[k+1..]) == [written] + s[..k] + s[k+1..];
    }
  }

  lemma StoreNew(cfg: Config, s: seq<Slot>, path: string, value: Option<Secret>, negative: bool, ttl: int, now: int)
    requires |s| <= cfg.maxEntries && Find(s, path).None?
    ensures var written := Slot(path, value, negative, now + ttl);
            Store(cfg, s, path, value, negative, ttl, now) == [written] + (if |s| < cfg.maxEntries then s else s[..|s|-1])
  {
    hide Find, Without;
    WithoutAbsent(s, path);
    assert forall e: Slot :: |s| == cfg.maxEntries ==> ([e] + s)[..cfg.maxEntries] == [e] + s[..|s|-1];
  }

  lemma StoreOver(cfg: Config, s: seq<Slot>, i: nat, value: Option<Secret>, negative: bool, ttl: int, now: int)
    requires DistinctPaths(s) && i < |s|
    ensures Store(cfg, s, s[i].path, value, negative, ttl, now) == [Slot(s[i].path, value, negative, now + ttl)] + (s[..i] + s[i+1..])
  {
    hide Find, Without, DistinctPaths;
    WithoutAt(s, i);
  }

  lemma OnePosition(s: seq<Slot>, k: nat)
    requires DistinctPaths(s) && k < |s|
    ensures forall i :: 0 <= i < |s| && s[i].path == s[k].path ==> i == k
  {
  }

  /**
   A lookup in full: disabled or absent is a miss that changes nothing; an entry past its
   expiry is removed and missed; every other entry hits with what it holds and comes first.
   */
  lemma {:induction false} LookupExactly(cfg: Config, s: seq<Slot>, path: string, now: int)
    requires Inv(cfg, s)
    ensures !cfg.enabled || (forall i :: 0 <= i < |s| ==> s[i].path != path) ==> Get(cfg, s, path, now) == (s, Miss)
    ensures forall i :: 0 <= i < |s| && s[i].path == path && cfg.enabled ==>
              Get(cfg, s, path, now) ==
                if now > s[i].expiresAt then (s[..i] + s[i+1..], Miss)
                else ([s[i]] + s[..i] + s[i+1..], Hit(s[i].value, s[i].negative))
  {
    if cfg.enabled && Find(s, path).Some? {
      var k := FindPosition(s, path);
      assert s[k] in s;
      WithoutAt(s, k);
      assert forall i :: 0 <= i < |s| && s[i].path == path ==> i == k;
      assert [s[k]] + (s[..k] + s[k+1..]) == [s[k]] + s[..k] + s[k+1..];
    }
  }

  /**
   `slots` is what is left when an answer was stored in `before`, at time `stored`, with
   lifetime `ttl`: every lookup within the lifetime finds it. Without a lifetime, or with the
   cache disabled, nothing changed.
   */
  ghost predicate KeptFor(cfg: Config, before: seq<Slot>, slots: seq<Slot>, path: string, ttl: int, stored: int, answer: Lookup)
  {
    if cfg.enabled && ttl > 0 then forall now :: now <= stored + ttl ==> Get(cfg, slots, path, now).1 == answer
    else slots == before
  }

  /** What is stored is found, from the store until its lifetime is over. */
  lemma {:induction false} StoredThenFound(cfg: Config, s: seq<Slot>, path: string, value: Option<Secret>, now: int)
    requires Inv(cfg, s)
    ensures KeptFor(cfg, s, Set(cfg, s, path, value, now), path, cfg.ttl, now, Hit(value, false))
    ensures KeptFor(cfg, s, SetNegative(cfg, s, path, now), path, cfg.negativeTtl, now, Hit(None, true))
  {
    StoreEvictsOnlyTheLast(cfg, s, path, value, false, cfg.ttl, now);
    StoreEvictsOnlyTheLast(cfg, s, path, None, true, cfg.negativeTtl, now);
  }

  // ----- "Least recently used" means least recently touched in the history -----

  /** The last operation of the run touches `path`: it stores it, or it is a hit for it. */
  ghost predicate Touches(cfg: Config, ops: seq<Op>, path: string)
    requires ops != []
  {
    var before := Run(cfg, ops[..|ops|-1]);
    match ops[|ops|-1]
    case OpGet(p, now) => p == path && Get(cfg, before, p, now).1.Hit?
    case OpSet(p, _, _) => p == path && cfg.enabled && cfg.ttl > 0
    case OpSetNegative(p, _) => p == path && cfg.enabled && cfg.negativeTtl > 0
    case OpInvalidate(_) => false
    case OpFlush => false
  }

  /** One plus the index of the last operation that touched `path`; zero if none did. */
  ghost function LastTouch(cfg: Config, ops: seq<Op>, path: string): nat
  {
    if ops == [] then 0
    else if Touches(cfg, ops, path) then |ops|
    else LastTouch(cfg, ops[..|ops|-1], path)
  }

  lemma {:induction false} LastTouchBound(cfg: Config, ops: seq<Op>, path: string)
    ensures LastTouch(cfg, ops, path) <= |ops|
  {
    if ops != [] {
      LastTouchBound(cfg, ops[..|ops|-1], path);
    }
  }

  ghost predicate SortedByTouch(cfg: Config, ops: seq<Op>, s: seq<Slot>)
  {
    forall i, j :: 0 <= i < j < |s| ==> LastTouch(cfg, ops, s[i].path) > LastTouch(cfg, ops, s[j].path)
  }

  /** What an operation does to the order: either it only deletes slots, or it also brings one path to the front. */
  lemma {:induction false} WithoutSorted(cfg: Config, ops: seq<Op>, s: seq<Slot>, path: string)
    requires SortedByTouch(cfg, ops, s)
    ensures SortedByTouch(cfg, ops, Without(s, path))
  {
    if s != [] {
      WithoutSorted(cfg, ops, s[1..], path);
      var rest := Without(s[1..], path);
      forall i | 0 <= i < |rest| ensures LastTouch(cfg, ops, s[0].path) > LastTouch(cfg, ops, rest[i].path) {
        assert rest[i] in s[1..];
      }
    }
  }

  /** If the last operation touches nothing in `s`, the order of `s` is still the order of touches. */
  lemma UntouchedSorted(cfg: Config, ops: seq<Op>, s: seq<Slot>)
    requires ops != [] && SortedByTouch(cfg, ops[..|ops|-1], s)
    requires forall e :: e in s ==> !Touches(cfg, ops, e.path)
    ensures SortedByTouch(cfg, ops, s)
  {
    forall i | 0 <= i < |s| ensures LastTouch(cfg, ops, s[i].path) == LastTouch(cfg, ops[..|ops|-1], s[i].path) {
      assert s[i] in s;
    }
  }

  /** A slot brought to the front by the last operation is the most recently touched. */
  lemma TouchedFrontSorted(cfg: Config, ops: seq<Op>, e: Slot, s: seq<Slot>)
    requires ops != [] && SortedByTouch(cfg, ops[..|ops|-1], s)
    requires Touches(cfg, ops, e.path)
    requires forall x :: x in s ==> x.path != e.path && !Touches(cfg, ops, x.path)
    ensures SortedByTouch(cfg, ops, [e] + s)
  {
    UntouchedSorted(cfg, ops, s);
    forall i | 0 <= i < |s| ensures LastTouch(cfg, ops, s[i].path) < |ops| {
      assert s[i] in s;
      LastTouchBound(cfg, ops[..|ops|-1], s[i].path);
    }
  }

  /**
   The list order is the order of last touches in the history, so the slot at the back,
   which is the one a full cache evicts, is the least recently touched of all.
   */
  lemma {:induction false} RunSortedByTouch(cfg: Config, ops: seq<Op>)
    ensures SortedByTouch(cfg, ops, Run(cfg, ops))
  {
    if ops != [] {
      var before := ops[..|ops|-1];
      var s := Run(cfg, before);
      RunSortedByTouch(cfg, before);
      var r := Run(cfg, ops);
      match ops[|ops|-1]
      case OpGet(path, now) =>
        WithoutSorted(cfg, before, s, path);
        if Get(cfg, s, path, now).1.Hit? {
          TouchedFrontSorted(cfg, ops, r[0], Without(s, path));
        } else {
          UntouchedSorted(cfg, ops, r);
        }
      case OpSet(path, value, now) =>
        StoreSorted(cfg, ops, path);
      case OpSetNegative(path, now) =>
        StoreSorted(cfg, ops, path);
      case OpInvalidate(path) =>
        WithoutSorted(cfg, before, s, path);
        UntouchedSorted(cfg, ops, r);
      case OpFlush =>
    }
  }

  lemma {:induction false} StoreSorted(cfg: Config, ops: seq<Op>, path: string)
    requires ops != [] && (ops[|ops|-1].OpSet? || ops[|ops|-1].OpSetNegative?) && ops[|ops|-1].path == path
    requires SortedByTouch(cfg, ops[..|ops|-1], Run(cfg, ops[..|ops|-1]))
    ensures SortedByTouch(cfg, ops, Run(cfg, ops))
  {
    var s := Run(cfg, ops[..|ops|-1]);
    var r := Run(cfg, ops);
    if Touches(cfg, ops, path) {
      WithoutSorted(cfg, ops[..|ops|-1], s, path);
      TouchedFrontSorted(cfg, ops, r[0], Without(s, path));
      assert r == ([r[0]] + Without(s, path))[..|r|];
    } else {
      UntouchedSorted(cfg, ops, s);
    }
  }

  // ----- Retention: what a hit can be counted on -----

  /** The paths touched by the operations after the first `k`. */
  ghost function TouchedSince(cfg: Config, ops: seq<Op>, k: nat): set<string>
  {
    if |ops| <= k then {}
    else
      var last := ops[|ops|-1];
      TouchedSince(cfg, ops[..|ops|-1], k) +
      (if last.OpFlush? then {} else if Touches(cfg, ops, last.path) then {last.path} else {})
  }

  lemma {:induction false} TouchedLate(cfg: Config, ops: seq<Op>, k: nat, path: string)
    requires LastTouch(cfg, ops, path) > k
    ensures path in TouchedSince(cfg, ops, k)
  {
    LastTouchBound(cfg, ops, path);
    if !Touches(cfg, ops, path) {
      TouchedLate(cfg, ops[..|ops|-1], k, path);
    }
  }

  lemma {:induction false} LastTouchAtLeast(cfg: Config, ops: seq<Op>, k: nat, path: string)
    requires 0 < k <= |ops| && Touches(cfg, ops[..k], path)
    ensures LastTouch(cfg, ops, path) >= k
  {
    if k == |ops| {
      assert ops[..k] == ops;
    } else if !Touches(cfg, ops, path) {
      assert ops[..|ops|-1][..k] == ops[..k];
      LastTouchAtLeast(cfg, ops[..|ops|-1], k, path);
    }
  }

  ghost function Paths(s: seq<Slot>): set<string>
  {
    set i | 0 <= i < |s| :: s[i].path
  }

  lemma {:induction false} PathsSize(s: seq<Slot>)
    requires DistinctPaths(s)
    ensures |Paths(s)| == |s|
  {
    if s != [] {
      var init, last := s[..|s|-1], s[|s|-1].path;
      PathsSize(init);
      assert last !in Paths(init);
      assert Paths(s) == Paths(init) + {last};
    }
  }

  /** In a run, the slots ahead of `path` hold paths touched since `path` was. */
  lemma {:induction false} AheadWereTouched(cfg: Config, ops: seq<Op>, k: nat, i: nat)
    requires i < |Run(cfg, ops)| && 0 < k <= |ops| && Touches(cfg, ops[..k], Run(cfg, ops)[i].path)
    ensures Paths(Run(cfg, ops)[..i]) <= TouchedSince(cfg, ops, k) - {Run(cfg, ops)[i].path}
    ensures |Paths(Run(cfg, ops)[..i])| == i
  {
    var s := Run(cfg, ops);
    RunInv(cfg, ops);
    PathsSize(s[..i]);
    RunSortedByTouch(cfg, ops);
    LastTouchAtLeast(cfg, ops, k, s[i].path);
    forall j | 0 <= j < i ensures s[j].path in TouchedSince(cfg, ops, k) - {s[i].path} {
      TouchedLate(cfg, ops, k, s[j].path);
    }
  }

  /** After its first `k` operations the run neither invalidates `path`, nor clears the cache, nor finds `path` expired. */
  ghost predicate NotRemoved(cfg: Config, ops: seq<Op>, k: nat, path: string)
  {
    forall l :: k <= l < |ops| ==>
      && ops[l] != OpInvalidate(path) && ops[l] != OpFlush
      && (ops[l].OpGet? && ops[l].path == path && Find(Run(cfg, ops[..l]), path).Some? ==> Get(cfg, Run(cfg, ops[..l]), path, ops[l].now).1.Hit?)
  }

  /** A store loses another path's slot only if it was last in a full cache and the path written is new. */
  lemma LostToStore(cfg: Config, s: seq<Slot>, path: string, value: Option<Secret>, negative: bool, ttl: int, now: int, i: nat)
    requires Inv(cfg, s) && i < |s| && Find(Store(cfg, s, path, value, negative, ttl, now), s[i].path).None?
    ensures i == |s| - 1 == cfg.maxEntries - 1
    ensures path !in Paths(s)
  {
    var r := Store(cfg, s, path, value, negative, ttl, now);
    assert s[i] !in r && r[0].path == path && r[0] in r;
    StoreEvictsOnlyTheLast(cfg, s, path, value, negative, ttl, now);
  }

  /** An operation that does not remove `path` itself can lose it only by storing something. */
  lemma OnlyStoresEvict(cfg: Config, s: seq<Slot>, op: Op, path: string)
    requires Find(s, path).Some? && Find(Apply(cfg, s, op), path).None?
    requires op != OpInvalidate(path) && op != OpFlush
    requires op.OpGet? && op.path == path ==> Get(cfg, s, path, op.now).1.Hit?
    ensures cfg.enabled && (op.OpSet? || op.OpSetNegative?)
    ensures op.OpSet? ==> cfg.ttl > 0 && Apply(cfg, s, op) == Store(cfg, s, op.path, op.value, false, cfg.ttl, op.now)
    ensures op.OpSetNegative? ==>
              cfg.negativeTtl > 0 && Apply(cfg, s, op) == Store(cfg, s, op.path, None, true, cfg.negativeTtl, op.now)
  {
    hide Store;
    var e := Find(s, path).value;
    assert e !in Apply(cfg, s, op);
  }

  /** The slot at `i` of a full cache is lost to the last operation: everything ahead of it, and the new path, was touched since. */
  lemma CrowdSize(cfg: Config, ops: seq<Op>, k: nat, i: nat)
    requires 0 < k < |ops| && !ops[|ops|-1].OpFlush? && Touches(cfg, ops, ops[|ops|-1].path)
    requires var s := Run(cfg, ops[..|ops|-1]);
             && i < |s| && Touches(cfg, ops[..k], s[i].path) && ops[|ops|-1].path !in Paths(s)
    ensures |TouchedSince(cfg, ops, k) - {Run(cfg, ops[..|ops|-1])[i].path}| >= i + 1
  {
    hide Touches, Apply;
    var before, q := ops[..|ops|-1], ops[|ops|-1].path;
    var s := Run(cfg, before);
    assert before[..k] == ops[..k];
    AheadWereTouched(cfg, before, k, i);
    assert s[i].path in Paths(s) && Paths(s[..i]) <= Paths(s);
    SubsetSize(Paths(s[..i]) + {q}, TouchedSince(cfg, ops, k) - {s[i].path});
  }

  /** One more operation evicts `path` only if as many other paths were touched as the cache can hold. */
  lemma {:induction false} EvictionNeedsCrowd(cfg: Config, ops: seq<Op>, k: nat, path: string)
    requires 0 < k < |ops| && Touches(cfg, ops[..k], path) && NotRemoved(cfg, ops, k, path)
    requires Find(Run(cfg, ops[..|ops|-1]), path).Some? && Find(Run(cfg, ops), path).None?
    ensures |TouchedSince(cfg, ops, k) - {path}| >= cfg.maxEntries
  {
    hide Find, Store, Inv, Get, Apply;
    var n := |ops| - 1;
    var last, s := ops[n], Run(cfg, ops[..n]);
    RunInv(cfg, ops[..n]);
    var i := FindPosition(s, path);
    OnlyStoresEvict(cfg, s, last, path);
    LostToStore(cfg, s, last.path, if last.OpSet? then last.value else None, last.OpSetNegative?,
                if last.OpSet? then cfg.ttl else cfg.negativeTtl, last.now, i);
    CrowdSize(cfg, ops, k, i);
  }

  lemma TouchedIsCached(cfg: Config, ops: seq<Op>, path: string)
    requires ops != [] && Touches(cfg, ops, path)
    ensures Find(Run(cfg, ops), path).Some?
  {
    RunInv(cfg, ops[..|ops|-1]);
    assert Run(cfg, ops)[0].path == path;
    assert Run(cfg, ops)[0] in Run(cfg, ops);
  }

  /**
   Retention: a path that was touched stays cached, unless it is removed or found expired,
   until at least as many other paths have been touched as the cache can hold.
   */
  lemma {:induction false} TouchedPathIsRetained(cfg: Config, ops: seq<Op>, k: nat, path: string)
    requires 0 < k <= |ops| && Touches(cfg, ops[..k], path) && NotRemoved(cfg, ops, k, path)
    requires |TouchedSince(cfg, ops, k) - {path}| < cfg.maxEntries
    ensures Find(Run(cfg, ops), path).Some?
  {
    hide Touches, Find, Run, NotRemoved, TouchedSince;
    if k == |ops| {
      assert ops[..k] == ops;
      TouchedIsCached(cfg, ops, path);
    } else {
      var before := ops[..|ops|-1];
      assert before[..k] == ops[..k];
      ShorterRun(cfg, ops, k, path);
      SubsetSize(TouchedSince(cfg, before, k) - {path}, TouchedSince(cfg, ops, k) - {path});
      TouchedPathIsRetained(cfg, before, k, path);
      if Find(Run(cfg, ops), path).None? {
        EvictionNeedsCrowd(cfg, ops, k, path);
      }
    }
  }

  lemma ShorterRun(cfg: Config, ops: seq<Op>, k: nat, path: string)
    requires k < |ops| && NotRemoved(cfg, ops, k, path)
    ensures var before := ops[..|ops|-1];
            NotRemoved(cfg, before, k, path) && TouchedSince(cfg, before, k) <= TouchedSince(cfg, ops, k)
  {
    hide Touches, Get, Find, Run;
    var before := ops[..|ops|-1];
    forall l | k <= l < |before| ensures before[..l] == ops[..l] && before[l] == ops[l] {
    }
  }
}
