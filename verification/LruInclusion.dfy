/**
 The LRU inclusion property: a larger cache driven by the same operations holds everything
 a smaller one holds.
 */
module LruInclusion {
  import opened Common
  import opened CacheSpec

  /** `s` is obtained from `b` by deleting slots: same slots, same relative order. */
  ghost predicate Subsequence(s: seq<Slot>, b: seq<Slot>)
  {
    s == [] || (b != [] && ((s[0] == b[0] && Subsequence(s[1..], b[1..])) || Subsequence(s, b[1..])))
  }

  lemma {:induction false} SubsequenceMember(s: seq<Slot>, b: seq<Slot>, e: Slot)
    requires Subsequence(s, b) && e in s
    ensures e in b
  {
    if s[0] == b[0] && Subsequence(s[1..], b[1..]) {
      if e != s[0] {
        SubsequenceMember(s[1..], b[1..], e);
      }
    } else {
      SubsequenceMember(s, b[1..], e);
    }
  }

  lemma SubsequenceCons(e: Slot, s: seq<Slot>, b: seq<Slot>)
    requires Subsequence(s, b)
    ensures Subsequence(s, [e] + b) && Subsequence([e] + s, [e] + b)
  {
    assert ([e] + b)[1..] == b && ([e] + s)[1..] == s;
  }

  lemma {:induction false} SubsequenceWithout(s: seq<Slot>, b: seq<Slot>, path: string)
    requires Subsequence(s, b)
    ensures Subsequence(Without(s, path), Without(b, path))
  {
    if s == [] {
    } else if s[0] == b[0] && Subsequence(s[1..], b[1..]) {
      SubsequenceWithout(s[1..], b[1..], path);
      SubsequenceCons(s[0], Without(s[1..], path), Without(b[1..], path));
    } else {
      SubsequenceWithout(s, b[1..], path);
      SubsequenceCons(b[0], Without(s, path), Without(b[1..], path));
    }
  }

  /** Dropping the last slot of the shorter list, or of both, keeps the relation. */
  lemma {:induction false} SubsequenceDropLast(s: seq<Slot>, b: seq<Slot>)
    requires s != [] && Subsequence(s, b)
    ensures Subsequence(s[..|s|-1], b)
    ensures Subsequence(s[..|s|-1], b[..|b|-1])
  {
    var s', b' := s[..|s|-1], b[..|b|-1];
    if |s| == 1 {
    } else if s[0] == b[0] && Subsequence(s[1..], b[1..]) {
      SubsequenceDropLast(s[1..], b[1..]);
      assert s'[1..] == s[1..][..|s|-2];
      if |b| > 1 {
        assert b'[1..] == b[1..][..|b|-2];
      }
    } else {
      SubsequenceDropLast(s, b[1..]);
      if |b| > 1 {
        assert b'[1..] == b[1..][..|b|-2];
      }
    }
  }

  /** The smaller cache's answer to a search, when it has one, is the larger cache's answer. */
  lemma {:induction false} FindAgrees(s: seq<Slot>, b: seq<Slot>, path: string)
    requires Subsequence(s, b) && DistinctPaths(b) && Find(s, path).Some?
    ensures Find(b, path) == Find(s, path)
  {
    var e := Find(s, path).value;
    SubsequenceMember(s, b, e);
    var i :| 0 <= i < |b| && b[i] == e;
    WithoutAt(b, i);
  }

  /** The two configurations differ only in the bound, and the first bound is no larger. */
  ghost predicate Smaller(small: Config, big: Config)
  {
    small.maxEntries <= big.maxEntries && small.(maxEntries := big.maxEntries) == big
  }

  /** The induction hypothesis: inclusion, common order, and a surplus within the difference of the bounds. */
  ghost predicate Included(small: Config, big: Config, s: seq<Slot>, b: seq<Slot>)
  {
    && Subsequence(s, b)
    && |b| - |s| <= big.maxEntries - small.maxEntries
    && Inv(small, s)
    && Inv(big, b)
  }

  /** Removing the same path: the larger cache loses it whenever the smaller one does. */
  lemma {:induction false} WithoutIncluded(s: seq<Slot>, b: seq<Slot>, path: string)
    requires Subsequence(s, b) && DistinctPaths(s) && DistinctPaths(b)
    ensures Subsequence(Without(s, path), Without(b, path))
    ensures |Without(b, path)| - |Without(s, path)| <= |b| - |s|
  {
    SubsequenceWithout(s, b, path);
    if Find(s, path).Some? {
      FindAgrees(s, b, path);
      var i := FindPosition(s, path);
      WithoutAt(s, i);
      var j := FindPosition(b, path);
      WithoutAt(b, j);
    } else {
      WithoutAbsent(s, path);
    }
  }

  lemma GetIncluded(small: Config, big: Config, s: seq<Slot>, b: seq<Slot>, path: string, now: int)
    requires Smaller(small, big) && Included(small, big, s, b)
    ensures Included(small, big, Get(small, s, path, now).0, Get(big, b, path, now).0)
    ensures Get(small, s, path, now).1.Hit? ==> Get(big, b, path, now).1 == Get(small, s, path, now).1
  {
    hide Without, Find, Subsequence, DistinctPaths, Inv;
    GetInv(small, s, path, now);
    GetInv(big, b, path, now);
    SharedDistinct(small, big, s, b);
    StoreSizes(small, s, path);
    StoreSizes(big, b, path);
    SubsequenceWithout(s, b, path);
    if Find(s, path).Some? {
      FindAgrees(s, b, path);
    } else {
      WithoutAbsent(s, path);
    }
    if Find(b, path).Some? {
      SubsequenceCons(Find(b, path).value, Without(s, path), Without(b, path));
    }
  }

  lemma StoreIncluded(small: Config, big: Config, s: seq<Slot>, b: seq<Slot>,
                      path: string, value: Option<Secret>, negative: bool, ttl: int, now: int)
    requires Smaller(small, big) && Included(small, big, s, b) && (negative ==> value.None?)
    ensures Included(small, big, Store(small, s, path, value, negative, ttl, now), Store(big, b, path, value, negative, ttl, now))
  {
    hide Without, Find, Subsequence, DistinctPaths, Inv;
    StoreInv(small, s, path, value, negative, ttl, now);
    StoreInv(big, b, path, value, negative, ttl, now);
    StoreSizes(small, s, path);
    StoreSizes(big, b, path);
    SubsequenceWithout(s, b, path);
    var e := Slot(path, value, negative, now + ttl);
    var fs, fb := [e] + Without(s, path), [e] + Without(b, path);
    SubsequenceCons(e, Without(s, path), Without(b, path));
    SubsequenceDropLast(fs, fb);
    if Find(s, path).Some? {
      SharedDistinct(small, big, s, b);
      FindAgrees(s, b, path);
    } else {
      assert |fs| > small.maxEntries ==> fs[..small.maxEntries] == fs[..|fs|-1];
      assert |fb| > big.maxEntries ==> fb[..big.maxEntries] == fb[..|fb|-1];
    }
  }

  lemma SharedDistinct(small: Config, big: Config, s: seq<Slot>, b: seq<Slot>)
    requires Inv(small, s) && Inv(big, b)
    ensures DistinctPaths(s) && DistinctPaths(b)
  {
  }

  /** The list without `path` is one shorter if it had it, and within the bound. */
  lemma StoreSizes(cfg: Config, s: seq<Slot>, path: string)
    requires Inv(cfg, s)
    ensures |s| <= cfg.maxEntries
    ensures |Without(s, path)| == if Find(s, path).Some? then |s| - 1 else |s|
  {
    if Find(s, path).Some? {
      var i := FindPosition(s, path);
      WithoutAt(s, i);
    } else {
      WithoutAbsent(s, path);
    }
  }

  /** After any run, the smaller cache is a subsequence of the larger one. */
  lemma {:induction false} RunIncluded(small: Config, big: Config, ops: seq<Op>)
    requires Smaller(small, big)
    ensures Included(small, big, Run(small, ops), Run(big, ops))
  {
    hide Get, Store, Without;
    if ops != [] {
      var before := ops[..|ops|-1];
      RunIncluded(small, big, before);
      var s, b := Run(small, before), Run(big, before);
      match ops[|ops|-1]
      case OpGet(path, now) => GetIncluded(small, big, s, b, path, now);
      case OpSet(path, value, now) => StoreIncluded(small, big, s, b, path, value, false, small.ttl, now);
      case OpSetNegative(path, now) => StoreIncluded(small, big, s, b, path, None, true, small.negativeTtl, now);
      case OpInvalidate(path) =>
        WithoutIncluded(s, b, path);
        WithoutDistinct(s, path);
        WithoutDistinct(b, path);
      case OpFlush =>
    }
  }

  /**
   The inclusion theorem as a caller sees it: every slot of the smaller cache is in the
   larger one with the same value, polarity and expiry, and every hit of the smaller cache
   is the same hit of the larger one.
   */
  lemma {:induction false} LargerCacheHitsMore(small: Config, big: Config, ops: seq<Op>, path: string, now: int)
    requires Smaller(small, big)
    ensures forall e :: e in Run(small, ops) ==> e in Run(big, ops)
    ensures Get(small, Run(small, ops), path, now).1.Hit? ==>
              Get(big, Run(big, ops), path, now).1 == Get(small, Run(small, ops), path, now).1
  {
    RunIncluded(small, big, ops);
    GetIncluded(small, big, Run(small, ops), Run(big, ops), path, now);
    forall e | e in Run(small, ops) ensures e in Run(big, ops) {
      SubsequenceMember(Run(small, ops), Run(big, ops), e);
    }
  }
}
