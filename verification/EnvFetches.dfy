/** Which remote reads a resolution makes, and exactly when it makes one twice. */
module EnvFetches {
  import opened Common
  import opened EnvResolver

  /** Call `c` was for `path` and answered `secret`. */
  ghost predicate AnsweredBy(fetch: Fetch, calls: seq<string>, c: nat, path: string, secret: Secret)
  {
    c < |calls| && calls[c] == path && fetch(c, path) == Data(secret)
  }

  /** A call whose path is unknown or asked for again later failed; a known secret is the answer of some call. */
  ghost predicate CallsExplain(fetch: Fetch, memo: Memo)
  {
    && (forall c :: 0 <= c < |memo.calls| && memo.calls[c] !in memo.known ==> fetch(c, memo.calls[c]).Fail?)
    && (forall c, d :: 0 <= c < d < |memo.calls| && memo.calls[c] == memo.calls[d] ==> fetch(c, memo.calls[c]).Fail?)
    && (forall path :: path in memo.known ==> exists c: nat :: AnsweredBy(fetch, memo.calls, c, path, memo.known[path]))
  }

  lemma AnsweredLater(fetch: Fetch, calls: seq<string>, next: string, c: nat, path: string, secret: Secret)
    requires AnsweredBy(fetch, calls, c, path, secret)
    ensures AnsweredBy(fetch, calls + [next], c, path, secret)
  {
  }

  lemma AnsweredNow(fetch: Fetch, calls: seq<string>, path: string, secret: Secret)
    requires fetch(|calls|, path) == Data(secret)
    ensures AnsweredBy(fetch, calls + [path], |calls|, path, secret)
  {
  }

  lemma CachedExplains(fetch: Fetch, memo: Memo, path: string)
    requires CallsExplain(fetch, memo) && path !in memo.known
    ensures CallsExplain(fetch, Cached(fetch, memo, path).0)
  {
    hide AnsweredBy;
    var n, memo' := |memo.calls|, Cached(fetch, memo, path).0;
    assert forall c :: 0 <= c < n ==> memo'.calls[c] == memo.calls[c];
    forall p | p in memo'.known ensures exists c: nat :: AnsweredBy(fetch, memo'.calls, c, p, memo'.known[p]) {
      if p in memo.known {
        var c: nat :| AnsweredBy(fetch, memo.calls, c, p, memo.known[p]);
        AnsweredLater(fetch, memo.calls, path, c, p, memo.known[p]);
      } else {
        AnsweredNow(fetch, memo.calls, p, memo'.known[p]);
      }
    }
  }

  /** A path is asked for again only after it failed, so at most one call per path succeeds. */
  lemma {:induction false} AtMostOneSuccess(fetch: Fetch, lenient: bool, items: seq<Item>)
    ensures CallsExplain(fetch, Run(fetch, lenient, items).0)
  {
    if items != [] {
      var k := |items| - 1;
      AtMostOneSuccess(fetch, lenient, items[..k]);
      var (memo, out) := Run(fetch, lenient, items[..k]);
      if out.failure.None? && Needs(items[k]).Some? && Needs(items[k]).value !in memo.known {
        CachedExplains(fetch, memo, Needs(items[k]).value);
      }
    }
  }

  /**
   When an item that needs a path is reached, the path is fetched again exactly when every
   earlier call for it failed. A path that keeps failing is thus fetched once per reference.
   */
  lemma {:induction false} FetchedAgainExactly(fetch: Fetch, lenient: bool, items: seq<Item>, i: nat)
    requires i < |items| && Run(fetch, lenient, items[..i]).1.failure.None? && Needs(items[i]).Some?
    ensures var calls, path := Run(fetch, lenient, items[..i]).0.calls, Needs(items[i]).value;
            Run(fetch, lenient, items[..i+1]).0.calls ==
              if forall c :: 0 <= c < |calls| && calls[c] == path ==> fetch(c, path).Fail? then calls + [path] else calls
  {
    hide Classify, TrimSpace, Use;
    RunStep(fetch, lenient, items, i);
    AtMostOneSuccess(fetch, lenient, items[..i]);
    var memo, path := Run(fetch, lenient, items[..i]).0, Needs(items[i]).value;
    if path in memo.known {
      var c: nat :| AnsweredBy(fetch, memo.calls, c, path, memo.known[path]);
      assert memo.calls[c] == path && !fetch(c, path).Fail?;
    }
  }

  /** Only the last call can have failed, and then the run has failed. */
  ghost predicate FailedAtMostLast(fetch: Fetch, memo: Memo, out: Output)
  {
    forall c :: 0 <= c < |memo.calls| && fetch(c, memo.calls[c]).Fail? ==> c == |memo.calls| - 1 && out.failure.Some?
  }

  lemma StrictStep(fetch: Fetch, memo: Memo, out: Output, item: Item)
    requires FailedAtMostLast(fetch, memo, out)
    ensures var (memo', out') := Step(fetch, false, memo, out, item); FailedAtMostLast(fetch, memo', out')
  {
    hide Classify, TrimSpace;
    var (memo', out') := Step(fetch, false, memo, out, item);
    if memo' != memo {
      var n := |memo.calls|;
      assert memo'.calls == memo.calls + [Needs(item).value];
      assert forall c :: 0 <= c < n ==> memo'.calls[c] == memo.calls[c];
    }
  }

  /** In strict mode the first failed call ends the run. */
  lemma {:induction false} StrictFailsOnce(fetch: Fetch, items: seq<Item>)
    ensures FailedAtMostLast(fetch, Run(fetch, false, items).0, Run(fetch, false, items).1)
  {
    if items != [] {
      var before := items[..|items|-1];
      StrictFailsOnce(fetch, before);
      StrictStep(fetch, Run(fetch, false, before).0, Run(fetch, false, before).1, items[|items|-1]);
    }
  }

  /** So in strict mode no path is fetched twice. */
  lemma {:induction false} StrictFetchesOnce(fetch: Fetch, items: seq<Item>, c: nat, d: nat)
    requires c < d < |Run(fetch, false, items).0.calls|
    ensures Run(fetch, false, items).0.calls[c] != Run(fetch, false, items).0.calls[d]
  {
    AtMostOneSuccess(fetch, false, items);
    StrictFailsOnce(fetch, items);
  }

  // ----- How often, over a consistent remote -----

  /** `x` occurs at two places of `s`. */
  ghost predicate Twice<T(!new)>(s: seq<T>, x: T)
  {
    exists c, d :: 0 <= c < d < |s| && s[c] == x && s[d] == x
  }

  lemma {:induction false} TwiceMeansCount<T(!new)>(s: seq<T>, x: T)
    ensures Twice(s, x) <==> multiset(s)[x] >= 2
  {
    if s != [] {
      var n := |s| - 1;
      var before := s[..n];
      TwiceMeansCount(before, x);
      assert s == before + [s[n]];
      if Twice(before, x) {
        var c, d :| 0 <= c < d < n && before[c] == x && before[d] == x;
        assert s[c] == x && s[d] == x;
      }
      if s[n] == x && x in before {
        var c :| 0 <= c < n && before[c] == x;
        assert s[c] == x && s[n] == x;
      }
      if Twice(s, x) {
        var c, d :| 0 <= c < d < |s| && s[c] == x && s[d] == x;
        assert before[c] == x;
      }
    }
  }

  /** What the items need, one after the other. */
  function AllNeeds(items: seq<Item>): (r: seq<Option<string>>)
    ensures |r| == |items| && forall i :: 0 <= i < |items| ==> r[i] == Needs(items[i])
  {
    seq(|items|, i requires 0 <= i < |items| => Needs(items[i]))
  }

  /** How many references there are to `path`. */
  function References(items: seq<Item>, path: string): nat
  {
    multiset(AllNeeds(items))[Some(path)]
  }

  lemma ReferencesStep(items: seq<Item>, path: string)
    requires items != []
    ensures References(items, path) ==
              References(items[..|items|-1], path) + (if Needs(items[|items|-1]) == Some(path) then 1 else 0)
  {
    hide Needs;
    var n := |items| - 1;
    assert AllNeeds(items) == AllNeeds(items[..n]) + [Needs(items[n])];
  }

  /**
   When missing secrets are skipped, the number of remote reads of a path is known before the
   run: one for a path that can be read, however often it is referred to, and one per
   reference for a path that cannot.
   */
  lemma {:induction false} LenientFetches(fetch: Fetch, read: string -> FetchResult, items: seq<Item>, path: string)
    requires forall n, p :: fetch(n, p) == read(p)
    ensures Run(fetch, true, items).1.failure.None?
    ensures path in Run(fetch, true, items).0.known <==> read(path).Data? && References(items, path) > 0
    ensures multiset(Run(fetch, true, items).0.calls)[path] ==
              if read(path).Data? && References(items, path) > 0 then 1 else References(items, path)
  {
    hide Classify, TrimSpace, Needs, Plain, References;
    if items == [] {
      assert References(items, path) == 0 by { NoReferences(path); }
    } else {
      var item := items[|items|-1];
      LenientFetches(fetch, read, items[..|items|-1], path);
      ReferencesStep(items, path);
      LenientStep(Run(fetch, true, items[..|items|-1]).1, item);
    }
  }

  lemma NoReferences(path: string)
    ensures References([], path) == 0
  {
  }

  lemma LenientStep(out: Output, item: Item)
    requires out.failure.None?
    ensures Plain(out, item).failure.None?
    ensures Needs(item).Some? ==> forall answer :: Use(true, out, item, answer).failure.None?
  {
  }

  /** The same path is read at two places of the call trace. */
  ghost predicate Repeats(calls: seq<string>)
  {
    exists c, d :: 0 <= c < d < |calls| && calls[c] == calls[d]
  }

  /** Two of the items refer to one path that cannot be read. */
  ghost predicate FailsTwice(read: string -> FetchResult, items: seq<Item>)
  {
    exists i, j :: 0 <= i < j < |items| && Needs(items[i]).Some? && Needs(items[i]) == Needs(items[j]) && read(Needs(items[i]).value).Fail?
  }

  /**
   Over a consistent remote a path is fetched twice exactly when missing secrets are skipped
   and two items refer to one path that cannot be read.
   */
  lemma {:induction false} FetchedTwiceExactly(fetch: Fetch, read: string -> FetchResult, lenient: bool, items: seq<Item>)
    requires forall n, p :: fetch(n, p) == read(p)
    ensures Repeats(Run(fetch, lenient, items).0.calls) <==> lenient && FailsTwice(read, items)
  {
    hide Run, Needs, References;
    var calls := Run(fetch, lenient, items).0.calls;
    if Repeats(calls) {
      var c, d :| 0 <= c < d < |calls| && calls[c] == calls[d];
      if !lenient {
        StrictFetchesOnce(fetch, items, c, d);
      } else {
        assert Twice(calls, calls[c]);
        RepeatedPathFails(fetch, read, items, calls[c]);
      }
    }
    if lenient && FailsTwice(read, items) {
      var i, j :| 0 <= i < j < |items| && Needs(items[i]).Some? && Needs(items[i]) == Needs(items[j]) && read(Needs(items[i]).value).Fail?;
      var path := Needs(items[i]).value;
      assert AllNeeds(items)[i] == Some(path) && AllNeeds(items)[j] == Some(path);
      assert Twice(AllNeeds(items), Some(path));
      RepeatedPathFails(fetch, read, items, path);
      var c, d :| 0 <= c < d < |calls| && calls[c] == path && calls[d] == path;
    }
  }

  lemma RepeatedPathFails(fetch: Fetch, read: string -> FetchResult, items: seq<Item>, path: string)
    requires forall n, p :: fetch(n, p) == read(p)
    ensures Twice(Run(fetch, true, items).0.calls, path) <==> read(path).Fail? && Twice(AllNeeds(items), Some(path))
    ensures read(path).Fail? && Twice(AllNeeds(items), Some(path)) ==> FailsTwice(read, items)
  {
    hide Run, Needs;
    LenientFetches(fetch, read, items, path);
    TwiceMeansCount(Run(fetch, true, items).0.calls, path);
    TwiceMeansCount(AllNeeds(items), Some(path));
    if read(path).Fail? && Twice(AllNeeds(items), Some(path)) {
      var i, j :| 0 <= i < j < |items| && AllNeeds(items)[i] == Some(path) && AllNeeds(items)[j] == Some(path);
      assert Needs(items[i]) == Some(path) && Needs(items[j]) == Some(path);
    }
  }

  /** A path listed twice and failing both times is fetched twice. */
  lemma {:induction false} FailingPathIsFetchedTwice(fetch: Fetch)
    requires forall n, p :: fetch(n, p).Fail?
    ensures Run(fetch, true, [FromPath("p"), FromPath("p")]).0.calls == ["p", "p"]
  {
    var items := [FromPath("p"), FromPath("p")];
    assert items[..1] == [FromPath("p")] && items[..1][..0] == [];
    assert TrimSpace("p") == "p";
    assert Run(fetch, true, []) == (Memo(map[], []), NOTHING);
    assert Run(fetch, true, items[..1]).0 == Memo(map[], ["p"]);
  }
}
