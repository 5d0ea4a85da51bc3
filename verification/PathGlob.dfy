/**
 Path patterns: `*` takes one segment, `**` one or more, anything else itself.
 The backtracking matcher is proved equal to a declarative meaning, and that meaning is
 given its algebra.
 */
module PathGlob {
  import opened Strings

  /** What one pattern segment may take. */
  predicate Takes(p: string, piece: seq<string>)
  {
    if p == "**" then |piece| >= 1
    else if p == "*" then |piece| == 1
    else piece == [p]
  }

  ghost function Flatten(pieces: seq<seq<string>>): seq<string>
  {
    if pieces == [] then [] else pieces[0] + Flatten(pieces[1..])
  }

  /** The path segments cut into consecutive pieces, one per pattern segment. */
  ghost predicate IsCut(pat: seq<string>, seg: seq<string>, pieces: seq<seq<string>>)
  {
    && |pieces| == |pat|
    && Flatten(pieces) == seg
    && (forall i :: 0 <= i < |pat| ==> Takes(pat[i], pieces[i]))
  }

  /** The first pattern segment takes the first `n` path segments and the rest match. */
  predicate MatchesAt(pat: seq<string>, seg: seq<string>, n: nat)
    requires pat != [] && n <= |seg|
    decreases |pat|, 0
  {
    Takes(pat[0], seg[..n]) && Matches(pat[1..], seg[n..])
  }

  predicate Matches(pat: seq<string>, seg: seq<string>)
    decreases |pat|, 1
  {
    if pat == [] then seg == [] else exists n :: 0 <= n <= |seg| && MatchesAt(pat, seg, n)
  }

  /** Matching means exactly that such a cut exists. */
  lemma {:induction false} MatchesMeansCut(pat: seq<string>, seg: seq<string>)
    ensures Matches(pat, seg) <==> exists pieces :: IsCut(pat, seg, pieces)
  {
    if Matches(pat, seg) {
      var pieces := CutOf(pat, seg);
    }
    forall pieces | IsCut(pat, seg, pieces) ensures Matches(pat, seg) {
      CutMatches(pat, seg, pieces);
    }
  }

  lemma {:induction false} CutOf(pat: seq<string>, seg: seq<string>) returns (pieces: seq<seq<string>>)
    requires Matches(pat, seg)
    ensures IsCut(pat, seg, pieces)
  {
    if pat == [] {
      pieces := [];
    } else {
      var n :| 0 <= n <= |seg| && MatchesAt(pat, seg, n);
      var rest := CutOf(pat[1..], seg[n..]);
      pieces := [seg[..n]] + rest;
      assert pieces[1..] == rest;
    }
  }

  lemma {:induction false} CutMatches(pat: seq<string>, seg: seq<string>, pieces: seq<seq<string>>)
    requires IsCut(pat, seg, pieces)
    ensures Matches(pat, seg)
  {
    if pat != [] {
      var n := |pieces[0]|;
      assert seg[..n] == pieces[0] && seg[n..] == Flatten(pieces[1..]);
      CutMatches(pat[1..], seg[n..], pieces[1..]);
      assert MatchesAt(pat, seg, n);
    }
  }

  // ----- The matcher -----

  /** The pattern's first segment is not `**`: it decides how many path segments it takes. */
  lemma StepOne(pat: seq<string>, seg: seq<string>)
    requires pat != [] && pat[0] != "**"
    ensures Matches(pat, seg) <==> seg != [] && (pat[0] == "*" || pat[0] == seg[0]) && Matches(pat[1..], seg[1..])
  {
    if seg != [] && (pat[0] == "*" || pat[0] == seg[0]) && Matches(pat[1..], seg[1..]) {
      assert seg[..1] == [seg[0]];
      assert MatchesAt(pat, seg, 1);
    }
  }

  lemma StepRecursive(pat: seq<string>, seg: seq<string>)
    requires pat != [] && pat[0] == "**"
    ensures Matches(pat, seg) <==> exists n :: 1 <= n <= |seg| && Matches(pat[1..], seg[n..])
    ensures |pat| == 1 ==> (Matches(pat, seg) <==> |seg| >= 1)
  {
    forall n | 1 <= n <= |seg| && Matches(pat[1..], seg[n..]) ensures Matches(pat, seg) {
      assert MatchesAt(pat, seg, n);
    }
    if |pat| == 1 && |seg| >= 1 {
      assert seg[|seg|..] == [];
      assert Matches(pat[1..], seg[|seg|..]);
    }
  }

  method MatchSegments(pattern: seq<string>, segments: seq<string>) returns (ok: bool)
    ensures ok <==> exists pieces :: IsCut(pattern, segments, pieces)
    decreases |pattern|
  {
    MatchesMeansCut(pattern, segments);
    var pat, seg := pattern, segments;
    while |pat| > 0
      invariant |pat| <= |pattern|
      invariant Matches(pat, seg) <==> Matches(pattern, segments)
      decreases |pat|
    {
      if pat[0] == "**" {
        StepRecursive(pat, seg);
        if |pat| == 1 {
          return |seg| >= 1;
        }
        var i := 1;
        while i <= |seg|
          invariant 1 <= i
          invariant forall n :: 1 <= n < i && n <= |seg| ==> !Matches(pat[1..], seg[n..])
        {
          var found := MatchSegments(pat[1..], seg[i..]);
          MatchesMeansCut(pat[1..], seg[i..]);
          if found {
            return true;
          }
          i := i + 1;
        }
        return false;
      }
      StepOne(pat, seg);
      if |seg| == 0 {
        return false;
      }
      if pat[0] != "*" && pat[0] != seg[0] {
        return false;
      }
      pat, seg := pat[1..], seg[1..];
    }
    return |seg| == 0;
  }

  /** Whether a path matches a pattern, both taken without surrounding slashes. */
  predicate PathMatches(pattern: string, path: string)
  {
    Matches(Split(Trim(pattern, '/'), '/'), Split(Trim(path, '/'), '/'))
  }

  method MatchPath(pattern: string, path: string) returns (ok: bool)
    ensures ok <==> PathMatches(pattern, path)
  {
    var pat, seg := Split(Trim(pattern, '/'), '/'), Split(Trim(path, '/'), '/');
    MatchesMeansCut(pat, seg);
    ok := MatchSegments(pat, seg);
  }

  // ----- Algebra -----

  /** A concatenated pattern matches exactly the concatenations of matches. */
  lemma {:induction false} MatchConcat(p: seq<string>, q: seq<string>, seg: seq<string>)
    ensures Matches(p + q, seg) <==> exists n :: 0 <= n <= |seg| && Matches(p, seg[..n]) && Matches(q, seg[n..])
  {
    if Matches(p + q, seg) {
      var n := SplitMatch(p, q, seg);
    }
    forall n | 0 <= n <= |seg| && Matches(p, seg[..n]) && Matches(q, seg[n..]) ensures Matches(p + q, seg) {
      assert seg == seg[..n] + seg[n..];
      JoinMatch(p, q, seg[..n], seg[n..]);
    }
  }

  lemma CutAgain(seg: seq<string>, k: nat, m: nat)
    requires k + m <= |seg|
    ensures var n := k + m; seg[..n][..k] == seg[..k] && seg[..n][k..] == seg[k..][..m] && seg[n..] == seg[k..][m..]
  {
  }

  lemma {:induction false} SplitMatch(p: seq<string>, q: seq<string>, seg: seq<string>) returns (n: nat)
    requires Matches(p + q, seg)
    ensures n <= |seg| && Matches(p, seg[..n]) && Matches(q, seg[n..])
  {
    if p == [] {
      n := 0;
      assert p + q == q && seg[0..] == seg;
    } else {
      var k :| 0 <= k <= |seg| && MatchesAt(p + q, seg, k);
      assert (p + q)[1..] == p[1..] + q;
      var m := SplitMatch(p[1..], q, seg[k..]);
      n := k + m;
      CutAgain(seg, k, m);
      assert MatchesAt(p, seg[..n], k);
    }
  }

  lemma {:induction false} JoinMatch(p: seq<string>, q: seq<string>, a: seq<string>, b: seq<string>)
    requires Matches(p, a) && Matches(q, b)
    ensures Matches(p + q, a + b)
  {
    if p == [] {
      assert p + q == q && a + b == b;
    } else {
      var k :| 0 <= k <= |a| && MatchesAt(p, a, k);
      JoinMatch(p[1..], q, a[k..], b);
      assert (p + q)[1..] == p[1..] + q && (a + b)[..k] == a[..k] && (a + b)[k..] == a[k..] + b;
      assert MatchesAt(p + q, a + b, k);
    }
  }

  /** `q` is `p` with some literals turned into `*` or `**`, and some `*` into `**`. */
  ghost predicate Generalises(p: seq<string>, q: seq<string>)
  {
    && |p| == |q|
    && (forall i :: 0 <= i < |p| ==> q[i] == p[i] || q[i] == "**" || (q[i] == "*" && p[i] != "**"))
  }

  /** Generalising a pattern never loses a path. */
  lemma {:induction false} GeneraliseNeverShrinks(p: seq<string>, q: seq<string>, seg: seq<string>)
    requires Generalises(p, q) && Matches(p, seg)
    ensures Matches(q, seg)
  {
    if p != [] {
      var n :| 0 <= n <= |seg| && MatchesAt(p, seg, n);
      GeneraliseNeverShrinks(p[1..], q[1..], seg[n..]);
      assert MatchesAt(q, seg, n);
    }
  }

  /** Both orders of `*` and `**` accept exactly two or more segments. */
  lemma StarPair(seg: seq<string>)
    ensures Matches(["*", "**"], seg) <==> |seg| >= 2
    ensures Matches(["**", "*"], seg) <==> |seg| >= 2
  {
    StepOne(["*", "**"], seg);
    assert ["*", "**"][1..] == ["**"];
    if seg != [] {
      StepRecursive(["**"], seg[1..]);
    }
    StepRecursive(["**", "*"], seg);
    assert ["**", "*"][1..] == ["*"];
    forall n | 1 <= n <= |seg| ensures Matches(["*"], seg[n..]) <==> n == |seg| - 1 {
      StepOne(["*"], seg[n..]);
    }
    if |seg| >= 2 {
      assert Matches(["*"], seg[|seg|-1..]);
    }
  }

  ghost predicate AcceptsNoMore(p: seq<string>, q: seq<string>)
  {
    forall seg :: Matches(p, seg) ==> Matches(q, seg)
  }

  /** Inside any pattern, a part may be replaced by one that accepts at least as much. */
  lemma {:induction false} ReplaceInContext(pre: seq<string>, p: seq<string>, q: seq<string>, post: seq<string>, seg: seq<string>)
    requires AcceptsNoMore(p, q) && Matches(pre + (p + post), seg)
    ensures Matches(pre + (q + post), seg)
  {
    var n := SplitMatch(pre, p + post, seg);
    var mid := seg[n..];
    var m := SplitMatch(p, post, mid);
    JoinMatch(q, post, mid[..m], mid[m..]);
    assert mid[..m] + mid[m..] == mid;
    JoinMatch(pre, q + post, seg[..n], mid);
    assert seg[..n] + mid == seg;
  }

  /** A `*` and a neighbouring `**` may be swapped anywhere in a pattern. */
  lemma {:induction false} StarsCommute(pre: seq<string>, post: seq<string>, seg: seq<string>)
    ensures Matches(pre + (["*", "**"] + post), seg) <==> Matches(pre + (["**", "*"] + post), seg)
  {
    forall s ensures Matches(["*", "**"], s) <==> Matches(["**", "*"], s) {
      StarPair(s);
    }
    if Matches(pre + (["*", "**"] + post), seg) {
      ReplaceInContext(pre, ["*", "**"], ["**", "*"], post, seg);
    }
    if Matches(pre + (["**", "*"] + post), seg) {
      ReplaceInContext(pre, ["**", "*"], ["*", "**"], post, seg);
    }
  }

  /** A match has at least one path segment per pattern segment, exactly one without `**`. */
  lemma {:induction false} MatchLength(pat: seq<string>, seg: seq<string>)
    requires Matches(pat, seg)
    ensures |seg| >= |pat|
    ensures "**" !in pat ==> |seg| == |pat|
  {
    if pat != [] {
      var n :| 0 <= n <= |seg| && MatchesAt(pat, seg, n);
      MatchLength(pat[1..], seg[n..]);
      assert forall p :: p in pat[1..] ==> p in pat;
      assert pat[0] in pat;
    }
  }

  /** A pattern without stars matches exactly itself. */
  lemma {:induction false} LiteralMatch(pat: seq<string>, seg: seq<string>)
    requires "*" !in pat && "**" !in pat
    ensures Matches(pat, seg) <==> pat == seg
  {
    if pat != [] {
      StepOne(pat, seg);
      if seg != [] {
        LiteralMatch(pat[1..], seg[1..]);
        assert pat == [pat[0]] + pat[1..] && seg == [seg[0]] + seg[1..];
      }
    }
  }
}
