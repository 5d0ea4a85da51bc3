/** What the documented forms of a pattern mean for whole paths, as strings. */
module PathPatterns {
  import opened Strings
  import opened SecretPath
  import opened PathGlob

  /** As a pattern, a well-formed path admits itself and no other well-formed path. */
  lemma PathAsPattern(q: string, p: string)
    requires WellFormed(q) && WellFormed(p)
    ensures PathMatches(q, p) <==> p == q
  {
    AcceptedPathIsItsSegments(q);
    AcceptedPathIsItsSegments(p);
    NoStars(q);
    assert "*"[0] == '*' && "**"[0] == '*';
    LiteralMatch(Split(q, '/'), Split(p, '/'));
  }

  lemma {:induction false} NoStars(q: string)
    requires AllAllowed(q)
    ensures NoneContains(Split(q, '/'), '*')
  {
    if q != "" {
      NoStars(q[1..]);
      assert forall i :: 0 <= i < |q| - 1 ==> q[1..][i] == q[i+1];
      assert Allowed(q[0]);
    }
  }

  /** A single segment matches `*`, several do not. */
  lemma StarMatches(path: string)
    requires WellFormed(path)
    ensures PathMatches("*", path) <==> '/' !in path
  {
    hide WellFormed;
    AcceptedPathIsItsSegments(path);
    var segs := Split(path, '/');
    assert Trim("*", '/') == "*" && Split("*", '/') == ["*"] by {
      SplitClean("*", '/');
    }
    StepOne(["*"], segs);
    if '/' in path {
      var i := IndexOf(path, '/');
      assert path == path[..i] + "/" + path[i+1..];
      SplitAt(path[..i], path[i+1..], '/');
    } else {
      SplitClean(path, '/');
    }
  }

  /** Splitting at a separator splits both sides. */
  lemma {:induction false} SplitConcat(a: string, b: string)
    ensures Split(a + "/" + b, '/') == Split(a, '/') + Split(b, '/')
  {
    hide Split;
    assert ['/'] == "/";
    var i := IndexOf(a, '/');
    if i == |a| {
      SplitAt(a, b, '/');
      SplitClean(a, '/');
    } else {
      var head, rest := a[..i], a[i+1..];
      SplitConcat(rest, b);
      assert a == head + ['/'] + rest;
      SplitAt(head, rest, '/');
      Regroup(head, rest, b);
      SplitAt(head, rest + "/" + b, '/');
    }
  }

  lemma Regroup(head: string, rest: string, b: string)
    ensures head + ['/'] + rest + "/" + b == head + ['/'] + (rest + "/" + b)
  {
  }

  /** A pattern made of a well-formed path and one more segment without slashes. */
  lemma PatternParts(p: string, last: string)
    requires WellFormed(p) && last != "" && '/' !in last
    ensures Split(Trim(p + "/" + last, '/'), '/') == Split(p, '/') + [last]
  {
    AcceptedPathIsItsSegments(p);
    var pattern := p + "/" + last;
    assert p[0] != '/' by {
      if p[0] == '/' {
        EdgeSlash(p);
      }
    }
    assert pattern[0] == p[0] && pattern[|pattern|-1] == last[|last|-1];
    assert last[|last|-1] in last;
    assert Trim(pattern, '/') == pattern;
    SplitConcat(p, last);
    SplitClean(last, '/');
  }

  /** A literal path followed by one more pattern segment. */
  lemma PrefixMatch(p: string, last: string, q: string)
    requires WellFormed(p) && WellFormed(q) && last != "" && '/' !in last
    ensures PathMatches(p + "/" + last, q) <==>
              var n := |Split(p, '/')|;
              n <= |Split(q, '/')| && Split(q, '/')[..n] == Split(p, '/') && Matches([last], Split(q, '/')[n..])
  {
    hide Matches, WellFormed;
    PatternParts(p, last);
    AcceptedPathIsItsSegments(q);
    var pat, seg := Split(p, '/'), Split(q, '/');
    MatchConcat(pat, [last], seg);
    assert AllAllowed(p) by { WellFormedIsAllowed(p); }
    NoStars(p);
    assert "*"[0] == '*' && "**"[0] == '*';
    forall n | 0 <= n <= |seg| ensures Matches(pat, seg[..n]) <==> pat == seg[..n] {
      LiteralMatch(pat, seg[..n]);
    }
  }

  lemma WellFormedIsAllowed(p: string)
    requires WellFormed(p)
    ensures AllAllowed(p)
  {
  }

  /** A path below `p` has the segments of `p` first. */
  lemma BelowHasSegments(p: string, q: string)
    requires HasPrefix(q, p + "/")
    ensures Split(q, '/') == Split(p, '/') + Split(q[|p|+1..], '/')
  {
    hide Split;
    var rest := q[|p|+1..];
    assert q == p + "/" + rest;
    SplitConcat(p, rest);
  }

  lemma SegmentsPutBelow(p: string, q: string)
    requires var pat, seg := Split(p, '/'), Split(q, '/'); |pat| < |seg| && seg[..|pat|] == pat
    ensures HasPrefix(q, p + "/")
  {
    hide Split, Join, HasPrefix;
    var pat, seg := Split(p, '/'), Split(q, '/');
    var tail := seg[|pat|..];
    assert seg == pat + tail;
    JoinSplit(q, '/');
    JoinSplit(p, '/');
    JoinConcat(pat, tail);
    BeginsWith(p, Join(tail, '/'));
  }

  /** The segments of `q` begin with those of `p`, and there are more, exactly when `q` is `p`, a slash and more. */
  lemma SegmentsBelow(p: string, q: string)
    ensures var pat, seg := Split(p, '/'), Split(q, '/');
            |pat| < |seg| && seg[..|pat|] == pat <==> HasPrefix(q, p + "/")
    ensures HasPrefix(q, p + "/") ==> Split(q, '/') == Split(p, '/') + Split(q[|p|+1..], '/')
  {
    hide Split;
    var pat, seg := Split(p, '/'), Split(q, '/');
    if HasPrefix(q, p + "/") {
      BelowHasSegments(p, q);
    }
    if |pat| < |seg| && seg[..|pat|] == pat {
      SegmentsPutBelow(p, q);
    }
  }

  lemma BeginsWith(p: string, rest: string)
    ensures HasPrefix(p + "/" + rest, p + "/")
  {
  }

  lemma {:induction false} JoinConcat(a: seq<string>, b: seq<string>)
    requires |a| >= 1 && |b| >= 1
    ensures Join(a + b, '/') == Join(a, '/') + "/" + Join(b, '/')
  {
    if |a| == 1 {
      assert (a + b)[1..] == b;
    } else {
      JoinConcat(a[1..], b);
      assert (a + b)[1..] == a[1..] + b;
    }
  }

  // The pattern "p/**" matches exactly the paths below p.
  lemma {:induction false} RecursivePattern(p: string, q: string)
    requires WellFormed(p) && WellFormed(q)
    ensures PathMatches(p + "/**", q) <==> HasPrefix(q, p + "/")
  {
    hide WellFormed, PathMatches, Matches;
    var n, seg := |Split(p, '/')|, Split(q, '/');
    PrefixMatch(p, "**", q);
    assert p + "/" + "**" == p + "/**";
    SegmentsBelow(p, q);
    if n <= |seg| {
      StepRecursive(["**"], seg[n..]);
    }
  }

  // The pattern "p/*" matches exactly the paths one segment below p.
  lemma {:induction false} OneLevelPattern(p: string, q: string)
    requires WellFormed(p) && WellFormed(q)
    ensures PathMatches(p + "/*", q) <==> HasPrefix(q, p + "/") && '/' !in q[|p|+1..]
  {
    hide WellFormed, PathMatches, Matches;
    var n, seg := |Split(p, '/')|, Split(q, '/');
    PrefixMatch(p, "*", q);
    assert p + "/" + "*" == p + "/*";
    SegmentsBelow(p, q);
    if n <= |seg| {
      StepOne(["*"], seg[n..]);
      NothingLeft(seg[n..]);
    }
    if HasPrefix(q, p + "/") {
      OnePart(q[|p|+1..]);
      assert seg[n..] == Split(q[|p|+1..], '/');
    }
  }

  lemma NothingLeft(seg: seq<string>)
    ensures ["*"][1..] == [] && (seg != [] ==> (Matches([], seg[1..]) <==> |seg| == 1))
  {
  }

  /** A string is one part exactly when it has no slash. */
  lemma OnePart(s: string)
    ensures |Split(s, '/')| == 1 <==> '/' !in s
  {
    var i := IndexOf(s, '/');
    if i == |s| {
      SplitClean(s, '/');
    } else {
      assert s == s[..i] + ['/'] + s[i+1..];
      SplitAt(s[..i], s[i+1..], '/');
    }
  }

  // The pattern "**" matches every path.
  lemma {:induction false} EverythingPattern(q: string)
    ensures PathMatches("**", q)
  {
    SplitClean("**", '/');
    assert Trim("**", '/') == "**";
    StepRecursive(["**"], Split(Trim(q, '/'), '/'));
  }

  /** Slashes at the ends of a pattern or of a path make no difference. */
  lemma {:induction false} EdgeSlashesIgnored(left: string, right: string, pattern: string, path: string)
    requires AllAre(left, '/') && AllAre(right, '/')
    ensures PathMatches(left + pattern + right, path) <==> PathMatches(pattern, path)
    ensures PathMatches(pattern, left + path + right) <==> PathMatches(pattern, path)
  {
    hide Trim, Matches, Split;
    TrimMore(left, pattern, right, '/');
    TrimMore(left, path, right, '/');
  }
}
