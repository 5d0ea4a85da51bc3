/**
 Authorization is decided on paths, while Azure secrets are read by name. This module says
 exactly when the two agree.
 */
module AzureAccess {
  import opened Common
  import opened Strings
  import opened SecretPath
  import opened AzureNaming
  import opened ServiceAccounts
  import opened PathGlob
  import opened PathPatterns
  import Rbac
  import Aside = CacheAside
  import Cache = CacheSpec
  import G = Gateway

  // ----- Paths that have a json name to themselves -----

  /** No character but the slash becomes a hyphen. */
  predicate Bare(path: string)
  {
    forall i :: 0 <= i < |path| ==> path[i] != '-' && path[i] != '_'
  }

  lemma NameUnfolds(path: string)
    ensures JsonSecretName(path) == if path == "" then "" else JsonChar(path[0]) + JsonSecretName(path[1..])
  {
  }

  lemma {:induction false} NameConcat(a: string, b: string)
    ensures JsonSecretName(a + b) == JsonSecretName(a) + JsonSecretName(b)
  {
    hide JsonSecretName, JsonChar;
    NameUnfolds(a);
    if a == "" {
      assert a + b == b;
    } else {
      NameConcat(a[1..], b);
      NameUnfolds(a + b);
      assert (a + b)[1..] == a[1..] + b;
    }
  }

  /** A path with the name of a bare one is no shorter, and as long only if it is that path. */
  lemma {:induction false} BareIsShortest(p: string, q: string)
    requires Bare(p) && JsonSecretName(q) == JsonSecretName(p)
    ensures |q| >= |p| && (|q| == |p| ==> q == p)
    decreases |p|, 0
  {
    if p != "" {
      NameHead(p);
      NameHead(q);
      var np, nq := JsonSecretName(p[1..]), JsonSecretName(q[1..]);
      if p[0] != '/' {
        assert JsonSecretName(p)[1..] == np;
        assert JsonSecretName(q)[0] == q[0] && JsonSecretName(q)[1..] == nq;
        BareIsShortest(p[1..], q[1..]);
      } else if q[0] == '/' {
        assert JsonSecretName(p)[2..] == np && JsonSecretName(q)[2..] == nq;
        BareIsShortest(p[1..], q[1..]);
      } else {
        assert JsonSecretName(p)[1..] == "-" + np && JsonSecretName(q)[1..] == nq;
        BareAfterHyphen(p[1..], q[1..]);
      }
      assert p == [p[0]] + p[1..] && q == [q[0]] + q[1..];
    } else if q != "" {
      NameHead(q);
    }
  }

  lemma {:induction false} BareAfterHyphen(p: string, q: string)
    requires Bare(p) && JsonSecretName(q) == "-" + JsonSecretName(p)
    ensures |q| > |p|
    decreases |p|, 1
  {
    NameHead(q);
    var nq := JsonSecretName(q[1..]);
    if q[0] == '/' {
      assert JsonSecretName(q)[1..] == "-" + nq && JsonSecretName(q)[1..] == JsonSecretName(p);
      NameHead(p);
      assert JsonSecretName(p)[1..] == nq && JsonSecretName(p)[1..] == "-" + JsonSecretName(p[1..]);
      BareAfterHyphen(p[1..], q[1..]);
    } else {
      assert JsonSecretName(q)[1..] == nq && JsonSecretName(q)[1..] == JsonSecretName(p);
      BareIsShortest(p, q[1..]);
    }
  }

  /** Neither a slash nor a dot. */
  predicate Word(c: char)
  {
    c != '/' && c != '.'
  }

  /** Same length, and where the strings differ both have a word character. */
  ghost predicate Similar(a: string, b: string)
  {
    |a| == |b| && forall i :: 0 <= i < |a| ==> a[i] == b[i] || (Word(a[i]) && Word(b[i]))
  }

  ghost predicate AllSimilar(a: seq<string>, b: seq<string>)
  {
    |a| == |b| && forall i :: 0 <= i < |a| ==> Similar(a[i], b[i])
  }

  lemma {:induction false} SplitSimilar(a: string, b: string)
    requires Similar(a, b)
    ensures AllSimilar(Split(a, '/'), Split(b, '/'))
  {
    if a != "" {
      assert forall i :: 0 <= i < |a| - 1 ==> a[1..][i] == a[i+1] && b[1..][i] == b[i+1];
      SplitSimilar(a[1..], b[1..]);
    }
  }

  lemma SimilarStaysGood(a: string, b: string)
    requires Similar(a, b) && AllAllowed(b) && WellFormed(a)
    ensures WellFormed(b)
  {
    SplitSimilar(a, b);
    var before, after := Split(a, '/'), Split(b, '/');
    forall i | 0 <= i < |after| ensures GoodSegment(after[i]) {
      assert Similar(before[i], after[i]) && GoodSegment(before[i]);
    }
  }

  /** A hyphen and an underscore can change places without changing the name. */
  lemma SwapHyphen(p: string, i: nat, c: char) returns (q: string)
    requires WellFormed(p) && i < |p| && p[i] in {'-', '_'} && c in {'-', '_'} && c != p[i]
    ensures WellFormed(q) && q != p && JsonSecretName(q) == JsonSecretName(p)
  {
    q := p[..i] + [c] + p[i+1..];
    assert p == p[..i] + [p[i]] + p[i+1..];
    assert q[i] == c;
    NameOfMiddle(p[..i], [p[i]], p[i+1..]);
    NameOfMiddle(p[..i], [c], p[i+1..]);
    OneHyphen(c);
    OneHyphen(p[i]);
    SimilarStaysGood(p, q);
  }

  lemma OneHyphen(c: char)
    requires c in {'-', '_'}
    ensures JsonSecretName([c]) == "-"
  {
    assert [c][1..] == "";
  }

  lemma NameOfMiddle(a: string, m: string, b: string)
    ensures JsonSecretName(a + m + b) == JsonSecretName(a) + JsonSecretName(m) + JsonSecretName(b)
  {
    NameConcat(a + m, b);
    NameConcat(a, m);
  }

  lemma SplitUnfolds(s: string)
    requires s != "" && s[0] != '/'
    ensures Split(s, '/') == [[s[0]] + Split(s[1..], '/')[0]] + Split(s[1..], '/')[1..]
  {
  }

  lemma {:induction false} SplitPrefix(head: string, tail: string)
    requires '/' !in head
    ensures Split(head + tail, '/') == [head + Split(tail, '/')[0]] + Split(tail, '/')[1..]
  {
    hide Split;
    var first, rest := Split(tail, '/')[0], Split(tail, '/')[1..];
    if head == "" {
      assert head + tail == tail && head + first == first;
    } else {
      SplitPrefix(head[1..], tail);
      SplitUnfolds(head + tail);
      assert (head + tail)[1..] == head[1..] + tail;
      assert ([head[1..] + first] + rest)[1..] == rest;
      assert [head[0]] + (head[1..] + first) == head + first;
    }
  }

  /** A slash can be written as two hyphens without changing the name. */
  lemma OpenSlash(a: string, b: string)
    requires WellFormed(a + "/" + b) && '/' !in a && |a| + |b| < 255
    ensures WellFormed(a + "--" + b) && JsonSecretName(a + "--" + b) == JsonSecretName(a + "/" + b)
  {
    hide WellFormed, JsonSecretName;
    NameOfMiddle(a, "/", b);
    NameOfMiddle(a, "--", b);
    SlashOrHyphens();
    OpenedWellFormed(a, b);
  }

  lemma OpenedWellFormed(a: string, b: string)
    requires WellFormed(a + "/" + b) && '/' !in a && |a| + |b| < 255
    ensures WellFormed(a + "--" + b)
  {
    hide GoodSegments, Split, Allowed;
    SplitAt(a, b, '/');
    SplitPrefix(a + "--", b);
    OpenedIsGood(a, b);
    OpenedAllowed(a, b);
  }

  lemma OpenedAllowed(a: string, b: string)
    requires AllAllowed(a + "/" + b)
    ensures AllAllowed(a + "--" + b)
  {
    var p, q := a + "/" + b, a + "--" + b;
    forall k | 0 <= k < |q| ensures Allowed(q[k]) {
      assert k < |a| ==> p[k] == q[k];
      assert k > |a| + 1 ==> p[k-1] == q[k];
    }
  }

  lemma SlashOrHyphens()
    ensures JsonSecretName("/") == JsonSecretName("--") == "--"
  {
    assert "/"[1..] == "" && "--"[1..] == "-" && "-"[1..] == "";
  }

  lemma OpenedIsGood(a: string, b: string)
    requires GoodSegments([a] + Split(b, '/'))
    ensures GoodSegments([a + "--" + Split(b, '/')[0]] + Split(b, '/')[1..])
  {
    var all, merged := [a] + Split(b, '/'), [a + "--" + Split(b, '/')[0]] + Split(b, '/')[1..];
    forall i | 0 <= i < |merged| ensures GoodSegment(merged[i]) {
      if i == 0 {
        assert merged[0][|a|] == '-';
      } else {
        assert merged[i] == all[i+1];
      }
    }
  }

  /** The path has no hyphen and no underscore, and no slash unless it is of the greatest length. */
  predicate OwnName(path: string)
  {
    Bare(path) && ('/' !in path || |path| == 256)
  }

  /** A well-formed path is alone with its json name exactly under that condition. */
  lemma {:induction false} NameIsOwnExactly(p: string)
    requires WellFormed(p)
    ensures (forall q :: WellFormed(q) && JsonSecretName(q) == JsonSecretName(p) ==> q == p) <==> OwnName(p)
  {
    if OwnName(p) {
      forall q | WellFormed(q) && JsonSecretName(q) == JsonSecretName(p) ensures q == p {
        BareIsShortest(p, q);
        if '/' !in p {
          SlashlessIsItsName(p);
          NameNotShorter(q);
        }
      }
    } else {
      var q := Namesake(p);
    }
  }

  lemma {:induction false} SlashlessIsItsName(p: string)
    requires Bare(p) && '/' !in p
    ensures JsonSecretName(p) == p
  {
    if p != "" {
      SlashlessIsItsName(p[1..]);
      assert p == [p[0]] + p[1..];
    }
  }

  lemma {:induction false} NameNotShorter(q: string)
    ensures |JsonSecretName(q)| >= |q|
  {
    if q != "" {
      NameNotShorter(q[1..]);
    }
  }

  lemma Namesake(p: string) returns (q: string)
    requires WellFormed(p) && !OwnName(p)
    ensures WellFormed(q) && q != p && JsonSecretName(q) == JsonSecretName(p)
  {
    if i :| 0 <= i < |p| && (p[i] == '-' || p[i] == '_') {
      q := SwapHyphen(p, i, if p[i] == '-' then '_' else '-');
    } else {
      var i := IndexOf(p, '/');
      assert p == p[..i] + "/" + p[i+1..];
      OpenSlash(p[..i], p[i+1..]);
      q := p[..i] + "--" + p[i+1..];
    }
  }

  // ----- Access by json name -----

  /** Some login of the run entitles the bearer of `token` to `path`. */
  ghost predicate EntitledTo(server: G.Server, evs: seq<G.Event>, token: string, path: string, now: int)
  {
    exists l: nat :: G.Entitles(server, evs, l, token, path, now)
  }

  /** The request is admitted, and for a path whose json name is `name`. */
  ghost predicate AdmittedFor(server: G.Server, evs: seq<G.Event>, token: string, rawPath: string, name: string, now: int)
  {
    var path := TrimPrefix(rawPath, "/");
    G.Admit(server, G.Run(server, evs).tokens, token, rawPath, now) == G.Authorized(path) && JsonSecretName(path) == name
  }

  /** The bearer of `token` can get the Key Vault secret `name` read under some path. */
  ghost predicate Readable(server: G.Server, evs: seq<G.Event>, token: string, name: string, now: int)
  {
    exists rawPath :: AdmittedFor(server, evs, token, rawPath, name, now)
  }

  /** A secret can be read exactly by those entitled to one of the well-formed paths that share its name. */
  lemma {:induction false} ReadableExactly(server: G.Server, evs: seq<G.Event>, token: string, name: string, now: int)
    ensures Readable(server, evs, token, name, now) <==>
              exists path :: WellFormed(path) && JsonSecretName(path) == name && EntitledTo(server, evs, token, path, now)
  {
    hide G.Entitles, G.Admit, G.Run, JsonSecretName, WellFormed;
    if rawPath :| AdmittedFor(server, evs, token, rawPath, name, now) {
      G.AdmittedExactly(server, evs, token, rawPath, now);
      assert EntitledTo(server, evs, token, TrimPrefix(rawPath, "/"), now);
    }
    if path :| WellFormed(path) && JsonSecretName(path) == name && EntitledTo(server, evs, token, path, now) {
      AcceptedPathIsItsSegments(path);
      G.AdmittedExactly(server, evs, token, path, now);
      assert AdmittedFor(server, evs, token, path, name, now);
    }
  }

  /** A gateway with one role, whose only pattern is `path`. */
  function OnePathServer(path: string): G.Server
  {
    G.Server(map["r" := Rbac.Role(["ns"], ["sa"], [path])], 0, 1, map[], Cache.RawConfig(false, 0, 0, 1), "")
  }

  const ONE_LOGIN: seq<G.Event> :=
    [G.Login(G.Body("jwt", "r"), Some(Identity("sa", "uid", "ns", "")), Some(("t", "a")), 0)]

  lemma OneLogin(path: string)
    ensures var server := OnePathServer(path);
            && Rbac.MayAssume(server.roles, "r", "ns", "sa")
            && G.Run(server, ONE_LOGIN).tokens.byToken.Keys == {"t"}
            && G.LoggedInAt(server, ONE_LOGIN, 0, "t")
            && G.TtlForRole(server, "r") == 1
  {
    assert ONE_LOGIN[..0] == [];
    Rbac.BindingExactly(OnePathServer(path).roles, "r", "ns", "sa");
    var role := OnePathServer(path).roles["r"];
    assert role.namespaces[0] == "ns" && role.serviceAccounts[0] == "sa";
  }

  lemma PatternDecides(q: string, p: string)
    requires WellFormed(q) && WellFormed(p)
    ensures EntitledTo(OnePathServer(q), ONE_LOGIN, "t", p, 0) <==> p == q
  {
    hide G.LoggedInAt, G.Run, WellFormed, PathMatches;
    var server := OnePathServer(q);
    var role := server.roles["r"];
    OneLogin(q);
    PathAsPattern(q, p);
    assert Rbac.PathListed(role, p) <==> p == q by {
      assert role.paths[0] == q;
    }
    if p == q {
      assert G.Entitles(server, ONE_LOGIN, 0, "t", p, 0);
    }
  }

  /**
   Authorization by path protects a json secret exactly when the path has its name to
   itself: then, in every run of every gateway, whoever can read the secret is entitled to
   the path; otherwise some gateway lets a token read it that is not.
   */
  lemma {:induction false} PathProtectsNameExactly(p: string)
    requires WellFormed(p)
    ensures (forall server, evs, token, now ::
               Readable(server, evs, token, JsonSecretName(p), now) ==> EntitledTo(server, evs, token, p, now)) <==> OwnName(p)
  {
    hide EntitledTo, Readable, WellFormed, JsonSecretName, OwnName;
    NameIsOwnExactly(p);
    forall server, evs, token, now | OwnName(p) && Readable(server, evs, token, JsonSecretName(p), now)
      ensures EntitledTo(server, evs, token, p, now)
    {
      ReadableExactly(server, evs, token, JsonSecretName(p), now);
    }
    if !OwnName(p) {
      var q := Namesake(p);
      PatternDecides(q, q);
      PatternDecides(q, p);
      ReadableExactly(OnePathServer(q), ONE_LOGIN, "t", JsonSecretName(p), 0);
    }
  }

  /**
   What whole-run safety says for the json strategy: whenever a read is answered 200 over a
   vault that does not change, the data is the content of the secret named after the path,
   a login of the run entitled the bearer to that path, and if some well-formed path owns
   that name it is this very path.
   */
  lemma {:induction false} JsonSecretIsEntitled(server: G.Server, evs: seq<G.Event>, vault: string -> Aside.Reply, n: nat) returns (m: nat)
    requires server.prefix == ""
    requires forall j, id, reply :: G.FetchedAt(server, evs, j, id, reply) ==> reply == vault(JsonSecretName(id))
    requires n < |G.Run(server, evs).requests| && G.Run(server, evs).requests[n].Answered? && G.Run(server, evs).requests[n].response.SecretOk?
    ensures G.ReadAt(server, evs, m, n)
    ensures var path, data := G.Run(server, evs).requests[n].path, G.Run(server, evs).requests[n].response.data;
            && vault(JsonSecretName(path)) == Aside.Found(data)
            && EntitledTo(server, evs[..m], evs[m].token, path, evs[m].now)
            && forall p :: WellFormed(p) && OwnName(p) && JsonSecretName(p) == JsonSecretName(path) ==> p == path
  {
    hide WellFormed, JsonSecretName, G.Entitles, OwnName;
    var path := G.Run(server, evs).requests[n].path;
    var l, b, r, j, k, fetcher;
    m, l, b, r, j, k, fetcher := G.EverySecretIsEntitled(server, evs, n);
    assert server.prefix + path == path;
    forall p | WellFormed(p) && OwnName(p) && JsonSecretName(p) == JsonSecretName(path) ensures p == path {
      NameIsOwnExactly(p);
    }
  }

  /** Any two segments joined by two hyphens share a name with their path, although one matches `*` and the other does not. */
  lemma {:induction false} HyphensReachASlash(a: string, b: string)
    requires WellFormed(a + "/" + b) && '/' !in a && '/' !in b && |a| + |b| < 255
    ensures WellFormed(a + "--" + b) && JsonSecretName(a + "--" + b) == JsonSecretName(a + "/" + b)
    ensures PathMatches("*", a + "--" + b) && !PathMatches("*", a + "/" + b)
  {
    hide WellFormed, JsonSecretName, PathMatches;
    OpenSlash(a, b);
    assert (a + "/" + b)[|a|] == '/';
    StarMatches(a + "/" + b);
    StarMatches(a + "--" + b);
  }

  // ----- Flat listings -----

  /** A listed name that Key Vault allows and that belongs to both paths. */
  ghost predicate BelongsToBoth(name: string, p: string, q: string)
  {
    KeyVaultName(name) && FlatDecodeKey(p, name).Some? && FlatDecodeKey(q, name).Some?
  }

  /** The listings of two paths can overlap exactly when both prefixes are in Key Vault's alphabet and one begins with the other. */
  lemma {:induction false} FlatOverlapExactly(p: string, q: string)
    ensures (exists name :: BelongsToBoth(name, p, q)) <==>
              && KeyVaultName(FlatSecretPrefix(p)) && KeyVaultName(FlatSecretPrefix(q))
              && (HasPrefix(FlatSecretPrefix(p), FlatSecretPrefix(q)) || HasPrefix(FlatSecretPrefix(q), FlatSecretPrefix(p)))
  {
    hide FlatSecretPrefix;
    var a, b := FlatSecretPrefix(p), FlatSecretPrefix(q);
    if name :| BelongsToBoth(name, p, q) {
      PrefixOfAllowed(name, p);
      PrefixOfAllowed(name, q);
      if |a| <= |b| {
        assert a == name[..|b|][..|a|];
      } else {
        assert b == name[..|a|][..|b|];
      }
    }
    if KeyVaultName(a) && KeyVaultName(b) && (HasPrefix(a, b) || HasPrefix(b, a)) {
      var long := if |a| >= |b| then a else b;
      var name := long + "x";
      assert name[..|a|] == a && name[..|b|] == b;
      assert BelongsToBoth(name, p, q);
    }
  }

  lemma PrefixOfAllowed(name: string, p: string)
    requires KeyVaultName(name) && HasPrefix(name, FlatSecretPrefix(p))
    ensures KeyVaultName(FlatSecretPrefix(p))
  {
    var prefix := FlatSecretPrefix(p);
    assert forall i :: 0 <= i < |prefix| ==> prefix[i] == name[i];
  }

  /** One name in the listings of two well-formed paths, under different keys. */
  lemma {:induction false} OneNameTwoPaths()
    ensures KeyVaultName("a--b--c")
    ensures FlatDecodeKey("a", "a--b--c") == Some("b__c") && FlatDecodeKey("a--b", "a--b--c") == Some("c")
  {
    assert FlatEncode("a") == "a" && FlatEncode("a--b") == "a--b";
    var name := "a--b--c";
    assert name[..3] == "a--" && name[3..] == "b--c" && name[..6] == "a--b--" && name[6..] == "c";
    assert HyphensToUnderscores("b--c") == "b__c" && HyphensToUnderscores("c") == "c";
  }
}
