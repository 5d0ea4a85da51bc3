/**
 What the application's environment holds, line by line: stated on the strings of the
 environment and of the secrets, for every input.
 */
module EnvValues {
  import opened Common
  import opened Strings
  import opened EnvResolver

  // ----- Entries, as strings -----

  /** The entry sets a variable on the stripped list. */
  ghost predicate Stripped(kv: string)
  {
    exists k, v :: '=' !in k && k in VAULT_ENV_VARS && kv == k + "=" + v
  }

  /** The entry refers to key `q` of the secret at `p`. */
  ghost predicate Reference(kv: string, k: string, p: string, q: string)
  {
    '=' !in k && '#' !in p && k !in VAULT_ENV_VARS && kv == k + "=vault:" + p + "#" + q
  }

  /** The entry has a name and a value, cut at the first equals sign. */
  lemma NameAndValue(k: string, v: string)
    requires '=' !in k
    ensures var kv := k + "=" + v; IndexOf(kv, '=') == |k| && kv[..|k|] == k && kv[|k|+1..] == v
  {
    var kv := k + "=" + v;
    assert kv[|k|] == '=';
    assert kv[..|k|] == k;
  }

  lemma CutAt(s: string, i: nat, c: char)
    requires i < |s| && s[i] == c
    ensures s == s[..i] + [c] + s[i+1..]
  {
  }

  lemma CutEntry(kv: string) returns (k: string, v: string)
    requires '=' in kv
    ensures '=' !in k && kv == k + "=" + v && IndexOf(kv, '=') == |k| && kv[..|k|] == k && kv[|k|+1..] == v
  {
    var i := IndexOf(kv, '=');
    k, v := kv[..i], kv[i+1..];
    CutAt(kv, i, '=');
    assert ['='] == "=";
  }

  /** Stripping, on strings. */
  lemma {:induction false} StrippedExactly(kv: string)
    ensures Classify(kv).Strip? <==> Stripped(kv)
  {
    hide IsVaultVar, IndexOf, HasPrefix, TrimPrefix;
    if '=' in kv {
      var k, v := CutEntry(kv);
      StripByName(kv, k);
    }
    forall k, v | '=' !in k && k in VAULT_ENV_VARS && kv == k + "=" + v ensures Classify(kv).Strip? {
      NameAndValue(k, v);
      StripByName(kv, k);
    }
    if Classify(kv).Strip? {
      NamedIfStripped(kv);
    }
  }

  lemma NamedIfStripped(kv: string)
    requires Classify(kv).Strip?
    ensures '=' in kv
  {
    hide IsVaultVar, HasPrefix, TrimPrefix;
  }

  lemma StripByName(kv: string, k: string)
    requires IndexOf(kv, '=') == |k| < |kv| && kv[..|k|] == k
    ensures Classify(kv).Strip? <==> k in VAULT_ENV_VARS
  {
    hide IndexOf, HasPrefix, TrimPrefix, IsVaultVar;
    ListedIsVaultVar(k);
  }

  lemma ListedIsVaultVar(k: string)
    ensures IsVaultVar(k) <==> k in VAULT_ENV_VARS
  {
  }

  /** What a named entry is depends on its name and its value. */
  lemma ClassifyNamed(k: string, v: string)
    requires '=' !in k
    ensures Classify(k + "=" + v) ==
              if IsVaultVar(k) then Strip
              else if !HasPrefix(v, "vault:") then Keep
              else ClassifyReference(k, TrimPrefix(v, "vault:"))
  {
    hide IsVaultVar, IndexOf, HasPrefix, TrimPrefix;
    NameAndValue(k, v);
  }

  function ClassifyReference(k: string, ref: string): Kind
  {
    var j := IndexOf(ref, '#');
    if j == |ref| then Keep else Ref(k, ref[..j], ref[j+1..])
  }

  lemma PathAndKey(p: string, q: string)
    requires '#' !in p
    ensures var ref := p + "#" + q; IndexOf(ref, '#') == |p| && ref[..|p|] == p && ref[|p|+1..] == q
  {
    var ref := p + "#" + q;
    assert ref[|p|] == '#';
    assert ref[..|p|] == p;
  }

  lemma ReferencesOf(k: string, ref: string, p: string, q: string)
    ensures ClassifyReference(k, ref) == Ref(k, p, q) <==> '#' !in p && ref == p + "#" + q
  {
    var j := IndexOf(ref, '#');
    if j < |ref| {
      CutAt(ref, j, '#');
      assert ['#'] == "#";
    }
    if '#' !in p && ref == p + "#" + q {
      PathAndKey(p, q);
    }
  }

  lemma WithVault(v: string, ref: string)
    ensures HasPrefix(v, "vault:") && TrimPrefix(v, "vault:") == ref <==> v == "vault:" + ref
  {
    if v == "vault:" + ref {
      assert v[..6] == "vault:" && v[6..] == ref;
    }
  }

  lemma RegroupReference(k: string, p: string, q: string)
    ensures k + "=vault:" + p + "#" + q == k + "=" + ("vault:" + (p + "#" + q))
  {
    assert "=vault:" == "=" + "vault:";
  }

  /** References, on strings: the first equals sign ends the name, `vault:` follows, and the first hash ends the path. */
  lemma {:induction false} ReferenceExactly(kv: string, k: string, p: string, q: string)
    ensures Classify(kv) == Ref(k, p, q) <==> Reference(kv, k, p, q)
  {
    hide Classify, ClassifyReference, IsVaultVar, HasPrefix, TrimPrefix, IndexOf;
    ListedIsVaultVar(k);
    RegroupReference(k, p, q);
    if Reference(kv, k, p, q) {
      var ref := p + "#" + q;
      WithVault("vault:" + ref, ref);
      ClassifyNamed(k, "vault:" + ref);
      ReferencesOf(k, ref, p, q);
    }
    if Classify(kv) == Ref(k, p, q) {
      NamedIfReference(kv);
      var name, v := CutEntry(kv);
      ClassifyNamed(name, v);
      var ref := TrimPrefix(v, "vault:");
      WithVault(v, ref);
      ReferenceNamed(name, ref);
      ReferencesOf(name, ref, p, q);
    }
  }

  lemma ReferenceNamed(k: string, ref: string)
    ensures ClassifyReference(k, ref).Ref? ==> ClassifyReference(k, ref).name == k
  {
  }

  lemma NamedIfReference(kv: string)
    requires Classify(kv).Ref?
    ensures '=' in kv
  {
    hide IsVaultVar, HasPrefix, TrimPrefix;
  }

  // ----- What each entry contributes -----

  /** The secret at `p` can be read and has the key `q`. */
  ghost predicate Resolvable(read: string -> FetchResult, p: string, q: string)
  {
    read(p).Data? && q in read(p).secret
  }

  /**
   The lines an entry of the environment becomes: none if it is stripped, the secret's value
   under the entry's name for a reference that can be resolved, and otherwise the entry.
   */
  ghost predicate Contributes(read: string -> FetchResult, kv: string, lines: seq<string>)
  {
    && (Stripped(kv) ==> lines == [])
    && (forall k, p, q :: Reference(kv, k, p, q) ==>
          lines == if Resolvable(read, p, q) then [k + "=" + read(p).secret[q]] else [kv])
    && (!Stripped(kv) && (forall k, p, q :: !Reference(kv, k, p, q)) ==> lines == [kv])
  }

  /** Nothing but white space. */
  ghost predicate White(s: string)
  {
    forall i :: 0 <= i < |s| ==> 9 <= s[i] as int <= 13 || s[i] as int == 32
  }

  /** `p` is what is left of `s` between white space at its ends. */
  ghost predicate TrimsTo(s: string, p: string)
  {
    && (exists left, right :: White(left) && White(right) && s == left + p + right)
    && (p != "" ==> !White(p[..1]) && !White(p[|p|-1..]))
  }

  /** The lines are the pairs of the secret, each key once, in some order. */
  ghost predicate ListsPairs(secret: Secret, lines: seq<string>)
  {
    exists keys: seq<string> ::
      && |keys| == |lines|
      && (forall i, j :: 0 <= i < j < |keys| ==> keys[i] != keys[j])
      && (forall k :: k in secret <==> k in keys)
      && (forall i :: 0 <= i < |keys| ==> keys[i] in secret && lines[i] == keys[i] + "=" + secret[keys[i]])
  }

  /** The lines a listed path adds: the pairs of its secret, if there is a path and it can be read. */
  ghost predicate Injects(read: string -> FetchResult, path: string, lines: seq<string>)
  {
    forall p :: TrimsTo(path, p) ==>
      if p != "" && read(p).Data? then ListsPairs(read(p).secret, lines) else lines == []
  }

  ghost function Concat(parts: seq<seq<string>>): seq<string>
  {
    if parts == [] then [] else Concat(parts[..|parts|-1]) + parts[|parts|-1]
  }

  lemma SpaceIsWhite(c: char)
    ensures IsSpace(c) <==> White([c])
  {
    assert [c][0] == c;
  }

  lemma TrimSpaceUnfolds(s: string)
    ensures TrimSpace(s) ==
              if s != "" && IsSpace(s[0]) then TrimSpace(s[1..])
              else if s != "" && IsSpace(s[|s|-1]) then TrimSpace(s[..|s|-1])
              else s
  {
    hide IsSpace;
  }

  lemma WhiteConcat(a: string, b: string)
    ensures White(a + b) <==> White(a) && White(b)
  {
    var s := a + b;
    assert forall i :: 0 <= i < |a| ==> s[i] == a[i];
    assert forall i :: 0 <= i < |b| ==> s[|a| + i] == b[i];
  }

  /** White space from the left, and from the right. */
  lemma WhiteEnds(s: string)
    requires s != "" && White(s)
    ensures IsSpace(s[0]) && White(s[1..]) && IsSpace(s[|s|-1]) && White(s[..|s|-1])
  {
  }

  lemma {:induction false} TrimSpaceParts(s: string) returns (left: string, right: string)
    ensures White(left) && White(right) && s == left + TrimSpace(s) + right
    decreases |s|
  {
    hide TrimSpace, White, IsSpace;
    assert White("") by { NothingIsWhite(); }
    left, right := "", "";
    TrimSpaceUnfolds(s);
    if s != "" && IsSpace(s[0]) {
      left, right := TrimSpaceParts(s[1..]);
      SpaceIsWhite(s[0]);
      WhiteConcat([s[0]], left);
      assert s == [s[0]] + s[1..];
      assert [s[0]] + (left + TrimSpace(s) + right) == [s[0]] + left + TrimSpace(s) + right;
      left := [s[0]] + left;
    } else if s != "" && IsSpace(s[|s|-1]) {
      left, right := TrimSpaceParts(s[..|s|-1]);
      SpaceIsWhite(s[|s|-1]);
      WhiteConcat(right, [s[|s|-1]]);
      assert s == s[..|s|-1] + [s[|s|-1]];
      assert left + TrimSpace(s) + right + [s[|s|-1]] == left + TrimSpace(s) + (right + [s[|s|-1]]);
      right := right + [s[|s|-1]];
    } else {
      assert s == "" + s + "";
    }
  }

  lemma NothingIsWhite()
    ensures White("")
  {
  }

  lemma {:induction false} TrimSpaceUnique(left: string, p: string, right: string)
    requires White(left) && White(right) && (p != "" ==> !IsSpace(p[0]) && !IsSpace(p[|p|-1]))
    ensures TrimSpace(left + p + right) == p
    decreases |left| + |right|
  {
    hide TrimSpace, White, IsSpace;
    var s := left + p + right;
    TrimSpaceUnfolds(s);
    if left != "" {
      WhiteEnds(left);
      TrimSpaceUnique(left[1..], p, right);
      assert s[0] == left[0] && s[1..] == left[1..] + p + right;
    } else if right == "" {
      assert s == p;
    } else {
      WhiteEnds(right);
      if p == "" {
        assert s == right && s[1..] == "" + "" + right[1..];
        TrimSpaceUnique("", "", right[1..]);
      } else {
        var n := |right| - 1;
        TrimSpaceUnique("", p, right[..n]);
        assert s[0] == p[0] && s[|s|-1] == right[n] && s[..|s|-1] == "" + p + right[..n];
      }
    }
  }

  /** Trimming, on strings. */
  lemma {:induction false} TrimSpaceExactly(s: string, p: string)
    ensures TrimsTo(s, p) <==> p == TrimSpace(s)
  {
    forall c ensures IsSpace(c) <==> White([c]) {
      SpaceIsWhite(c);
    }
    assert p != "" ==> p[..1] == [p[0]] && p[|p|-1..] == [p[|p|-1]];
    hide White, IsSpace;
    if TrimsTo(s, p) {
      var left, right :| White(left) && White(right) && s == left + p + right;
      TrimSpaceUnique(left, p, right);
    }
    if p == TrimSpace(s) {
      var left, right := TrimSpaceParts(s);
      assert White(left) && White(right) && s == left + p + right;
    }
  }

  // ----- The environment loop, line by line -----

  /** What an item adds to the lines when it does not fail. */
  ghost function PartOf(read: string -> FetchResult, item: Item): seq<string>
  {
    match item
    case FromPath(_) => []
    case EnvVar(kv) =>
      match Classify(kv)
      case Strip => []
      case Keep => [kv]
      case Ref(k, p, q) => if Resolvable(read, p, q) then [k + "=" + read(p).secret[q]] else [kv]
  }

  lemma PartContributes(read: string -> FetchResult, kv: string)
    ensures Contributes(read, kv, PartOf(read, EnvVar(kv)))
  {
    hide Classify, Reference, Stripped;
    StrippedExactly(kv);
    forall k, p, q ensures Reference(kv, k, p, q) <==> Classify(kv) == Ref(k, p, q) {
      ReferenceExactly(kv, k, p, q);
    }
    if Classify(kv).Ref? {
      assert Reference(kv, Classify(kv).name, Classify(kv).path, Classify(kv).key);
    }
  }

  ghost function Parts(read: string -> FetchResult, items: seq<Item>): (r: seq<seq<string>>)
    ensures |r| == |items| && forall i :: 0 <= i < |items| ==> r[i] == PartOf(read, items[i])
  {
    seq(|items|, i requires 0 <= i < |items| => PartOf(read, items[i]))
  }

  /** What a listed path adds, if it can be read. */
  ghost function SecretOf(read: string -> FetchResult, item: Item): Option<Secret>
  {
    if item.FromPath? && TrimSpace(item.path) != "" && read(TrimSpace(item.path)).Data? then Some(read(TrimSpace(item.path)).secret) else None
  }

  ghost function Secrets(read: string -> FetchResult, items: seq<Item>): seq<Secret>
  {
    if items == [] then []
    else
      var rest := Secrets(read, items[..|items|-1]);
      match SecretOf(read, items[|items|-1])
      case None => rest
      case Some(secret) => rest + [secret]
  }

  lemma {:induction false} DirectLines(read: string -> FetchResult, lenient: bool, items: seq<Item>)
    requires Direct(read, lenient, items).failure.None?
    ensures Direct(read, lenient, items) == Output(Concat(Parts(read, items)), Secrets(read, items), None)
  {
    hide Classify, TrimSpace;
    if items != [] {
      var n := |items| - 1;
      DirectLines(read, lenient, items[..n]);
      assert Parts(read, items)[..n] == Parts(read, items[..n]);
      OneItem(read, lenient, Direct(read, lenient, items[..n]), items[n]);
    }
  }

  lemma OneItem(read: string -> FetchResult, lenient: bool, out: Output, item: Item)
    requires out.failure.None?
    ensures var out' := match Needs(item) { case None => Plain(out, item) case Some(path) => Use(lenient, out, item, read(path)) };
            out'.failure.None? ==>
              && out'.lines == out.lines + PartOf(read, item)
              && out'.injected == match SecretOf(read, item) { case None => out.injected case Some(secret) => out.injected + [secret] }
  {
    hide Classify, TrimSpace;
  }

  // ----- The injected secrets, line by line -----

  /** The block that a secret, if any, became. */
  ghost predicate BlockOf(secret: Option<Secret>, lines: seq<string>)
  {
    match secret
    case None => lines == []
    case Some(pairs) => ListsPairs(pairs, lines)
  }

  lemma BlockListsPairs(lines: seq<string>, secret: Secret)
    requires IsSomeBlock(lines, secret)
    ensures ListsPairs(secret, lines)
  {
    var order :| IsBlock(lines, secret, order);
    assert forall k :: k in secret.Keys <==> k in secret;
    assert forall i :: 0 <= i < |order| ==> lines[i] == order[i] + "=" + secret[order[i]];
  }

  /** A rendered environment is its lines and one block per item. */
  lemma {:induction false} RenderedBlocks(read: string -> FetchResult, items: seq<Item>, env: seq<string>, lines: seq<string>)
    returns (blocks: seq<seq<string>>)
    requires Rendered(env, lines, Secrets(read, items))
    ensures |blocks| == |items| && env == lines + Concat(blocks)
    ensures forall i :: 0 <= i < |items| ==> BlockOf(SecretOf(read, items[i]), blocks[i])
  {
    hide SecretOf, IsSomeBlock, ListsPairs;
    if items == [] {
      blocks := [];
    } else {
      var n := |items| - 1;
      var secret := SecretOf(read, items[n]);
      var rest, block := env, [];
      if secret.Some? {
        var all := Secrets(read, items);
        assert all[..|all|-1] == Secrets(read, items[..n]);
        var m :| 0 <= m <= |env| && RenderedAt(env, lines, all, m);
        rest, block := env[..m], env[m..];
        BlockListsPairs(block, secret.value);
      }
      blocks := RenderedBlocks(read, items[..n], rest, lines);
      assert (blocks + [block])[..n] == blocks;
      assert rest + block == env;
      blocks := blocks + [block];
    }
  }

  // ----- The whole program -----

  lemma {:induction false} ConcatAppend(a: seq<seq<string>>, b: seq<seq<string>>)
    ensures Concat(a + b) == Concat(a) + Concat(b)
  {
    if b == [] {
      assert a + b == a;
    } else {
      var n := |b| - 1;
      ConcatAppend(a, b[..n]);
      assert (a + b)[..|a| + n] == a + b[..n];
    }
  }

  lemma {:induction false} ConcatNothing(a: seq<seq<string>>)
    requires forall i :: 0 <= i < |a| ==> a[i] == []
    ensures Concat(a) == []
  {
    if a != [] {
      ConcatNothing(a[..|a|-1]);
    }
  }

  lemma BlockInjects(read: string -> FetchResult, path: string, lines: seq<string>)
    requires BlockOf(SecretOf(read, FromPath(path)), lines)
    ensures Injects(read, path, lines)
  {
    hide ListsPairs, TrimSpace, TrimsTo;
    forall p | TrimsTo(path, p) ensures p == TrimSpace(path) {
      TrimSpaceExactly(path, p);
    }
  }

  /**
   The resolved environment, line by line. Over a consistent remote it is what the entries of
   the environment contribute, in order, followed by what the listed paths inject, in order.
   */
  lemma {:induction false} ResolvedLineByLine(fetch: Fetch, read: string -> FetchResult, lenient: bool, environ: seq<string>,
                                              fromPaths: seq<string>, r: Result)
    returns (parts: seq<seq<string>>, blocks: seq<seq<string>>)
    requires forall n, path :: fetch(n, path) == read(path)
    requires IsResult(fetch, lenient, environ, fromPaths, r) && r.Resolved?
    ensures r.env == Concat(parts) + Concat(blocks)
    ensures |parts| == |environ| && forall i :: 0 <= i < |environ| ==> Contributes(read, environ[i], parts[i])
    ensures |blocks| == |fromPaths| && forall i :: 0 <= i < |fromPaths| ==> Injects(read, fromPaths[i], blocks[i])
  {
    hide Run, Direct, Rendered, Contributes, Injects, SecretOf, Secrets, Concat;
    var items, n := Items(environ, fromPaths), |environ|;
    MemoIsInvisible(fetch, read, lenient, items);
    DirectLines(read, lenient, items);
    var all := Parts(read, items);
    var every := RenderedBlocks(read, items, r.env, Concat(all));
    parts, blocks := all[..n], every[n..];
    assert all == all[..n] + all[n..] && every == every[..n] + every[n..];
    ConcatAppend(all[..n], all[n..]);
    ConcatAppend(every[..n], every[n..]);
    ConcatNothing(all[n..]);
    forall i | 0 <= i < n ensures every[..n][i] == [] && Contributes(read, environ[i], parts[i]) {
      assert items[i] == EnvVar(environ[i]);
      NoSecretOf(read, environ[i]);
      PartContributes(read, environ[i]);
    }
    ConcatNothing(every[..n]);
    forall i | 0 <= i < |fromPaths| ensures Injects(read, fromPaths[i], blocks[i]) {
      assert items[n + i] == FromPath(fromPaths[i]) && blocks[i] == every[n + i];
      BlockInjects(read, fromPaths[i], blocks[i]);
    }
  }

  lemma NoSecretOf(read: string -> FetchResult, kv: string)
    ensures SecretOf(read, EnvVar(kv)).None?
  {
  }

  // ----- Failures -----

  /** `failure` is what a reference that cannot be resolved, or a listed path that cannot be read, is reported as. */
  ghost predicate Blames(read: string -> FetchResult, item: Item, failure: Failure)
  {
    match item
    case EnvVar(kv) => exists k, p, q :: Reference(kv, k, p, q) && BlamesReference(read, p, q, failure)
    case FromPath(path) => exists p :: TrimsTo(path, p) && p != "" && read(p).Fail? && failure == ReadFromPath(p, read(p).error)
  }

  ghost predicate BlamesReference(read: string -> FetchResult, p: string, q: string, failure: Failure)
  {
    || (read(p).Fail? && failure == ReadSecret(p, read(p).error))
    || (read(p).Data? && q !in read(p).secret && failure == KeyNotFound(q, p))
  }

  /** The item at `n` is the first with something to report. */
  ghost predicate FirstBlamed(read: string -> FetchResult, items: seq<Item>, n: nat)
  {
    && n < |items|
    && (exists failure :: Blames(read, items[n], failure))
    && forall i, failure :: 0 <= i < n ==> !Blames(read, items[i], failure)
  }

  lemma UnusableIsBlamed(read: string -> FetchResult, item: Item)
    ensures Unusable(read, item) <==> exists failure :: Blames(read, item, failure)
    ensures Unusable(read, item) ==> FaultOf(read, item).Some? && forall failure :: Blames(read, item, failure) ==> FaultOf(read, item) == Some(failure)
  {
    hide Classify, TrimSpace, Reference, TrimsTo;
    match item
    case EnvVar(kv) =>
      forall k, p, q ensures Reference(kv, k, p, q) <==> Classify(kv) == Ref(k, p, q) {
        ReferenceExactly(kv, k, p, q);
      }
      if Unusable(read, item) {
        var Ref(k, p, q) := Classify(kv);
        assert Reference(kv, k, p, q);
        assert BlamesReference(read, p, q, if read(p).Fail? then ReadSecret(p, read(p).error) else KeyNotFound(q, p));
        assert Blames(read, item, FaultOf(read, item).value);
      }
    case FromPath(path) =>
      forall p ensures TrimsTo(path, p) <==> p == TrimSpace(path) {
        TrimSpaceExactly(path, p);
      }
      if Unusable(read, item) {
        assert TrimsTo(path, TrimSpace(path));
        assert Blames(read, item, FaultOf(read, item).value);
      }
  }

  /**
   Over a consistent remote a resolution fails exactly when missing secrets are errors and
   some entry or listed path has something to report; what is reported is the first of it.
   */
  lemma {:induction false} FailsWithTheFirst(fetch: Fetch, read: string -> FetchResult, lenient: bool, environ: seq<string>,
                                             fromPaths: seq<string>, r: Result)
    requires forall n, path :: fetch(n, path) == read(path)
    requires IsResult(fetch, lenient, environ, fromPaths, r)
    ensures var items := Items(environ, fromPaths);
            && (r.Failed? <==> !lenient && exists n: nat :: FirstBlamed(read, items, n))
            && (forall n: nat :: FirstBlamed(read, items, n) && !lenient ==> Blames(read, items[n], r.failure))
  {
    hide IsResult, Items, Needs, FaultOf, Blames;
    var items := Items(environ, fromPaths);
    ResolutionFailsExactly(fetch, read, lenient, environ, fromPaths, r);
    forall item
      ensures Unusable(read, item) <==> exists failure :: Blames(read, item, failure)
      ensures Unusable(read, item) ==> FaultOf(read, item).Some? && forall failure :: Blames(read, item, failure) ==> FaultOf(read, item) == Some(failure)
    {
      UnusableIsBlamed(read, item);
    }
    forall n: nat ensures FirstBlamed(read, items, n) <==> FirstUnusable(read, items, n) {
    }
  }
}
