/**
 Which variables the application ends up with: for any property of names, exactly when a
 resolved environment sets a variable with that property, stated on the inputs.
 */
module EnvNames {
  import opened Common
  import opened Strings
  import opened EnvResolver

  /** The line gives a value to a variable whose name has property `p`. */
  predicate Names(line: string, p: string -> bool)
  {
    IndexOf(line, '=') < |line| && p(line[..IndexOf(line, '=')])
  }

  ghost predicate SomeNames(env: seq<string>, p: string -> bool)
  {
    exists i :: 0 <= i < |env| && Names(env[i], p)
  }

  lemma SomeNamesConcat(a: seq<string>, b: seq<string>, p: string -> bool)
    ensures SomeNames(a + b, p) <==> SomeNames(a, p) || SomeNames(b, p)
  {
    hide Names;
    var all := a + b;
    if i :| 0 <= i < |all| && Names(all[i], p) {
      assert if i < |a| then Names(a[i], p) else Names(b[i - |a|], p);
    }
    if i :| 0 <= i < |a| && Names(a[i], p) {
      assert Names(all[i], p);
    }
    if i :| 0 <= i < |b| && Names(b[i], p) {
      assert Names(all[|a| + i], p);
    }
  }

  /** Which name a line gives depends on the key alone. */
  lemma ValueIsIrrelevant(key: string, value: string, p: string -> bool)
    ensures Names(key + "=" + value, p) <==> Names(key + "=", p)
  {
    var s, line := key + "=", key + "=" + value;
    assert s[|key|] == '=' && line[|key|] == '=';
    var i, j := IndexOf(s, '='), IndexOf(line, '=');
    assert i <= |key| && j <= |key|;
    assert line[..|s|] == s;
    assert s[j] == line[j] && line[i] == s[i];
    assert i == j && s[..i] == line[..i];
  }

  // ----- The resolved lines -----

  /** The entry sets a variable with property `p` and is not stripped. */
  predicate KeepsName(kv: string, p: string -> bool)
  {
    Names(kv, p) && !Classify(kv).Strip?
  }

  ghost predicate SomeKept(items: seq<Item>, p: string -> bool)
  {
    exists i :: 0 <= i < |items| && items[i].EnvVar? && KeepsName(items[i].kv, p)
  }

  /** A reference keeps its name whatever it resolves to. */
  lemma RefKeepsName(kv: string, value: string, p: string -> bool)
    requires Classify(kv).Ref?
    ensures Names(Classify(kv).name + "=" + value, p) <==> KeepsName(kv, p)
  {
    hide Names, Classify;
    RefName(kv);
    var i := IndexOf(kv, '=');
    CutAt(kv, i);
    ValueIsIrrelevant(kv[..i], value, p);
    ValueIsIrrelevant(kv[..i], kv[i+1..], p);
  }

  lemma RefName(kv: string)
    requires Classify(kv).Ref?
    ensures var i := IndexOf(kv, '='); i < |kv| && Classify(kv).name == kv[..i]
  {
    hide IndexOf, IsVaultVar, HasPrefix, TrimPrefix;
  }

  lemma CutAt(s: string, i: nat)
    requires i < |s| && s[i] == '='
    ensures s == s[..i] + "=" + s[i+1..]
  {
    assert [s[i]] == "=";
  }

  /** What one item that does not fail adds to the lines. */
  lemma LinesStep(fetch: Fetch, lenient: bool, memo: Memo, out: Output, item: Item, p: string -> bool)
    requires out.failure.None?
    ensures var out' := Step(fetch, lenient, memo, out, item).1;
            && (SomeNames(out'.lines, p) ==> SomeNames(out.lines, p) || (item.EnvVar? && KeepsName(item.kv, p)))
            && (out'.failure.None? && (SomeNames(out.lines, p) || (item.EnvVar? && KeepsName(item.kv, p))) ==> SomeNames(out'.lines, p))
  {
    hide Names, Cached, TrimSpace, SomeNames;
    var out' := Step(fetch, lenient, memo, out, item).1;
    if out'.lines != out.lines {
      var line := out'.lines[|out.lines|];
      assert out'.lines == out.lines + [line];
      SomeNamesConcat(out.lines, [line], p);
      OneLine(line, p);
      if Classify(item.kv).Ref? && line != item.kv {
        var Ref(name, path, key) := Classify(item.kv);
        RefKeepsName(item.kv, Cached(fetch, memo, path).1.secret[key], p);
      }
    }
  }

  lemma OneLine(line: string, p: string -> bool)
    ensures SomeNames([line], p) <==> Names(line, p)
  {
    assert [line][0] == line;
  }

  lemma SomeKeptStep(items: seq<Item>, p: string -> bool)
    requires items != []
    ensures var n := |items| - 1;
            SomeKept(items, p) <==> SomeKept(items[..n], p) || (items[n].EnvVar? && KeepsName(items[n].kv, p))
  {
    hide KeepsName;
    var n := |items| - 1;
    if i :| 0 <= i < n && items[..n][i].EnvVar? && KeepsName(items[..n][i].kv, p) {
      assert items[i] == items[..n][i];
    }
    if i :| 0 <= i < |items| && items[i].EnvVar? && KeepsName(items[i].kv, p) {
      assert i < n ==> items[..n][i] == items[i];
    }
  }

  /**
   The names among the resolved lines are the names of the entries that are not stripped,
   whatever the references resolve to and even if the remote changes its mind.
   */
  lemma {:induction false} LinesName(fetch: Fetch, lenient: bool, items: seq<Item>, p: string -> bool)
    ensures var out := Run(fetch, lenient, items).1;
            && (SomeNames(out.lines, p) ==> SomeKept(items, p))
            && (out.failure.None? && SomeKept(items, p) ==> SomeNames(out.lines, p))
  {
    hide Step, SomeNames, SomeKept, KeepsName;
    if items == [] {
      NothingNamed(p);
    } else {
      var n := |items| - 1;
      var (memo, out) := Run(fetch, lenient, items[..n]);
      LinesName(fetch, lenient, items[..n], p);
      SomeKeptStep(items, p);
      if out.failure.None? {
        LinesStep(fetch, lenient, memo, out, items[n], p);
      } else {
        FailureStays(fetch, lenient, items, n);
      }
    }
  }

  lemma NothingNamed(p: string -> bool)
    ensures !SomeNames([], p) && !SomeKept([], p)
  {
  }

  /** No configuration variable survives among the resolved lines, whatever the references resolve to. */
  lemma {:induction false} NoVaultVarSurvives(fetch: Fetch, lenient: bool, items: seq<Item>)
    ensures !SomeNames(Run(fetch, lenient, items).1.lines, IsVaultVar)
  {
    LinesName(fetch, lenient, items, IsVaultVar);
  }

  // ----- The injected blocks -----

  /** Some key of the secret, as the name of a variable, has property `p`. */
  ghost predicate HasKey(secret: Secret, p: string -> bool)
  {
    exists key :: key in secret && Names(key + "=", p)
  }

  ghost predicate SomeHasKey(injected: seq<Secret>, p: string -> bool)
  {
    exists j :: 0 <= j < |injected| && HasKey(injected[j], p)
  }

  lemma {:induction false} BlockNames(lines: seq<string>, secret: Secret, p: string -> bool)
    requires IsSomeBlock(lines, secret)
    ensures SomeNames(lines, p) <==> HasKey(secret, p)
  {
    hide Names;
    var order :| IsBlock(lines, secret, order);
    forall i | 0 <= i < |lines| ensures Names(lines[i], p) <==> Names(order[i] + "=", p) {
      ValueIsIrrelevant(order[i], secret[order[i]], p);
    }
    if key :| key in secret && Names(key + "=", p) {
      var i :| 0 <= i < |order| && order[i] == key;
      assert Names(lines[i], p);
    }
    if i :| 0 <= i < |lines| && Names(lines[i], p) {
      assert order[i] in secret && Names(order[i] + "=", p);
    }
  }

  lemma SomeHasKeyStep(injected: seq<Secret>, secret: Secret, p: string -> bool)
    ensures SomeHasKey(injected + [secret], p) <==> SomeHasKey(injected, p) || HasKey(secret, p)
  {
    hide HasKey;
    var all := injected + [secret];
    if j :| 0 <= j < |injected| && HasKey(injected[j], p) {
      assert HasKey(all[j], p);
    }
    if HasKey(secret, p) {
      assert HasKey(all[|injected|], p);
    }
  }

  /** The final environment names what the lines and the injected secrets name. */
  lemma {:induction false} RenderedNames(env: seq<string>, lines: seq<string>, injected: seq<Secret>, p: string -> bool)
    requires Rendered(env, lines, injected)
    ensures SomeNames(env, p) <==> SomeNames(lines, p) || SomeHasKey(injected, p)
    decreases |injected|
  {
    hide SomeNames, HasKey, IsSomeBlock;
    if injected != [] {
      var k := |injected| - 1;
      var n :| 0 <= n <= |env| && RenderedAt(env, lines, injected, n);
      RenderedNames(env[..n], lines, injected[..k], p);
      BlockNames(env[n..], injected[k], p);
      assert env == env[..n] + env[n..] && injected == injected[..k] + [injected[k]];
      SomeNamesConcat(env[..n], env[n..], p);
      SomeHasKeyStep(injected[..k], injected[k], p);
    }
  }

  /** The listed path, once trimmed, can be read and its secret has a key with property `p`. */
  ghost predicate Provides(read: string -> FetchResult, path: string, p: string -> bool)
  {
    TrimSpace(path) != "" && read(TrimSpace(path)).Data? && HasKey(read(TrimSpace(path)).secret, p)
  }

  ghost predicate SomeProvides(read: string -> FetchResult, items: seq<Item>, p: string -> bool)
  {
    exists i :: 0 <= i < |items| && items[i].FromPath? && Provides(read, items[i].path, p)
  }

  lemma SomeProvidesStep(read: string -> FetchResult, items: seq<Item>, p: string -> bool)
    requires items != []
    ensures var n := |items| - 1;
            SomeProvides(read, items, p) <==> SomeProvides(read, items[..n], p) || (items[n].FromPath? && Provides(read, items[n].path, p))
  {
    hide Provides;
    var n := |items| - 1;
    if i :| 0 <= i < n && items[..n][i].FromPath? && Provides(read, items[..n][i].path, p) {
      assert items[i] == items[..n][i];
    }
    if i :| 0 <= i < |items| && items[i].FromPath? && Provides(read, items[i].path, p) {
      assert i < n ==> items[..n][i] == items[i];
    }
  }

  /** Over a consistent remote, the injected secrets are those the listed paths provide. */
  lemma {:induction false} InjectedKeys(read: string -> FetchResult, lenient: bool, items: seq<Item>, p: string -> bool)
    requires Direct(read, lenient, items).failure.None?
    ensures SomeHasKey(Direct(read, lenient, items).injected, p) <==> SomeProvides(read, items, p)
  {
    hide SomeHasKey, SomeProvides, HasKey, Classify, TrimSpace;
    if items == [] {
      NothingProvided(read, p);
    } else {
      var n := |items| - 1;
      var out := Direct(read, lenient, items[..n]);
      InjectedKeys(read, lenient, items[..n], p);
      SomeProvidesStep(read, items, p);
      var item := items[n];
      if item.FromPath? && TrimSpace(item.path) != "" && read(TrimSpace(item.path)).Data? {
        SomeHasKeyStep(out.injected, read(TrimSpace(item.path)).secret, p);
      }
    }
  }

  lemma NothingProvided(read: string -> FetchResult, p: string -> bool)
    ensures !SomeProvides(read, [], p) && !SomeHasKey([], p)
  {
  }

  // ----- The whole program -----

  /** Some entry of the environment sets a variable with property `p` that is not on the list of stripped ones. */
  ghost predicate EnvironNames(environ: seq<string>, p: string -> bool)
  {
    exists i :: 0 <= i < |environ| && Names(environ[i], v => p(v) && !IsVaultVar(v))
  }

  /** Some listed path can be read and has a key with property `p`. */
  ghost predicate PathsProvide(read: string -> FetchResult, fromPaths: seq<string>, p: string -> bool)
  {
    exists i :: 0 <= i < |fromPaths| && Provides(read, fromPaths[i], p)
  }

  lemma KeptIsUnlisted(kv: string, p: string -> bool)
    ensures KeepsName(kv, p) <==> Names(kv, v => p(v) && !IsVaultVar(v))
  {
    hide IsVaultVar;
  }

  lemma ItemsName(read: string -> FetchResult, environ: seq<string>, fromPaths: seq<string>, p: string -> bool)
    ensures SomeKept(Items(environ, fromPaths), p) <==> EnvironNames(environ, p)
    ensures SomeProvides(read, Items(environ, fromPaths), p) <==> PathsProvide(read, fromPaths, p)
  {
    hide Provides, KeepsName, Names;
    var items := Items(environ, fromPaths);
    forall kv ensures KeepsName(kv, p) <==> Names(kv, v => p(v) && !IsVaultVar(v)) {
      KeptIsUnlisted(kv, p);
    }
    if i :| 0 <= i < |items| && items[i].EnvVar? && KeepsName(items[i].kv, p) {
      assert Names(environ[i], v => p(v) && !IsVaultVar(v));
    }
    if i :| 0 <= i < |environ| && Names(environ[i], v => p(v) && !IsVaultVar(v)) {
      assert items[i] == EnvVar(environ[i]);
    }
    if i :| 0 <= i < |items| && items[i].FromPath? && Provides(read, items[i].path, p) {
      assert Provides(read, fromPaths[i - |environ|], p);
    }
    if i :| 0 <= i < |fromPaths| && Provides(read, fromPaths[i], p) {
      assert items[|environ| + i] == FromPath(fromPaths[i]);
    }
  }

  /**
   For any property of names and a consistent remote: a resolved environment sets a variable
   with the property exactly when an entry of the environment outside the stripped list does,
   or a listed path that can be read has such a key.
   */
  lemma {:induction false} NameSetExactly(fetch: Fetch, read: string -> FetchResult, lenient: bool, environ: seq<string>, fromPaths: seq<string>,
                                          r: Result, p: string -> bool)
    requires forall n, path :: fetch(n, path) == read(path)
    requires IsResult(fetch, lenient, environ, fromPaths, r) && r.Resolved?
    ensures SomeNames(r.env, p) <==> EnvironNames(environ, p) || PathsProvide(read, fromPaths, p)
  {
    hide Run, Items, Rendered, SomeNames, SomeHasKey, SomeKept, SomeProvides, EnvironNames, PathsProvide;
    var items := Items(environ, fromPaths);
    var out := Run(fetch, lenient, items).1;
    MemoIsInvisible(fetch, read, lenient, items);
    LinesName(fetch, lenient, items, p);
    InjectedKeys(read, lenient, items, p);
    RenderedNames(r.env, out.lines, out.injected, p);
    ItemsName(read, environ, fromPaths, p);
  }

  predicate StartsVault(name: string)
  {
    HasPrefix(name, "VAULT_")
  }

  /**
   The application sees no variable named VAULT_ something if and only if the environment has
   none outside the stripped list and no secret that is injected has such a key.
   */
  lemma {:induction false} VaultNamesHiddenExactly(fetch: Fetch, read: string -> FetchResult, lenient: bool, environ: seq<string>, fromPaths: seq<string>,
                                                   r: Result)
    requires forall n, path :: fetch(n, path) == read(path)
    requires IsResult(fetch, lenient, environ, fromPaths, r) && r.Resolved?
    ensures !SomeNames(r.env, StartsVault) <==> !EnvironNames(environ, StartsVault) && !PathsProvide(read, fromPaths, StartsVault)
    ensures !SomeNames(r.env, IsVaultVar) <==> !PathsProvide(read, fromPaths, IsVaultVar)
  {
    hide IsResult, SomeNames, PathsProvide;
    NameSetExactly(fetch, read, lenient, environ, fromPaths, r, StartsVault);
    NameSetExactly(fetch, read, lenient, environ, fromPaths, r, IsVaultVar);
  }

  /** A VAULT_ variable that is not on the list reaches the application, with no secret involved. */
  lemma {:induction false} UnlistedVaultVarIsSeen(fetch: Fetch, lenient: bool, r: Result)
    requires IsResult(fetch, lenient, ["VAULT_FORMAT=json"], [], r)
    ensures r == Resolved(["VAULT_FORMAT=json"]) && SomeNames(r.env, StartsVault)
  {
    var kv := "VAULT_FORMAT=json";
    KeptVaultFormat();
    assert Items([kv], []) == [EnvVar(kv)];
    OneKept(fetch, lenient, kv);
    assert r.env == [kv];
    OneLine(kv, StartsVault);
  }

  lemma OneKept(fetch: Fetch, lenient: bool, kv: string)
    requires Classify(kv) == Keep
    ensures Run(fetch, lenient, [EnvVar(kv)]).1 == Output([kv], [], None)
  {
    hide Classify;
    assert [EnvVar(kv)][..0] == [];
  }

  lemma KeptVaultFormat()
    ensures Classify("VAULT_FORMAT=json") == Keep && Names("VAULT_FORMAT=json", StartsVault)
  {
    hide IsVaultVar, IndexOf;
    var name, kv := "VAULT_FORMAT", "VAULT_FORMAT=json";
    assert kv == name + "=" + "json";
    NameOf(name, "json");
    FormatIsUnlisted();
    assert !HasPrefix("json", "vault:");
    assert name[..6] == "VAULT_";
  }

  lemma FormatIsUnlisted()
    ensures !IsVaultVar("VAULT_FORMAT")
  {
    assert "VAULT_FORMAT"[6] == 'F' && "VAULT_CACERT"[6] == 'C';
  }

  lemma NameOf(name: string, value: string)
    requires '=' !in name
    ensures var line := name + "=" + value; IndexOf(line, '=') == |name| && line[..|name|] == name && line[|name|+1..] == value
  {
    var line := name + "=" + value;
    assert line[|name|] == '=' && line[..|name|] == name;
  }

  /** An injected secret can set a variable that is on the list. */
  lemma {:induction false} InjectedVaultVarIsSeen(fetch: Fetch, lenient: bool, r: Result)
    requires forall n, path :: fetch(n, path) == Data(map["VAULT_TOKEN" := "x"])
    requires IsResult(fetch, lenient, [], ["p"], r)
    ensures r.Resolved? && SomeNames(r.env, IsVaultVar)
  {
    var items := Items([], ["p"]);
    var read := path => Data(map["VAULT_TOKEN" := "x"]);
    assert items == [FromPath("p")] && items[..0] == [];
    assert TrimSpace("p") == "p";
    assert Run(fetch, lenient, items).1.failure.None?;
    NameOf("VAULT_TOKEN", "");
    assert "VAULT_TOKEN" + "=" == "VAULT_TOKEN" + "=" + "";
    assert Names("VAULT_TOKEN" + "=", IsVaultVar);
    assert "VAULT_TOKEN" in read("p").secret;
    assert Provides(read, ["p"][0], IsVaultVar);
    VaultNamesHiddenExactly(fetch, read, lenient, [], ["p"], r);
  }
}
