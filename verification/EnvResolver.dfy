/**
 Environment resolution in vault-inject: `vault:` references are replaced by secrets, whole
 secrets are injected from listed paths, and each path is fetched through a memo.
 */
module EnvResolver {
  import opened Common
  import opened Strings

  datatype FetchResult = Data(secret: Secret) | Fail(error: string)

  /** The remote read; it may answer differently every time, so it sees the number of the call. */
  type Fetch = (nat, string) -> FetchResult

  datatype Failure =
    | ReadSecret(path: string, error: string)
    | KeyNotFound(key: string, path: string)
    | ReadFromPath(path: string, error: string)

  datatype Result = Resolved(env: seq<string>) | Failed(failure: Failure)

  /** Configuration variables that never reach the application. */
  const VAULT_ENV_VARS: set<string> := {
    "VAULT_ADDR", "VAULT_ROLE", "VAULT_TOKEN", "VAULT_SKIP_VERIFY", "VAULT_CACERT", "VAULT_NAMESPACE",
    "VAULT_AUTH_METHOD", "VAULT_PATH", "VAULT_CLIENT_TIMEOUT", "VAULT_IGNORE_MISSING_SECRETS",
    "VAULT_ENV_FROM_PATH", "VAULT_ENV_PASSTHROUGH", "VAULT_REVOKE_TOKEN", "VAULT_JSON_LOG", "VAULT_LOG_LEVEL",
    "VAULT_JWT_FILE", "VAULT_CACERT_RELOAD", "VAULT_LOGIN_TIMEOUT", "VAULT_READ_TIMEOUT"
  }

  predicate IsVaultVar(name: string)
  {
    name in VAULT_ENV_VARS
  }

  datatype Kind = Keep | Strip | Ref(name: string, path: string, key: string)

  function Classify(kv: string): Kind
  {
    var i := IndexOf(kv, '=');
    if i == |kv| then Keep
    else
      var k, v := kv[..i], kv[i+1..];
      if IsVaultVar(k) then Strip
      else if !HasPrefix(v, "vault:") then Keep
      else
        var ref := TrimPrefix(v, "vault:");
        var j := IndexOf(ref, '#');
        if j == |ref| then Keep else Ref(k, ref[..j], ref[j+1..])
  }

  predicate IsSpace(c: char)
  {
    c == ' ' || c == '\t' || c == '\n' || c == '\r' || c as int == 0x0b || c as int == 0x0c
  }

  function TrimSpace(s: string): (r: string)
    ensures r == "" || (!IsSpace(r[0]) && !IsSpace(r[|r|-1]))
    decreases |s|
  {
    if s != "" && IsSpace(s[0]) then TrimSpace(s[1..])
    else if s != "" && IsSpace(s[|s|-1]) then TrimSpace(s[..|s|-1])
    else s
  }

  // ----- The memo -----

  /** Secrets fetched so far, and the paths of all calls made, in order. */
  datatype Memo = Memo(known: map<string, Secret>, calls: seq<string>)

  function Cached(fetch: Fetch, memo: Memo, path: string): (r: (Memo, FetchResult))
  {
    if path in memo.known then (memo, Data(memo.known[path]))
    else
      var calls := memo.calls + [path];
      match fetch(|memo.calls|, path)
      case Data(secret) => (Memo(memo.known[path := secret], calls), Data(secret))
      case Fail(error) => (Memo(memo.known, calls), Fail(error))
  }

  // ----- Resolution, one item at a time -----

  datatype Item = EnvVar(kv: string) | FromPath(path: string)

  /** The path an item needs fetched, if any. */
  function Needs(item: Item): Option<string>
  {
    match item
    case EnvVar(kv) => (match Classify(kv) case Ref(_, path, _) => Some(path) case _ => None)
    case FromPath(path) => if TrimSpace(path) == "" then None else Some(TrimSpace(path))
  }

  /** What has been produced: resolved variables in order, then whole secrets to inject. */
  datatype Output = Output(lines: seq<string>, injected: seq<Secret>, failure: Option<Failure>)

  /** What an item that needs no fetch does. */
  function Plain(out: Output, item: Item): Output
  {
    match item
    case EnvVar(kv) => if Classify(kv).Strip? then out else out.(lines := out.lines + [kv])
    case FromPath(_) => out
  }

  /** What an item does with the answer for the path it needs. */
  function Use(lenient: bool, out: Output, item: Item, answer: FetchResult): Output
    requires Needs(item).Some?
  {
    match item
    case EnvVar(kv) =>
      var Ref(name, path, key) := Classify(kv);
      if answer.Data? && key in answer.secret then out.(lines := out.lines + [name + "=" + answer.secret[key]])
      else if lenient then out.(lines := out.lines + [kv])
      else out.(failure := Some(if answer.Data? then KeyNotFound(key, path) else ReadSecret(path, answer.error)))
    case FromPath(path) =>
      if answer.Data? then out.(injected := out.injected + [answer.secret])
      else if lenient then out
      else out.(failure := Some(ReadFromPath(TrimSpace(path), answer.error)))
  }

  function Step(fetch: Fetch, lenient: bool, memo: Memo, out: Output, item: Item): (Memo, Output)
  {
    if out.failure.Some? then (memo, out)
    else match Needs(item)
      case None => (memo, Plain(out, item))
      case Some(path) =>
        var (memo', answer) := Cached(fetch, memo, path);
        (memo', Use(lenient, out, item, answer))
  }

  const NOTHING := Output([], [], None)

  function Run(fetch: Fetch, lenient: bool, items: seq<Item>): (r: (Memo, Output))
  {
    if items == [] then (Memo(map[], []), NOTHING)
    else
      var (memo, out) := Run(fetch, lenient, items[..|items|-1]);
      Step(fetch, lenient, memo, out, items[|items|-1])
  }

  lemma RunStep(fetch: Fetch, lenient: bool, items: seq<Item>, k: nat)
    requires k < |items|
    ensures var (memo, out) := Run(fetch, lenient, items[..k]);
            Run(fetch, lenient, items[..k+1]) == Step(fetch, lenient, memo, out, items[k])
  {
    assert items[..k+1][..k] == items[..k];
  }

  function Items(environ: seq<string>, fromPaths: seq<string>): (items: seq<Item>)
    ensures |items| == |environ| + |fromPaths|
    ensures forall i :: 0 <= i < |environ| ==> items[i] == EnvVar(environ[i])
    ensures forall i :: 0 <= i < |fromPaths| ==> items[|environ| + i] == FromPath(fromPaths[i])
  {
    seq(|environ|, i requires 0 <= i < |environ| => EnvVar(environ[i])) +
    seq(|fromPaths|, i requires 0 <= i < |fromPaths| => FromPath(fromPaths[i]))
  }

  // ----- The memo is invisible when the remote read is consistent -----

  /** Resolution with a fresh read at every reference. */
  function Direct(read: string -> FetchResult, lenient: bool, items: seq<Item>): (out: Output)
  {
    if items == [] then NOTHING
    else
      var out := Direct(read, lenient, items[..|items|-1]);
      var item := items[|items|-1];
      if out.failure.Some? then out
      else match Needs(item)
        case None => Plain(out, item)
        case Some(path) => Use(lenient, out, item, read(path))
  }

  lemma {:induction false} MemoIsInvisible(fetch: Fetch, read: string -> FetchResult, lenient: bool, items: seq<Item>)
    requires forall n, path :: fetch(n, path) == read(path)
    ensures Run(fetch, lenient, items).1 == Direct(read, lenient, items)
    ensures forall path :: path in Run(fetch, lenient, items).0.known ==> read(path) == Data(Run(fetch, lenient, items).0.known[path])
  {
    hide Classify, TrimSpace, Needs, Use, Plain;
    if items != [] {
      MemoIsInvisible(fetch, read, lenient, items[..|items|-1]);
    }
  }

  /** The item needs a path that cannot be read, or a key that the path's secret does not have. */
  predicate Unusable(read: string -> FetchResult, item: Item)
  {
    Needs(item).Some? &&
    match read(Needs(item).value)
    case Fail(_) => true
    case Data(secret) => item.EnvVar? && Classify(item.kv).key !in secret
  }

  /** What the item reports when it fails a strict run. */
  function FaultOf(read: string -> FetchResult, item: Item): Option<Failure>
    requires Needs(item).Some?
  {
    Use(false, NOTHING, item, read(Needs(item).value)).failure
  }

  lemma DirectStep(read: string -> FetchResult, lenient: bool, items: seq<Item>)
    requires items != []
    ensures var before, item := Direct(read, lenient, items[..|items|-1]), items[|items|-1];
            Direct(read, lenient, items).failure ==
              if before.failure.Some? then before.failure
              else if !lenient && Unusable(read, item) then FaultOf(read, item)
              else None
    ensures Unusable(read, items[|items|-1]) ==> FaultOf(read, items[|items|-1]).Some?
  {
    hide TrimSpace, IndexOf, IsVaultVar, HasPrefix, TrimPrefix;
  }

  /** The item at `n` is the first that cannot be used. */
  ghost predicate FirstUnusable(read: string -> FetchResult, items: seq<Item>, n: nat)
  {
    n < |items| && Unusable(read, items[n]) && forall i :: 0 <= i < n ==> !Unusable(read, items[i])
  }

  /** Fresh reads fail exactly when missing secrets are errors and some item is unusable; the first is reported. */
  lemma {:induction false} FailsExactly(read: string -> FetchResult, lenient: bool, items: seq<Item>)
    ensures Direct(read, lenient, items).failure.Some? <==> !lenient && exists n: nat :: FirstUnusable(read, items, n)
    ensures forall n: nat :: FirstUnusable(read, items, n) && !lenient ==> Direct(read, lenient, items).failure == FaultOf(read, items[n])
  {
    hide Needs, Direct, Unusable, FaultOf;
    if items == [] {
      NothingFails(read, lenient);
    } else {
      var k := |items| - 1;
      FailsExactly(read, lenient, items[..k]);
      DirectStep(read, lenient, items);
      forall n: nat | n < k ensures FirstUnusable(read, items[..k], n) <==> FirstUnusable(read, items, n) {
        assert forall i :: 0 <= i <= n ==> items[..k][i] == items[i];
      }
      if (forall n: nat :: !FirstUnusable(read, items[..k], n)) && Unusable(read, items[k]) {
        NoneUnusable(read, items[..k], k);
        assert forall i :: 0 <= i < k ==> items[..k][i] == items[i];
        assert FirstUnusable(read, items, k);
      }
    }
  }

  lemma NothingFails(read: string -> FetchResult, lenient: bool)
    ensures Direct(read, lenient, []).failure.None?
  {
  }

  /** Without a first unusable item there is none at all. */
  lemma {:induction false} NoneUnusable(read: string -> FetchResult, items: seq<Item>, n: nat)
    requires (forall m: nat :: !FirstUnusable(read, items, m)) && n <= |items|
    ensures forall i :: 0 <= i < n ==> !Unusable(read, items[i])
  {
    if n > 0 {
      NoneUnusable(read, items, n - 1);
      assert !FirstUnusable(read, items, n - 1);
    }
  }

  // ----- One snapshot per path, whatever the remote read does -----

  /** The secret that item `i` got, if it needed one and got it. */
  ghost function Used(fetch: Fetch, lenient: bool, items: seq<Item>, i: nat): Option<Secret>
    requires i < |items|
  {
    var (memo, out) := Run(fetch, lenient, items[..i]);
    if out.failure.Some? || Needs(items[i]).None? then None
    else
      var answer := Cached(fetch, memo, Needs(items[i]).value).1;
      if answer.Data? then Some(answer.secret) else None
  }

  /** Once known, a secret stays known and the same. */
  lemma {:induction false} KnownStays(fetch: Fetch, lenient: bool, items: seq<Item>, n: nat, path: string)
    requires n <= |items| && path in Run(fetch, lenient, items[..n]).0.known
    ensures path in Run(fetch, lenient, items).0.known
    ensures Run(fetch, lenient, items).0.known[path] == Run(fetch, lenient, items[..n]).0.known[path]
  {
    if n == |items| {
      assert items[..n] == items;
    } else {
      var k := |items| - 1;
      assert items[..k][..n] == items[..n];
      KnownStays(fetch, lenient, items[..k], n, path);
    }
  }

  lemma {:induction false} UsedIsKnown(fetch: Fetch, lenient: bool, items: seq<Item>, i: nat)
    requires i < |items|
    ensures var known, used := Run(fetch, lenient, items).0.known, Used(fetch, lenient, items, i);
            used.Some? ==> Needs(items[i]).Some? && Needs(items[i]).value in known && known[Needs(items[i]).value] == used.value
  {
    if Used(fetch, lenient, items, i).Some? {
      assert items[..i+1][..i] == items[..i];
      KnownStays(fetch, lenient, items, i + 1, Needs(items[i]).value);
    }
  }

  /** All references to a path that get data get one and the same secret, even if the remote changes mid-run. */
  lemma {:induction false} OneSnapshotPerPath(fetch: Fetch, lenient: bool, items: seq<Item>, i: nat, j: nat)
    requires i < |items| && j < |items| && Needs(items[i]) == Needs(items[j])
    ensures Used(fetch, lenient, items, i).Some? && Used(fetch, lenient, items, j).Some? ==>
              Used(fetch, lenient, items, i) == Used(fetch, lenient, items, j)
  {
    hide Used, Needs, Run;
    UsedIsKnown(fetch, lenient, items, i);
    UsedIsKnown(fetch, lenient, items, j);
  }

  // ----- The program -----

  ghost predicate Enumerates(order: seq<string>, keys: set<string>)
  {
    && (forall i, j :: 0 <= i < j < |order| ==> order[i] != order[j])
    && (forall k :: k in keys <==> k in order)
  }

  function Line(secret: Secret, key: string): string
    requires key in secret
  {
    key + "=" + secret[key]
  }

  /** The lines of one injected secret, its keys in some order. */
  ghost predicate IsBlock(lines: seq<string>, secret: Secret, order: seq<string>)
  {
    && Enumerates(order, secret.Keys)
    && |lines| == |order|
    && (forall i :: 0 <= i < |order| ==> order[i] in secret && lines[i] == Line(secret, order[i]))
  }

  ghost predicate IsSomeBlock(lines: seq<string>, secret: Secret)
  {
    exists order :: IsBlock(lines, secret, order)
  }

  /** `env` is the resolved lines followed by one block per injected secret. */
  ghost predicate Rendered(env: seq<string>, lines: seq<string>, injected: seq<Secret>)
    decreases |injected|, 1
  {
    if injected == [] then env == lines
    else exists n :: 0 <= n <= |env| && RenderedAt(env, lines, injected, n)
  }

  /** The last block starts at `n`. */
  ghost predicate RenderedAt(env: seq<string>, lines: seq<string>, injected: seq<Secret>, n: nat)
    requires injected != [] && n <= |env|
    decreases |injected|, 0
  {
    Rendered(env[..n], lines, injected[..|injected|-1]) && IsSomeBlock(env[n..], injected[|injected|-1])
  }

  lemma RenderedNone(env: seq<string>)
    ensures Rendered(env, env, [])
  {
  }

  lemma RenderedAppend(env: seq<string>, lines: seq<string>, injected: seq<Secret>, block: seq<string>, secret: Secret)
    requires Rendered(env, lines, injected) && IsSomeBlock(block, secret)
    ensures Rendered(env + block, lines, injected + [secret])
  {
    hide IsSomeBlock;
    var all := env + block;
    assert all[..|env|] == env && all[|env|..] == block;
    assert (injected + [secret])[..|injected|] == injected;
    assert RenderedAt(all, lines, injected + [secret], |env|);
  }

  /** The loop over one secret's keys, in whatever order they come. */
  method Inject(secret: Secret) returns (block: seq<string>)
    ensures IsSomeBlock(block, secret)
  {
    block := [];
    ghost var order := [];
    var todo := secret.Keys;
    while todo != {}
      invariant todo <= secret.Keys && IsBlock(block, map k | k in secret.Keys - todo :: secret[k], order)
    {
      var k :| k in todo;
      assert k !in order;
      block, order := block + [k + "=" + secret[k]], order + [k];
      todo := todo - {k};
    }
    assert (map k | k in secret.Keys - todo :: secret[k]) == secret;
  }

  /** A lookup through the memo; `calls` are the paths read remotely so far. */
  method CachedFetch(fetch: Fetch, cache: map<string, Secret>, calls: seq<string>, path: string)
    returns (cache': map<string, Secret>, calls': seq<string>, answer: FetchResult)
    ensures (Memo(cache', calls'), answer) == Cached(fetch, Memo(cache, calls), path)
  {
    cache', calls' := cache, calls;
    if path in cache {
      return cache, calls, Data(cache[path]);
    }
    answer := fetch(|calls|, path);
    calls' := calls + [path];
    if answer.Data? {
      cache' := cache[path := answer.secret];
    }
  }

  /** The loop over the environment. */
  method ResolveVars(environ: seq<string>, fetch: Fetch, lenient: bool, ghost items: seq<Item>)
    returns (cache: map<string, Secret>, calls: seq<string>, newEnv: seq<string>, failure: Option<Failure>)
    requires |environ| <= |items| && forall i :: 0 <= i < |environ| ==> items[i] == EnvVar(environ[i])
    ensures failure.Some? ==> Run(fetch, lenient, items) == (Memo(cache, calls), Output(newEnv, [], failure))
    ensures failure.None? ==> Run(fetch, lenient, items[..|environ|]) == (Memo(cache, calls), Output(newEnv, [], None))
  {
    cache, calls, newEnv, failure := map[], [], [], None;
    assert Run(fetch, lenient, items[..0]) == (Memo(map[], []), NOTHING);
    hide Run;
    for i := 0 to |environ|
      invariant (Memo(cache, calls), Output(newEnv, [], None)) == Run(fetch, lenient, items[..i])
      invariant failure.None?
    {
      RunStep(fetch, lenient, items, i);
      var kv := environ[i];
      match Classify(kv) {
        case Keep => newEnv := newEnv + [kv];
        case Strip =>
        case Ref(name, path, key) =>
          var answer;
          cache, calls, answer := CachedFetch(fetch, cache, calls, path);
          if answer.Data? && key in answer.secret {
            newEnv := newEnv + [name + "=" + answer.secret[key]];
          } else if lenient {
            newEnv := newEnv + [kv];
          } else {
            failure := Some(if answer.Data? then KeyNotFound(key, path) else ReadSecret(path, answer.error));
            FailureStays(fetch, lenient, items, i + 1);
            return;
          }
      }
    }
  }

  /** One listed path: its secret is injected whole, or skipped, or the run fails. */
  method InjectPath(fetch: Fetch, lenient: bool, path: string, cache: map<string, Secret>, calls: seq<string>, env: seq<string>,
                    ghost out: Output)
    returns (cache': map<string, Secret>, calls': seq<string>, env': seq<string>, failure: Option<Failure>)
    requires out.failure.None? && Rendered(env, out.lines, out.injected)
    ensures var (memo', out') := Step(fetch, lenient, Memo(cache, calls), out, FromPath(path));
            && memo' == Memo(cache', calls')
            && out'.lines == out.lines && out'.failure == failure
            && (failure.None? ==> Rendered(env', out'.lines, out'.injected))
  {
    hide TrimSpace, Cached, Rendered;
    cache', calls', env', failure := cache, calls, env, None;
    var trimmed := TrimSpace(path);
    if trimmed == "" {
      return;
    }
    var answer;
    cache', calls', answer := CachedFetch(fetch, cache, calls, trimmed);
    if answer.Data? {
      var block := Inject(answer.secret);
      RenderedAppend(env, out.lines, out.injected, block, answer.secret);
      env' := env + block;
    } else if !lenient {
      failure := Some(ReadFromPath(trimmed, answer.error));
    }
  }

  /** What a resolution of these inputs may return: the first failure, or the lines in order and one block per injected secret. */
  ghost predicate IsResult(fetch: Fetch, lenient: bool, environ: seq<string>, fromPaths: seq<string>, r: Result)
  {
    var out := Run(fetch, lenient, Items(environ, fromPaths)).1;
    match out.failure
    case Some(failure) => r == Failed(failure)
    case None => r.Resolved? && Rendered(r.env, out.lines, out.injected)
  }

  /**
   Over a consistent remote a resolution fails exactly when missing secrets are errors and
   some item cannot be used, and then it reports the first such item.
   */
  lemma {:induction false} ResolutionFailsExactly(fetch: Fetch, read: string -> FetchResult, lenient: bool, environ: seq<string>,
                                                  fromPaths: seq<string>, r: Result)
    requires forall n, path :: fetch(n, path) == read(path)
    requires IsResult(fetch, lenient, environ, fromPaths, r)
    ensures var items := Items(environ, fromPaths);
            && (r.Failed? <==> !lenient && exists n: nat :: FirstUnusable(read, items, n))
            && (forall n: nat :: FirstUnusable(read, items, n) && !lenient ==> FaultOf(read, items[n]) == Some(r.failure))
  {
    hide Run, Direct, Items, FirstUnusable, Rendered;
    MemoIsInvisible(fetch, read, lenient, Items(environ, fromPaths));
    FailsExactly(read, lenient, Items(environ, fromPaths));
  }

  /** The whole program: first the environment, then the listed paths. It also reports the remote reads it made. */
  method ResolveEnviron(environ: seq<string>, fetch: Fetch, fromPaths: seq<string>, ignoreMissing: bool)
    returns (r: Result, calls: seq<string>)
    ensures IsResult(fetch, ignoreMissing, environ, fromPaths, r)
    ensures calls == Run(fetch, ignoreMissing, Items(environ, fromPaths)).0.calls
  {
    hide Run, Step, Items, Rendered;
    ghost var items := Items(environ, fromPaths);
    var cache, newEnv, failure;
    cache, calls, newEnv, failure := ResolveVars(environ, fetch, ignoreMissing, items);
    if failure.Some? {
      return Failed(failure.value), calls;
    }
    ghost var out := Output(newEnv, [], None);
    RenderedNone(newEnv);
    for i := 0 to |fromPaths|
      invariant (Memo(cache, calls), out) == Run(fetch, ignoreMissing, items[..|environ| + i])
      invariant out.failure.None? && Rendered(newEnv, out.lines, out.injected)
    {
      ghost var k := |environ| + i;
      RunStep(fetch, ignoreMissing, items, k);
      ghost var next := Step(fetch, ignoreMissing, Memo(cache, calls), out, items[k]);
      cache, calls, newEnv, failure := InjectPath(fetch, ignoreMissing, fromPaths[i], cache, calls, newEnv, out);
      if failure.Some? {
        FailureStays(fetch, ignoreMissing, items, k + 1);
        return Failed(failure.value), calls;
      }
      out := next.1;
    }
    assert items[..|items|] == items;
    r := Resolved(newEnv);
  }

  /** After a failure nothing more happens. */
  lemma {:induction false} FailureStays(fetch: Fetch, lenient: bool, items: seq<Item>, n: nat)
    requires n <= |items| && Run(fetch, lenient, items[..n]).1.failure.Some?
    ensures Run(fetch, lenient, items) == Run(fetch, lenient, items[..n])
  {
    if n == |items| {
      assert items[..n] == items;
    } else {
      var k := |items| - 1;
      assert items[..k][..n] == items[..n];
      FailureStays(fetch, lenient, items[..k], n);
    }
  }
}
