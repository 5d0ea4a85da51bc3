/**
 The two ways the Azure backend names secrets, and exactly how much of a path or key each
 of them preserves.
 */
module AzureNaming {
  import opened Common
  import opened Strings

  // ----- Flat: one Key Vault secret per key -----

  function FlatChar(c: char): char
  {
    if c == '/' || c == '_' then '-' else c
  }

  function FlatEncode(s: string): (r: string)
    ensures |r| == |s| && forall i :: 0 <= i < |s| ==> r[i] == FlatChar(s[i])
  {
    seq(|s|, i requires 0 <= i < |s| => FlatChar(s[i]))
  }

  function FlatSecretPrefix(path: string): string
  {
    FlatEncode(path) + "--"
  }

  function FlatKeyName(path: string, key: string): string
  {
    FlatSecretPrefix(path) + FlatEncode(key)
  }

  function HyphensToUnderscores(s: string): (r: string)
    ensures |r| == |s| && forall i :: 0 <= i < |s| ==> r[i] == if s[i] == '-' then '_' else s[i]
  {
    seq(|s|, i requires 0 <= i < |s| => if s[i] == '-' then '_' else s[i])
  }

  /** The key a listed name stands for under `path`, if it belongs to `path` at all. */
  function FlatDecodeKey(path: string, name: string): (r: Option<string>)
  {
    var prefix := FlatSecretPrefix(path);
    if !HasPrefix(name, prefix) || name[|prefix|..] == "" then None
    else Some(HyphensToUnderscores(name[|prefix|..]))
  }

  /** The form every key takes after a trip through a name. */
  function Canonical(key: string): (r: string)
    ensures |r| == |key| && forall i :: 0 <= i < |key| ==> r[i] == if key[i] == '-' || key[i] == '/' then '_' else key[i]
  {
    seq(|key|, i requires 0 <= i < |key| => if key[i] == '-' || key[i] == '/' then '_' else key[i])
  }

  /** Encoding then decoding a key gives its canonical form, and the key itself exactly when it has no hyphen and no slash. */
  lemma {:induction false} FlatRoundTrip(path: string, key: string)
    ensures FlatDecodeKey(path, FlatKeyName(path, key)) == if key == "" then None else Some(Canonical(key))
    ensures key != "" ==> (FlatDecodeKey(path, FlatKeyName(path, key)) == Some(key) <==> '-' !in key && '/' !in key)
  {
    var prefix, name := FlatSecretPrefix(path), FlatKeyName(path, key);
    assert name[..|prefix|] == prefix && name[|prefix|..] == FlatEncode(key);
    assert HyphensToUnderscores(FlatEncode(key)) == Canonical(key);
    if '-' !in key && '/' !in key {
      assert Canonical(key) == key;
    }
  }

  /** The alphabet Key Vault allows. */
  predicate KeyVaultChar(c: char)
  {
    'a' <= c <= 'z' || 'A' <= c <= 'Z' || '0' <= c <= '9' || c == '-'
  }

  predicate KeyVaultName(name: string)
  {
    name != "" && forall i :: 0 <= i < |name| ==> KeyVaultChar(name[i])
  }

  /** `r` is `s` with every slash and every underscore written as a hyphen. */
  ghost predicate Hyphenated(s: string, r: string)
  {
    |r| == |s| && forall i :: 0 <= i < |s| ==> r[i] == if s[i] == '/' || s[i] == '_' then '-' else s[i]
  }

  /** A key is named by its path, two hyphens and itself, with hyphens for slashes and underscores. */
  ghost predicate Spells(name: string, path: string, key: string)
  {
    exists p, k :: Hyphenated(path, p) && Hyphenated(key, k) && name == p + "--" + k
  }

  lemma HyphenatedIsEncoded(s: string, r: string)
    ensures Hyphenated(s, r) <==> r == FlatEncode(s)
  {
  }

  /** The name of a key is exactly the one spelled so. */
  lemma {:induction false} FlatNameSpelled(path: string, key: string, name: string)
    ensures Spells(name, path, key) <==> name == FlatKeyName(path, key)
  {
    forall s, r ensures Hyphenated(s, r) <==> r == FlatEncode(s) {
      HyphenatedIsEncoded(s, r);
    }
    var p, k := FlatEncode(path), FlatEncode(key);
    assert FlatKeyName(path, key) == p + "--" + k;
    if name == p + "--" + k {
      assert Hyphenated(path, p) && Hyphenated(key, k);
    }
  }

  /** Path and key in letters, digits, hyphens, underscores and slashes have a name Key Vault allows. */
  lemma {:induction false} FlatNameIsAllowed(path: string, key: string)
    requires forall i :: 0 <= i < |path| ==> KeyVaultChar(path[i]) || path[i] == '_' || path[i] == '/'
    requires forall i :: 0 <= i < |key| ==> KeyVaultChar(key[i]) || key[i] == '_' || key[i] == '/'
    ensures KeyVaultName(FlatKeyName(path, key))
  {
    var p, k := FlatEncode(path), FlatEncode(key);
    var name := FlatKeyName(path, key);
    forall i | 0 <= i < |name| ensures KeyVaultChar(name[i]) {
      assert name[i] == if i < |p| then p[i] else if i < |p| + 2 then '-' else k[i - |p| - 2];
    }
  }

  /** Re-encoding a decoded key restores the listed name, for every name Key Vault allows. */
  lemma {:induction false} ListedNameRestored(path: string, name: string)
    requires KeyVaultName(name) && FlatDecodeKey(path, name).Some?
    ensures FlatKeyName(path, FlatDecodeKey(path, name).value) == name
  {
    var prefix := FlatSecretPrefix(path);
    var rest := name[|prefix|..];
    assert forall i :: 0 <= i < |rest| ==> rest[i] == name[|prefix| + i];
    assert FlatEncode(HyphensToUnderscores(rest)) == rest;
    assert name == prefix + rest;
  }

  /** So under one path two listed names never decode to the same key. */
  lemma {:induction false} FlatDecodeInjective(path: string, a: string, b: string)
    requires KeyVaultName(a) && KeyVaultName(b)
    requires FlatDecodeKey(path, a).Some? && FlatDecodeKey(path, a) == FlatDecodeKey(path, b)
    ensures a == b
  {
    ListedNameRestored(path, a);
    ListedNameRestored(path, b);
  }

  // ----- Json: one Key Vault secret per path -----

  function JsonChar(c: char): string
  {
    if c == '/' then "--" else if c == '_' then "-" else [c]
  }

  function JsonSecretName(path: string): string
  {
    if path == "" then "" else JsonChar(path[0]) + JsonSecretName(path[1..])
  }

  /** The reading of a name that takes every two hyphens, from the left, as a slash. */
  function JsonPath(name: string): string
  {
    if name == "" then ""
    else if HasPrefix(name, "--") then ['/'] + JsonPath(name[2..])
    else [name[0]] + JsonPath(name[1..])
  }

  /** No underscore, and no hyphen right before a hyphen or a slash. */
  predicate Plain(path: string)
  {
    forall i :: 0 <= i < |path| ==>
      && path[i] != '_'
      && (path[i] == '-' && i + 1 < |path| ==> path[i+1] != '-' && path[i+1] != '/')
  }

  lemma PlainCons(path: string)
    requires path != ""
    ensures Plain(path) <==>
              && Plain(path[1..]) && path[0] != '_'
              && (path[0] == '-' && |path| > 1 ==> path[1] != '-' && path[1] != '/')
  {
    if Plain(path) {
      assert forall i :: 0 <= i < |path| - 1 ==> path[1..][i] == path[i+1];
    }
    if Plain(path[1..]) && path[0] != '_' && (path[0] == '-' && |path| > 1 ==> path[1] != '-' && path[1] != '/') {
      forall i | 0 <= i < |path| ensures path[i] != '_' && (path[i] == '-' && i + 1 < |path| ==> path[i+1] != '-' && path[i+1] != '/') {
        if i > 0 {
          assert path[i] == path[1..][i-1];
        }
      }
    }
  }

  /** The name begins with a hyphen exactly when the path begins with a hyphen, an underscore or a slash. */
  lemma NameHead(path: string)
    requires path != ""
    ensures JsonSecretName(path) != ""
    ensures JsonSecretName(path)[0] == '-' <==> path[0] == '-' || path[0] == '_' || path[0] == '/'
  {
  }

  lemma {:induction false} JsonRoundTripPlain(path: string)
    requires Plain(path)
    ensures JsonPath(JsonSecretName(path)) == path
  {
    if path != "" {
      PlainCons(path);
      JsonRoundTripPlain(path[1..]);
      var rest := JsonSecretName(path[1..]);
      var name := JsonSecretName(path);
      if path[0] == '/' {
        assert name[..2] == "--" && name[2..] == rest;
      } else {
        assert name[1..] == rest;
        if path[0] == '-' && |path| > 1 {
          NameHead(path[1..]);
        }
      }
      assert [path[0]] + path[1..] == path;
    }
  }

  /** Reading any name without slashes and underscores gives a plain path. */
  lemma {:induction false} JsonPathIsPlain(name: string)
    requires '/' !in name && '_' !in name
    ensures Plain(JsonPath(name))
    ensures JsonPath(name) != "" && JsonPath(name)[0] == '/' ==> HasPrefix(name, "--")
    ensures JsonPath(name) != "" && JsonPath(name)[0] == '-' ==> name[0] == '-'
  {
    if name != "" {
      var path := JsonPath(name);
      if HasPrefix(name, "--") {
        JsonPathIsPlain(name[2..]);
        assert path[1..] == JsonPath(name[2..]);
      } else {
        JsonPathIsPlain(name[1..]);
        assert path[1..] == JsonPath(name[1..]);
        if name[0] == '-' && |path| > 1 {
          assert path[1] == JsonPath(name[1..])[0];
        }
      }
      PlainCons(path);
    }
  }

  lemma {:induction false} NameAlphabet(path: string)
    ensures '/' !in JsonSecretName(path) && '_' !in JsonSecretName(path)
  {
    if path != "" {
      NameAlphabet(path[1..]);
    }
  }

  /** A path can be read back from its name exactly when it is plain. */
  lemma {:induction false} JsonRoundTripExactly(path: string)
    ensures JsonPath(JsonSecretName(path)) == path <==> Plain(path)
  {
    if Plain(path) {
      JsonRoundTripPlain(path);
    }
    NameAlphabet(path);
    JsonPathIsPlain(JsonSecretName(path));
  }

  lemma {:induction false} NameOfReading(name: string)
    requires '/' !in name && '_' !in name
    ensures JsonSecretName(JsonPath(name)) == name
  {
    if name != "" {
      var path := JsonPath(name);
      if HasPrefix(name, "--") {
        NameOfReading(name[2..]);
        assert path[1..] == JsonPath(name[2..]);
        assert name == name[..2] + name[2..];
      } else {
        NameOfReading(name[1..]);
        assert path[1..] == JsonPath(name[1..]);
        assert name == [name[0]] + name[1..];
      }
    }
  }

  /** Every path shares its name with exactly one plain path: the one read back from the name. */
  lemma {:induction false} OnePlainPathPerName(path: string, q: string)
    ensures Plain(q) && JsonSecretName(q) == JsonSecretName(path) <==> q == JsonPath(JsonSecretName(path))
  {
    NameAlphabet(path);
    NameOfReading(JsonSecretName(path));
    JsonPathIsPlain(JsonSecretName(path));
    JsonRoundTripExactly(q);
  }

  /** So plain paths have distinct names. */
  lemma {:induction false} JsonInjective(p: string, q: string)
    requires Plain(p) && Plain(q) && JsonSecretName(p) == JsonSecretName(q)
    ensures p == q
  {
    JsonRoundTripPlain(p);
    JsonRoundTripPlain(q);
  }

  /** A segment with no underscore, no double hyphen, and no hyphen at its end. */
  predicate CleanSegment(seg: string)
  {
    && (seg != "" ==> seg[|seg|-1] != '-')
    && (forall i :: 0 <= i < |seg| ==> seg[i] != '_' && (seg[i] == '-' && i + 1 < |seg| ==> seg[i+1] != '-'))
  }

  /** The first character of a string is the first character of its first part, unless that part is empty. */
  lemma SplitHead(s: string)
    ensures Split(s, '/')[0] != "" ==> s != "" && s[0] == Split(s, '/')[0][0]
    ensures Split(s, '/')[0] == "" ==> s == "" || s[0] == '/'
  {
  }

  /** Paths whose segments are clean are plain; this is the documented well-behaved class. */
  lemma {:induction false} CleanSegmentsArePlain(path: string)
    requires forall i :: 0 <= i < |Split(path, '/')| ==> CleanSegment(Split(path, '/')[i])
    ensures Plain(path)
  {
    if path != "" {
      var parts, rest := Split(path, '/'), Split(path[1..], '/');
      forall i | 0 <= i < |rest| ensures CleanSegment(rest[i]) {
        if path[0] == '/' {
          assert rest[i] == parts[i+1];
        } else if i == 0 {
          assert parts[0] == [path[0]] + rest[0];
          assert forall k :: 0 <= k < |rest[0]| ==> rest[0][k] == parts[0][k+1];
        } else {
          assert rest[i] == parts[i];
        }
      }
      CleanSegmentsArePlain(path[1..]);
      PlainCons(path);
      SplitHead(path[1..]);
      if path[0] == '-' {
        assert parts[0] == [path[0]] + rest[0] && CleanSegment(parts[0]);
        assert rest[0] != "" && parts[0][1] == rest[0][0] == path[1];
        JoinSplit(path[1..], '/');
        assert rest[0][0] in rest[0] && '/' !in rest[0];
        assert parts[0][0] == '-' && path[1] != '-' && path[1] != '/';
      } else if path[0] == '_' {
        assert parts[0][0] == '_';
      }
    }
  }
}
