/** The Azure backend's reads: the flat listing that assembles a secret, and the cache around it. */
module AzureBackend {
  import opened Common
  import opened Strings
  import opened AzureNaming
  import opened CacheImpl
  import Spec = CacheSpec
  import Aside = CacheAside

  /** Key Vault's answer for one name: its value, a 404, or any other error. */
  datatype KvReply = Value(text: string) | Gone | Broken

  datatype Listing = Names(names: seq<string>) | ListGone | ListBroken

  /** A listed name belongs to `path` when it decodes to a key. */
  predicate Belongs(path: string, name: string)
  {
    FlatDecodeKey(path, name).Some?
  }

  /** What the listing gives: each belonging name that is still present, under its key; None if a fetch breaks. */
  function Gather(path: string, names: seq<string>, replies: seq<KvReply>): (r: Option<Secret>)
    requires |replies| == |names|
  {
    if names == [] then Some(map[])
    else
      var n := |names| - 1;
      match Gather(path, names[..n], replies[..n])
      case None => None
      case Some(m) =>
        if !Belongs(path, names[n]) || replies[n].Gone? then Some(m)
        else if replies[n].Broken? then None
        else Some(m[FlatDecodeKey(path, names[n]).value := replies[n].text])
  }

  /** The loop over the listing; `replies` are the answers the fetches would get, in order. */
  method Assemble(path: string, names: seq<string>, replies: seq<KvReply>) returns (r: Option<Secret>)
    requires |replies| == |names|
    ensures r == Gather(path, names, replies)
  {
    var prefix := FlatSecretPrefix(path);
    var result: Secret := map[];
    for i := 0 to |names|
      invariant Gather(path, names[..i], replies[..i]) == Some(result)
    {
      assert names[..i+1][..i] == names[..i] && replies[..i+1][..i] == replies[..i];
      if !HasPrefix(names[i], prefix) {
        continue;
      }
      var key := FlatDecodeKey(path, names[i]);
      if key.None? {
        continue;
      }
      match replies[i] {
        case Gone => continue;
        case Broken =>
          BrokenStays(path, names, replies, i + 1);
          return None;
        case Value(text) => result := result[key.value := text];
      }
    }
    assert names[..|names|] == names && replies[..|names|] == replies;
    r := Some(result);
  }

  lemma {:induction false} BrokenStays(path: string, names: seq<string>, replies: seq<KvReply>, n: nat)
    requires |replies| == |names| && n <= |names| && Gather(path, names[..n], replies[..n]).None?
    ensures Gather(path, names, replies).None?
  {
    if n == |names| {
      assert names[..n] == names && replies[..n] == replies;
    } else {
      var k := |names| - 1;
      assert names[..k][..n] == names[..n] && replies[..k][..n] == replies[..n];
      BrokenStays(path, names[..k], replies[..k], n);
    }
  }

  // ----- The listing loses nothing -----

  /** Position `i` contributes an entry. */
  predicate Present(path: string, names: seq<string>, replies: seq<KvReply>, i: nat)
    requires |replies| == |names|
  {
    i < |names| && Belongs(path, names[i]) && replies[i].Value?
  }

  ghost function PresentSet(path: string, names: seq<string>, replies: seq<KvReply>): set<nat>
    requires |replies| == |names|
  {
    set i: nat | 0 <= i < |names| && Present(path, names, replies, i)
  }

  ghost predicate Distinct(names: seq<string>)
  {
    forall i, j :: 0 <= i < j < |names| ==> names[i] != names[j]
  }

  /** The listing fails exactly when the fetch of some belonging name breaks. */
  lemma {:induction false} FailsExactly(path: string, names: seq<string>, replies: seq<KvReply>)
    requires |replies| == |names|
    ensures Gather(path, names, replies).None? <==> exists i :: 0 <= i < |names| && Belongs(path, names[i]) && replies[i].Broken?
  {
    if names != [] {
      var n := |names| - 1;
      FailsExactly(path, names[..n], replies[..n]);
      if Gather(path, names[..n], replies[..n]).None? {
        var i :| 0 <= i < n && Belongs(path, names[..n][i]) && replies[..n][i].Broken?;
        assert Belongs(path, names[i]) && replies[i].Broken?;
      }
      forall i | 0 <= i < |names| && Belongs(path, names[i]) && replies[i].Broken? ensures Gather(path, names, replies).None? {
        if i < n {
          assert Belongs(path, names[..n][i]) && replies[..n][i].Broken?;
        }
      }
    }
  }

  /** Every entry of the result comes from a present name of the listing. */
  lemma {:induction false} EntryFromName(path: string, names: seq<string>, replies: seq<KvReply>, key: string) returns (i: nat)
    requires |replies| == |names| && Gather(path, names, replies).Some? && key in Gather(path, names, replies).value
    ensures Present(path, names, replies, i)
    ensures FlatDecodeKey(path, names[i]) == Some(key) && Gather(path, names, replies).value[key] == replies[i].text
  {
    var n := |names| - 1;
    if Present(path, names, replies, n) && FlatDecodeKey(path, names[n]) == Some(key) {
      i := n;
    } else {
      i := EntryFromName(path, names[..n], replies[..n], key);
    }
  }

  /** With distinct names of the Key Vault alphabet, every present name has its own entry. */
  lemma {:induction false} NameHasEntry(path: string, names: seq<string>, replies: seq<KvReply>, i: nat)
    requires |replies| == |names| && Gather(path, names, replies).Some?
    requires Distinct(names) && (forall k :: 0 <= k < |names| ==> KeyVaultName(names[k]))
    requires Present(path, names, replies, i)
    ensures var m := Gather(path, names, replies).value; var key := FlatDecodeKey(path, names[i]).value;
            key in m && m[key] == replies[i].text
  {
    var n := |names| - 1;
    if i < n {
      NameHasEntry(path, names[..n], replies[..n], i);
      if Present(path, names, replies, n) && FlatDecodeKey(path, names[n]) == FlatDecodeKey(path, names[i]) {
        FlatDecodeInjective(path, names[i], names[n]);
      }
    }
  }

  /** The last name's key is new to what the earlier names gave. */
  lemma KeyIsNew(path: string, names: seq<string>, replies: seq<KvReply>, n: nat)
    requires |replies| == |names| == n + 1 && Gather(path, names[..n], replies[..n]).Some?
    requires Distinct(names) && (forall k :: 0 <= k < |names| ==> KeyVaultName(names[k]))
    requires Present(path, names, replies, n)
    ensures FlatDecodeKey(path, names[n]).value !in Gather(path, names[..n], replies[..n]).value
  {
    var key := FlatDecodeKey(path, names[n]).value;
    if key in Gather(path, names[..n], replies[..n]).value {
      var i := EntryFromName(path, names[..n], replies[..n], key);
      FlatDecodeInjective(path, names[i], names[n]);
    }
  }

  lemma PresentStep(path: string, names: seq<string>, replies: seq<KvReply>, n: nat)
    requires |replies| == |names| == n + 1
    ensures PresentSet(path, names, replies) ==
              PresentSet(path, names[..n], replies[..n]) + (if Present(path, names, replies, n) then {n} else {})
    ensures n !in PresentSet(path, names[..n], replies[..n])
  {
    forall i: nat | i < n ensures Present(path, names, replies, i) <==> Present(path, names[..n], replies[..n], i) {
    }
  }

  lemma GatherNone(path: string)
    ensures Gather(path, [], []) == Some(map[]) && PresentSet(path, [], []) == {}
  {
  }

  lemma GatherStep(path: string, names: seq<string>, replies: seq<KvReply>, n: nat)
    requires |replies| == |names| == n + 1 && Gather(path, names, replies).Some?
    ensures Gather(path, names[..n], replies[..n]).Some?
    ensures !Present(path, names, replies, n) ==> Gather(path, names, replies) == Gather(path, names[..n], replies[..n])
    ensures Present(path, names, replies, n) ==>
              && FlatDecodeKey(path, names[n]).Some?
              && Gather(path, names, replies).value ==
                 Gather(path, names[..n], replies[..n]).value[FlatDecodeKey(path, names[n]).value := replies[n].text]
  {
  }

  /**
   Nothing is lost and nothing is invented: the result has exactly one entry per belonging,
   still present name, so it is empty exactly when there is none.
   */
  lemma {:induction false} FlatListingLosesNothing(path: string, names: seq<string>, replies: seq<KvReply>)
    requires |replies| == |names| && Gather(path, names, replies).Some?
    requires Distinct(names) && (forall k :: 0 <= k < |names| ==> KeyVaultName(names[k]))
    ensures |Gather(path, names, replies).value| == |PresentSet(path, names, replies)|
    ensures Gather(path, names, replies).value == map[] <==> PresentSet(path, names, replies) == {}
  {
    hide FlatDecodeKey, KeyVaultName, Gather, PresentSet, Present;
    if names == [] {
      GatherNone(path);
    } else {
      var n := |names| - 1;
      GatherStep(path, names, replies, n);
      FlatListingLosesNothing(path, names[..n], replies[..n]);
      PresentStep(path, names, replies, n);
      if Present(path, names, replies, n) {
        KeyIsNew(path, names, replies, n);
      }
    }
  }

  /** The result is empty exactly when nothing contributes. */
  lemma {:induction false} EmptyExactly(path: string, names: seq<string>, replies: seq<KvReply>)
    requires |replies| == |names| && Gather(path, names, replies).Some?
    ensures Gather(path, names, replies).value == map[] <==> forall i: nat :: i < |names| ==> !Present(path, names, replies, i)
  {
    hide FlatDecodeKey, Gather, Present;
    if names == [] {
      GatherNone(path);
    } else {
      var n := |names| - 1;
      GatherStep(path, names, replies, n);
      EmptyExactly(path, names[..n], replies[..n]);
      forall i: nat | i < n ensures Present(path, names, replies, i) <==> Present(path, names[..n], replies[..n], i) {
        PresentBefore(path, names, replies, n, i);
      }
      if Present(path, names, replies, n) {
        assert FlatDecodeKey(path, names[n]).value in Gather(path, names, replies).value;
      }
    }
  }

  lemma PresentBefore(path: string, names: seq<string>, replies: seq<KvReply>, n: nat, i: nat)
    requires |replies| == |names| && i < n <= |names|
    ensures Present(path, names, replies, i) <==> Present(path, names[..n], replies[..n], i)
  {
  }

  /** The pairs of a secret, listed. */
  ghost predicate HasPairs(m: Secret, keys: seq<string>, values: seq<string>)
    requires |keys| == |values|
  {
    (forall key :: key in m <==> key in keys) && forall i :: 0 <= i < |keys| ==> keys[i] in m && m[keys[i]] == values[i]
  }

  lemma OneMorePair(m: Secret, keys: seq<string>, values: seq<string>, key: string, value: string)
    requires |keys| == |values| && HasPairs(m, keys, values) && key !in keys
    ensures HasPairs(m[key := value], keys + [key], values + [value])
  {
  }

  function AllPresent(values: seq<string>): (r: seq<KvReply>)
    ensures |r| == |values| && forall i :: 0 <= i < |values| ==> r[i] == Value(values[i])
  {
    seq(|values|, i requires 0 <= i < |values| => Value(values[i]))
  }

  /** Keys that survive a trip through a name, each once, with their names under `path`. */
  ghost predicate Named(path: string, keys: seq<string>, names: seq<string>)
  {
    && |keys| == |names|
    && (forall i :: 0 <= i < |keys| ==> keys[i] != "" && '-' !in keys[i] && '/' !in keys[i] && Spells(names[i], path, keys[i]))
    && (forall i, j :: 0 <= i < j < |keys| ==> keys[i] != keys[j])
  }

  lemma NamedBefore(path: string, keys: seq<string>, names: seq<string>)
    requires Named(path, keys, names) && keys != []
    ensures var n := |keys| - 1;
            Named(path, keys[..n], names[..n]) && keys[n] !in keys[..n] && FlatDecodeKey(path, names[n]) == Some(keys[n])
  {
    hide FlatDecodeKey, Spells;
    var n := |keys| - 1;
    FlatNameSpelled(path, keys[n], names[n]);
    FlatRoundTrip(path, keys[n]);
  }

  /**
   Written under the documented names, a secret is read back whole: a listing of the names of
   distinct keys without hyphens and slashes gives exactly those keys with their values.
   */
  lemma {:induction false} FlatSecretReadBack(path: string, keys: seq<string>, names: seq<string>, values: seq<string>)
    requires Named(path, keys, names) && |values| == |keys|
    ensures Gather(path, names, AllPresent(values)).Some? && HasPairs(Gather(path, names, AllPresent(values)).value, keys, values)
  {
    hide FlatDecodeKey, HasPairs, Gather;
    if names == [] {
      GatherNone(path);
      NoPairs();
      assert keys == [] && values == [] && AllPresent(values) == [];
    } else {
      var n := |names| - 1;
      NamedBefore(path, keys, names);
      hide Named;
      FlatSecretReadBack(path, keys[..n], names[..n], values[..n]);
      assert AllPresent(values)[..n] == AllPresent(values[..n]);
      GatherOne(path, names, AllPresent(values), n);
      OneMorePair(Gather(path, names[..n], AllPresent(values[..n])).value, keys[..n], values[..n], keys[n], values[n]);
      assert keys == keys[..n] + [keys[n]] && values == values[..n] + [values[n]];
    }
  }

  lemma NoPairs()
    ensures HasPairs(map[], [], [])
  {
  }

  /** A present name at the end of a listing adds its entry. */
  lemma GatherOne(path: string, names: seq<string>, replies: seq<KvReply>, n: nat)
    requires |replies| == |names| == n + 1 && Gather(path, names[..n], replies[..n]).Some? && Present(path, names, replies, n)
    ensures Gather(path, names, replies) ==
              Some(Gather(path, names[..n], replies[..n]).value[FlatDecodeKey(path, names[n]).value := replies[n].text])
  {
  }

  /** Without the alphabet the listing can lose an entry: two names, one key. */
  lemma {:induction false} UnderscoreNamesCollide()
    ensures var names := ["p--a-b", "p--a_b"];
            && FlatDecodeKey("p", names[0]) == FlatDecodeKey("p", names[1]) == Some("a_b")
            && Gather("p", names, [Value("1"), Value("2")]) == Some(map["a_b" := "2"])
  {
    var names, replies := ["p--a-b", "p--a_b"], [Value("1"), Value("2")];
    assert FlatEncode("p") == "p";
    assert FlatSecretPrefix("p") == "p--";
    assert names[0][..3] == "p--" && names[0][3..] == "a-b";
    assert names[1][..3] == "p--" && names[1][3..] == "a_b";
    assert HyphensToUnderscores("a-b") == "a_b" && HyphensToUnderscores("a_b") == "a_b";
    assert names[..1] == [names[0]] && replies[..1] == [replies[0]];
    assert names[..1][..0] == [] && replies[..1][..0] == [];
    assert Gather("p", names[..1][..0], replies[..1][..0]) == Some(map[]);
    assert Gather("p", names[..1], replies[..1]) == Some(map["a_b" := "1"]);
    assert map["a_b" := "1"]["a_b" := "2"] == map["a_b" := "2"];
  }

  // ----- The read -----

  /** The decoded json secret: its pairs, or nil for a json null, or undecodable. */
  datatype JsonReply = Decoded(value: Option<Secret>) | JsonGone | JsonBroken

  function JsonReplyOf(reply: JsonReply): Aside.Reply
  {
    match reply
    case Decoded(value) => Aside.Found(value)
    case JsonGone => Aside.Missing
    case JsonBroken => Aside.Outage
  }

  function FlatReplyOf(path: string, names: seq<string>, replies: seq<KvReply>): Aside.Reply
    requires |replies| == |names|
  {
    match Gather(path, names, replies)
    case None => Aside.Outage
    case Some(m) => if m == map[] then Aside.Missing else Aside.Found(Some(m))
  }

  /** What Key Vault would answer, by naming strategy: for each name, or for a listing and its names in order. */
  datatype Remote = Json(vault: string -> JsonReply) | Flat(listing: Listing, replies: seq<KvReply>)

  predicate WellAligned(remote: Remote)
  {
    remote.Flat? && remote.listing.Names? ==> |remote.replies| == |remote.listing.names|
  }

  /** The answer of the whole read; a 404 on the listing itself is not-found that is not cached. */
  function ReplyOf(path: string, remote: Remote): Aside.Reply
    requires WellAligned(remote)
  {
    match remote
    case Json(vault) => JsonReplyOf(vault(JsonSecretName(path)))
    case Flat(Names(names), replies) => FlatReplyOf(path, names, replies)
    case Flat(ListGone, _) => Aside.MissingUncached
    case Flat(ListBroken, _) => Aside.Outage
  }

  /**
   What a read must do, given what its lookup found: a hit is returned as it is and nothing is
   stored. On a miss, errors are returned and nothing is stored, and so is a 404 on the
   listing; a 404 on the json secret and a listing with nothing present are not-found, and
   found again as such for the negative lifetime; a secret is returned and found again.
   */
  ghost predicate Answers(cfg: Spec.Config, looked: (seq<Spec.Slot>, Spec.Lookup), path: string, remote: Remote, stored: int,
                          slots: seq<Spec.Slot>, outcome: Aside.Outcome)
    requires WellAligned(remote)
  {
    match looked.1
    case Hit(value, negative) => slots == looked.0 && outcome == if negative then Aside.NotFound else Aside.Served(value)
    case Miss => AnswersMiss(cfg, looked.0, path, remote, stored, slots, outcome)
  }

  ghost predicate AnswersMiss(cfg: Spec.Config, before: seq<Spec.Slot>, path: string, remote: Remote, stored: int,
                              slots: seq<Spec.Slot>, outcome: Aside.Outcome)
    requires WellAligned(remote)
  {
    match remote
    case Json(vault) =>
      (match vault(JsonSecretName(path))
       case JsonBroken => slots == before && outcome == Aside.Unavailable
       case JsonGone => outcome == Aside.NotFound && KeptNegative(cfg, before, slots, path, stored)
       case Decoded(value) =>
         outcome == Aside.Served(value) && Spec.KeptFor(cfg, before, slots, path, cfg.ttl, stored, Spec.Hit(value, false)))
    case Flat(ListGone, _) => slots == before && outcome == Aside.NotFound
    case Flat(ListBroken, _) => slots == before && outcome == Aside.Unavailable
    case Flat(Names(names), replies) =>
      if exists i :: 0 <= i < |names| && Belongs(path, names[i]) && replies[i].Broken? then
        slots == before && outcome == Aside.Unavailable
      else if forall i: nat :: i < |names| ==> !Present(path, names, replies, i) then
        outcome == Aside.NotFound && KeptNegative(cfg, before, slots, path, stored)
      else
        && outcome == Aside.Served(Gather(path, names, replies)) && outcome.value.Some?
        && Spec.KeptFor(cfg, before, slots, path, cfg.ttl, stored, Spec.Hit(outcome.value, false))
  }

  ghost predicate KeptNegative(cfg: Spec.Config, before: seq<Spec.Slot>, slots: seq<Spec.Slot>, path: string, stored: int)
  {
    Spec.KeptFor(cfg, before, slots, path, cfg.negativeTtl, stored, Spec.Hit(None, true))
  }

  lemma ReplyAnswersJson(cfg: Spec.Config, before: seq<Spec.Slot>, path: string, vault: string -> JsonReply, stored: int)
    requires Spec.Inv(cfg, before)
    ensures var reply := JsonReplyOf(vault(JsonSecretName(path)));
            AnswersMiss(cfg, before, path, Json(vault), stored, Aside.StoreReply(cfg, before, path, reply, stored), Aside.OutcomeOf(reply))
  {
    var reply := vault(JsonSecretName(path));
    hide Spec.KeptFor, Spec.Set, Spec.SetNegative;
    Spec.StoredThenFound(cfg, before, path, if reply.Decoded? then reply.value else None, stored);
  }

  lemma ReplyAnswersFlat(cfg: Spec.Config, before: seq<Spec.Slot>, path: string, names: seq<string>, replies: seq<KvReply>, stored: int)
    requires Spec.Inv(cfg, before) && |replies| == |names|
    ensures AnswersMiss(cfg, before, path, Flat(Names(names), replies), stored,
                        Aside.StoreReply(cfg, before, path, FlatReplyOf(path, names, replies), stored), Aside.OutcomeOf(FlatReplyOf(path, names, replies)))
  {
    hide Spec.KeptFor, Spec.Set, Spec.SetNegative, Gather;
    var read := Gather(path, names, replies);
    Spec.StoredThenFound(cfg, before, path, read, stored);
    FailsExactly(path, names, replies);
    if read.Some? {
      EmptyExactly(path, names, replies);
    }
  }

  class AzureBackend {
    const cache: Cache

    constructor (cfg: Spec.RawConfig)
      ensures cache.Valid() && fresh(cache) && fresh(cache.Repr) && cache.slots == [] && cache.cfg == Spec.Normalize(cfg)
    {
      cache := new Cache(cfg);
    }

    /** One read, in either strategy: the cache-aside protocol run by one reader. */
    method GetSecret(path: string, remote: Remote, lookedUp: int, stored: int) returns (data: SecretMap?, outcome: Aside.Outcome)
      requires cache.Valid() && WellAligned(remote)
      modifies cache.Repr
      ensures cache.Valid() && fresh(cache.Repr - old(cache.Repr))
      ensures (cache.slots, outcome) == Aside.Solo(cache.cfg, old(cache.slots), path, ReplyOf(path, remote), lookedUp, stored)
      ensures Answers(cache.cfg, Spec.Get(cache.cfg, old(cache.slots), path, lookedUp), path, remote, stored, cache.slots, outcome)
      ensures outcome.Served? ==> outcome.value == Contents(data)
      ensures data != null ==> outcome.Served? && fresh(data) && data !in cache.Repr
    {
      hide Cache.Valid, Spec.Get, Spec.Set, Spec.SetNegative, Gather, AnswersMiss;
      var value, hit, isNegative := cache.Get(path, lookedUp);
      if hit {
        if isNegative {
          return null, Aside.NotFound;
        }
        return value, Aside.Served(if value == null then None else Some(value.m));
      }
      match remote {
        case Json(vault) => data, outcome := GetJson(path, vault, stored);
        case Flat(listing, replies) => data, outcome := GetFlat(path, listing, replies, stored);
      }
    }

    /** The json strategy, after a miss. */
    method GetJson(path: string, vault: string -> JsonReply, now: int) returns (data: SecretMap?, outcome: Aside.Outcome)
      requires cache.Valid()
      modifies cache.Repr
      ensures cache.Valid() && fresh(cache.Repr - old(cache.Repr))
      ensures cache.slots == Aside.StoreReply(cache.cfg, old(cache.slots), path, JsonReplyOf(vault(JsonSecretName(path))), now)
      ensures outcome == Aside.OutcomeOf(JsonReplyOf(vault(JsonSecretName(path))))
      ensures AnswersMiss(cache.cfg, old(cache.slots), path, Json(vault), now, cache.slots, outcome)
      ensures outcome.Served? ==> outcome.value == Contents(data)
      ensures data != null ==> outcome.Served? && fresh(data) && data !in cache.Repr
    {
      hide Cache.Consistent, Spec.Set, Spec.SetNegative, Spec.Inv, AnswersMiss;
      ReplyAnswersJson(cache.cfg, cache.slots, path, vault, now);
      var name := JsonSecretName(path);
      match vault(name) {
        case JsonGone =>
          cache.SetNegative(path, now);
          return null, Aside.NotFound;
        case JsonBroken =>
          return null, Aside.Unavailable;
        case Decoded(value) =>
          var result: SecretMap? := null;
          if value.Some? {
            result := new SecretMap(value.value);
          }
          cache.Set(path, result, now);
          return result, Aside.Served(value);
      }
    }

    /** The flat strategy, after a miss. A 404 on the listing itself is reported but not cached. */
    method GetFlat(path: string, listing: Listing, replies: seq<KvReply>, now: int) returns (data: SecretMap?, outcome: Aside.Outcome)
      requires cache.Valid() && (listing.Names? ==> |replies| == |listing.names|)
      modifies cache.Repr
      ensures cache.Valid() && fresh(cache.Repr - old(cache.Repr))
      ensures match listing {
                case ListGone => cache.slots == old(cache.slots) && outcome == Aside.NotFound
                case ListBroken => cache.slots == old(cache.slots) && outcome == Aside.Unavailable
                case Names(names) =>
                  && cache.slots == Aside.StoreReply(cache.cfg, old(cache.slots), path, FlatReplyOf(path, names, replies), now)
                  && outcome == Aside.OutcomeOf(FlatReplyOf(path, names, replies))
              }
      ensures AnswersMiss(cache.cfg, old(cache.slots), path, Flat(listing, replies), now, cache.slots, outcome)
      ensures outcome.Served? ==> outcome.value == Contents(data)
      ensures data != null ==> outcome.Served? && fresh(data) && data !in cache.Repr
    {
      hide Cache.Consistent, Spec.Set, Spec.SetNegative, Spec.Inv, Gather;
      match listing {
        case ListGone => return null, Aside.NotFound;
        case ListBroken => return null, Aside.Unavailable;
        case Names(names) =>
          hide AnswersMiss;
          ReplyAnswersFlat(cache.cfg, cache.slots, path, names, replies, now);
          var gathered := Assemble(path, names, replies);
          if gathered.None? {
            return null, Aside.Unavailable;
          }
          if |gathered.value| == 0 {
            cache.SetNegative(path, now);
            return null, Aside.NotFound;
          }
          var result := new SecretMap(gathered.value);
          cache.Set(path, result, now);
          return result, Aside.Served(gathered);
      }
    }
  }
}
