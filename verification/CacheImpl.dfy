/**
 The secret cache as it is built: a map from path to entry, and a linked list of paths kept
 in recency order. Every method is proved to be the function of the same name in CacheSpec
 on the abstract list of slots.
 */
module CacheImpl {
  import opened Common
  import opened LinkedList
  import Spec = CacheSpec

  /** A Go map: a reference whose contents the holder may change. */
  class SecretMap {
    var m: Secret

    constructor (m: Secret)
      ensures this.m == m
    {
      this.m := m;
    }
  }

  /** The contents behind a possibly nil map. */
  ghost function Contents(v: SecretMap?): (r: Option<Secret>)
    reads v
  {
    if v == null then None else Some(v.m)
  }

  /** Copies a map key by key, in whatever order the keys come. */
  method CloneMap(src: SecretMap?) returns (dst: SecretMap?)
    ensures Contents(dst) == Contents(src)
    ensures dst != null ==> fresh(dst)
  {
    if src == null {
      return null;
    }
    var out := new SecretMap(map[]);
    var todo := src.m.Keys;
    while todo != {}
      invariant todo <= src.m.Keys
      invariant out.m == map k | k in src.m.Keys - todo :: src.m[k]
      invariant fresh(out) && src.m == old(src.m)
    {
      var k :| k in todo;
      out.m := out.m[k := src.m[k]];
      todo := todo - {k};
    }
    assert out.m == src.m;
    dst := out;
  }

  /** One cache entry; the map owns it, so updating it is replacing it in the map. */
  datatype Entry = Entry(value: SecretMap?, negative: bool, expiresAt: int, elem: Element)

  ghost function SlotOf(path: string, e: Entry): Spec.Slot
    reads e.value
  {
    Spec.Slot(path, Contents(e.value), e.negative, e.expiresAt)
  }

  /**
   The nodes and the map hold the same paths, each entry points to its own node, and `slots`
   lists `data` in node order. Equal sizes stand in for "every path in the map has a node";
   EveryPathHasANode derives that.
   */
  ghost predicate Matched(nodes: seq<Element>, items: map<string, Entry>, data: map<string, Spec.Slot>, slots: seq<Spec.Slot>)
  {
    && |items| == |nodes| == |slots|
    && items.Keys == data.Keys
    && Distinct(nodes)
    && (forall i :: 0 <= i < |nodes| ==>
          nodes[i].value in items && items[nodes[i].value].elem == nodes[i] && slots[i] == data[nodes[i].value])
  }

  ghost function Values(nodes: seq<Element>): set<string>
  {
    set i | 0 <= i < |nodes| :: nodes[i].value
  }

  lemma {:induction false} ValuesSize(nodes: seq<Element>)
    requires forall i, j :: 0 <= i < j < |nodes| ==> nodes[i].value != nodes[j].value
    ensures |Values(nodes)| == |nodes|
  {
    if nodes != [] {
      var init, last := nodes[..|nodes|-1], nodes[|nodes|-1].value;
      ValuesSize(init);
      assert last !in Values(init);
      assert Values(nodes) == Values(init) + {last};
    }
  }

  lemma EveryPathHasANode(nodes: seq<Element>, items: map<string, Entry>, data: map<string, Spec.Slot>,
                          slots: seq<Spec.Slot>, path: string) returns (i: nat)
    requires Matched(nodes, items, data, slots) && path in items
    ensures i < |nodes| && nodes[i].value == path && items[path].elem == nodes[i] && slots[i] == data[path]
  {
    forall i, j | 0 <= i < j < |nodes| ensures nodes[i].value != nodes[j].value {
      assert items[nodes[i].value].elem == nodes[i] && items[nodes[j].value].elem == nodes[j];
    }
    ValuesSize(nodes);
    assert Values(nodes) <= items.Keys;
    assert |items.Keys| == |items|;
    SubsetSize(Values(nodes), items.Keys);
    assert path in Values(nodes);
    i :| 0 <= i < |nodes| && nodes[i].value == path;
  }

  lemma MatchedRemove(nodes: seq<Element>, items: map<string, Entry>, data: map<string, Spec.Slot>, slots: seq<Spec.Slot>, i: nat)
    requires Matched(nodes, items, data, slots) && i < |nodes|
    ensures var path := nodes[i].value;
            Matched(nodes[..i] + nodes[i+1..], items - {path}, data - {path}, slots[..i] + slots[i+1..])
  {
    var path := nodes[i].value;
    var rest, left := nodes[..i] + nodes[i+1..], items - {path};
    assert items.Keys == left.Keys + {path};
    forall k | 0 <= k < |rest|
      ensures rest[k].value in left && left[rest[k].value].elem == rest[k]
      ensures (slots[..i] + slots[i+1..])[k] == (data - {path})[rest[k].value]
    {
      var j := if k < i then k else k + 1;
      assert rest[k] == nodes[j] && nodes[j] != nodes[i];
    }
    forall j, k | 0 <= j < k < |rest| ensures rest[j] != rest[k] {
      assert rest[j] == nodes[if j < i then j else j + 1] && rest[k] == nodes[if k < i then k else k + 1];
    }
  }

  lemma MatchedFront(nodes: seq<Element>, items: map<string, Entry>, data: map<string, Spec.Slot>, slots: seq<Spec.Slot>, i: nat)
    requires Matched(nodes, items, data, slots) && i < |nodes|
    ensures Matched([nodes[i]] + nodes[..i] + nodes[i+1..], items, data, [slots[i]] + slots[..i] + slots[i+1..])
  {
    var moved := [nodes[i]] + nodes[..i] + nodes[i+1..];
    var order := [slots[i]] + slots[..i] + slots[i+1..];
    forall k | 0 <= k < |moved|
      ensures moved[k] == nodes[if k == 0 then i else if k <= i then k - 1 else k]
      ensures order[k] == slots[if k == 0 then i else if k <= i then k - 1 else k]
    {
    }
  }

  lemma MatchedWrite(nodes: seq<Element>, items: map<string, Entry>, data: map<string, Spec.Slot>, slots: seq<Spec.Slot>,
                     i: nat, e: Entry, slot: Spec.Slot)
    requires Matched(nodes, items, data, slots) && i < |nodes| && e.elem == nodes[i]
    ensures Matched(nodes, items[nodes[i].value := e], data[nodes[i].value := slot], slots[i := slot])
  {
    forall k | 0 <= k < |nodes| && k != i ensures nodes[k].value != nodes[i].value {
      assert nodes[k] != nodes[i];
    }
  }

  lemma MatchedPush(nodes: seq<Element>, items: map<string, Entry>, data: map<string, Spec.Slot>, slots: seq<Spec.Slot>,
                    node: Element, e: Entry, slot: Spec.Slot)
    requires Matched(nodes, items, data, slots) && node.value !in items && e.elem == node
    ensures Matched([node] + nodes, items[node.value := e], data[node.value := slot], [slot] + slots)
  {
  }

  ghost function Objects(v: SecretMap?): set<object>
  {
    if v == null then {} else {v}
  }

  ghost function Maps(items: map<string, Entry>): set<SecretMap>
  {
    set p | p in items && items[p].value != null :: items[p].value
  }

  /** Nodes and value maps of the entries are in the footprint `repr`. */
  ghost predicate OwnedIn(items: map<string, Entry>, repr: set<object>)
  {
    forall p :: p in items ==> items[p].elem in repr && (items[p].value != null ==> items[p].value in repr)
  }

  /** `data` is what the entries hold. */
  ghost predicate Holds(items: map<string, Entry>, data: map<string, Spec.Slot>)
    reads Maps(items)
  {
    items.Keys == data.Keys && (forall p :: p in items ==> data[p] == SlotOf(p, items[p]))
  }

  lemma HoldsUpdate(items: map<string, Entry>, data: map<string, Spec.Slot>, repr: set<object>,
                    path: string, e: Entry, slot: Spec.Slot, grown: set<object>)
    requires Holds(items, data) && OwnedIn(items, repr)
    requires slot == SlotOf(path, e) && repr <= grown && e.elem in grown && (e.value != null ==> e.value in grown)
    ensures Holds(items[path := e], data[path := slot]) && OwnedIn(items[path := e], grown)
  {
  }

  lemma HoldsRemove(items: map<string, Entry>, data: map<string, Spec.Slot>, repr: set<object>, path: string)
    requires Holds(items, data) && OwnedIn(items, repr)
    ensures Holds(items - {path}, data - {path}) && OwnedIn(items - {path}, repr)
  {
  }

  class Cache {
    const cfg: Spec.Config
    const lru: List
    var items: map<string, Entry>
    ghost var Repr: set<object>
    ghost var data: map<string, Spec.Slot>
    ghost var slots: seq<Spec.Slot>  // the abstract value, most recently used first

    /** Holds between the lines of a store too, while the bound is exceeded. */
    ghost predicate Consistent()
      reads this, Repr
      ensures Consistent() ==> this in Repr
    {
      && this in Repr && lru in Repr && lru.root in Repr
      && OwnedIn(items, Repr)
      && Matched(lru.elems, items, data, slots)
      && lru.Valid()
      && Holds(items, data)
    }

    ghost predicate Valid()
      reads this, Repr
      ensures Valid() ==> this in Repr
    {
      Consistent() && Spec.Inv(cfg, slots)
    }

    constructor (raw: Spec.RawConfig)
      ensures Valid() && fresh(Repr) && slots == [] && cfg == Spec.Normalize(raw)
    {
      cfg := Spec.Normalize(raw);
      var l := new List();
      lru := l;
      items, data, slots := map[], map[], [];
      Repr := {this, l, l.root};
    }

    /** Node positions, list paths and map keys determine one another. */
    lemma {:induction false} SlotAt(path: string) returns (i: nat)
      requires Consistent() && path in items
      ensures i < |lru.elems| && lru.elems[i] == items[path].elem && lru.elems[i].value == path
      ensures i < |slots| && slots[i] == data[path] && data[path].path == path
      ensures Spec.DistinctPaths(slots)
      ensures lru.elems[i] in lru.elems && (forall e :: e in lru.elems ==> e in Repr)
      ensures Spec.Find(slots, path) == Some(data[path])
      ensures Spec.Without(slots, path) == slots[..i] + slots[i+1..]
    {
      i := EveryPathHasANode(lru.elems, items, data, slots, path);
      Spec.WithoutAt(slots, i);
    }

    lemma NodesOwned()
      requires Consistent()
      ensures forall e :: e in lru.elems ==> e in Repr
    {
    }

    lemma Sizes()
      requires Consistent()
      ensures |items| == |lru.elems| == |slots|
    {
    }

    /** The last node's path is in the map, and removing it drops the last slot. */
    lemma BackSlot()
      requires Consistent() && lru.elems != []
      ensures |slots| > 0 && lru.elems[|lru.elems|-1].value in items
      ensures Spec.Without(slots, lru.elems[|lru.elems|-1].value) == slots[..|slots|-1]
    {
      var i := SlotAt(lru.elems[|lru.elems|-1].value);
      assert i == |slots| - 1;
    }

    lemma NoSlot(path: string)
      requires Consistent() && path !in items
      ensures Spec.Find(slots, path).None?
      ensures Spec.Without(slots, path) == slots
    {
      Spec.WithoutAbsent(slots, path);
    }

    method RemoveLocked(path: string, e: Entry)
      requires Consistent() && path in items && items[path] == e
      modifies Repr
      ensures Consistent() && Repr == old(Repr)
      ensures items == old(items) - {path}
      ensures slots == Spec.Without(old(slots), path)
    {
      hide List.Valid, Matched, Distinct, Holds, OwnedIn, Spec.Without, Spec.Find, Spec.DistinctPaths;
      ghost var i := SlotAt(path);
      MatchedRemove(lru.elems, items, data, slots, i);
      lru.Remove(e.elem, i);
      items := items - {path};
      data, slots := data - {path}, slots[..i] + slots[i+1..];
      assert forall o :: o in Maps(old(items)) ==> unchanged(o);
      HoldsRemove(old(items), old(data), Repr, path);
    }

    method Touch(path: string, e: Entry)
      requires Consistent() && path in items && items[path] == e
      modifies Repr
      ensures Consistent() && Repr == old(Repr) && items == old(items) && data == old(data)
      ensures slots == [data[path]] + Spec.Without(old(slots), path)
    {
      hide List.Valid, Matched, Distinct, Holds, OwnedIn, Spec.Without, Spec.Find, Spec.DistinctPaths;
      ghost var i := SlotAt(path);
      MatchedFront(lru.elems, items, data, slots, i);
      lru.MoveToFront(e.elem, i);
      slots := [slots[i]] + slots[..i] + slots[i+1..];
      assert forall o :: o in Maps(items) ==> unchanged(o);
    }

    /** Looks `path` up, with `now` the clock reading; a live entry becomes the most recent. */
    method Get(path: string, now: int) returns (value: SecretMap?, hit: bool, isNegative: bool)
      requires Valid()
      modifies Repr
      ensures Valid() && Repr == old(Repr)
      ensures slots == Spec.Get(cfg, old(slots), path, now).0
      ensures Spec.Get(cfg, old(slots), path, now).1 == if hit then Spec.Hit(Contents(value), isNegative) else Spec.Miss
      ensures !hit ==> value == null && !isNegative
      ensures value != null ==> fresh(value)
    {
      hide List.Valid, Matched, Distinct, Spec.Without, Spec.Find, Spec.Inv;
      value, hit, isNegative := null, false, false;
      if !cfg.enabled {
        return;
      }
      if path !in items {
        NoSlot(path);
        return;
      }
      Spec.GetInv(cfg, slots, path, now);
      var e := items[path];
      ghost var i := SlotAt(path);
      if now > e.expiresAt {
        RemoveLocked(path, e);
        return;
      }
      Touch(path, e);
      hit, isNegative := true, e.negative;
      if !e.negative {
        value := CloneMap(e.value);
      }
    }

    /** Evicts from the back while the bound is exceeded. The two guarded branches are dead. */
    method EvictLocked()
      requires Consistent()
      modifies Repr
      ensures Consistent() && Repr == old(Repr)
      ensures var s := old(slots); slots == if |s| <= cfg.maxEntries then s else s[..cfg.maxEntries]
    {
      hide List.Valid, Matched, Distinct, Holds, OwnedIn, Spec.Without, Spec.Find, Spec.DistinctPaths;
      ghost var s := slots;
      Sizes();
      while |items| > cfg.maxEntries
        invariant Consistent() && Repr == old(Repr)
        invariant |items| == |slots| <= |s| && slots == s[..|slots|]
        invariant |slots| == |s| || |slots| >= cfg.maxEntries
        decreases |items|
      {
        Sizes();
        var back := lru.Back();
        if back == null {
          assert false;  // an oversized cache has a non-empty list
        }
        BackSlot();
        var path := back.value;
        if path in items {
          RemoveLocked(path, items[path]);
          Sizes();
        } else {
          assert false;  // every node's path is in the map
        }
      }
    }

    /** Writes an entry and hands `value` over to the cache. */
    method StoreLocked(path: string, value: SecretMap?, negative: bool, ttl: int, now: int)
      requires Valid() && (negative ==> value == null) && (value != null ==> value !in Repr)
      modifies Repr, Objects(value)
      ensures Valid()
      ensures fresh(Repr - old(Repr) - Objects(value))
      ensures slots == Spec.Store(cfg, old(slots), path, old(Contents(value)), negative, ttl, now)
    {
      hide List.Valid, Matched, Distinct, Holds, OwnedIn, Spec.Without, Spec.Find, Spec.Inv;
      Spec.StoreInv(cfg, slots, path, Contents(value), negative, ttl, now);
      if path in items {
        ghost var i := SlotAt(path);
        Overwrite(path, value, negative, now + ttl);
        return;
      }
      NoSlot(path);
      Insert(path, value, negative, now + ttl);
      EvictLocked();
    }

    method Overwrite(path: string, value: SecretMap?, negative: bool, expiresAt: int)
      requires Consistent() && path in items && (value != null ==> value !in Repr)
      modifies Repr, Objects(value)
      ensures Consistent() && Repr == old(Repr) + Objects(value)
      ensures slots == [Spec.Slot(path, old(Contents(value)), negative, expiresAt)] + Spec.Without(old(slots), path)
    {
      WriteEntry(path, items[path], value, negative, expiresAt);
      Touch(path, items[path]);
    }

    method WriteEntry(path: string, e: Entry, value: SecretMap?, negative: bool, expiresAt: int)
      requires Consistent() && path in items && items[path] == e && (value != null ==> value !in Repr)
      modifies this
      ensures Consistent() && Repr == old(Repr) + Objects(value) && path in items
      ensures data[path] == Spec.Slot(path, Contents(value), negative, expiresAt)
      ensures Spec.Without(slots, path) == Spec.Without(old(slots), path)
    {
      hide List.Valid, Matched, Distinct, Holds, OwnedIn, Spec.Without, Spec.Find, Spec.DistinctPaths;
      ghost var i := SlotAt(path);
      ghost var slot := Spec.Slot(path, Contents(value), negative, expiresAt);
      var e' := e.(value := value, negative := negative, expiresAt := expiresAt);
      MatchedWrite(lru.elems, items, data, slots, i, e', slot);
      items := items[path := e'];
      Spec.WithoutRewrite(slots, i, slot);
      data, slots, Repr := data[path := slot], slots[i := slot], Repr + Objects(value);
      assert forall o :: o in Maps(old(items)) ==> unchanged(o);
      HoldsUpdate(old(items), old(data), old(Repr), path, e', slot, Repr);
    }

    method Insert(path: string, value: SecretMap?, negative: bool, expiresAt: int)
      requires Consistent() && path !in items && (value != null ==> value !in Repr)
      modifies Repr, Objects(value)
      ensures Consistent()
      ensures fresh(Repr - old(Repr) - Objects(value))
      ensures slots == [Spec.Slot(path, old(Contents(value)), negative, expiresAt)] + old(slots)
    {
      hide List.Valid, Matched, Distinct, Holds, OwnedIn, Contents;
      NodesOwned();
      var node := lru.PushFront(path);
      assert forall o :: o in Maps(items) ==> unchanged(o);
      Register(node, Entry(value, negative, expiresAt, node), old(lru.elems));
    }

    /** Files an entry whose node was just pushed. */
    method Register(node: Element, e: Entry, ghost nodes: seq<Element>)
      requires this in Repr && lru in Repr && lru.root in Repr && lru.Valid() && lru.elems == [node] + nodes
      requires OwnedIn(items, Repr) && Matched(nodes, items, data, slots) && Holds(items, data)
      requires e.elem == node && node.value !in items && (e.value != null ==> e.value !in Repr)
      modifies this
      ensures Consistent() && Repr == old(Repr) + {node} + Objects(e.value)
      ensures slots == [SlotOf(node.value, e)] + old(slots)
    {
      hide List.Valid, Matched, Distinct, Holds, OwnedIn;
      ghost var slot := SlotOf(node.value, e);
      MatchedPush(nodes, items, data, slots, node, e, slot);
      items := items[node.value := e];
      data, slots, Repr := data[node.value := slot], [slot] + slots, Repr + {node} + Objects(e.value);
      assert forall o :: o in Maps(old(items)) ==> unchanged(o);
      HoldsUpdate(old(items), old(data), old(Repr), node.value, e, slot, Repr);
    }

    method Set(path: string, value: SecretMap?, now: int)
      requires Valid()
      modifies Repr
      ensures Valid() && fresh(Repr - old(Repr))
      ensures slots == Spec.Set(cfg, old(slots), path, old(Contents(value)), now)
    {
      hide Consistent, Spec.Inv, Spec.Store;
      if !cfg.enabled || cfg.ttl <= 0 {
        return;
      }
      var copy := CloneMap(value);
      StoreLocked(path, copy, false, cfg.ttl, now);
    }

    method SetNegative(path: string, now: int)
      requires Valid()
      modifies Repr
      ensures Valid() && fresh(Repr - old(Repr))
      ensures slots == Spec.SetNegative(cfg, old(slots), path, now)
    {
      if !cfg.enabled || cfg.negativeTtl <= 0 {
        return;
      }
      StoreLocked(path, null, true, cfg.negativeTtl, now);
    }

    method Invalidate(path: string)
      requires Valid()
      modifies Repr
      ensures Valid() && Repr == old(Repr)
      ensures slots == Spec.Without(old(slots), path)
    {
      if path in items {
        Spec.WithoutDistinct(slots, path);
        RemoveLocked(path, items[path]);
      } else {
        NoSlot(path);
      }
    }

    method Flush()
      requires Valid()
      modifies Repr
      ensures Valid() && Repr == old(Repr) && slots == []
    {
      items := map[];
      lru.Init();
      data, slots := map[], [];
    }

    method Len() returns (n: nat)
      requires Valid()
      ensures n == |slots|
    {
      n := |items|;
    }
  }
}
