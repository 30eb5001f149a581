/** The bounded cache of expanded app-state keys, and the lookups that go through it. */
module KeyCache {
  import opened Common
  import opened SyncWire

  const CAPACITY := 32

  /** `order` is oldest first. */
  datatype Cache = Cache(keys: KeyMap, order: seq<Bytes>)

  function Evicted(c: Cache): Cache
    decreases |c.order|
  {
    if |c.order| <= CAPACITY then c else Evicted(Cache(c.keys - {c.order[0]}, c.order[1..]))
  }

  /** What `KeyCache::insert` must leave behind. */
  function Inserted(c: Cache, id: Bytes, k: Keys): Cache {
    if id in c.keys then c.(keys := c.keys[id := k]) else Evicted(Cache(c.keys[id := k], c.order + [id]))
  }

  ghost predicate WellFormed(c: Cache) {
    NoDuplicates(c.order) && Elements(c.order) == c.keys.Keys && |c.order| <= CAPACITY
  }

  /** The newest of a list, as many as the cache holds. */
  function Newest(ids: seq<Bytes>): seq<Bytes> {
    if |ids| <= CAPACITY then ids else ids[|ids| - CAPACITY..]
  }

  function InsertAll(ops: seq<(Bytes, Keys)>): Cache {
    if ops == [] then Cache(map[], [])
    else Inserted(InsertAll(ops[..|ops| - 1]), ops[|ops| - 1].0, ops[|ops| - 1].1)
  }

  /** The ids that were not cached when they were inserted, in order. */
  function NewIds(ops: seq<(Bytes, Keys)>): seq<Bytes> {
    if ops == [] then []
    else
      var rest, id := ops[..|ops| - 1], ops[|ops| - 1].0;
      NewIds(rest) + (if id in InsertAll(rest).keys then [] else [id])
  }

  lemma GrownOrder(order: seq<Bytes>, id: Bytes)
    requires NoDuplicates(order) && id !in Elements(order)
    ensures NoDuplicates(order + [id])
    ensures Elements(order + [id]) == Elements(order) + {id}
  {
    ElementsOfSnoc(order, id);
    var grown := order + [id];
    forall i, j | 0 <= i < j < |grown| ensures grown[i] != grown[j] {
      assert grown[i] in Elements(order);
    }
  }

  lemma DroppedOldest(order: seq<Bytes>)
    requires NoDuplicates(order) && order != []
    ensures NoDuplicates(order[1..])
    ensures Elements(order[1..]) == Elements(order) - {order[0]}
  {
    var rest := order[1..];
    forall x | x in Elements(order) && x != order[0] ensures x in Elements(rest) {
      var i :| 0 <= i < |order| && order[i] == x;
      assert rest[i - 1] == x;
    }
    forall x | x in Elements(rest) ensures x in Elements(order) && x != order[0] {
      var i :| 0 <= i < |rest| && rest[i] == x;
      assert order[i + 1] == x;
    }
  }

  lemma EvictOne(c: Cache, id: Bytes, k: Keys)
    requires WellFormed(c) && id !in c.keys
    ensures WellFormed(Inserted(c, id, k))
    ensures Inserted(c, id, k).order == if |c.order| < CAPACITY then c.order + [id] else c.order[1..] + [id]
  {
    GrownOrder(c.order, id);
    if |c.order| == CAPACITY {
      var grown := Cache(c.keys[id := k], c.order + [id]);
      DroppedOldest(grown.order);
      var evicted := Cache(grown.keys - {grown.order[0]}, grown.order[1..]);
      assert grown.order[1..] == c.order[1..] + [id];
      assert Evicted(grown) == Evicted(evicted) == evicted;
    }
  }

  lemma NewestSnoc(ids: seq<Bytes>, id: Bytes)
    ensures Newest(ids + [id]) == if |Newest(ids)| < CAPACITY then Newest(ids) + [id] else Newest(ids)[1..] + [id]
  {
  }

  /** After any sequence of insertions the order list is duplicate-free, names exactly the
      cached keys, and is the newest of the ids that were new when inserted. */
  lemma {:induction false} HoldsNewest(ops: seq<(Bytes, Keys)>)
    ensures WellFormed(InsertAll(ops))
    ensures InsertAll(ops).order == Newest(NewIds(ops))
    ensures |InsertAll(ops).order| == if |NewIds(ops)| <= 32 then |NewIds(ops)| else 32
  {
    if ops != [] {
      var rest, last := ops[..|ops| - 1], ops[|ops| - 1];
      HoldsNewest(rest);
      if last.0 in InsertAll(rest).keys {
        assert NewIds(ops) == NewIds(rest);
      } else {
        EvictOne(InsertAll(rest), last.0, last.1);
        NewestSnoc(NewIds(rest), last.0);
      }
    }
  }

  // ---------------------------------------------------------------- lookups

  /** Every cached key is the expansion of what the backend stores under its id. */
  ghost predicate Faithful(expand: Bytes -> Keys, c: Cache, stored: map<Bytes, Bytes>) {
    forall id :: id in c.keys ==> id in stored && c.keys[id] == expand(stored[id])
  }

  /** Every stored key, expanded: what an uncached reader sees. */
  function Available(expand: Bytes -> Keys, stored: map<Bytes, Bytes>): KeyMap {
    map id | id in stored :: expand(stored[id])
  }

  lemma EvictedShrinks(c: Cache, id: Bytes)
    ensures id in Evicted(c).keys ==> id in c.keys && Evicted(c).keys[id] == c.keys[id]
    decreases |c.order|
  {
  }

  lemma FaithfulInsert(expand: Bytes -> Keys, c: Cache, stored: map<Bytes, Bytes>, id: Bytes)
    requires Faithful(expand, c, stored) && id in stored
    ensures Faithful(expand, Inserted(c, id, expand(stored[id])), stored)
  {
    var k := expand(stored[id]);
    if id !in c.keys {
      forall x | x in Inserted(c, id, k).keys ensures x in stored && Inserted(c, id, k).keys[x] == expand(stored[x]) {
        EvictedShrinks(Cache(c.keys[id := k], c.order + [id]), x);
      }
    }
  }

  /** The backend may be given a key: the cache stays faithful unless it holds that id with other
      keys. Nothing is ever dropped from the cache for a rewritten key. */
  lemma FaithfulGrows(expand: Bytes -> Keys, c: Cache, stored: map<Bytes, Bytes>, id: Bytes, data: Bytes)
    requires Faithful(expand, c, stored)
    ensures Faithful(expand, c, stored[id := data]) <==> (id in c.keys ==> c.keys[id] == expand(data))
  {
    var now := stored[id := data];
    if id in c.keys ==> c.keys[id] == expand(data) {
      forall x | x in c.keys ensures x in now && c.keys[x] == expand(now[x]) {
        assert x != id ==> now[x] == stored[x];
      }
    } else {
      assert c.keys[id] != expand(now[id]);
    }
  }

  /** A look-up through the cache. */
  function Looked(expand: Bytes -> Keys, c: Cache, stored: map<Bytes, Bytes>, id: Bytes): Option<Keys> {
    if id in c.keys then Some(c.keys[id])
    else if id in stored then Some(expand(stored[id]))
    else None
  }

  /** After a cached id is rewritten in the backend, a look-up answers with the old keys; it agrees
      with the backend exactly when both expand alike. */
  lemma RewrittenKeyShows(expand: Bytes -> Keys, c: Cache, stored: map<Bytes, Bytes>, id: Bytes, data: Bytes)
    requires Faithful(expand, c, stored) && id in c.keys
    ensures Looked(expand, c, stored[id := data], id) == Some(expand(stored[id]))
    ensures Looked(expand, c, stored[id := data], id) == Some(expand(stored[id := data][id]))
            <==> expand(data) == expand(stored[id])
  {
  }

  class KeyStore {
    var cache: Cache
    var stored: map<Bytes, Bytes>

    ghost predicate Valid(expand: Bytes -> Keys)
      reads this
    {
      WellFormed(cache) && Faithful(expand, cache, stored)
    }

    constructor(keys: map<Bytes, Bytes>)
      ensures forall expand: Bytes -> Keys :: Valid(expand)
      ensures stored == keys && cache == Cache(map[], [])
    {
      cache, stored := Cache(map[], []), keys;
    }

    /** `KeyCache::insert`. */
    method Insert(id: Bytes, k: Keys)
      requires WellFormed(cache)
      modifies this`cache
      ensures cache == Inserted(old(cache), id, k) && WellFormed(cache)
    {
      if id !in cache.keys {
        EvictOne(cache, id, k);
        cache := Cache(cache.keys[id := k], cache.order + [id]);
        while |cache.order| > CAPACITY
          invariant Evicted(cache) == Inserted(old(cache), id, k)
          decreases |cache.order|
        {
          cache := Cache(cache.keys - {cache.order[0]}, cache.order[1..]);
        }
      } else {
        cache := cache.(keys := cache.keys[id := k]);
      }
    }

    /** The backend's `set_sync_key`. What is cached stays right exactly unless a cached key is
        rewritten to one that expands otherwise. */
    method SetSyncKey(id: Bytes, data: Bytes)
      modifies this`stored
      ensures stored == old(stored)[id := data]
      ensures forall expand: Bytes -> Keys :: old(Valid(expand)) ==>
        (Valid(expand) <==> (id in cache.keys ==> cache.keys[id] == expand(data)))
    {
      ghost var before := stored;
      stored := stored[id := data];
      forall expand: Bytes -> Keys | old(Valid(expand))
        ensures Valid(expand) <==> (id in cache.keys ==> cache.keys[id] == expand(data))
      {
        FaithfulGrows(expand, cache, before, id, data);
      }
    }

    /** `get_app_state_key`: the cached answer if there is one. While the cache is right, it is the
        backend's. */
    method GetAppStateKey(expand: Bytes -> Keys, id: Bytes) returns (r: Option<Keys>)
      requires WellFormed(cache)
      modifies this`cache
      ensures WellFormed(cache) && r == Looked(expand, old(cache), stored, id)
      ensures id in old(cache.keys) || r.None? ==> cache == old(cache)
      ensures old(Valid(expand)) ==> Valid(expand) && r == if id in stored then Some(expand(stored[id])) else None
    {
      if id in cache.keys {
        return Some(cache.keys[id]);
      }
      if id !in stored {
        return None;
      }
      if Valid(expand) {
        FaithfulInsert(expand, cache, stored, id);
      }
      Insert(id, expand(stored[id]));
      r := Some(expand(stored[id]));
    }

    /** `prefetch_keys`: every available key among `ids`, however many there are. */
    method PrefetchKeys(expand: Bytes -> Keys, ids: seq<Bytes>) returns (keys: KeyMap)
      requires Valid(expand)
      modifies this`cache
      ensures Valid(expand)
      ensures keys == map id | id in ids && id in stored :: expand(stored[id])
    {
      keys := map[];
      for i := 0 to |ids|
        invariant Valid(expand) && stored == old(stored)
        invariant keys == map id | id in ids[..i] && id in stored :: expand(stored[id])
      {
        assert ids[..i + 1] == ids[..i] + [ids[i]];
        var r := GetAppStateKey(expand, ids[i]);
        if r.Some? {
          keys := keys[ids[i] := r.value];
        }
      }
      assert ids[..|ids|] == ids;
    }
  }
}
