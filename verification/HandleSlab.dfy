/** The table through which WebAssembly refers to JavaScript values: live values and the
    free list share one array, a free slot holding the index of the next free one. */
module HandleSlab {
  import opened Common

  datatype JsValue = Undefined | Null | Bool(b: bool) | Number(n: nat) | Object(id: nat)

  datatype Slab = Slab(heap: seq<JsValue>, next: nat)

  /** Slots below this one are never handed out. */
  const RESERVED := 1028

  /** What they hold. */
  function ReservedSlots(): seq<JsValue> {
    seq(1024, _ => Undefined) + [Undefined, Null, Bool(true), Bool(false)]
  }

  function Fresh(): Slab {
    Slab(ReservedSlots(), RESERVED)
  }

  /** `addHeapObject` on a slab whose `next` is in range. A free slot's content is read as a
      number, whatever it is. */
  function Added(s: Slab, v: JsValue): (Slab, nat)
    requires s.next <= |s.heap|
    requires s.next < |s.heap| ==> s.heap[s.next].Number?
  {
    var heap := if s.next == |s.heap| then s.heap + [Number(|s.heap| + 1)] else s.heap;
    (Slab(heap[s.next := v], heap[s.next].n), s.next)
  }

  /** Writing past the end of a JavaScript array fills the gap with holes, which read undefined. */
  function Reaching(heap: seq<JsValue>, i: nat): (r: seq<JsValue>)
    ensures |r| == if i < |heap| then |heap| else i + 1
    ensures heap <= r && forall k :: |heap| <= k < |r| ==> r[k] == Undefined
  {
    if i < |heap| then heap else heap + seq(i + 1 - |heap|, _ => Undefined)
  }

  /** `dropObject`. */
  function Dropped(s: Slab, i: nat): Slab {
    if i < RESERVED then s else Slab(Reaching(s.heap, i)[i := Number(s.next)], i)
  }

  // ---------------------------------------------------------------- the invariant

  /** `chain` is the free list: it starts at `next`, each slot names the following one, and
      the last names the end of the array. */
  ghost predicate Chain(s: Slab, chain: seq<nat>) {
    && s.next == (if chain == [] then |s.heap| else chain[0])
    && NoDuplicates(chain)
    && (forall k :: 0 <= k < |chain| ==> RESERVED <= chain[k] < |s.heap|)
    && (forall k :: 0 <= k < |chain| ==> s.heap[chain[k]] == Number(Following(chain, k, |s.heap|)))
  }

  function Following(chain: seq<nat>, k: nat, end: nat): nat {
    if k + 1 < |chain| then chain[k + 1] else end
  }

  /** `live` maps the handles handed out and not yet dropped to their values. */
  ghost predicate Consistent(s: Slab, live: map<nat, JsValue>, chain: seq<nat>) {
    && |s.heap| >= RESERVED
    && s.heap[..RESERVED] == ReservedSlots()
    && Chain(s, chain)
    && (forall i :: RESERVED <= i < |s.heap| ==> (i in live <==> i !in chain))
    && (forall i :: i in live ==> RESERVED <= i < |s.heap| && s.heap[i] == live[i])
  }

  lemma NextIsFree(s: Slab, live: map<nat, JsValue>, chain: seq<nat>)
    requires Consistent(s, live, chain)
    ensures RESERVED <= s.next <= |s.heap| && s.next !in live
    ensures s.next < |s.heap| <==> chain != []
    ensures s.next < |s.heap| ==> s.heap[s.next] == Number(Following(chain, 0, |s.heap|))
  {
    if chain != [] {
      assert chain[0] in chain && s.heap[chain[0]].Number?;
    }
  }

  lemma ReuseChain(s: Slab, v: JsValue, chain: seq<nat>)
    requires Chain(s, chain) && chain != []
    ensures Chain(Slab(s.heap[chain[0] := v], Following(chain, 0, |s.heap|)), chain[1..])
  {
    var i, rest := chain[0], chain[1..];
    var after := Slab(s.heap[i := v], Following(chain, 0, |s.heap|));
    assert forall k :: 0 <= k < |rest| ==> rest[k] == chain[k + 1];
    forall k | 0 <= k < |rest| ensures after.heap[rest[k]] == Number(Following(rest, k, |after.heap|)) {
      assert chain[0] != chain[k + 1];
      assert s.heap[chain[k + 1]] == Number(Following(chain, k + 1, |s.heap|));
    }
  }

  lemma ReuseLive(s: Slab, v: JsValue, live: map<nat, JsValue>, chain: seq<nat>)
    requires Consistent(s, live, chain) && chain != []
    ensures var heap, now := s.heap[chain[0] := v], live[chain[0] := v];
      && (forall i :: RESERVED <= i < |heap| ==> (i in now <==> i !in chain[1..]))
      && (forall i :: i in now ==> RESERVED <= i < |heap| && heap[i] == now[i])
  {
    NextIsFree(s, live, chain);
    var i, rest := chain[0], chain[1..];
    assert chain == [i] + rest;
    assert i !in rest;
  }

  lemma ReuseKeeps(s: Slab, v: JsValue, live: map<nat, JsValue>, chain: seq<nat>)
    requires Consistent(s, live, chain) && chain != []
    ensures Consistent(Slab(s.heap[chain[0] := v], Following(chain, 0, |s.heap|)), live[chain[0] := v], chain[1..])
  {
    NextIsFree(s, live, chain);
    ReuseChain(s, v, chain);
    ReuseLive(s, v, live, chain);
    assert s.heap[chain[0] := v][..RESERVED] == s.heap[..RESERVED];
  }

  lemma GrowKeeps(s: Slab, v: JsValue, live: map<nat, JsValue>)
    requires Consistent(s, live, [])
    ensures Consistent(Slab(s.heap + [v], |s.heap| + 1), live[|s.heap| := v], [])
  {
    assert (s.heap + [v])[..RESERVED] == s.heap[..RESERVED];
  }

  /** A new handle is neither reserved nor live, and the slab stays consistent. */
  lemma AddKeeps(s: Slab, v: JsValue, live: map<nat, JsValue>, chain: seq<nat>)
    requires Consistent(s, live, chain)
    ensures s.next <= |s.heap| && (s.next < |s.heap| ==> s.heap[s.next].Number?)
    ensures var (after, i) := Added(s, v);
      && i >= RESERVED && i !in live
      && Consistent(after, live[i := v], if chain == [] then [] else chain[1..])
      && |after.heap| == (if chain == [] then |s.heap| + 1 else |s.heap|)
  {
    NextIsFree(s, live, chain);
    if chain == [] {
      GrowKeeps(s, v, live);
      assert (s.heap + [Number(|s.heap| + 1)])[s.next := v] == s.heap + [v];
    } else {
      ReuseKeeps(s, v, live, chain);
    }
  }

  lemma DropKeeps(s: Slab, i: nat, live: map<nat, JsValue>, chain: seq<nat>)
    requires Consistent(s, live, chain) && i in live
    ensures i < |s.heap| && Consistent(Dropped(s, i), live - {i}, [i] + chain)
  {
    DropChain(s, i, live, chain);
    assert Dropped(s, i).heap[..RESERVED] == s.heap[..RESERVED];
  }

  lemma DropChain(s: Slab, i: nat, live: map<nat, JsValue>, chain: seq<nat>)
    requires Consistent(s, live, chain) && i in live
    ensures Chain(Dropped(s, i), [i] + chain)
  {
    var after, longer := Dropped(s, i), [i] + chain;
    assert i !in chain;
    assert forall k :: 0 <= k < |chain| ==> longer[k + 1] == chain[k];
    forall a, b | 0 <= a < b < |longer| ensures longer[a] != longer[b] {
      assert longer[b] in chain;
    }
    forall k | 0 <= k < |longer| ensures after.heap[longer[k]] == Number(Following(longer, k, |after.heap|)) {
      if k > 0 {
        assert chain[k - 1] != i && s.heap[chain[k - 1]] == Number(Following(chain, k - 1, |s.heap|));
      }
    }
  }

  // ---------------------------------------------------------------- dropping twice

  ghost predicate Linked(s: Slab, path: seq<nat>, k: nat)
    requires k + 1 < |path|
  {
    path[k] < |s.heap| && s.heap[path[k]] == Number(path[k + 1])
  }

  /** Slots met by following the links from `next`. */
  ghost predicate Path(s: Slab, path: seq<nat>) {
    path != [] && path[0] == s.next && forall k | 0 <= k < |path| - 1 :: Linked(s, path, k)
  }

  lemma ChainIsPath(s: Slab, chain: seq<nat>)
    requires Chain(s, chain)
    ensures Path(s, chain + [|s.heap|])
  {
    forall k | 0 <= k < |chain| ensures Linked(s, chain + [|s.heap|], k) {
      assert s.heap[chain[k]] == Number(Following(chain, k, |s.heap|));
    }
  }

  /** After dropping a slot that was free, the links lead from it along the old free list up to it. */
  lemma {:induction false} LinksRepeat(s: Slab, live: map<nat, JsValue>, chain: seq<nat>, m: nat, path: seq<nat>,
                                       k: nat)
    requires Consistent(s, live, chain) && m < |chain| && Path(Dropped(s, chain[m]), path) && k <= m && k + 1 < |path|
    ensures path[0] == chain[m] && path[k + 1] == chain[k]
  {
    var after := Dropped(s, chain[m]);
    assert Linked(after, path, k);
    if k > 0 {
      LinksRepeat(s, live, chain, m, path, k - 1);
      assert chain[k - 1] != chain[m];
      assert s.heap[chain[k - 1]] == Number(Following(chain, k - 1, |s.heap|));
    }
  }

  /** After dropping a slot past the end, they lead along the old free list to the old end. */
  lemma {:induction false} LinksLeave(s: Slab, live: map<nat, JsValue>, chain: seq<nat>, i: nat, path: seq<nat>, k: nat)
    requires Consistent(s, live, chain) && |s.heap| <= i && Path(Dropped(s, i), path) && k <= |chain| && k + 1 < |path|
    ensures path[0] == i && path[k + 1] == if k < |chain| then chain[k] else |s.heap|
  {
    var after := Dropped(s, i);
    assert Linked(after, path, k);
    if k > 0 {
      LinksLeave(s, live, chain, i, path, k - 1);
      assert s.heap[chain[k - 1]] == Number(Following(chain, k - 1, |s.heap|));
    }
  }

  lemma FreeSlotLost(s: Slab, live: map<nat, JsValue>, chain: seq<nat>, m: nat, again: seq<nat>)
    requires Consistent(s, live, chain) && m < |chain|
    ensures !Chain(Dropped(s, chain[m]), again)
  {
    var after := Dropped(s, chain[m]);
    if Chain(after, again) {
      ChainIsPath(after, again);
      var path := again + [|after.heap|];
      LinksRepeat(s, live, chain, m, path, if |again| > m + 1 then m else |again| - 1);
    }
  }

  lemma PastEndLost(s: Slab, live: map<nat, JsValue>, chain: seq<nat>, i: nat, again: seq<nat>)
    requires Consistent(s, live, chain) && |s.heap| <= i
    ensures !Chain(Dropped(s, i), again)
  {
    var after := Dropped(s, i);
    if Chain(after, again) {
      ChainIsPath(after, again);
      var path := again + [|after.heap|];
      LinksLeave(s, live, chain, i, path, if |again| > |chain| + 1 then |chain| else |again| - 1);
    }
  }

  /** Dropping any index that is not reserved leaves a free list exactly when it was live. */
  lemma DropSafeExactlyWhenLive(s: Slab, i: nat, live: map<nat, JsValue>, chain: seq<nat>)
    requires Consistent(s, live, chain) && RESERVED <= i
    ensures (exists again :: Chain(Dropped(s, i), again)) <==> i in live
  {
    if i in live {
      DropKeeps(s, i, live, chain);
    } else if i < |s.heap| {
      var m :| 0 <= m < |chain| && chain[m] == i;
      forall again ensures !Chain(Dropped(s, i), again) {
        FreeSlotLost(s, live, chain, m, again);
      }
    } else {
      forall again ensures !Chain(Dropped(s, i), again) {
        PastEndLost(s, live, chain, i, again);
      }
    }
  }

  /** What a caller sees of it: a handle that is added, dropped twice and then free again is the
      answer to the next two adds, so two values share it. */
  lemma DroppedTwiceAliases(s: Slab, v: JsValue, live: map<nat, JsValue>, chain: seq<nat>, first: nat, second: JsValue)
    requires Consistent(s, live, chain)
    ensures s.next <= |s.heap| && (s.next < |s.heap| ==> s.heap[s.next].Number?)
    ensures var (held, i) := Added(s, v);
      var twice := Dropped(Dropped(held, i), i);
      && twice.next == i < |twice.heap| && twice.heap[i] == Number(i)
      && Added(twice, second).1 == Added(twice, second).0.next == i
      && var (once, j) := Added(twice, Number(first));
         && j == i && Added(once, second).1 == i
         && Added(once, second).0.heap[i] == second
  {
    AddKeeps(s, v, live, chain);
  }

  // ---------------------------------------------------------------- whole runs

  datatype Op = Add(v: JsValue) | Drop(i: nat)

  /** A slab together with what has been handed out, what is free, and the largest number
      of handles ever live at once. */
  datatype World = World(slab: Slab, live: map<nat, JsValue>, chain: seq<nat>, peak: nat)

  ghost predicate Good(w: World) {
    && Consistent(w.slab, w.live, w.chain)
    && |w.live| + |w.chain| == |w.slab.heap| - RESERVED
    && |w.slab.heap| - RESERVED == w.peak
  }

  ghost predicate Legal(w: World, op: Op) {
    op.Drop? ==> op.i < RESERVED || op.i in w.live
  }

  function Max(a: nat, b: nat): nat { if a < b then b else a }

  ghost function Stepped(w: World, op: Op): (r: World)
    requires Good(w) && Legal(w, op)
    ensures Good(r) && |r.live| <= r.peak
  {
    match op
    case Add(v) =>
      AddKeeps(w.slab, v, w.live, w.chain);
      var (after, i) := Added(w.slab, v);
      World(after, w.live[i := v], if w.chain == [] then [] else w.chain[1..], Max(w.peak, |w.live[i := v]|))
    case Drop(i) =>
      if i < RESERVED then w
      else
        DropKeeps(w.slab, i, w.live, w.chain);
        DropOne(w.live, i);
        World(Dropped(w.slab, i), w.live - {i}, [i] + w.chain, w.peak)
  }

  lemma DropOne(m: map<nat, JsValue>, i: nat)
    requires i in m
    ensures |m - {i}| == |m| - 1
  {
    assert m == (m - {i})[i := m[i]];
  }

  /** Every run of adds and legal drops from a fresh slab. */
  ghost function RunOf(ops: seq<Op>): (w: World)
    requires LegalRun(ops)
    ensures Good(w)
    decreases |ops|, 1
  {
    if ops == [] then
      assert ReservedSlots()[..RESERVED] == ReservedSlots();
      World(Fresh(), map[], [], 0)
    else Stepped(RunOf(ops[..|ops| - 1]), ops[|ops| - 1])
  }

  ghost predicate LegalRun(ops: seq<Op>)
    decreases |ops|, 0
  {
    ops == [] || (LegalRun(ops[..|ops| - 1]) && Legal(RunOf(ops[..|ops| - 1]), ops[|ops| - 1]))
  }

  /** The most handles live at once over all prefixes of a run. */
  ghost function MostLive(ops: seq<Op>): nat
    requires LegalRun(ops)
  {
    if ops == [] then 0 else Max(MostLive(ops[..|ops| - 1]), |RunOf(ops).live|)
  }

  /** Safety and the exact space bound, over every run: the free list is acyclic and holds
      exactly the free slots, every live handle reads its own value, the reserved slots
      never change, and the array has grown by exactly the most handles ever live. */
  lemma {:induction false} SlabOverRuns(ops: seq<Op>)
    requires LegalRun(ops)
    ensures Consistent(RunOf(ops).slab, RunOf(ops).live, RunOf(ops).chain)
    ensures |RunOf(ops).slab.heap| == RESERVED + MostLive(ops)
  {
    if ops != [] {
      SlabOverRuns(ops[..|ops| - 1]);
    }
  }

  // ---------------------------------------------------------------- the object

  class HandleTable {
    var heap: seq<JsValue>
    var heapNext: nat
    ghost var world: World

    ghost predicate Valid()
      reads this
    {
      Good(world) && world.slab == Slab(heap, heapNext)
    }

    constructor()
      ensures Valid() && world == RunOf([])
    {
      heap, heapNext := ReservedSlots(), RESERVED;
      world := RunOf([]);
    }

    method AddHeapObject(v: JsValue) returns (i: nat)
      requires Valid()
      modifies this
      ensures Valid() && world == Stepped(old(world), Add(v))
      ensures i >= RESERVED && i !in old(world.live) && world.live == old(world.live)[i := v]
    {
      NextIsFree(world.slab, world.live, world.chain);
      world := Stepped(world, Add(v));
      AddKeeps(old(world.slab), v, old(world.live), old(world.chain));
      if heapNext == |heap| {
        heap := heap + [Number(|heap| + 1)];
      }
      i := heapNext;
      heapNext := heap[i].n;
      heap := heap[i := v];
    }

    /** `getObject`: an index past the end reads undefined. */
    method GetObject(i: nat) returns (v: JsValue)
      ensures v == if i < |heap| then heap[i] else Undefined
      ensures Valid() && i in world.live ==> v == world.live[i]
      ensures Valid() && i < 1028 ==>
        v == if i == 1025 then Null else if i == 1026 then Bool(true) else if i == 1027 then Bool(false) else Undefined
    {
      v := if i < |heap| then heap[i] else Undefined;
      if Valid() && i < RESERVED {
        assert heap[i] == heap[..RESERVED][i];
      }
    }

    /** `dropObject`, of whatever index. Only a live or reserved one keeps the table valid. */
    method DropObject(i: nat)
      requires Valid()
      modifies this
      ensures Slab(heap, heapNext) == Dropped(old(Slab(heap, heapNext)), i)
      ensures Legal(old(world), Drop(i)) ==> Valid() && world == Stepped(old(world), Drop(i))
      ensures RESERVED <= i && i !in old(world.live) ==> forall chain :: !Chain(Slab(heap, heapNext), chain)
    {
      if RESERVED <= i && i !in world.live {
        DropSafeExactlyWhenLive(world.slab, i, world.live, world.chain);
      }
      if i < RESERVED {
        return;
      }
      if i in world.live {
        world := Stepped(world, Drop(i));
      }
      heap := Reaching(heap, i)[i := Number(heapNext)];
      heapNext := i;
    }

    method TakeObject(i: nat) returns (v: JsValue)
      requires Valid()
      modifies this
      ensures v == if i < |old(heap)| then old(heap)[i] else Undefined
      ensures Slab(heap, heapNext) == Dropped(old(Slab(heap, heapNext)), i)
      ensures i in old(world.live) ==> v == old(world.live)[i]
      ensures Legal(old(world), Drop(i)) ==> Valid() && world == Stepped(old(world), Drop(i))
    {
      v := GetObject(i);
      DropObject(i);
    }
  }
}
