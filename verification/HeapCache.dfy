/** The kernel heap's per-CPU caches of size-class blocks, over any run of allocations and frees on any
    CPUs. */
module HeapCache {
  import opened Vmas

  type Ptr = nat

  const SIZE_CLASSES: seq<nat> := [32, 64, 128, 256, 512, 1024, 2048, 4096]
  const CLASSES: nat := 8
  const CACHE_SLOTS: nat := 16
  const CACHE_BYTES: nat := 16384
  const BATCH: nat := 8

  datatype Layout = Layout(size: nat, align: nat)

  function ClassSize(class_: nat): (r: nat)
    requires class_ < CLASSES
    ensures r > 0
  {
    SIZE_CLASSES[class_]
  }

  function CacheLimit(class_: nat): nat
    requires class_ < CLASSES
  {
    var byBytes := CACHE_BYTES / ClassSize(class_);
    if byBytes < CACHE_SLOTS then byBytes else CACHE_SLOTS
  }

  function BatchFor(class_: nat): nat
    requires class_ < CLASSES
  {
    if CacheLimit(class_) < BATCH then CacheLimit(class_) else BATCH
  }

  /** The limits the caches live by: no class parks more than 16 KiB per CPU, and a batch is at least
      one block and never more than a class may hold. */
  lemma Limits(class_: nat)
    requires class_ < CLASSES
    ensures CacheLimit(class_) * ClassSize(class_) <= CACHE_BYTES && CacheLimit(class_) <= CACHE_SLOTS
    ensures 0 < BatchFor(class_) <= CacheLimit(class_) && BatchFor(class_) <= BATCH
  {
    assert SIZE_CLASSES == [32, 64, 128, 256, 512, 1024, 2048, 4096];
    match class_ {
      case 0 => case 1 => case 2 => case 3 => case 4 => case 5 => case 6 => case _ =>
    }
  }

  function ClassLayout(class_: nat): Layout
    requires class_ < CLASSES
  {
    Layout(ClassSize(class_), ClassSize(class_))
  }

  /** The smallest class that fits, if any does. */
  method SizeClassIndex(l: Layout) returns (r: Option<nat>)
    ensures r == ClassOf(l)
  {
    for i := 0 to CLASSES
      invariant ClassOf(l) == FirstClass(l, i)
    {
      if l.size <= SIZE_CLASSES[i] && l.align <= SIZE_CLASSES[i] {
        return Some(i);
      }
    }
    r := None;
  }

  function FirstClass(l: Layout, from: nat): (r: Option<nat>)
    requires from <= CLASSES
    ensures r.Some? ==> from <= r.value < CLASSES && l.size <= ClassSize(r.value) && l.align <= ClassSize(r.value)
    ensures r.Some? ==> forall i :: from <= i < r.value ==> l.size > ClassSize(i) || l.align > ClassSize(i)
    ensures r.None? ==> forall i :: from <= i < CLASSES ==> l.size > ClassSize(i) || l.align > ClassSize(i)
    decreases CLASSES - from
  {
    if from == CLASSES then None
    else if l.size <= ClassSize(from) && l.align <= ClassSize(from) then Some(from)
    else FirstClass(l, from + 1)
  }

  function ClassOf(l: Layout): Option<nat> { FirstClass(l, 0) }

  /** The layout a request is served with: its class's, so that every small block has one. */
  function Rounded(l: Layout): Layout { if ClassOf(l).Some? then ClassLayout(ClassOf(l).value) else l }

  // ---- One stack ----

  datatype SizeClassCache = SizeClassCache(stack: seq<Ptr>, count: nat) {
    ghost predicate Ok(limit: nat) { |stack| == CACHE_SLOTS && count <= limit <= CACHE_SLOTS }
    function Contents(): seq<Ptr> requires count <= |stack| { stack[..count] }

    function TryPop(): (r: (Option<Ptr>, SizeClassCache))
      requires count <= |stack|
      ensures r.0.None? ==> Contents() == [] && r.1 == this
      ensures r.0.Some? ==> r.1.count + 1 == count && r.1.stack == stack && Contents() == r.1.Contents() + [r.0.value]
    {
      if count == 0 then (None, this) else (Some(stack[count - 1]), this.(count := count - 1))
    }

    function TryPush(p: Ptr, limit: nat): (r: (bool, SizeClassCache))
      requires Ok(limit)
      ensures r.0 <==> count < limit
      ensures r.1.Ok(limit) && r.1.Contents() == if r.0 then Contents() + [p] else Contents()
    {
      if count >= limit then (false, this) else (true, SizeClassCache(stack[count := p], count + 1))
    }
  }

  const EMPTY := SizeClassCache(seq(CACHE_SLOTS, _ => 0), 0)

  // ---- Where every block is ----

  datatype Place = Live | Slot(cpu: nat, class_: nat, k: nat)

  type Caches = seq<seq<SizeClassCache>>

  ghost predicate ShapeOk(caches: Caches) {
    forall c {:trigger caches[c]} :: 0 <= c < |caches| ==>
        |caches[c]| == CLASSES && forall i {:trigger caches[c][i]} :: 0 <= i < CLASSES ==>
        caches[c][i].Ok(CacheLimit(i))
  }

  /** Block `p` is in the `k`-th slot of that stack. */
  ghost predicate InSlot(caches: Caches, p: Ptr, c: nat, i: nat, k: nat) {
    c < |caches| && i < |caches[c]| && k < caches[c][i].count && k < |caches[c][i].stack| && caches[c][i].stack[k] == p
  }

  /** A slot holds a block exactly where the block's place says it is; and a parked block was taken from
      the heap under its class's layout. */
  ghost predicate PlacesOk(caches: Caches, place: map<Ptr, Place>, taken: map<Ptr, Layout>) {
    && (forall p, c, i, k {:trigger InSlot(caches, p, c, i, k)} :: InSlot(caches, p, c, i, k) ==>
        p in place && place[p] == Slot(c, i, k))
    && (forall p {:trigger place[p]} :: p in place && place[p].Slot? ==>
          InSlot(caches, p, place[p].cpu, place[p].class_, place[p].k) && place[p].class_ < CLASSES && p in taken
            && taken[p] == ClassLayout(place[p].class_))
  }

  /** Blocks in callers' hands were taken under the rounding of what was asked for. */
  ghost predicate LiveOk(live: map<Ptr, Layout>, place: map<Ptr, Place>, taken: map<Ptr, Layout>) {
    && (forall p {:trigger p in live} :: p in live <==> p in place && place[p].Live?)
    && (forall p {:trigger live[p]} :: p in live ==> p in taken && taken[p] == Rounded(live[p]))
  }

  /** Every block the heap has handed out is in exactly one place; `loose` ones are in transit. */
  ghost predicate Accounted(place: map<Ptr, Place>, taken: map<Ptr, Layout>, loose: set<Ptr>) {
    taken.Keys == place.Keys + loose && place.Keys !! loose
  }

  // ---- Moves of one block ----

  function WithCache(caches: Caches, c: nat, i: nat, x: SizeClassCache): Caches
    requires c < |caches| && i < |caches[c]|
  {
    caches[c := caches[c][i := x]]
  }

  lemma SlotsAfter(caches: Caches, c: nat, i: nat, x: SizeClassCache, p: Ptr, d: nat, j: nat, k: nat)
    requires c < |caches| && i < |caches[c]|
    ensures InSlot(WithCache(caches, c, i, x), p, d, j, k) <==>
              if d == c && j == i then k < x.count && k < |x.stack| && x.stack[k] == p else InSlot(caches, p, d, j, k)
  {
  }

  /** The top block of a stack comes loose. */
  lemma PopMoves(caches: Caches, place: map<Ptr, Place>, taken: map<Ptr, Layout>, c: nat, i: nat)
    requires ShapeOk(caches) && PlacesOk(caches, place, taken) && c < |caches| && i < CLASSES && caches[c][i].count > 0
    ensures var x := caches[c][i]; var p := x.stack[x.count - 1]; var caches' := WithCache(caches, c, i,
              x.(count := x.count - 1));
            && p in place && place[p] == Slot(c, i, x.count - 1) && p in taken && taken[p] == ClassLayout(i)
            && ShapeOk(caches') && PlacesOk(caches', place - {p}, taken)
  {
    var x := caches[c][i];
    var p := x.stack[x.count - 1];
    var x' := x.(count := x.count - 1);
    assert caches[c][i].Ok(CacheLimit(i)) && InSlot(caches, p, c, i, x.count - 1);
    var caches' := WithCache(caches, c, i, x');
    hide ClassLayout, CacheLimit;
    forall q, d, j, k | InSlot(caches', q, d, j, k) ensures q in place - {p} && place[q] == Slot(d, j, k) {
      SlotsAfter(caches, c, i, x', q, d, j, k);
      assert InSlot(caches, q, d, j, k);
    }
    forall q | q in place - {p} && place[q].Slot?
        ensures InSlot(caches', q, place[q].cpu, place[q].class_, place[q].k) {
      SlotsAfter(caches, c, i, x', q, place[q].cpu, place[q].class_, place[q].k);
    }
  }

  /** A loose block goes on top of a stack that has room. */
  lemma PushMoves(caches: Caches, place: map<Ptr, Place>, taken: map<Ptr, Layout>, c: nat, i: nat, p: Ptr)
    requires ShapeOk(caches) && PlacesOk(caches, place, taken) && c < |caches| && i < CLASSES
    requires p !in place && p in taken && taken[p] == ClassLayout(i) && caches[c][i].count < CacheLimit(i)
    ensures caches[c][i].Ok(CacheLimit(i))
    ensures var x := caches[c][i]; var caches' := WithCache(caches, c, i, x.TryPush(p, CacheLimit(i)).1);
            ShapeOk(caches') && PlacesOk(caches', place[p := Slot(c, i, x.count)], taken)
  {
    var x := caches[c][i];
    assert x.Ok(CacheLimit(i));
    var x' := x.TryPush(p, CacheLimit(i)).1;
    var caches', place' := WithCache(caches, c, i, x'), place[p := Slot(c, i, x.count)];
    assert x' == SizeClassCache(x.stack[x.count := p], x.count + 1);
    hide ClassLayout, CacheLimit, SizeClassCache.TryPush;
    forall q, d, j, k | InSlot(caches', q, d, j, k) ensures q in place' && place'[q] == Slot(d, j, k) {
      SlotsAfter(caches, c, i, x', q, d, j, k);
      if !(d == c && j == i && k == x.count) { assert InSlot(caches, q, d, j, k); }
    }
    forall q | q in place' && place'[q].Slot? ensures InSlot(caches', q, place'[q].cpu, place'[q].class_, place'[q].k) {
      SlotsAfter(caches, c, i, x', q, place'[q].cpu, place'[q].class_, place'[q].k);
    }
  }

  lemma LoosenLive(live: map<Ptr, Layout>, place: map<Ptr, Place>, taken: map<Ptr, Layout>, p: Ptr)
    requires LiveOk(live, place, taken) && p in place
    ensures place[p].Slot? ==> LiveOk(live, place - {p}, taken)
    ensures place[p].Live? ==> p in live && LiveOk(live - {p}, place - {p}, taken)
  {
  }

  lemma LoosenPlaces(caches: Caches, place: map<Ptr, Place>, taken: map<Ptr, Layout>, p: Ptr)
    requires PlacesOk(caches, place, taken) && p in place && place[p].Live?
    ensures PlacesOk(caches, place - {p}, taken)
  {
  }

  lemma SettleLive(caches: Caches, live: map<Ptr, Layout>, place: map<Ptr, Place>, taken: map<Ptr, Layout>, p: Ptr,
                   l: Layout)
    requires PlacesOk(caches, place, taken) && LiveOk(live, place, taken) && p !in place && p in taken
               && taken[p] == Rounded(l)
    ensures PlacesOk(caches, place[p := Live], taken) && LiveOk(live[p := l], place[p := Live], taken)
  {
    hide Rounded, ClassLayout, InSlot;
  }

  lemma ParkLive(live: map<Ptr, Layout>, place: map<Ptr, Place>, taken: map<Ptr, Layout>, p: Ptr, at: Place)
    requires LiveOk(live, place, taken) && p !in place && at.Slot?
    ensures LiveOk(live, place[p := at], taken)
  {
  }

  /** The heap gives or takes a block that has no place. */
  lemma HeapMoves(caches: Caches, live: map<Ptr, Layout>, place: map<Ptr, Place>, taken: map<Ptr, Layout>, p: Ptr,
                  l: Layout)
    requires PlacesOk(caches, place, taken) && LiveOk(live, place, taken) && p !in place
    ensures PlacesOk(caches, place, taken[p := l]) && LiveOk(live, place, taken[p := l])
    ensures PlacesOk(caches, place, taken - {p}) && LiveOk(live, place, taken - {p})
  {
    hide ClassLayout, Rounded;
  }

  class Allocator {
    var caches: Caches
    /** Blocks the global heap has handed out, under what layout; and those callers hold, by the layout
        they asked for. */
    var taken: map<Ptr, Layout>
    var live: map<Ptr, Layout>
    ghost var place: map<Ptr, Place>

    ghost predicate Consistent(loose: set<Ptr>)
      reads this
    {
      ShapeOk(caches) && PlacesOk(caches, place, taken) && LiveOk(live, place, taken) && Accounted(place, taken, loose)
    }

    ghost predicate Valid()
      reads this
    {
      Consistent({})
    }

    constructor (cpus: nat)
      ensures Valid() && |caches| == cpus && live == map[]
    {
      caches := seq(cpus, _ => seq(CLASSES, _ => EMPTY));
      taken, live, place := map[], map[], map[];
      new;
      forall i | 0 <= i < CLASSES ensures EMPTY.Ok(CacheLimit(i)) { Limits(i); }
    }

    // ---- The global heap ----

    method HeapAlloc(l: Layout, ghost loose: set<Ptr>) returns (r: Option<Ptr>)
      requires Consistent(loose)
      modifies this`taken
      ensures r.None? ==> Consistent(loose) && taken == old(taken)
      ensures r.Some? ==>
                r.value !in old(taken) && r.value != 0 && taken == old(taken)[r.value := l]
                && Consistent(loose + {r.value})
    {
      hide ShapeOk, PlacesOk, LiveOk;
      var p: int := *;
      if p <= 0 || p in taken {
        return None;
      }
      HeapMoves(caches, live, place, taken, p, l);
      taken := taken[p := l];
      r := Some(p);
    }

    /** A block goes back under the layout it was taken with. */
    method HeapDealloc(p: Ptr, l: Layout, ghost loose: set<Ptr>)
      requires Consistent(loose) && p in loose && p in taken && taken[p] == l
      modifies this`taken
      ensures Consistent(loose - {p}) && taken == old(taken) - {p}
    {
      hide ShapeOk, PlacesOk, LiveOk;
      HeapMoves(caches, live, place, taken, p, l);
      taken := taken - {p};
    }

    // ---- One cache ----

    method Push(c: nat, i: nat, p: Ptr, ghost loose: set<Ptr>)
      requires Consistent(loose) && c < |caches| && i < CLASSES && |caches[c]| == CLASSES && p in loose && p in taken
                 && taken[p] == ClassLayout(i)
      requires caches[c][i].count < CacheLimit(i)
      modifies this`caches, this`place
      ensures Consistent(loose - {p}) && |caches| == |old(caches)| && |caches[c]| == CLASSES
                && caches[c][i].count == old(caches)[c][i].count + 1
    {
      hide ShapeOk, PlacesOk, LiveOk, ClassLayout, CacheLimit;
      PushMoves(caches, place, taken, c, i, p);
      ParkLive(live, place, taken, p, Slot(c, i, caches[c][i].count));
      var (pushed, x) := caches[c][i].TryPush(p, CacheLimit(i));
      assert pushed;
      place := place[p := Slot(c, i, caches[c][i].count)];
      caches := WithCache(caches, c, i, x);
    }

    method Pop(c: nat, i: nat, ghost loose: set<Ptr>) returns (p: Ptr)
      requires Consistent(loose) && c < |caches| && i < CLASSES && |caches[c]| == CLASSES && caches[c][i].count > 0
      modifies this`caches, this`place
      ensures Consistent(loose + {p}) && p !in loose && |caches| == |old(caches)| && |caches[c]| == CLASSES
                && caches[c][i].count == old(caches)[c][i].count - 1
      ensures p in taken && taken[p] == ClassLayout(i)
    {
      hide PlacesOk, LiveOk, ClassLayout, CacheLimit;
      PopMoves(caches, place, taken, c, i);
      assert caches[c][i].Ok(CacheLimit(i));
      var (top, x) := caches[c][i].TryPop();
      p := top.value;
      LoosenLive(live, place, taken, p);
      caches := WithCache(caches, c, i, x);
      place := place - {p};
    }

    lemma Shape(c: nat, i: nat)
      requires ShapeOk(caches) && c < |caches| && i < CLASSES
      ensures |caches[c]| == CLASSES && caches[c][i].count <= CacheLimit(i)
    {
      assert caches[c][i].Ok(CacheLimit(i));
    }

    // ---- Allocating and freeing ----

    /** Hands a loose block to the caller. */
    method HandOut(p: Ptr, l: Layout, ghost loose: set<Ptr>)
      requires Consistent(loose) && p in loose && p in taken && taken[p] == Rounded(l)
      modifies this`live, this`place
      ensures Consistent(loose - {p}) && p !in old(live) && live == old(live)[p := l]
    {
      hide ShapeOk, PlacesOk, Rounded;
      SettleLive(caches, live, place, taken, p, l);
      place := place[p := Live];
      live := live[p := l];
    }

    /** A hit pops; a miss takes a batch from the heap, keeps the last and parks the others. */
    method TryPercpuAlloc(c: nat, i: nat) returns (r: Option<Ptr>)
      requires Valid() && c < |caches| && i < CLASSES
      modifies this`caches, this`taken, this`place
      ensures |caches| == |old(caches)| && (r.None? ==> Valid())
      ensures r.Some? ==> Consistent({r.value}) && r.value in taken && taken[r.value] == ClassLayout(i)
    {
      hide ShapeOk, PlacesOk, LiveOk, ClassLayout, CacheLimit, BatchFor;
      Shape(c, i);
      Limits(i);
      if caches[c][i].count > 0 {
        var p := Pop(c, i, {});
        assert {} + {p} == {p};
        return Some(p);
      }
      r := None;
      var n := 0;
      while n < BatchFor(i)
        invariant n <= BatchFor(i) && |caches| == |old(caches)| && |caches[c]| == CLASSES
        invariant caches[c][i].count + (if r.Some? then 1 else 0) == n
        invariant if r.Some? then Consistent({r.value}) && r.value in taken
                    && taken[r.value] == ClassLayout(i) else Valid() && n == 0
        decreases BatchFor(i) - n
      {
        var block := HeapAlloc(ClassLayout(i), if r.Some? then {r.value} else {});
        if block.None? {
          break;
        }
        if r.Some? {
          Push(c, i, r.value, {r.value, block.value});
          assert {r.value} + {block.value} == {r.value, block.value}
              && {r.value, block.value} - {r.value} == {block.value};
        } else {
          assert {} + {block.value} == {block.value};
        }
        r := block;
        n := n + 1;
      }
    }

    /** A block for the request, taken under its rounded layout; the rest of the allocator's blocks keep
        their owners. */
    method Alloc(c: nat, l: Layout) returns (r: Option<Ptr>)
      requires Valid() && c < |caches|
      modifies this
      ensures Valid() && |caches| == |old(caches)|
      ensures r.None? ==> live == old(live)
      ensures r.Some? ==> r.value !in old(live) && live == old(live)[r.value := l]
    {
      hide ShapeOk, PlacesOk, LiveOk, ClassLayout, Accounted;
      var class_ := SizeClassIndex(l);
      if class_.Some? {
        var p := TryPercpuAlloc(c, class_.value);
        if p.Some? {
          HandOut(p.value, l, {p.value});
          assert {p.value} - {p.value} == {};
          return p;
        }
      }
      r := HeapAlloc(Rounded(l), {});
      if r.Some? {
        assert {} + {r.value} == {r.value} && {r.value} - {r.value} == {};
        HandOut(r.value, l, {r.value});
      }
    }

    /** Frees on any CPU: into that CPU's stack, after returning a batch to the heap if it is full; or
        straight to the heap for a block of no class. */
    method Dealloc(c: nat, p: Ptr, l: Layout)
      requires Valid() && c < |caches| && p in live && live[p] == l
      modifies this
      ensures Valid() && |caches| == |old(caches)| && live == old(live) - {p}
    {
      hide ShapeOk, ClassLayout, PlacesOk, LiveOk, Accounted;
      var class_ := SizeClassIndex(l);
      TakeBack(p);
      if class_.None? {
        HeapDealloc(p, l, {p});
        assert {p} - {p} == {};
        return;
      }
      ParkOrDrain(c, class_.value, p);
    }

    method TakeBack(p: Ptr)
      requires Valid() && p in live
      modifies this`live, this`place
      ensures Consistent({p}) && p in taken && taken[p] == Rounded(old(live)[p]) && live == old(live) - {p}
    {
      hide ShapeOk, PlacesOk, Rounded, ClassLayout;
      assert p in place && place[p].Live?;
      LoosenLive(live, place, taken, p);
      LoosenPlaces(caches, place, taken, p);
      live, place := live - {p}, place - {p};
    }

    method ParkOrDrain(c: nat, i: nat, p: Ptr)
      requires Consistent({p}) && c < |caches| && i < CLASSES && p in taken && taken[p] == ClassLayout(i)
      modifies this`caches, this`taken, this`place
      ensures Valid() && |caches| == |old(caches)|
    {
      hide ShapeOk, PlacesOk, LiveOk, ClassLayout, CacheLimit, BatchFor, Accounted;
      Shape(c, i);
      Limits(i);
      if caches[c][i].count < CacheLimit(i) {
        Push(c, i, p, {p});
        assert {p} - {p} == {};
        return;
      }
      var drained := Drain(c, i, p);
      Push(c, i, p, Elements(drained) + {p});
      assert Elements(drained) + {p} - {p} == Elements(drained) by { NotAmong(drained, p); }
      ReturnAll(i, drained);
    }

    method Drain(c: nat, i: nat, ghost p: Ptr) returns (drained: seq<Ptr>)
      requires Consistent({p}) && c < |caches| && i < CLASSES && |caches[c]| == CLASSES
                 && caches[c][i].count == CacheLimit(i)
      modifies this`caches, this`place
      ensures Consistent(Elements(drained) + {p}) && |caches| == |old(caches)| && |caches[c]| == CLASSES
                && caches[c][i].count < CacheLimit(i)
      ensures NoRepeat(drained) && p !in drained && forall q :: q in drained ==>
                q in taken && taken[q] == ClassLayout(i)
    {
      hide ShapeOk, PlacesOk, LiveOk, ClassLayout, CacheLimit, BatchFor, Accounted;
      Limits(i);
      var n := BatchFor(i);
      drained := [];
      assert Elements([]) + {p} == {p};
      for k := 0 to n
        invariant Consistent(Elements(drained) + {p}) && |caches| == |old(caches)| && |caches[c]| == CLASSES
                    && caches[c][i].count == CacheLimit(i) - k
        invariant |drained| == k && NoRepeat(drained) && p !in drained && forall q :: q in drained ==>
                    q in taken && taken[q] == ClassLayout(i)
      {
        var q := Pop(c, i, Elements(drained) + {p});
        assert Elements(drained + [q]) + {p} == Elements(drained) + {p} + {q};
        drained := drained + [q];
      }
    }

    method ReturnAll(i: nat, drained: seq<Ptr>)
      requires i < CLASSES && Consistent(Elements(drained)) && NoRepeat(drained) && forall q :: q in drained ==>
                 q in taken && taken[q] == ClassLayout(i)
      modifies this`taken
      ensures Valid()
    {
      hide ShapeOk, PlacesOk, LiveOk, ClassLayout, Accounted;
      assert drained[0..] == drained;
      for k := 0 to |drained|
        invariant Consistent(Elements(drained[k..])) && forall q :: q in drained[k..] ==>
                    q in taken && taken[q] == ClassLayout(i)
      {
        assert drained[k..] == [drained[k]] + drained[k + 1..];
        HeapDealloc(drained[k], ClassLayout(i), Elements(drained[k..]));
        assert Elements(drained[k..]) - {drained[k]} == Elements(drained[k + 1..]);
      }
      assert Elements(drained[|drained|..]) == {};
    }
  }

  ghost function Elements(ps: seq<Ptr>): set<Ptr> { set p | p in ps }

  ghost predicate NoRepeat(ps: seq<Ptr>) { forall i, j :: 0 <= i < j < |ps| ==> ps[i] != ps[j] }

  lemma NotAmong(ps: seq<Ptr>, p: Ptr)
    requires p !in ps
    ensures p !in Elements(ps)
  {
  }

  /** Every block the heap has handed out is with a caller or in exactly one slot, of its own class; no
      other block is anywhere; and no class on any CPU holds more than 16 KiB. */
  lemma EachBlockInOnePlace(caches: Caches, live: map<Ptr, Layout>, place: map<Ptr, Place>, taken: map<Ptr, Layout>)
    requires ShapeOk(caches) && PlacesOk(caches, place, taken) && LiveOk(live, place, taken)
               && Accounted(place, taken, {})
    ensures forall p :: p in taken ==> (p in live <==> !exists c: nat, i: nat, k: nat :: InSlot(caches, p, c, i, k))
    ensures forall p :: p in live ==> p in taken && taken[p] == Rounded(live[p])
    ensures forall p, c: nat, i: nat, k: nat, d: nat, j: nat, m: nat ::
              InSlot(caches, p, c, i, k) && InSlot(caches, p, d, j, m) ==> c == d && i == j && k == m
    ensures forall p, c: nat, i: nat, k: nat :: InSlot(caches, p, c, i, k) ==>
              i < CLASSES && p in taken && taken[p] == ClassLayout(i)
    ensures forall c, i {:trigger caches[c][i]} :: 0 <= c < |caches| && 0 <= i < CLASSES ==>
              |caches[c]| == CLASSES && caches[c][i].count * ClassSize(i) <= CACHE_BYTES
  {
    hide ClassLayout, Rounded;
    forall p | p in taken ensures p in live <==> !exists c: nat, i: nat, k: nat :: InSlot(caches, p, c, i, k) {
      assert p in place;
      if place[p].Slot? { assert InSlot(caches, p, place[p].cpu, place[p].class_, place[p].k); }
    }
    forall c, i | 0 <= c < |caches| && 0 <= i < CLASSES
        ensures |caches[c]| == CLASSES && caches[c][i].count * ClassSize(i) <= CACHE_BYTES {
      assert caches[c][i].Ok(CacheLimit(i));
      Limits(i);
      FewerBytes(caches[c][i].count, CacheLimit(i), ClassSize(i));
    }
  }

  lemma FewerBytes(a: nat, b: nat, size: nat)
    requires a <= b
    ensures a * size <= b * size
  {
  }
}
