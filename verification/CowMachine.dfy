/** Runs of forks, faults, writes and unmappings over any number of address spaces, and what every
    step keeps about counts and sharing. */
module CowMachine {
  import opened Collections
  import opened Vmas
  import opened PageTree
  import opened ForkSpec
  import opened PhysicalMemory

  /** Address spaces by root. `external` frames belong to the page cache, shared memory or a
      device; `live` ones still have that owner, which holds one reference. */
  datatype Vm = Vm(managed: set<Frame>, spaces: map<Frame, VmaSet>, flat: map<Pos, Entry>, count: map<Frame, nat>,
                   data: map<Frame, Page>, external: set<Frame>, live: set<Frame>) {
    predicate Special(q: Pos) requires q.root in spaces { IsSpecialMapping(q.n * PAGE, spaces[q.root]) }
    predicate MayWrite(q: Pos) requires q.root in spaces { PermitsWrite(q.n * PAGE, spaces[q.root]) }
    predicate Anonymous(q: Pos) requires q.root in spaces { IsAnonymous(q.n * PAGE, spaces[q.root]) }
  }

  ghost function NamedBy(flat: map<Pos, Entry>, f: Frame): set<Pos> { set q | q in flat && flat[q].frame == f }

  /** Page-table entries, in all spaces, that name `f`. */
  ghost function Refs(flat: map<Pos, Entry>, f: Frame): nat { |NamedBy(flat, f)| }

  // ---- Invariant ----

  ghost predicate LeafInv(s: Vm, q: Pos) {
    && q in s.flat && q.level == 0 && q.root in s.spaces
    && var e := s.flat[q];
    && e.frame in s.data && (e.frame in s.managed ==> e.frame in s.count)
    && (e.flags.writable ==> s.MayWrite(q) && !e.flags.cow)
    && if s.Special(q) then e.frame in s.external && !e.flags.cow
       else e.frame in s.managed && (e.frame in s.external ==> !e.flags.writable && !s.Anonymous(q))
  }

  ghost predicate CountInv(s: Vm, f: Frame) {
    && (f in s.live ==> f in s.count && s.count[f] == Refs(s.flat, f) + 1)
    && (f in s.count && f !in s.live && (f in s.external || Refs(s.flat, f) > 0) ==> s.count[f] == Refs(s.flat, f))
  }

  /** A private frame with two entries has no writable one. */
  ghost predicate PairInv(s: Vm, q: Pos, r: Pos) {
    q in s.flat && r in s.flat && q != r && s.flat[q].frame == s.flat[r].frame && s.flat[q].frame !in s.external ==>
      !s.flat[q].flags.writable
  }

  ghost predicate Inv(s: Vm) {
    && s.count.Keys <= s.managed && s.live <= s.external && s.live <= s.managed
    && (forall f {:trigger f in s.external} :: f in s.external ==> f in s.data && (f in s.managed ==> f in s.count))
    && (forall q {:trigger s.flat[q]} {:trigger q in s.flat} :: q in s.flat ==> LeafInv(s, q))
    && (forall f {:trigger CountInv(s, f)} :: CountInv(s, f))
    && (forall q, r {:trigger PairInv(s, q, r)} :: PairInv(s, q, r))
  }

  // ---- Steps ----

  ghost predicate ForkStep(s: Vm, s': Vm, parent: Frame, child: Frame) {
    && parent in s.spaces && child !in s.spaces
    && Forking(s.flat, s'.flat, parent, child, s.spaces[parent])
    && (forall q :: q in s.flat && q.root == parent ==> q.In(child) in s'.flat)
    && (forall g {:trigger g in s.count} {:trigger s'.count[g]} :: g in s.count ==>
        g in s'.count && s'.count[g] == s.count[g] + RefsIn(s'.flat, child, g))
    && s'.count.Keys <= s.managed
    && s' == s.(spaces := s.spaces[child := s.spaces[parent]], flat := s'.flat, count := s'.count)
  }

  ghost predicate FailedForkStep(s: Vm, s': Vm, parent: Frame) {
    && parent in s.spaces
    && s'.flat.Keys == s.flat.Keys
    && (forall q :: q in s.flat ==>
        s'.flat[q] == s.flat[q] || (q.root == parent && s'.flat[q] == AfterFork(s.flat[q], q.n, s.spaces[parent])))
    && s' == s.(flat := s'.flat)
  }

  /** A frame upgraded in place is the faulting space's own from then on. */
  ghost predicate CowFaultStep(s: Vm, s': Vm, q: Pos) {
    && q.root in s.spaces && CowResolvable(s.managed, s.flat, s.count, q, s.MayWrite(q))
    && CowStep(s.managed, s.flat, s.count, s.data, s'.flat, s'.count, s'.data, q)
    && s' == s.(flat := s'.flat, count := s'.count, data := s'.data,
                external := if s'.flat[q].frame == s.flat[q].frame then s.external - {s.flat[q].frame} else s.external)
  }

  /** Old frames keep their counts, `f` gets `n`; other new frames are page tables. */
  ghost predicate CountsAfterMap(s: Vm, s': Vm, f: Frame, n: nat) {
    && s'.count.Keys <= s.managed && s.count.Keys <= s'.count.Keys
    && (forall g {:trigger s'.count[g]} :: g in s.count && g != f ==> s'.count[g] == s.count[g])
    && (f in s.managed ==> f in s'.count && s'.count[f] == n)
  }

  /** A fresh private frame takes the page: zeros for anonymous memory, a patched copy for a
      page with relocations. */
  ghost predicate FreshFaultStep(s: Vm, s': Vm, q: Pos, g: Frame, page: Page) {
    && q.root in s.spaces && q.level == 0 && q !in s.flat && !s.Special(q)
    && g in s.managed && g !in s.count && g !in s.external
    && q in s'.flat && s'.flat[q].frame == g && !s'.flat[q].flags.cow && (s'.flat[q].flags.writable ==> s.MayWrite(q))
    && s'.flat == s.flat[q := s'.flat[q]]
    && CountsAfterMap(s, s', g, 1)
    && s' == s.(flat := s'.flat, count := s'.count, data := s.data[g := page])
  }

  /** Mapping a frame of the page cache, of shared memory or of a device. */
  ghost predicate MapExternalStep(s: Vm, s': Vm, q: Pos, f: Frame) {
    && q.root in s.spaces && q.level == 0 && q !in s.flat && !s.Anonymous(q)
    && f in s.external && (f in s.managed ==> f in s.live)
    && q in s'.flat && s'.flat == s.flat[q := s'.flat[q]]
    && var e := s'.flat[q];
    && e.frame == f && (e.flags.writable ==> s.MayWrite(q))
    && (if s.Special(q) then !e.flags.cow else f in s.managed && e.flags.cow && !e.flags.writable)
    && CountsAfterMap(s, s', f, RefsOf(s.count, f) + 1)
    && s' == s.(flat := s'.flat, count := s'.count)
  }

  ghost predicate UnmapStep(s: Vm, s': Vm, q: Pos) { q in s.flat && s' == WithoutPage(s, q) }

  /** The entry goes and its frame's count drops, unless it is zero already. */
  ghost function WithoutPage(s: Vm, q: Pos): Vm
    requires q in s.flat
  {
    var f := s.flat[q].frame;
    s.(flat := s.flat - {q}, count := if f in s.count && s.count[f] > 0 then s.count[f := s.count[f] - 1] else s.count)
  }

  ghost predicate WriteStep(s: Vm, s': Vm, q: Pos, page: Page) {
    && q in s.flat && s.flat[q].flags.writable
    && s' == s.(data := s.data[s.flat[q].frame := page])
  }

  ghost predicate ExternalWriteStep(s: Vm, s': Vm, f: Frame, page: Page) {
    f in s.external && s' == s.(data := s.data[f := page])
  }

  ghost predicate NewOwnerStep(s: Vm, s': Vm, f: Frame, page: Page) {
    && f in s.managed && f !in s.count && f !in s.external
    && s' == s.(count := s.count[f := 1], external := s.external + {f}, live := s.live + {f}, data := s.data[f := page])
  }

  /** The last handle on a cached page goes: its reference is dropped, the frame freed if that was the last. */
  ghost predicate DropOwnerStep(s: Vm, s': Vm, f: Frame) {
    && f in s.live && f in s.count && s.count[f] > 0
    && s' == (if s.count[f] > 1 then s.(count := s.count[f := s.count[f] - 1], live := s.live - {f})
              else s.(count := s.count - {f}, live := s.live - {f}, external := s.external - {f}))
  }

  /** A fault that failed or lost its race: page tables may have been allocated, and a frame that was
      free may have been written and returned. */
  ghost predicate GrowStep(s: Vm, s': Vm) {
    && s'.count.Keys <= s.managed && OnlyGrew(s.managed, s.count, s'.count, s.data, s'.data)
    && s' == s.(count := s'.count, data := s'.data)
  }

  datatype Step =
    | Fork(parent: Frame, child: Frame)
    | FailedFork(parent: Frame)
    | CowFault(q: Pos)
    | FreshFault(q: Pos, g: Frame, page: Page)
    | MapExternal(q: Pos, f: Frame)
    | Unmap(q: Pos)
    | Write(q: Pos, page: Page)
    | ExternalWrite(f: Frame, page: Page)
    | NewOwner(f: Frame, page: Page)
    | DropOwner(f: Frame)
    | Grow

  ghost predicate Next(s: Vm, s': Vm, step: Step) {
    match step
    case Fork(parent, child) => ForkStep(s, s', parent, child)
    case FailedFork(parent) => FailedForkStep(s, s', parent)
    case CowFault(q) => CowFaultStep(s, s', q)
    case FreshFault(q, g, page) => FreshFaultStep(s, s', q, g, page)
    case MapExternal(q, f) => MapExternalStep(s, s', q, f)
    case Unmap(q) => UnmapStep(s, s', q)
    case Write(q, page) => WriteStep(s, s', q, page)
    case ExternalWrite(f, page) => ExternalWriteStep(s, s', f, page)
    case NewOwner(f, page) => NewOwnerStep(s, s', f, page)
    case DropOwner(f) => DropOwnerStep(s, s', f)
    case Grow => GrowStep(s, s')
  }

  // ---- Counting ----

  lemma SoleName(flat: map<Pos, Entry>, q: Pos)
    requires q in flat && Refs(flat, flat[q].frame) <= 1
    ensures forall r :: r in flat && flat[r].frame == flat[q].frame ==> r == q
  {
    forall r | r in flat && flat[r].frame == flat[q].frame ensures r == q {
      if r != q { assert {q, r} <= NamedBy(flat, flat[q].frame); SubsetSize({q, r}, NamedBy(flat, flat[q].frame)); }
    }
  }

  lemma RefsAdd(flat: map<Pos, Entry>, q: Pos, e: Entry, f: Frame)
    requires q !in flat
    ensures Refs(flat[q := e], f) == Refs(flat, f) + if e.frame == f then 1 else 0
  {
    assert NamedBy(flat[q := e], f) == NamedBy(flat, f) + if e.frame == f then {q} else {};
  }

  lemma RefsDrop(flat: map<Pos, Entry>, q: Pos, f: Frame)
    requires q in flat
    ensures Refs(flat, f) == Refs(flat - {q}, f) + if flat[q].frame == f then 1 else 0
  {
    assert NamedBy(flat, f) == NamedBy(flat - {q}, f) + if flat[q].frame == f then {q} else {};
  }

  lemma RefsMove(flat: map<Pos, Entry>, q: Pos, e: Entry, f: Frame)
    requires q in flat
    ensures Refs(flat[q := e], f) + (if flat[q].frame == f then 1 else 0)
              == Refs(flat, f) + (if e.frame == f then 1 else 0)
  {
    RefsDrop(flat, q, f);
    RefsAdd(flat - {q}, q, e, f);
    assert (flat - {q})[q := e] == flat[q := e];
  }

  lemma RefsReflag(flat: map<Pos, Entry>, flat': map<Pos, Entry>, f: Frame)
    requires flat'.Keys == flat.Keys
    requires forall q :: q in flat ==> flat'[q].frame == flat[q].frame
    ensures Refs(flat', f) == Refs(flat, f)
  {
    assert NamedBy(flat', f) == NamedBy(flat, f) by {
      forall q ensures q in NamedBy(flat', f) <==> q in NamedBy(flat, f) { assert q in flat' <==> q in flat; }
    }
  }

  lemma RefsForked(flat: map<Pos, Entry>, flat': map<Pos, Entry>, child: Frame, f: Frame)
    requires forall q :: q in flat ==> q in flat' && flat'[q].frame == flat[q].frame && q.root != child
    requires forall q :: q in flat' && q !in flat ==> q.root == child
    ensures Refs(flat', f) == Refs(flat, f) + RefsIn(flat', child, f)
  {
    assert NamedBy(flat', f) == NamedBy(flat, f) + Named(flat', child, f);
  }

  lemma Unnamed(flat: map<Pos, Entry>, f: Frame)
    requires forall q :: q in flat ==> flat[q].frame != f
    ensures Refs(flat, f) == 0
  {
    assert NamedBy(flat, f) == {};
  }

  lemma NamedAtLeast(flat: map<Pos, Entry>, q: Pos)
    requires q in flat
    ensures Refs(flat, flat[q].frame) >= 1
  {
    assert q in NamedBy(flat, flat[q].frame);
  }

  // ---- Every step keeps the invariant ----

  lemma WriteKeeps(s: Vm, s': Vm, q: Pos, page: Page)
    requires Inv(s) && WriteStep(s, s', q, page)
    ensures Inv(s')
  {
    forall r | r in s'.flat ensures LeafInv(s', r) { assert LeafInv(s, r); }
    forall f ensures CountInv(s', f) { assert CountInv(s, f); }
    forall q1, q2 ensures PairInv(s', q1, q2) { assert PairInv(s, q1, q2); }
  }

  lemma ExternalWriteKeeps(s: Vm, s': Vm, f: Frame, page: Page)
    requires Inv(s) && ExternalWriteStep(s, s', f, page)
    ensures Inv(s')
  {
    forall r | r in s'.flat ensures LeafInv(s', r) { assert LeafInv(s, r); }
    forall g ensures CountInv(s', g) { assert CountInv(s, g); }
    forall q1, q2 ensures PairInv(s', q1, q2) { assert PairInv(s, q1, q2); }
  }

  lemma UnmapKeeps(s: Vm, s': Vm, q: Pos)
    requires Inv(s) && UnmapStep(s, s', q)
    ensures Inv(s')
  {
    forall r | r in s'.flat ensures LeafInv(s', r) { assert LeafInv(s, r); }
    forall g ensures CountInv(s', g) { assert CountInv(s, g); RefsDrop(s.flat, q, g); }
    forall q1, q2 ensures PairInv(s', q1, q2) { assert PairInv(s, q1, q2); }
  }

  lemma NewOwnerKeeps(s: Vm, s': Vm, f: Frame, page: Page)
    requires Inv(s) && NewOwnerStep(s, s', f, page)
    ensures Inv(s')
  {
    forall r | r in s'.flat ensures LeafInv(s', r) && s.flat[r].frame != f { assert LeafInv(s, r); }
    Unnamed(s.flat, f);
    forall g ensures CountInv(s', g) { assert CountInv(s, g); }
    forall q1, q2 ensures PairInv(s', q1, q2) { assert PairInv(s, q1, q2); }
  }

  lemma DropOwnerKeeps(s: Vm, s': Vm, f: Frame)
    requires Inv(s) && DropOwnerStep(s, s', f)
    ensures Inv(s')
  {
    assert CountInv(s, f);
    forall r | r in s'.flat ensures LeafInv(s', r) {
      assert LeafInv(s, r);
      if s.flat[r].frame == f { NamedAtLeast(s.flat, r); }
    }
    forall g ensures CountInv(s', g) { assert CountInv(s, g); }
    forall q1, q2 ensures PairInv(s', q1, q2) {
      assert PairInv(s, q1, q2);
      if q1 in s.flat && s.flat[q1].frame == f { NamedAtLeast(s.flat, q1); }
    }
  }

  lemma FreshFaultKeeps(s: Vm, s': Vm, q: Pos, g: Frame, page: Page)
    requires Inv(s) && FreshFaultStep(s, s', q, g, page)
    ensures Inv(s')
  {
    forall r | r in s.flat ensures LeafInv(s', r) && s.flat[r].frame != g { assert LeafInv(s, r); }
    Unnamed(s.flat, g);
    forall f ensures CountInv(s', f) { assert CountInv(s, f); RefsAdd(s.flat, q, s'.flat[q], f); NewUnnamed(s, f); }
    forall q1, q2 ensures PairInv(s', q1, q2) { assert PairInv(s, q1, q2); }
  }

  /** A managed frame without a count is named by no entry and owned by nobody. */
  lemma NewUnnamed(s: Vm, f: Frame)
    requires Inv(s)
    ensures f in s.managed && f !in s.count ==> Refs(s.flat, f) == 0 && f !in s.external
  {
    if f in s.managed && f !in s.count {
      forall r | r in s.flat ensures s.flat[r].frame != f { assert LeafInv(s, r); }
      Unnamed(s.flat, f);
    }
  }

  lemma MapExternalKeeps(s: Vm, s': Vm, q: Pos, f: Frame)
    requires Inv(s) && MapExternalStep(s, s', q, f)
    ensures Inv(s')
  {
    assert CountInv(s, f);
    forall r | r in s.flat ensures LeafInv(s', r) { assert LeafInv(s, r); }
    forall g ensures CountInv(s', g) { assert CountInv(s, g); RefsAdd(s.flat, q, s'.flat[q], g); NewUnnamed(s, g); }
    forall q1, q2 ensures PairInv(s', q1, q2) { assert PairInv(s, q1, q2); }
  }

  lemma GrowKeeps(s: Vm, s': Vm)
    requires Inv(s) && GrowStep(s, s')
    ensures Inv(s')
  {
    forall r | r in s'.flat ensures LeafInv(s', r) { assert LeafInv(s, r); }
    forall g ensures CountInv(s', g) { assert CountInv(s, g); NewUnnamed(s, g); }
    forall q1, q2 ensures PairInv(s', q1, q2) { assert PairInv(s, q1, q2); }
  }

  lemma FailedForkKeeps(s: Vm, s': Vm, parent: Frame)
    requires Inv(s) && FailedForkStep(s, s', parent)
    ensures Inv(s')
  {
    forall r | r in s'.flat ensures LeafInv(s', r) { assert r in s.flat; assert LeafInv(s, r); }
    forall g ensures CountInv(s', g) { assert CountInv(s, g); RefsReflag(s.flat, s'.flat, g); }
    forall q1, q2 ensures PairInv(s', q1, q2) {
      assert PairInv(s, q1, q2);
      assert q1 in s'.flat ==> q1 in s.flat;
      assert q2 in s'.flat ==> q2 in s.flat;
    }
  }

  lemma ForkedLeaf(s: Vm, s': Vm, parent: Frame, child: Frame, r: Pos)
    requires Inv(s) && ForkStep(s, s', parent, child) && r in s'.flat
    ensures LeafInv(s', r)
  {
    if r in s.flat {
      assert LeafInv(s, r);
    } else {
      assert LeafInv(s, r.In(parent));
    }
  }

  /** Where a page of the forked state gets its frame from. */
  ghost function Origin(q: Pos, parent: Frame, child: Frame): Pos { if q.root == child then q.In(parent) else q }

  lemma ForkedPair(s: Vm, s': Vm, parent: Frame, child: Frame, q: Pos, r: Pos)
    requires Inv(s) && ForkStep(s, s', parent, child)
    ensures PairInv(s', q, r)
  {
    if q in s'.flat && r in s'.flat && q != r && s'.flat[q].frame == s'.flat[r].frame
        && s'.flat[q].frame !in s.external {
      var q0, r0 := Origin(q, parent, child), Origin(r, parent, child);
      assert q0 in s.flat && r0 in s.flat && s.flat[q0].frame == s'.flat[q].frame
          && s.flat[r0].frame == s'.flat[r].frame;
      assert LeafInv(s, q0) && PairInv(s, q0, r0);
      assert q0.root == parent ==> s'.flat[q] == AfterFork(s.flat[q0], q0.n, s.spaces[parent]);
    }
  }

  lemma ForkKeeps(s: Vm, s': Vm, parent: Frame, child: Frame)
    requires Inv(s) && ForkStep(s, s', parent, child)
    ensures Inv(s')
  {
    forall r | r in s'.flat ensures LeafInv(s', r) { ForkedLeaf(s, s', parent, child, r); }
    forall q, r ensures PairInv(s', q, r) { ForkedPair(s, s', parent, child, q, r); }
    forall g ensures CountInv(s', g) {
      assert CountInv(s, g);
      RefsForked(s.flat, s'.flat, child, g);
      NewUnnamed(s, g);
      ForkNamesOld(s, s', parent, child, g);
    }
  }

  /** A fork names no frame that was not named before. */
  lemma ForkNamesOld(s: Vm, s': Vm, parent: Frame, child: Frame, g: Frame)
    requires ForkStep(s, s', parent, child)
    ensures Refs(s.flat, g) == 0 ==> Refs(s'.flat, g) == 0
  {
    if Refs(s.flat, g) == 0 {
      forall r | r in s'.flat ensures s'.flat[r].frame != g {
        var o := Origin(r, parent, child);
        assert s'.flat[r].frame == s.flat[o].frame;
        NamedAtLeast(s.flat, o);
      }
      Unnamed(s'.flat, g);
    }
  }

  /** A page upgraded in place was the only user of its frame. */
  lemma UpgradedAlone(s: Vm, s': Vm, q: Pos)
    requires Inv(s) && CowFaultStep(s, s', q) && s'.flat[q].frame == s.flat[q].frame
    ensures s.flat[q].frame !in s.live && forall r :: r in s.flat && s.flat[r].frame == s.flat[q].frame ==> r == q
    ensures !s.Special(q)
  {
    assert LeafInv(s, q) && CountInv(s, s.flat[q].frame);
    NamedAtLeast(s.flat, q);
    SoleName(s.flat, q);
  }

  lemma CowInPlaceKeeps(s: Vm, s': Vm, q: Pos)
    requires Inv(s) && CowFaultStep(s, s', q) && s'.flat[q].frame == s.flat[q].frame
    ensures Inv(s')
  {
    UpgradedAlone(s, s', q);
    forall r | r in s'.flat ensures LeafInv(s', r) { assert LeafInv(s, r); }
    forall g ensures CountInv(s', g) { assert CountInv(s, g); RefsReflag(s.flat, s'.flat, g); NamedAtLeast(s.flat, q); }
    forall q1, q2 ensures PairInv(s', q1, q2) { assert PairInv(s, q1, q2); }
  }

  lemma CowCopyKeeps(s: Vm, s': Vm, q: Pos)
    requires Inv(s) && CowFaultStep(s, s', q) && s'.flat[q].frame != s.flat[q].frame
    ensures Inv(s')
  {
    var g := s'.flat[q].frame;
    NewUnnamed(s, g);
    assert LeafInv(s, q) && CountInv(s, s.flat[q].frame);
    NamedAtLeast(s.flat, q);
    forall r | r in s'.flat ensures LeafInv(s', r) { assert LeafInv(s, r); }
    forall f ensures CountInv(s', f) { assert CountInv(s, f); RefsMove(s.flat, q, s'.flat[q], f); NewUnnamed(s, f); }
    forall q1, q2 ensures PairInv(s', q1, q2) {
      assert PairInv(s, q1, q2);
      if q1 in s.flat && q2 in s.flat { assert LeafInv(s, q1) && LeafInv(s, q2); }
    }
  }

  lemma NextKeeps(s: Vm, s': Vm, step: Step)
    requires Inv(s) && Next(s, s', step)
    ensures Inv(s')
  {
    hide Inv, ForkStep, FailedForkStep, CowFaultStep, FreshFaultStep, MapExternalStep, UnmapStep, WriteStep,
      ExternalWriteStep, NewOwnerStep, DropOwnerStep, GrowStep;
    match step
    case Fork(parent, child) => ForkKeeps(s, s', parent, child);
    case FailedFork(parent) => FailedForkKeeps(s, s', parent);
    case CowFault(q) => CowKeeps(s, s', q);
    case FreshFault(q, g, page) => FreshFaultKeeps(s, s', q, g, page);
    case MapExternal(q, f) => MapExternalKeeps(s, s', q, f);
    case Unmap(q) => UnmapKeeps(s, s', q);
    case Write(q, page) => WriteKeeps(s, s', q, page);
    case ExternalWrite(f, page) => ExternalWriteKeeps(s, s', f, page);
    case NewOwner(f, page) => NewOwnerKeeps(s, s', f, page);
    case DropOwner(f) => DropOwnerKeeps(s, s', f);
    case Grow => GrowKeeps(s, s');
  }

  lemma CowKeeps(s: Vm, s': Vm, q: Pos)
    requires Inv(s) && CowFaultStep(s, s', q)
    ensures Inv(s')
  {
    if s'.flat[q].frame == s.flat[q].frame { CowInPlaceKeeps(s, s', q); } else { CowCopyKeeps(s, s', q); }
  }

  // ---- Whole runs ----

  lemma WritableAlone(s: Vm, q: Pos)
    requires Inv(s) && q in s.flat && s.flat[q].flags.writable && s.flat[q].frame !in s.external
    ensures forall r :: r in s.flat && r != q ==> s.flat[r].frame != s.flat[q].frame
  {
    forall r | r in s.flat && r != q ensures s.flat[r].frame != s.flat[q].frame { assert PairInv(s, q, r); }
  }

  /** Address spaces with nothing mapped in them; frames already counted hold page tables. */
  ghost function Boot(managed: set<Frame>, spaces: map<Frame, VmaSet>, count: map<Frame, nat>): Vm {
    Vm(managed, spaces, map[], count, map[], {}, {})
  }

  lemma BootInv(managed: set<Frame>, spaces: map<Frame, VmaSet>, count: map<Frame, nat>)
    requires count.Keys <= managed
    ensures Inv(Boot(managed, spaces, count))
  {
    var s := Boot(managed, spaces, count);
    forall f ensures CountInv(s, f) { Unnamed(s.flat, f); }
  }

  ghost predicate Run(states: seq<Vm>, steps: seq<Step>) {
    && |states| == |steps| + 1 && Inv(states[0])
    && forall i {:trigger steps[i]} :: 0 <= i < |steps| ==> Next(states[i], states[i + 1], steps[i])
  }

  lemma {:induction false} RunKeeps(states: seq<Vm>, steps: seq<Step>, i: nat)
    requires Run(states, steps) && i < |states|
    ensures Inv(states[i])
  {
    hide Inv, Next;
    if i > 0 {
      RunKeeps(states, steps, i - 1);
      assert Next(states[i - 1], states[i], steps[i - 1]);
      NextKeeps(states[i - 1], states[i], steps[i - 1]);
    }
  }

  /** A frame the page cache owns counts the entries that name it, and its cached page while that lives. */
  lemma CacheFrameCount(states: seq<Vm>, steps: seq<Step>, i: nat, f: Frame)
    requires Run(states, steps) && i < |states| && f in states[i].external && f in states[i].managed
    ensures f in states[i].count
    ensures states[i].count[f] == Refs(states[i].flat, f) + if f in states[i].live then 1 else 0
  {
    RunKeeps(states, steps, i);
    assert CountInv(states[i], f);
  }

  /** After a failed fork, a private page that was writable before is one fault away from exactly
      the entry it had, on the same frame, with no copy made and no count changed. */
  lemma FailedForkRecovers(s: Vm, s': Vm, parent: Frame, q: Pos)
    requires Inv(s) && FailedForkStep(s, s', parent)
    requires q in s.flat && s.flat[q].flags.writable && s'.flat[q] != s.flat[q]
    ensures CowResolvable(s'.managed, s'.flat, s'.count, q, s'.MayWrite(q))
    ensures forall s'' :: CowFaultStep(s', s'', q) ==>
              s''.flat == s'.flat[q := s.flat[q]] && s''.count == s.count && s''.data == s.data
  {
    assert LeafInv(s, q) && CountInv(s, s.flat[q].frame);
    WritableAlone(s, q);
    assert NamedBy(s.flat, s.flat[q].frame) == {q};
  }

  // ---- The page-table methods' contracts are steps ----

  /** A completed fork of the page tables. */
  lemma ForkContractIsStep(s: Vm, flat': map<Pos, Entry>, count': map<Frame, nat>, parent: Frame, child: Frame)
    requires Inv(s) && parent in s.spaces && child !in s.spaces && count'.Keys <= s.managed
    requires forall q :: q in s.flat ==> q.n < USER_PAGES
    requires Forking(s.flat, flat', parent, child, s.spaces[parent]) && Shared(s.flat, flat', child, Pos(parent, 4, 0))
    requires forall g :: g in s.count ==> g in count' && count'[g] == s.count[g] + RefsIn(flat', child, g)
    ensures ForkStep(s, s.(spaces := s.spaces[child := s.spaces[parent]], flat := flat', count := count'), parent,
              child)
  {
    hide RefsIn;
    forall q | q in s.flat && q.root == parent ensures q.In(child) in flat' {
      assert LeafInv(s, q);
      PageUnderRoot(q);
    }
  }

  lemma PageUnderRoot(q: Pos)
    requires q.level == 0 && q.n < USER_PAGES
    ensures Under(Pos(q.root, 4, 0), q)
  {
    var p := Pos(q.root, 4, 0);
    var q3 := q.Parent().Parent().Parent();
    assert q3.n < 256 && q3.Parent() == p;
    assert Under(p, q3.Parent());
    assert Under(p, q3);
    assert Under(p, q.Parent().Parent());
    assert Under(p, q.Parent());
  }
}
