/** Frames lost to the allocator: unmapping counts a reference down but frees nothing, so a frame with no
    live owner whose last entry goes stays counted, at zero, for good. */
module FrameLeaks {
  import opened Vmas
  import opened PageTree
  import opened ForkSpec
  import opened PhysicalMemory
  import opened CowMachine

  /** Counted at zero, named by no entry and owned by nobody. */
  ghost predicate Leaked(s: Vm, f: Frame) {
    f in s.count && s.count[f] == 0 && f !in s.live && Refs(s.flat, f) == 0
  }

  /** Unmapping a page leaks its frame exactly if the frame has no live owner and this is its one reference:
      a private copy, or a cache page whose cached page died before its last entry went. */
  lemma UnmapLeaks(s: Vm, s': Vm, q: Pos)
    requires Inv(s) && UnmapStep(s, s', q)
    ensures Leaked(s', s.flat[q].frame) <==> s.flat[q].frame !in s.live && RefsOf(s.count, s.flat[q].frame) == 1
  {
    var f := s.flat[q].frame;
    assert LeafInv(s, q) && CountInv(s, f);
    NamedAtLeast(s.flat, q);
    RefsDrop(s.flat, q, f);
  }

  /** No step takes a leaked frame up again. */
  lemma LeakedStays(s: Vm, s': Vm, step: Step, f: Frame)
    requires Inv(s) && Next(s, s', step) && Leaked(s, f)
    ensures Leaked(s', f)
  {
    hide Inv;
    forall q | q in s.flat ensures s.flat[q].frame != f { NamedAtLeast(s.flat, q); }
    forall q | q in s'.flat ensures s'.flat[q].frame != f { StaysUnnamed(s, s', step, f, q); }
    Unnamed(s'.flat, f);
    StaysCounted(s, s', step, f);
  }

  lemma StaysUnnamed(s: Vm, s': Vm, step: Step, f: Frame, q: Pos)
    requires Inv(s) && Next(s, s', step) && f in s.count && f !in s.live && q in s'.flat
    requires forall r :: r in s.flat ==> s.flat[r].frame != f
    ensures s'.flat[q].frame != f
  {
    hide Inv;
    match step
    case Fork(parent, child) => assert s'.flat[q].frame == s.flat[Origin(q, parent, child)].frame;
    case FailedFork(_) => assert q in s.flat;
    case _ =>
  }

  lemma StaysCounted(s: Vm, s': Vm, step: Step, f: Frame)
    requires Inv(s) && Next(s, s', step) && f in s.count && s.count[f] == 0 && f !in s.live
    requires forall r :: r in s.flat ==> s.flat[r].frame != f
    requires forall r :: r in s'.flat ==> s'.flat[r].frame != f
    ensures f in s'.count && s'.count[f] == 0 && f !in s'.live
  {
    match step
    case Fork(_, child) => assert Named(s'.flat, child, f) == {};
    case _ =>
  }

  /** A step that hands out `f`. */
  predicate Takes(step: Step, f: Frame) { (step.FreshFault? && step.g == f) || (step.NewOwner? && step.f == f) }

  /** In every run a leaked frame stays leaked: no entry names it again and no allocation hands it out. */
  lemma {:induction false} LeakedForever(states: seq<Vm>, steps: seq<Step>, i: nat, j: nat, f: Frame)
    requires Run(states, steps) && i <= j < |states| && Leaked(states[i], f)
    ensures Leaked(states[j], f)
    ensures j < |steps| ==> !Takes(steps[j], f)
  {
    hide Inv, Leaked;
    if i < j {
      LeakedForever(states, steps, i, j - 1, f);
      hide Next;
      RunKeeps(states, steps, j - 1);
      assert Next(states[j - 1], states[j], steps[j - 1]);
      LeakedStays(states[j - 1], states[j], steps[j - 1], f);
    }
    if j < |steps| { NotTaken(states[j], states[j + 1], steps[j], f); }
  }

  lemma NotTaken(s: Vm, s': Vm, step: Step, f: Frame)
    requires Next(s, s', step) && Leaked(s, f)
    ensures !Takes(step, f)
  {
  }

  // ---- Runs that leak ----

  const AREAS: VmaSet := [Vma(0, PAGE, true, true, false, true, FileBacked(1, 0, false))]
  const PAGE_0 := Pos(0, 0, 0)
  const SHARED_IN := Entry(1, Flags(true, false, true, true, true, 0))
  const COPIED := Entry(2, Flags(true, true, true, true, false, 0))

  ghost function LeakStates(page: Page): seq<Vm> {
    [Boot({1, 2}, map[0 := AREAS], map[]),
     Vm({1, 2}, map[0 := AREAS], map[], map[1 := 1], map[1 := page], {1}, {1}),
     Vm({1, 2}, map[0 := AREAS], map[PAGE_0 := SHARED_IN], map[1 := 2], map[1 := page], {1}, {1}),
     Vm({1, 2}, map[0 := AREAS], map[PAGE_0 := COPIED], map[1 := 1, 2 := 1], map[1 := page, 2 := page], {1}, {1}),
     Vm({1, 2}, map[0 := AREAS], map[], map[1 := 1, 2 := 0], map[1 := page, 2 := page], {1}, {1})]
  }

  function LeakSteps(page: Page): seq<Step> {
    [NewOwner(1, page), MapExternal(PAGE_0, 1), CowFault(PAGE_0), Unmap(PAGE_0)]
  }

  /** A private mapping of a file page is read, written, and the file truncated under it. */
  lemma TruncateLeaks(page: Page)
    ensures Run(LeakStates(page), LeakSteps(page)) && Leaked(LeakStates(page)[4], 2)
  {
    var states, steps := LeakStates(page), LeakSteps(page);
    BootInv({1, 2}, map[0 := AREAS], map[]);
    hide Inv;
    FirstSteps(page);
    CopyStep(page);
    forall i {:trigger steps[i]} | 0 <= i < |steps| ensures Next(states[i], states[i + 1], steps[i]) {
      assert i == 0 || i == 1 || i == 2 || i == 3;
    }
    Unnamed(states[4].flat, 2);
  }

  lemma FirstSteps(page: Page)
    ensures var states := LeakStates(page);
            Next(states[0], states[1], NewOwner(1, page)) && Next(states[1], states[2], MapExternal(PAGE_0, 1))
            && Next(states[3], states[4], Unmap(PAGE_0))
  {
    assert Find(AREAS, 0) == Some(AREAS[0]);
  }

  lemma CopyStep(page: Page)
    ensures Next(LeakStates(page)[2], LeakStates(page)[3], CowFault(PAGE_0))
  {
    assert Find(AREAS, 0) == Some(AREAS[0]);
    assert 2 in {1, 2} && 2 !in map[1 := 2 as nat].Keys;
  }

  const CHILD_PAGE := Pos(5, 0, 0)

  ghost function OrphanStates(page: Page): seq<Vm> {
    var one, two := map[0 := AREAS], map[0 := AREAS, 5 := AREAS];
    [Boot({1}, one, map[]),
     Vm({1}, one, map[], map[1 := 1], map[1 := page], {1}, {1}),
     Vm({1}, one, map[PAGE_0 := SHARED_IN], map[1 := 2], map[1 := page], {1}, {1}),
     Vm({1}, two, map[PAGE_0 := SHARED_IN, CHILD_PAGE := SHARED_IN], map[1 := 3], map[1 := page], {1}, {1}),
     Vm({1}, two, map[CHILD_PAGE := SHARED_IN], map[1 := 2], map[1 := page], {1}, {1}),
     Vm({1}, two, map[CHILD_PAGE := SHARED_IN], map[1 := 1], map[1 := page], {1}, {}),
     Vm({1}, two, map[], map[1 := 0], map[1 := page], {1}, {})]
  }

  function OrphanSteps(page: Page): seq<Step> {
    [NewOwner(1, page), MapExternal(PAGE_0, 1), Fork(0, 5), Unmap(PAGE_0), DropOwner(1), Unmap(CHILD_PAGE)]
  }

  /** A file page is mapped and the process forks. Before the child is known as a mapper of the file a
      truncate takes the parent's entry and the cached page; the child's entry is then the frame's one
      reference, and unmapping it loses the frame. */
  lemma ForkThenTruncateLeaks(page: Page)
    ensures Run(OrphanStates(page), OrphanSteps(page)) && Leaked(OrphanStates(page)[6], 1)
  {
    hide Inv, Next;
    var states, steps := OrphanStates(page), OrphanSteps(page);
    BootInv({1}, map[0 := AREAS], map[]);
    forall i {:trigger steps[i]} | 0 <= i < |steps| ensures Next(states[i], states[i + 1], steps[i]) {
      OrphanStep(page, i);
    }
    Unnamed(map[], 1);
    assert states[6].flat == map[] && states[6].count == map[1 := 0] && states[6].live == {};
  }

  lemma OrphanStep(page: Page, i: nat)
    requires i < 6
    ensures Next(OrphanStates(page)[i], OrphanStates(page)[i + 1], OrphanSteps(page)[i])
  {
    hide Next;
    SharedIn(page);
    ForkedIn(page);
    Orphaned(page);
    hide OrphanStates;
    assert i == 0 || i == 1 || i == 2 || i == 3 || i == 4 || i == 5;
  }

  lemma SharedIn(page: Page)
    ensures var states := OrphanStates(page);
            Next(states[0], states[1], NewOwner(1, page)) && Next(states[1], states[2], MapExternal(PAGE_0, 1))
  {
    assert Find(AREAS, 0) == Some(AREAS[0]);
  }

  lemma ForkedIn(page: Page)
    ensures Next(OrphanStates(page)[2], OrphanStates(page)[3], Fork(0, 5))
  {
    var s, s' := OrphanStates(page)[2], OrphanStates(page)[3];
    assert Find(AREAS, 0) == Some(AREAS[0]);
    assert PAGE_0.In(5) == CHILD_PAGE && CHILD_PAGE.In(0) == PAGE_0;
    assert Named(s'.flat, 5, 1) == {CHILD_PAGE};
    assert Forking(s.flat, s'.flat, 0, 5, AREAS);
  }

  lemma Orphaned(page: Page)
    ensures var states := OrphanStates(page);
            Next(states[3], states[4], Unmap(PAGE_0)) && Next(states[4], states[5], DropOwner(1))
            && Next(states[5], states[6], Unmap(CHILD_PAGE))
  {
    ParentCut(page);
    var s := OrphanStates(page)[4];
    assert DropOwnerStep(s, OrphanStates(page)[5], 1);
    assert s.flat - {CHILD_PAGE} == map[];
  }

  lemma ParentCut(page: Page)
    ensures Next(OrphanStates(page)[3], OrphanStates(page)[4], Unmap(PAGE_0))
  {
    assert OrphanStates(page)[3].flat - {PAGE_0} == map[CHILD_PAGE := SHARED_IN];
  }
}
