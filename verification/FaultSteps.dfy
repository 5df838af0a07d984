/** The contracts of the demand-fault, fork and truncate methods, read as steps of the copy-on-write
    machine. */
module FaultSteps {
  import opened Vmas
  import opened PageTree
  import opened ForkSpec
  import opened PhysicalMemory
  import opened CowMachine
  import opened Faults
  import opened DemandFaults
  import Truncate

  // ---- Demand faults ----

  /** A file fault that kept its page. */
  lemma FileFaultIsStep(s: Vm, flat': map<Pos, Entry>, count': map<Frame, nat>, root: Frame, addr: nat, frame: Frame)
    requires Inv(s) && root in s.spaces && Aligned(s.spaces[root]) && frame in s.live && count'.Keys <= s.managed
    requires LookupFaultVma(s.spaces[root], addr).Some? && LookupFaultVma(s.spaces[root], addr).value.source.File?
    requires Pos(root, 0, addr / PAGE) !in s.flat
    requires flat'
               == s.flat[Pos(root, 0, addr / PAGE) := Entry(frame, LookupFaultVma(s.spaces[root], addr).value.flags)]
    requires CountsKept(s.count, count', frame, RefsOf(s.count, frame) + 1)
    ensures MapExternalStep(s, s.(flat := flat', count := count'), Pos(root, 0, addr / PAGE), frame)
  {
    LookupFaultVmaSound(s.spaces[root], addr);
    OneVmaPerPage(s.spaces[root], addr);
  }

  /** A fault that mapped a fresh private frame: anonymous memory, or a patched copy under a writable area. */
  lemma FreshFaultIsStep(s: Vm, flat': map<Pos, Entry>, count': map<Frame, nat>, data': map<Frame, Page>, root: Frame,
                         addr: nat, flags: Flags, page: Page)
    requires Inv(s) && root in s.spaces && Aligned(s.spaces[root]) && count'.Keys <= s.managed
    requires !IsSpecialMapping(addr, s.spaces[root]) && !flags.cow
               && (flags.writable ==> PermitsWrite(addr, s.spaces[root]))
    requires Pos(root, 0, addr / PAGE) !in s.flat
    requires FreshMapped(s.flat, flat', s.count, count', s.data, data', s.managed, Pos(root, 0, addr / PAGE), flags,
               page)
    ensures FreshFaultStep(s, s.(flat := flat', count := count', data := data'),
                           Pos(root, 0, addr / PAGE), flat'[Pos(root, 0, addr / PAGE)].frame, page)
  {
    OneVmaPerPage(s.spaces[root], addr);
  }

  /** What a demand fault leaves behind, as its method promises it. */
  ghost predicate FaultOutcome(s: Vm, s': Vm, root: Frame, addr: nat, relocs: Option<Relocs>, cacheFrame: Option<Frame>,
                               failed: bool)
    requires root in s.spaces
  {
    var q := Pos(root, 0, addr / PAGE);
    && s' == s.(flat := s'.flat, count := s'.count, data := s'.data) && s'.count.Keys <= s.managed
    && if failed || q in s.flat then
         s'.flat == s.flat && OnlyGrew(s.managed, s.count, s'.count, s.data, s'.data)
       else
         && LookupFaultVma(s.spaces[root], addr).Some?
         && FaultedIn(s.flat, s'.flat, s.count, s'.count, s.data, s'.data, s.managed, q,
                      LookupFaultVma(s.spaces[root], addr).value, relocs, addr, cacheFrame)
  }

  function FaultStep(s: Vm, s': Vm, root: Frame, addr: nat, relocs: Option<Relocs>, cacheFrame: Option<Frame>,
                     failed: bool): Step {
    var q := Pos(root, 0, addr / PAGE);
    if failed || q in s.flat || root !in s.spaces || q !in s'.flat then Grow
    else
      match LookupFaultVma(s.spaces[root], addr)
      case None => Grow
      case Some(info) =>
        var f := s'.flat[q].frame;
        if info.source.File? && !TakesRelocPath(relocs, info, addr) then MapExternal(q, f)
        else if f in s'.data then FreshFault(q, f, s'.data[f]) else Grow
  }

  /** Every demand fault is one step: won, lost to a race or failed; anonymous, file or relocated. The one
      exception is a relocation page whose area has lost its write permission. */
  lemma DemandFaultIsStep(s: Vm, s': Vm, root: Frame, addr: nat, relocs: Option<Relocs>, cacheFrame: Option<Frame>,
                          failed: bool)
    requires Inv(s) && root in s.spaces && Aligned(s.spaces[root]) && (cacheFrame.Some? ==> cacheFrame.value in s.live)
    requires FaultOutcome(s, s', root, addr, relocs, cacheFrame, failed)
    requires !ReadOnlyReloc(s.spaces[root], relocs, addr)
    ensures Next(s, s', FaultStep(s, s', root, addr, relocs, cacheFrame, failed))
  {
    hide Inv, PatchedPage, CountsKept, FreshlyCounted, OnlyGrew, MapExternalStep, FreshFaultStep;
    var q := Pos(root, 0, addr / PAGE);
    if !failed && q !in s.flat {
      var info := LookupFaultVma(s.spaces[root], addr).value;
      LookupFaultVmaSound(s.spaces[root], addr);
      FaultHonoursArea(s.spaces[root], relocs, addr);
      FaultedInFlags(s.flat, s'.flat, s.count, s'.count, s.data, s'.data, s.managed, q, info, relocs, addr, cacheFrame);
      hide LookupFaultVma, ReadOnlyReloc, Aligned, IsSpecialMapping, PermitsWrite;
      if info.source.File? && !TakesRelocPath(relocs, info, addr) {
        FileFaultIsStep(s, s'.flat, s'.count, root, addr, cacheFrame.value);
        assert s' == s.(flat := s'.flat, count := s'.count);
      } else {
        var flags := if info.source.Zero? then info.flags else RelocFlags(info.flags);
        FreshFaultIsStep(s, s'.flat, s'.count, s'.data, root, addr, flags, s'.data[s'.flat[q].frame]);
      }
    }
  }

  /** The copy-on-write fault method's contract, for a fault anywhere in the page. */
  lemma CowFaultIsStep(s: Vm, flat': map<Pos, Entry>, count': map<Frame, nat>, data': map<Frame, Page>, root: Frame,
                       addr: nat)
    requires Inv(s) && root in s.spaces && Aligned(s.spaces[root])
    requires CowResolvable(s.managed, s.flat, s.count, Pos(root, 0, addr / PAGE), PermitsWrite(addr, s.spaces[root]))
    requires CowStep(s.managed, s.flat, s.count, s.data, flat', count', data', Pos(root, 0, addr / PAGE))
    ensures var q := Pos(root, 0, addr / PAGE);
            var kept := if flat'[q].frame == s.flat[q].frame then s.external - {s.flat[q].frame} else s.external;
            CowFaultStep(s, s.(flat := flat', count := count', data := data', external := kept), q)
  {
    OneVmaPerPage(s.spaces[root], addr);
  }

  // ---- A fork that ran out of frames ----

  lemma FailedForkIsStep(s: Vm, flat': map<Pos, Entry>, parent: Frame)
    requires parent in s.spaces && flat'.Keys == s.flat.Keys
    requires forall q :: q in flat' ==>
               flat'[q] == s.flat[q] || (q.root == parent && flat'[q] == AfterFork(s.flat[q], q.n, s.spaces[parent]))
    ensures FailedForkStep(s, s.(flat := flat'), parent)
  {
    forall q | q in s.flat ensures q in flat' { assert q in flat'.Keys; }
  }

  // ---- Truncating ----

  /** The process's entries are the leaves of its space. */
  ghost predicate SpacePages(s: Vm, root: Frame, ptes: map<nat, Frame>) {
    forall v: nat {:trigger Pos(root, 0, v)} :: (v in ptes <==> Pos(root, 0, v) in s.flat)
        && (v in ptes ==> s.flat[Pos(root, 0, v)].frame == ptes[v])
  }

  /** The state after the first `n` pages of a cut are gone. */
  ghost function AfterCut(s: Vm, root: Frame, removed: seq<nat>, n: nat): Vm
    requires n <= |removed|
  {
    if n == 0 then s
    else
      var t := AfterCut(s, root, removed, n - 1);
      if Pos(root, 0, removed[n - 1]) in t.flat then WithoutPage(t, Pos(root, 0, removed[n - 1])) else t
  }

  ghost function CutStates(s: Vm, root: Frame, removed: seq<nat>): seq<Vm> {
    seq(|removed| + 1, i requires 0 <= i <= |removed| => AfterCut(s, root, removed, i))
  }

  ghost function CutSteps(root: Frame, removed: seq<nat>): seq<Step> {
    seq(|removed|, i requires 0 <= i < |removed| => Unmap(Pos(root, 0, removed[i])))
  }

  ghost predicate Gone(root: Frame, removed: seq<nat>, n: nat, q: Pos)
    requires n <= |removed|
  {
    q.root == root && q.level == 0 && q.n in removed[..n]
  }

  /** `t` is `s` without the first `n` pages of the cut and without the references they held. */
  ghost predicate CutSoFar(s: Vm, t: Vm, root: Frame, removed: seq<nat>, released: seq<Frame>, n: nat)
    requires n <= |removed| == |released|
  {
    && t == s.(flat := t.flat, count := t.count)
    && (forall q :: q in t.flat <==> q in s.flat && !Gone(root, removed, n, q))
        && (forall q :: q in t.flat ==> t.flat[q] == s.flat[q])
    && t.count.Keys == s.count.Keys
        && (forall f {:trigger t.count[f]} :: f in s.count ==> t.count[f] + multiset(released[..n])[f] == s.count[f])
  }

  lemma CutOne(s: Vm, t: Vm, root: Frame, ptes: map<nat, Frame>, ptes': map<nat, Frame>, removed: seq<nat>,
               released: seq<Frame>, n: nat)
    requires SpacePages(s, root, ptes) && Truncate.Released(ptes, ptes', removed, released) && n < |removed|
    requires Inv(t) && CutSoFar(s, t, root, removed, released, n)
    ensures Pos(root, 0, removed[n]) in t.flat
              && CutSoFar(s, WithoutPage(t, Pos(root, 0, removed[n])), root, removed, released, n + 1)
  {
    var q := Pos(root, 0, removed[n]);
    assert removed[n] in removed && removed[n] !in removed[..n];
    assert removed[n] in ptes && q in t.flat && t.flat[q].frame == released[n];
    assert LeafInv(t, q) && CountInv(t, released[n]);
    NamedAtLeast(t.flat, q);
    hide Inv, LeafInv, SpacePages;
    assert removed[..n + 1] == removed[..n] + [removed[n]];
    assert released[..n + 1] == released[..n] + [released[n]];
    forall r ensures Gone(root, removed, n + 1, r) <==> Gone(root, removed, n, r) || r == q {}
  }

  lemma {:induction false} CutPrefix(s: Vm, root: Frame, ptes: map<nat, Frame>, ptes': map<nat, Frame>,
                                     removed: seq<nat>, released: seq<Frame>, n: nat)
    requires Inv(s) && SpacePages(s, root, ptes) && Truncate.Released(ptes, ptes', removed, released) && n <= |removed|
    ensures Inv(AfterCut(s, root, removed, n)) && CutSoFar(s, AfterCut(s, root, removed, n), root, removed, released, n)
    ensures n < |removed| ==>
              UnmapStep(AfterCut(s, root, removed, n), AfterCut(s, root, removed, n + 1), Pos(root, 0, removed[n]))
  {
    hide Inv, WithoutPage;
    if n == 0 {
      assert released[..0] == [] && removed[..0] == [];
    } else {
      CutPrefix(s, root, ptes, ptes', removed, released, n - 1);
      hide CutSoFar;
      CutOne(s, AfterCut(s, root, removed, n - 1), root, ptes, ptes', removed, released, n - 1);
      UnmapKeeps(AfterCut(s, root, removed, n - 1), AfterCut(s, root, removed, n), Pos(root, 0, removed[n - 1]));
    }
    if n < |removed| { CutOne(s, AfterCut(s, root, removed, n), root, ptes, ptes', removed, released, n); }
  }

  /** Cutting a process's pages is a run of unmappings, one for each entry removed. It leaves the process's
      remaining entries and every other space alone, and drops each frame's count by the references released. */
  lemma CutIsUnmaps(s: Vm, root: Frame, ptes: map<nat, Frame>, ptes': map<nat, Frame>, removed: seq<nat>,
                    released: seq<Frame>)
    requires Inv(s) && SpacePages(s, root, ptes) && Truncate.Released(ptes, ptes', removed, released)
    requires forall v :: v in ptes' ==> v in ptes && ptes'[v] == ptes[v]
    ensures Run(CutStates(s, root, removed), CutSteps(root, removed))
    ensures var t := AfterCut(s, root, removed, |removed|);
            && SpacePages(t, root, ptes')
            && (forall q :: q in s.flat && (q.root != root || q.level != 0) ==> q in t.flat && t.flat[q] == s.flat[q])
            && t.count.Keys == s.count.Keys
                && (forall f :: f in s.count ==> t.count[f] + multiset(released)[f] == s.count[f])
  {
    hide Inv, UnmapStep, AfterCut;
    var states, steps := CutStates(s, root, removed), CutSteps(root, removed);
    assert states[0] == s by { CutPrefix(s, root, ptes, ptes', removed, released, 0); StartOfCut(s, root, removed); }
    forall i {:trigger steps[i]} | 0 <= i < |steps| ensures Next(states[i], states[i + 1], steps[i]) {
      CutPrefix(s, root, ptes, ptes', removed, released, i);
    }
    CutPrefix(s, root, ptes, ptes', removed, released, |removed|);
    assert released[..|removed|] == released && removed[..|removed|] == removed;
    hide Run, CutStates, CutSteps;
    EndOfCut(s, AfterCut(s, root, removed, |removed|), root, ptes, ptes', removed, released);
  }

  lemma StartOfCut(s: Vm, root: Frame, removed: seq<nat>)
    ensures AfterCut(s, root, removed, 0) == s
  {
  }

  lemma EndOfCut(s: Vm, t: Vm, root: Frame, ptes: map<nat, Frame>, ptes': map<nat, Frame>, removed: seq<nat>,
                 released: seq<Frame>)
    requires SpacePages(s, root, ptes) && Truncate.Released(ptes, ptes', removed, released)
               && CutSoFar(s, t, root, removed, released, |removed|)
    requires forall v :: v in ptes' ==> v in ptes && ptes'[v] == ptes[v]
    ensures SpacePages(t, root, ptes')
  {
    assert removed[..|removed|] == removed;
    forall v: nat ensures v in ptes' <==> Pos(root, 0, v) in t.flat {
      assert v in removed <==> v in ptes && v !in ptes';
    }
  }
}
