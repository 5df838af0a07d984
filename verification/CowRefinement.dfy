/** Copy-on-write memory refines the machine in which a fork copies every private page at once. */
module CowRefinement {
  import opened Vmas
  import opened PageTree
  import opened ForkSpec
  import opened PhysicalMemory
  import opened CowMachine

  // ---- The machine whose fork copies at once ----

  /** What a page shows: bytes of its own, or whatever an external frame holds. */
  datatype View = Own(page: Page) | Ref(frame: Frame)

  datatype Eager = Eager(pages: map<Pos, View>, ext: map<Frame, Page>)

  ghost predicate EagerNext(a: Eager, a': Eager, step: Step) {
    match step
    case Fork(parent, child) =>
      && a'.ext == a.ext
      && (forall q :: q in a.pages ==> q.root != child)
      && (forall q :: q in a'.pages <==> q in a.pages || (q.root == child && q.In(parent) in a.pages))
      && (forall q :: q in a.pages ==> a'.pages[q] == a.pages[q])
      && (forall q :: q in a'.pages && q.root == child ==> a'.pages[q] == a.pages[q.In(parent)])
    case FailedFork(_) => a' == a
    case CowFault(q) =>
      // Invisible, unless the page was still showing an external frame: then it keeps those bytes.
      && q in a.pages
      && (match a.pages[q]
          case Own(_) => a' == a
          case Ref(f) =>
            && f in a.ext && a'.pages == a.pages[q := Own(a.ext[f])]
            && (a'.ext == a.ext || a'.ext == a.ext - {f}))
    case FreshFault(q, _, page) => q !in a.pages && a' == a.(pages := a.pages[q := Own(page)])
    case MapExternal(q, f) => q !in a.pages && a' == a.(pages := a.pages[q := Ref(f)])
    case Unmap(q) => a' == a.(pages := a.pages - {q})
    case Write(q, page) =>
      && q in a.pages
      && (match a.pages[q]
          case Own(_) => a' == a.(pages := a.pages[q := Own(page)])
          case Ref(f) => a' == a.(ext := a.ext[f := page]))
    case ExternalWrite(f, page) => a' == a.(ext := a.ext[f := page])
    case NewOwner(f, page) => a' == a.(ext := a.ext[f := page])
    case DropOwner(f) => a'.pages == a.pages && (a'.ext == a.ext || a'.ext == a.ext - {f})
    case Grow => a' == a
  }

  ghost function ViewOf(s: Vm, q: Pos): View
    requires q in s.flat && s.flat[q].frame in s.data
  {
    if s.flat[q].frame in s.external then Ref(s.flat[q].frame) else Own(s.data[s.flat[q].frame])
  }

  ghost function Abs(s: Vm): Eager {
    Eager(map q | q in s.flat && s.flat[q].frame in s.data :: ViewOf(s, q), map f | f in s.external
      && f in s.data :: s.data[f])
  }

  /** Every frame in use has contents. */
  ghost predicate Backed(s: Vm) {
    (forall q :: q in s.flat ==> s.flat[q].frame in s.data) && (forall f :: f in s.external ==> f in s.data)
  }

  lemma InvBacked(s: Vm)
    requires Inv(s)
    ensures Backed(s)
  {
    forall q | q in s.flat ensures s.flat[q].frame in s.data { assert LeafInv(s, q); }
  }

  // ---- Every step is the eager machine's ----

  lemma ForkEager(s: Vm, s': Vm, parent: Frame, child: Frame)
    requires Inv(s) && Inv(s') && ForkStep(s, s', parent, child)
    ensures EagerNext(Abs(s), Abs(s'), Fork(parent, child))
  {
    hide Inv;
    InvBacked(s);
    InvBacked(s');
    var a, a' := Abs(s), Abs(s');
    forall q ensures q in a'.pages <==> q in a.pages || (q.root == child && q.In(parent) in a.pages) {
      if q.root == child && q.In(parent) in s.flat { assert q.In(parent).In(child) == q; }
    }
    assert a'.ext == a.ext;
  }

  lemma FailedForkEager(s: Vm, s': Vm, parent: Frame)
    requires Inv(s) && FailedForkStep(s, s', parent)
    ensures EagerNext(Abs(s), Abs(s'), FailedFork(parent))
  {
    hide Inv;
    InvBacked(s);
    assert Abs(s').pages == Abs(s).pages by {
      forall q ensures q in s.flat <==> q in s'.flat {}
    }
    assert Abs(s').ext == Abs(s).ext;
  }

  lemma CowInPlaceEager(s: Vm, s': Vm, q: Pos)
    requires Inv(s) && CowFaultStep(s, s', q) && s'.flat[q].frame == s.flat[q].frame
    ensures EagerNext(Abs(s), Abs(s'), CowFault(q))
  {
    hide Inv;
    InvBacked(s);
    UpgradedAlone(s, s', q);
    hide Vm.Special, Vm.MayWrite, CowResolvable;
    var f := s.flat[q].frame;
    if f in s.external {
      assert Abs(s').pages == Abs(s).pages[q := Own(s.data[f])];
      assert Abs(s').ext == Abs(s).ext - {f};
    } else {
      assert Abs(s').pages == Abs(s).pages;
      assert Abs(s').ext == Abs(s).ext;
    }
  }

  lemma CowCopyEager(s: Vm, s': Vm, q: Pos)
    requires Inv(s) && CowFaultStep(s, s', q) && s'.flat[q].frame != s.flat[q].frame
    ensures EagerNext(Abs(s), Abs(s'), CowFault(q))
  {
    hide Inv;
    InvBacked(s);
    var f, g := s.flat[q].frame, s'.flat[q].frame;
    NewUnnamed(s, g);
    forall r | r in s.flat ensures s.flat[r].frame != g { NamedAtLeast(s.flat, r); }
    hide Refs;
    assert Abs(s').pages == Abs(s).pages[q := Own(s.data[f])];
    assert Abs(s').ext == Abs(s).ext;
    if f !in s.external { assert Abs(s').pages == Abs(s).pages; }
  }

  lemma FreshFaultEager(s: Vm, s': Vm, q: Pos, g: Frame, page: Page)
    requires Inv(s) && FreshFaultStep(s, s', q, g, page)
    ensures EagerNext(Abs(s), Abs(s'), FreshFault(q, g, page))
  {
    hide Inv;
    InvBacked(s);
    NewUnnamed(s, g);
    forall r | r in s.flat ensures s.flat[r].frame != g { NamedAtLeast(s.flat, r); }
    hide Refs, CountsAfterMap;
    assert Abs(s').pages == Abs(s).pages[q := Own(page)];
    assert Abs(s').ext == Abs(s).ext;
  }

  lemma MapExternalEager(s: Vm, s': Vm, q: Pos, f: Frame)
    requires Inv(s) && MapExternalStep(s, s', q, f)
    ensures EagerNext(Abs(s), Abs(s'), MapExternal(q, f))
  {
    hide Inv, CountsAfterMap;
    InvBacked(s);
    assert Abs(s').pages == Abs(s).pages[q := Ref(f)];
    assert Abs(s').ext == Abs(s).ext;
  }

  lemma UnmapEager(s: Vm, s': Vm, q: Pos)
    requires Inv(s) && UnmapStep(s, s', q)
    ensures EagerNext(Abs(s), Abs(s'), Unmap(q))
  {
    hide Inv;
    InvBacked(s);
    assert Abs(s').pages == Abs(s).pages - {q};
    assert Abs(s').ext == Abs(s).ext;
  }

  /** A write through a writable entry reaches no other private page of any space. */
  lemma WriteEager(s: Vm, s': Vm, q: Pos, page: Page)
    requires Inv(s) && WriteStep(s, s', q, page)
    ensures EagerNext(Abs(s), Abs(s'), Write(q, page))
  {
    hide Inv;
    InvBacked(s);
    var f := s.flat[q].frame;
    if f in s.external {
      assert Abs(s').pages == Abs(s).pages;
      assert Abs(s').ext == Abs(s).ext[f := page];
    } else {
      WritableAlone(s, q);
      assert Abs(s').pages == Abs(s).pages[q := Own(page)];
      assert Abs(s').ext == Abs(s).ext;
    }
  }

  lemma ExternalWriteEager(s: Vm, s': Vm, f: Frame, page: Page)
    requires Inv(s) && ExternalWriteStep(s, s', f, page)
    ensures EagerNext(Abs(s), Abs(s'), ExternalWrite(f, page))
  {
    hide Inv;
    InvBacked(s);
    assert Abs(s').pages == Abs(s).pages;
    assert Abs(s').ext == Abs(s).ext[f := page];
  }

  lemma NewOwnerEager(s: Vm, s': Vm, f: Frame, page: Page)
    requires Inv(s) && NewOwnerStep(s, s', f, page)
    ensures EagerNext(Abs(s), Abs(s'), NewOwner(f, page))
  {
    hide Inv;
    InvBacked(s);
    NewUnnamed(s, f);
    forall r | r in s.flat ensures s.flat[r].frame != f { NamedAtLeast(s.flat, r); }
    hide Refs;
    assert Abs(s').pages == Abs(s).pages;
    assert Abs(s').ext == Abs(s).ext[f := page];
  }

  /** An owned frame with no further reference is named by no entry. */
  lemma LastOwnerUnnamed(s: Vm, f: Frame)
    requires Inv(s) && f in s.live && s.count[f] == 1
    ensures forall r :: r in s.flat ==> s.flat[r].frame != f
  {
    assert CountInv(s, f);
    forall r | r in s.flat ensures s.flat[r].frame != f { NamedAtLeast(s.flat, r); }
  }

  lemma DropOwnerEager(s: Vm, s': Vm, f: Frame)
    requires Inv(s) && DropOwnerStep(s, s', f)
    ensures EagerNext(Abs(s), Abs(s'), DropOwner(f))
  {
    hide Inv;
    InvBacked(s);
    if s.count[f] > 1 {
      assert Abs(s').pages == Abs(s).pages && Abs(s').ext == Abs(s).ext;
    } else {
      LastOwnerUnnamed(s, f);
      assert Abs(s').pages == Abs(s).pages && Abs(s').ext == Abs(s).ext - {f};
    }
  }

  lemma GrowEager(s: Vm, s': Vm)
    requires Inv(s) && GrowStep(s, s')
    ensures EagerNext(Abs(s), Abs(s'), Grow)
  {
    InvBacked(s);
    forall q | q in s.flat ensures s'.data[s.flat[q].frame] == s.data[s.flat[q].frame] { assert LeafInv(s, q); }
    forall f | f in s.external ensures s'.data[f] == s.data[f] {}
    hide Inv, OnlyGrew;
    assert Abs(s').pages == Abs(s).pages && Abs(s').ext == Abs(s).ext;
  }

  lemma NextEager(s: Vm, s': Vm, step: Step)
    requires Inv(s) && Inv(s') && Next(s, s', step)
    ensures EagerNext(Abs(s), Abs(s'), step)
  {
    hide EagerNext, Abs, Inv, ForkStep, FailedForkStep, CowFaultStep, FreshFaultStep, MapExternalStep, UnmapStep,
      WriteStep, ExternalWriteStep, NewOwnerStep, DropOwnerStep, GrowStep;
    match step
    case Fork(parent, child) => ForkEager(s, s', parent, child);
    case FailedFork(parent) => FailedForkEager(s, s', parent);
    case CowFault(q) => CowEager(s, s', q);
    case FreshFault(q, g, page) => FreshFaultEager(s, s', q, g, page);
    case MapExternal(q, f) => MapExternalEager(s, s', q, f);
    case Unmap(q) => UnmapEager(s, s', q);
    case Write(q, page) => WriteEager(s, s', q, page);
    case ExternalWrite(f, page) => ExternalWriteEager(s, s', f, page);
    case NewOwner(f, page) => NewOwnerEager(s, s', f, page);
    case DropOwner(f) => DropOwnerEager(s, s', f);
    case Grow => GrowEager(s, s');
  }

  lemma CowEager(s: Vm, s': Vm, q: Pos)
    requires Inv(s) && Inv(s') && CowFaultStep(s, s', q)
    ensures EagerNext(Abs(s), Abs(s'), CowFault(q))
  {
    if s'.flat[q].frame == s.flat[q].frame { CowInPlaceEager(s, s', q); } else { CowCopyEager(s, s', q); }
  }

  // ---- Whole runs ----

  /** What a load through `q` returns, from the page tables and from the eager machine. */
  ghost function Load(s: Vm, q: Pos): Page
    requires q in s.flat && s.flat[q].frame in s.data
  {
    s.data[s.flat[q].frame]
  }

  ghost predicate EagerLoads(a: Eager, q: Pos, page: Page) {
    q in a.pages && match a.pages[q] { case Own(p) => page == p case Ref(f) => f in a.ext && page == a.ext[f] }
  }

  /** Copy-on-write memory is the machine that copies at fork: step for step, and load for load.
      No entry is writable whose mapping does not permit writing, and special mappings stay shared and
      anonymous pages are each space's own. */
  lemma RunRefinesEagerCopy(states: seq<Vm>, steps: seq<Step>, i: nat)
    requires Run(states, steps) && i < |states|
    ensures Inv(states[i])
    ensures i < |steps| ==> Inv(states[i + 1]) && EagerNext(Abs(states[i]), Abs(states[i + 1]), steps[i])
    ensures forall q :: q in states[i].flat ==>
              LeafInv(states[i], q) && EagerLoads(Abs(states[i]), q, Load(states[i], q))
    ensures forall q :: q in states[i].flat && states[i].flat[q].flags.writable ==> states[i].MayWrite(q)
    ensures forall q :: q in states[i].flat && states[i].Special(q) ==> Abs(states[i]).pages[q].Ref?
    ensures forall q :: q in states[i].flat && states[i].Anonymous(q) ==> Abs(states[i]).pages[q].Own?
  {
    hide Inv, Next, EagerNext;
    RunKeeps(states, steps, i);
    StateLoads(states[i]);
    if i < |steps| {
      RunKeeps(states, steps, i + 1);
      assert Next(states[i], states[i + 1], steps[i]);
      NextEager(states[i], states[i + 1], steps[i]);
    }
  }

  /** In one state: every load is the eager machine's, and the entries respect their mappings. */
  lemma StateLoads(s: Vm)
    requires Inv(s)
    ensures forall q :: q in s.flat ==> LeafInv(s, q) && EagerLoads(Abs(s), q, Load(s, q))
    ensures forall q :: q in s.flat && s.flat[q].flags.writable ==> s.MayWrite(q)
    ensures forall q :: q in s.flat && s.Special(q) ==> Abs(s).pages[q].Ref?
    ensures forall q :: q in s.flat && s.Anonymous(q) ==> Abs(s).pages[q].Own?
  {
    InvBacked(s);
    forall q | q in s.flat
      ensures LeafInv(s, q) && EagerLoads(Abs(s), q, Load(s, q))
      ensures (s.Special(q) ==> Abs(s).pages[q].Ref?) && (s.Anonymous(q) ==> Abs(s).pages[q].Own?)
    {
      assert LeafInv(s, q);
      if s.Anonymous(q) { AnonymousIsPrivate(q.n * PAGE, s.spaces[q.root]); }
    }
  }
}
