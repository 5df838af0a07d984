/** Physical memory: the frame allocator and the operations that walk and rewrite page tables
    in place. */
module PhysicalMemory {
  import opened Vmas
  import opened PageTree
  import opened ForkSpec
  import opened UndoSpec

  ghost predicate DataOk(flat: map<Pos, Entry>, data: map<Frame, Page>) {
    forall p {:trigger flat[p]} :: p in flat ==> flat[p].frame in data
  }

  lemma DataWithout(flat: map<Pos, Entry>, data: map<Frame, Page>, root: Frame)
    requires DataOk(flat, data)
    ensures DataOk(Without(flat, root), data)
  {
  }

  lemma FramesCopied(managed: set<Frame>, tables: Tables, flat: map<Pos, Entry>, count: map<Frame, nat>, f: Frame,
                     g: Frame)
    requires FramesOk(managed, tables, flat, count)
    requires f in managed && f in count && count[f] > 1 && g in managed && g !in count
    ensures FramesOk(managed, tables, flat, count[g := 1][f := count[f] - 1])
  {
  }

  /** Nothing in use changed: counted frames keep their counts, and only frames that were free may have
      been counted or written. */
  ghost predicate OnlyGrew(managed: set<Frame>, count: map<Frame, nat>, count': map<Frame, nat>,
                           data: map<Frame, Page>, data': map<Frame, Page>) {
    && (forall g {:trigger count'[g]} {:trigger g in count} :: g in count ==> g in count' && count'[g] == count[g])
    && (forall g {:trigger data'[g]} {:trigger g in data} ::
          g in data && (g in managed ==> g in count) ==> g in data' && data'[g] == data[g])
  }

  // ---- What a copy-on-write fault does ----

  ghost predicate CowResolvable(managed: set<Frame>, flat: map<Pos, Entry>, count: map<Frame, nat>, q: Pos,
                                permitsWrite: bool) {
    && permitsWrite && q in flat && flat[q].flags.cow
    && (RefsOf(count, flat[q].frame) <= 1 || !(managed <= count.Keys))
  }

  function RefsOf(count: map<Frame, nat>, f: Frame): nat { if f in count then count[f] else 0 }

  /** In place for a sole reference; otherwise a fresh frame with the same bytes takes the page. */
  ghost predicate CowStep(managed: set<Frame>, flat: map<Pos, Entry>, count: map<Frame, nat>, data: map<Frame, Page>,
                          flat': map<Pos, Entry>, count': map<Frame, nat>, data': map<Frame, Page>, q: Pos) {
    && q in flat && q in flat' && flat[q].frame in data
    && var e := flat[q];
    && var g := flat'[q].frame;
    && flat' == flat[q := Entry(g, e.flags.(cow := false, writable := true))]
    && if RefsOf(count, e.frame) <= 1 then
         g == e.frame && count' == count && data' == data
       else
         g in managed && g !in count && count' == count[g := 1][e.frame := count[e.frame] - 1]
           && data' == data[g := data[e.frame]]
  }

  lemma FreshFrame(managed: set<Frame>, tables: Tables, flat: map<Pos, Entry>, count: map<Frame, nat>, f: Frame)
    requires FramesOk(managed, tables, flat, count) && f !in count
    ensures f !in tables && count.Keys <= managed
  {
  }

  /** A fresh empty root is the start of a fork: nothing shared, nothing owed, nothing below it. */
  lemma RootAccounted(managed: set<Frame>, tables: Tables, at: map<Pos, Frame>, pos: map<Frame, Pos>,
                      flat: map<Pos, Entry>,
                      count: map<Frame, nat>, parent: Frame, f: Frame, table: seq<Entry>, vmas: VmaSet)
    requires TreeOk(tables, at, pos) && FlatOk(tables, at, flat) && FramesOk(managed, tables, flat, count)
    requires f in managed && f !in count && f !in tables
    requires forall q :: q in at || q in flat ==> q.root != f
    ensures var r := Pos(f, 4, 0);
            && FramesOk(managed, tables[f := table], flat, count[f := 1])
            && Forking(flat, flat, parent, f, vmas)
            && Accounted(count, count[f := 1], flat, pos[f := r], tables[f := table], f)
            && ChildTables(at, at[r := f], f)
            && forall j: nat :: j < 512 ==> Bare(at[r := f], flat, r.Child(j))
  {
    var r := Pos(f, 4, 0);
    forall g ensures RefsIn(flat, f, g) == 0 { assert Named(flat, f, g) == {}; }
    forall j: nat, q | j < 512 && (q in at[r := f] || q in flat) ensures !Under(r.Child(j), q) {
      if Under(r.Child(j), q) { UnderMoved(r.Child(j), q, f); }
    }
  }

  class Memory {
    /** Frames the allocator's bitmap covers. */
    const managed: set<Frame>
    /** The boot-time root table, whose upper half every address space shares. */
    const kernelRoot: seq<Entry>

    var tables: Tables
    /** Reference counts of the frames not on the free list. */
    var count: map<Frame, nat>
    var data: map<Frame, Page>

    ghost var at: map<Pos, Frame>
    ghost var pos: map<Frame, Pos>
    ghost var flat: map<Pos, Entry>

    /** At boot: one root table with an empty user half, and every other frame free. */
    constructor (managed: set<Frame>, kernelRoot: seq<Entry>, root: Frame)
      requires root in managed && |kernelRoot| == 512
      ensures Valid() && IsRoot(root) && flat == map[] && count == map[root := 1]
      ensures this.managed == managed && this.kernelRoot == kernelRoot
    {
      this.managed, this.kernelRoot := managed, kernelRoot;
      var table := EMPTY_TABLE[..256] + kernelRoot[256..];
      tables, count, data := map[root := table], map[root := 1], map[];
      at, pos, flat := map[Pos(root, 4, 0) := root], map[root := Pos(root, 4, 0)], map[];
      new;
      InstallRoot(map[], map[], map[], map[], root, table);
    }

    ghost predicate Valid()
      reads this
    {
      && KernelHalf(tables, at, kernelRoot)
      && TreeOk(tables, at, pos) && FlatOk(tables, at, flat) && FramesOk(managed, tables, flat, count)
      && DataOk(flat, data)
    }

    /** A frame a leaf may name: memory that is not a table and, if managed, is allocated. */
    ghost predicate Mappable(f: Frame)
      reads this
    {
      f !in tables && f in data && (f in managed ==> f in count)
    }

    ghost predicate IsRoot(root: Frame)
      reads this
    {
      Pos(root, 4, 0) in at
    }

    // ---- Frame allocator ----

    method AllocateFrame() returns (r: Option<Frame>)
      modifies this`count
      ensures r.None? <==> managed <= old(count).Keys
      ensures r.None? ==> count == old(count)
      ensures r.Some? ==> r.value in managed && r.value !in old(count) && count == old(count)[r.value := 1]
    {
      var free := managed - count.Keys;
      if free == {} {
        assert forall f :: f in managed ==> f !in free;
        return None;
      }
      var f :| f in free;
      count := count[f := 1];
      r := Some(f);
    }

    // ---- Faults: installing one page ----

    /** Write one present leaf entry. */
    method WritePte(ghost p: Pos, f: Frame, i: nat, e: Entry)
      requires Valid() && p in at && at[p] == f && p.level == 1 && i < 512 && e.flags.present
      requires Mappable(e.frame)
      modifies this`tables, this`flat
      ensures Valid() && flat == old(flat)[p.Child(i) := e] && tables.Keys == old(tables).Keys
    {
      hide TreeOk, FlatOk, KernelHalf;
      KernelHalfKept(tables, at, pos, kernelRoot, p, i, e);
      WriteLeaf(tables, at, pos, flat, p, i, e);
      tables := SetEntry(tables, f, i, e);
      flat := flat[p.Child(i) := e];
    }

    /** Zero the freshly allocated frame `a` and point entry `i` of the table at `p` to it. */
    method LinkNewTable(ghost p: Pos, f: Frame, i: nat, a: Frame, flags: Flags)
      requires KernelHalf(tables, at, kernelRoot) && TreeOk(tables, at, pos) && FlatOk(tables, at, flat)
      requires FramesOk(managed, tables, flat, count - {a}) && DataOk(flat, data)
      requires a in managed && a !in tables && a in count && count[a] == 1
      requires p in at && at[p] == f && p.level > 1 && i < Span(p.level) && p.Child(i) !in at && flags.present
      modifies this`tables, this`at, this`pos
      ensures Valid()
      ensures at == old(at)[p.Child(i) := a] && pos == old(pos)[a := p.Child(i)]
                && tables.Keys == old(tables).Keys + {a}
    {
      hide TreeOk, FlatOk, KernelHalf;
      KernelHalfKept(tables, at, pos, kernelRoot, p, i, Entry(a, flags));
      KernelHalfGrown(SetEntry(tables, at[p], i, Entry(a, flags)), at, kernelRoot, p.Child(i), a, EMPTY_TABLE);
      InstallTable(tables, at, pos, flat, p, i, a, flags);
      InstallTableFlat(tables, at, pos, flat, p, i, a, flags);
      tables := SetEntry(tables, f, i, Entry(a, flags))[a := EMPTY_TABLE];
      at := at[p.Child(i) := a];
      pos := pos[a := p.Child(i)];
    }

    /** Returns the table below entry `i` of the table at `p`, allocating an empty one if the
        entry is absent and widening the entry's flags if it is present. */
    method EnsureTableEntry(ghost p: Pos, f: Frame, i: nat) returns (r: Option<Frame>)
      requires Valid() && p in at && at[p] == f && p.level > 1 && i < Span(p.level)
      modifies this`tables, this`count, this`at, this`pos
      ensures Valid()
      ensures r.Some? ==> p.Child(i) in at && at[p.Child(i)] == r.value
      ensures r.None? ==> managed <= count.Keys
      ensures Extended(managed, p.root, old(at), at, old(tables), tables, old(count), count)
    {
      assert LinkOk(tables, at, p, i);
      var e := tables[f][i];
      if e.flags.present {
        var flags := e.flags.Union(TABLE_FLAGS);
        if flags != e.flags {
          KernelHalfKept(tables, at, pos, kernelRoot, p, i, Entry(e.frame, flags));
          WidenLink(tables, at, pos, flat, p, i, flags);
          tables := SetEntry(tables, f, i, Entry(e.frame, flags));
        }
        return Some(e.frame);
      }
      var a := AllocateFrame();
      if a.None? {
        return None;
      }
      LinkNewTable(p, f, i, a.value, TABLE_FLAGS);
      r := Some(a.value);
    }

    /** Follows the page number down to its leaf table, building the tables that are missing. */
    method EnsureLeafTable(root: Frame, vpn: nat) returns (r: Option<Frame>)
      requires Valid() && IsRoot(root) && vpn < USER_PAGES
      modifies this`tables, this`count, this`at, this`pos
      ensures Valid()
      ensures r.Some? ==> Pos(root, 1, vpn / Unit(1)) in at && at[Pos(root, 1, vpn / Unit(1))] == r.value
      ensures r.None? ==> managed <= count.Keys
      ensures Extended(managed, root, old(at), at, old(tables), tables, old(count), count)
    {
      RootFrame(root);
      assert Extended(managed, root, at, at, tables, tables, count, count);
      hide TreeOk, FlatOk, KernelHalf, FramesOk, DataOk, Extended, Unit, Index;
      var f := root;
      var level := 4;
      ghost var p := Pos(root, 4, 0);
      SplitStep(vpn, 4);
      while level > 1
        invariant 1 <= level <= 4 && p == Pos(root, level, vpn / Unit(level))
        invariant Valid() && p in at && at[p] == f
        invariant Extended(managed, root, old(at), at, old(tables), tables, old(count), count)
      {
        ghost var at1, tables1, count1 := at, tables, count;
        SplitStep(vpn, level);
        var next := EnsureTableEntry(p, f, Index(vpn, level));
        ExtendedTwice(managed, root, old(at), at1, at, old(tables), tables1, tables, old(count), count1, count);
        if next.None? {
          return None;
        }
        p := p.Child(Index(vpn, level));
        f := next.value;
        level := level - 1;
      }
      r := Some(f);
    }

    /** Map one page: adds exactly that leaf, or refuses and changes no leaf at all. */
    method MapPageDirect(root: Frame, vpn: nat, frame: Frame, flags: Flags) returns (ok: bool)
      requires Valid() && IsRoot(root) && vpn < USER_PAGES && flags.present
      requires Mappable(frame)
      modifies this`tables, this`count, this`at, this`pos, this`flat
      ensures Valid() && IsRoot(root)
      ensures ok ==> Pos(root, 0, vpn) !in old(flat) && flat == old(flat)[Pos(root, 0, vpn) := Entry(frame, flags)]
      ensures !ok ==> flat == old(flat) && (Pos(root, 0, vpn) in flat || managed <= count.Keys)
      ensures Extended(managed, root, old(at), at, old(tables), tables, old(count), count)
    {
      hide TreeOk, FlatOk, KernelHalf, FramesOk, DataOk;
      var t := EnsureLeafTable(root, vpn);
      if t.None? {
        return false;
      }
      ghost var p := Pos(root, 1, vpn / 512);
      var i := Index(vpn, 1);
      assert p.Child(i) == Pos(root, 0, vpn);
      LeafPresence(p, i);
      assert Pos(root, 4, 0) in at;
      if tables[t.value][i].flags.present {
        return false;
      }
      WritePte(p, t.value, i, Entry(frame, flags));
      ok := true;
    }

    /** Follows the page number down to its leaf table, if the tables on the way are present. */
    method FindLeafTable(root: Frame, vpn: nat) returns (r: Option<Frame>)
      requires Valid() && IsRoot(root) && vpn < USER_PAGES
      ensures r.Some? ==> Pos(root, 1, vpn / Unit(1)) in at && at[Pos(root, 1, vpn / Unit(1))] == r.value
      ensures r.None? ==> Pos(root, 0, vpn) !in flat
    {
      RootFrame(root);
      hide TreeOk, FlatOk, KernelHalf, FramesOk, DataOk, Unit, Index;
      var f := root;
      var level := 4;
      ghost var p := Pos(root, 4, 0);
      SplitStep(vpn, 4);
      while level > 1
        invariant 1 <= level <= 4 && p == Pos(root, level, vpn / Unit(level))
        invariant p in at && at[p] == f
      {
        SplitStep(vpn, level);
        LinkPresence(p, Index(vpn, level));
        var e := tables[f][Index(vpn, level)];
        if !e.flags.present {
          AncestorsOccupied(tables, at, pos, flat, root, level - 1, vpn);
          return None;
        }
        p := p.Child(Index(vpn, level));
        f := e.frame;
        level := level - 1;
      }
      r := Some(f);
    }

    /** Agrees with the flat map on every user page. */
    method IsPagePresent(root: Frame, vpn: nat) returns (present: bool)
      requires Valid() && IsRoot(root) && vpn < USER_PAGES
      ensures present <==> Pos(root, 0, vpn) in flat
    {
      hide TreeOk, FlatOk, KernelHalf, FramesOk, DataOk;
      var t := FindLeafTable(root, vpn);
      if t.None? {
        return false;
      }
      ghost var p := Pos(root, 1, vpn / 512);
      assert p.Child(Index(vpn, 1)) == Pos(root, 0, vpn);
      LeafPresence(p, Index(vpn, 1));
      present := tables[t.value][Index(vpn, 1)].flags.present;
    }

    // ---- Copy-on-write faults ----

    /** The reference count, 0 for a frame the allocator does not manage. */
    function Refcount(f: Frame): nat
      reads this`count
    {
      if f in count then count[f] else 0
    }

    /** Resolve a write fault on a copy-on-write page: a frame with one reference is made writable
        in place, a shared one is replaced by a private copy. */
    method HandleCowFault(root: Frame, addr: nat, vmas: VmaSet) returns (resolved: bool)
      requires Valid() && IsRoot(root) && addr < USER_VA_END
      modifies this`tables, this`count, this`data, this`flat
      ensures Valid()
      ensures resolved <==>
                CowResolvable(managed, old(flat), old(count), Pos(root, 0, addr / PAGE), PermitsWrite(addr, vmas))
      ensures !resolved ==> flat == old(flat) && count == old(count) && data == old(data)
      ensures resolved ==>
                CowStep(managed, old(flat), old(count), old(data), flat, count, data, Pos(root, 0, addr / PAGE))
    {
      hide TreeOk, FlatOk, KernelHalf, FramesOk, PermitsWrite;
      if !PermitsWrite(addr, vmas) {
        return false;
      }
      var vpn := addr / PAGE;
      var t := FindLeafTable(root, vpn);
      if t.None? {
        return false;
      }
      ghost var p := Pos(root, 1, vpn / 512);
      var i := Index(vpn, 1);
      assert p.Child(i) == Pos(root, 0, vpn);
      LeafPresence(p, i);
      var pte := tables[t.value][i];
      if !pte.flags.cow {
        return false;
      }
      var upgraded := pte.flags.(cow := false, writable := true);
      if Refcount(pte.frame) <= 1 {
        WritePte(p, t.value, i, Entry(pte.frame, upgraded));
        return true;
      }
      resolved := CopyPage(p, t.value, i, pte.frame, upgraded);
    }

    /** Replace the shared frame of one page by a private copy of its bytes. */
    method CopyPage(ghost p: Pos, t: Frame, i: nat, from: Frame, flags: Flags) returns (ok: bool)
      requires Valid() && p in at && at[p] == t && p.level == 1 && i < 512 && flags.present
      requires p.Child(i) in flat && flat[p.Child(i)].frame == from && from in count && count[from] > 1
      modifies this`tables, this`count, this`data, this`flat
      ensures Valid()
      ensures ok <==> !(managed <= old(count).Keys)
      ensures !ok ==> flat == old(flat) && count == old(count) && data == old(data)
      ensures ok ==> p.Child(i) in flat && from in old(data)
      ensures ok ==> var g := flat[p.Child(i)].frame;
                     && g in managed && g !in old(count) && count == old(count)[g := 1][from := old(count)[from] - 1]
                     && data == old(data)[g := old(data)[from]] && flat == old(flat)[p.Child(i) := Entry(g, flags)]
    {
      hide TreeOk, FlatOk, KernelHalf, FramesOk;
      var a := AllocateFrame();
      if a.None? {
        return false;
      }
      FreshFrame(managed, tables, flat, old(count), a.value);
      data := data[a.value := data[from]];
      DecRefcount(from);
      FramesCopied(managed, tables, flat, old(count), from, a.value);
      WritePte(p, t, i, Entry(a.value, flags));
      ok := true;
    }

    // ---- Fork ----

    method IncRefcount(f: Frame)
      requires f in managed ==> f in count
      modifies this`count
      ensures count == Bump(managed, old(count), f)
    {
      if f in managed {
        count := count[f := count[f] + 1];
      }
    }

    /** The walk over a fork's parent tables, at any point: `start`, `count0` and `at0` are the
        leaves, counts and tables before the child had any. */
    ghost predicate ForkState(start: map<Pos, Entry>, count0: map<Frame, nat>, at0: map<Pos, Frame>,
                              parent: Frame, child: Frame, vmas: VmaSet)
      reads this
    {
      && Valid() && parent != child
      && Forking(start, flat, parent, child, vmas)
      && Accounted(count0, count, flat, pos, tables, child)
      && ChildTables(at0, at, child)
    }

    /** Write the forked entry on both sides. */
    method ShareLeaf(parent: Frame, child: Frame, n: nat, pf: Frame, cf: Frame, i: nat, vmas: VmaSet)
        returns (frame: Frame)
      requires Valid() && i < 512 && parent != child
      requires Pos(parent, 1, n) in at && at[Pos(parent, 1, n)] == pf
      requires Pos(child, 1, n) in at && at[Pos(child, 1, n)] == cf
      requires Pos(parent, 0, n * 512 + i) in flat
      modifies this`tables, this`flat
      ensures Valid() && tables.Keys == old(tables).Keys
      ensures var q := Pos(parent, 0, n * 512 + i);
              var e := AfterFork(old(flat)[q], q.n, vmas);
              flat == old(flat)[q := e][q.In(child) := e] && frame == e.frame
      ensures frame in managed ==> frame in count
    {
      hide TreeOk, FlatOk, KernelHalf, FramesOk, DataOk;
      ghost var pp, cp := Pos(parent, 1, n), Pos(child, 1, n);
      LeafPresence(pp, i);
      var e := tables[pf][i];
      if IsSpecialMapping((n * 512 + i) * PAGE, vmas) {
        assert flat == flat[pp.Child(i) := e];
        WritePte(cp, cf, i, e);
      } else {
        var cowed := Entry(e.frame, e.flags.(writable := false, cow := true));
        WritePte(pp, pf, i, cowed);
        WritePte(cp, cf, i, cowed);
      }
      frame := e.frame;
    }

    /** Give the child the page at entry `i` of the leaf table numbered `n`. */
    method CloneLeaf(parent: Frame, child: Frame, n: nat, pf: Frame, cf: Frame, i: nat, vmas: VmaSet,
                     ghost start: map<Pos, Entry>, ghost count0: map<Frame, nat>, ghost at0: map<Pos, Frame>)
      requires ForkState(start, count0, at0, parent, child, vmas) && i < 512
      requires Pos(parent, 1, n) in at && at[Pos(parent, 1, n)] == pf
      requires Pos(child, 1, n) in at && at[Pos(child, 1, n)] == cf
      requires Pos(parent, 0, n * 512 + i) in flat && Pos(child, 0, n * 512 + i) !in flat
      modifies this`tables, this`count, this`flat
      ensures ForkState(start, count0, at0, parent, child, vmas)
      ensures flat.Keys == old(flat).Keys + {Pos(child, 0, n * 512 + i)}
    {
      hide TreeOk, FlatOk, KernelHalf, FramesOk, Forking, Accounted, DataOk, ChildTables, AfterFork, IsSpecialMapping,
        Bump;
      ghost var q := Pos(parent, 0, n * 512 + i);
      ForkOne(start, flat, parent, child, vmas, q);
      var frame := ShareLeaf(parent, child, n, pf, cf, i, vmas);
      AccountOne(managed, count0, count, old(flat), pos, old(tables), tables, child, q,
        AfterFork(old(flat)[q], q.n, vmas));
      FramesOne(managed, count, old(flat), old(tables), tables, q, q.In(child), AfterFork(old(flat)[q], q.n, vmas));
      IncRefcount(frame);
    }

    lemma RootFrame(root: Frame)
      requires Valid() && IsRoot(root)
      ensures at[Pos(root, 4, 0)] == root && root in tables && Pos(root, 4, 0) !in flat
    {
    }

    lemma LeafPresence(p: Pos, i: nat)
      requires Valid() && p in at && p.level == 1 && i < 512
      ensures at[p] in tables && |tables[at[p]]| == 512
      ensures tables[at[p]][i].flags.present <==> p.Child(i) in flat
      ensures p.Child(i) in flat ==> flat[p.Child(i)] == tables[at[p]][i] && Mappable(flat[p.Child(i)].frame)
      ensures tables[at[p]][i].flags.cow ==> p.Child(i) in flat
    {
      assert LeafOk(tables, at, flat, p, i);
    }

    lemma LinkPresence(p: Pos, i: nat)
      requires Valid() && p in at && p.level > 1 && i < Span(p.level)
      ensures at[p] in tables && |tables[at[p]]| == 512
      ensures tables[at[p]][i].flags.present <==> p.Child(i) in at
      ensures p.Child(i) in at ==> at[p.Child(i)] == tables[at[p]][i].frame
    {
      assert LinkOk(tables, at, p, i);
    }

    /** Give the child every page of the leaf table numbered `n`. */
    method CloneLeaves(parent: Frame, child: Frame, n: nat, pf: Frame, cf: Frame, vmas: VmaSet,
                       ghost start: map<Pos, Entry>, ghost count0: map<Frame, nat>, ghost at0: map<Pos, Frame>)
      requires ForkState(start, count0, at0, parent, child, vmas)
      requires Pos(parent, 1, n) in at && at[Pos(parent, 1, n)] == pf
      requires Pos(child, 1, n) in at && at[Pos(child, 1, n)] == cf
      requires forall j: nat :: j < 512 ==> Bare(at, flat, Pos(child, 1, n).Child(j))
      modifies this`tables, this`count, this`flat
      ensures ForkState(start, count0, at0, parent, child, vmas)
      ensures GrewUnder(at, at, old(flat), flat, Pos(child, 1, n))
      ensures Shared(start, flat, child, Pos(parent, 1, n))
    {
      hide TreeOk, FlatOk, KernelHalf, FramesOk, Forking, Accounted, DataOk, ChildTables, Shared;
      ghost var pp := Pos(parent, 1, n);
      forall j: nat | j < 512 ensures Pos(child, 1, n).Child(j) !in flat {
        assert Under(Pos(child, 1, n).Child(j), Pos(child, 1, n).Child(j));
      }
      for i := 0 to 512
        invariant ForkState(start, count0, at0, parent, child, vmas)
        invariant forall j: nat :: i <= j < 512 ==> Pos(child, 1, n).Child(j) !in flat
        invariant old(flat).Keys <= flat.Keys
        invariant forall q :: q in flat && q !in old(flat) ==> q.level == 0 && q.Parent() == Pos(child, 1, n)
        invariant forall j: nat :: j < i && Pos(parent, 1, n).Child(j) in start ==> Pos(child, 1, n).Child(j) in flat
      {
        LeafPresence(pp, i);
        assert Pos(child, 1, n).Child(i) !in flat;
        ParentKeepsPages(start, flat, parent, child, vmas, pp.Child(i));
        if tables[pf][i].flags.present {
          CloneLeaf(parent, child, n, pf, cf, i, vmas, start, count0, at0);
          assert Pos(child, 0, n * 512 + i).Parent() == Pos(child, 1, n);
        }
      }
      LeavesShared(tables, at, start, flat, parent, child, vmas, n);
      LeavesGrew(at, old(flat), flat, child, n);
    }

    /** Allocate and link an empty child table below entry `i`, with the parent entry's flags. */
    method AddChildTable(child: Frame, ghost cp: Pos, cf: Frame, i: nat, flags: Flags, parent: Frame, vmas: VmaSet,
                         ghost start: map<Pos, Entry>, ghost count0: map<Frame, nat>, ghost at0: map<Pos, Frame>)
      returns (r: Option<Frame>)
      requires ForkState(start, count0, at0, parent, child, vmas) && flags.present
      requires cp in at && at[cp] == cf && cp.root == child && cp.level > 1 && i < Span(cp.level) && cp.Child(i) !in at
      modifies this`tables, this`count, this`at, this`pos
      ensures ForkState(start, count0, at0, parent, child, vmas)
      ensures r.None? ==> managed <= count.Keys && at == old(at)
      ensures r.Some? ==> at == old(at)[cp.Child(i) := r.value]
    {
      hide TreeOk, FlatOk, KernelHalf, FramesOk, Forking, Accounted, DataOk;
      r := AllocateFrame();
      if r.Some? {
        assert count - {r.value} == old(count);
        FreshFrame(managed, tables, flat, old(count), r.value);
        LinkNewTable(cp, cf, i, r.value, flags);
        AccountTable(count0, old(count), flat, old(pos), old(tables), tables, child, r.value, cp.Child(i));
      }
    }

    /** Copy the user part of the subtree below one parent table into the child's table at the
        same place. `false` means a frame was wanted and none was left. */
    method CloneLevel(level: nat, parent: Frame, child: Frame, n: nat, pf: Frame, cf: Frame, vmas: VmaSet,
                      ghost start: map<Pos, Entry>, ghost count0: map<Frame, nat>, ghost at0: map<Pos, Frame>)
      returns (ok: bool)
      requires ForkState(start, count0, at0, parent, child, vmas) && 1 <= level <= 4
      requires Pos(parent, level, n) in at && at[Pos(parent, level, n)] == pf
      requires Pos(child, level, n) in at && at[Pos(child, level, n)] == cf
      requires forall j: nat :: j < 512 ==> Bare(at, flat, Pos(child, level, n).Child(j))
      modifies this`tables, this`count, this`flat, this`at, this`pos
      ensures ForkState(start, count0, at0, parent, child, vmas)
      ensures GrewUnder(old(at), at, old(flat), flat, Pos(child, level, n))
      ensures ok ==> Shared(start, flat, child, Pos(parent, level, n))
      ensures !ok ==> managed <= count.Keys
      decreases level, 1
    {
      hide TreeOk, FlatOk, KernelHalf, FramesOk, Forking, Accounted, DataOk, ChildTables, Shared, GrewUnder, Bare;
      if level == 1 {
        CloneLeaves(parent, child, n, pf, cf, vmas, start, count0, at0);
        return true;
      }
      ghost var pp, cp := Pos(parent, level, n), Pos(child, level, n);
      GrewSelf(at, flat, cp);
      for i := 0 to Span(level)
        invariant ForkState(start, count0, at0, parent, child, vmas)
        invariant pp in at && at[pp] == pf && cp in at && at[cp] == cf
        invariant GrewUnder(old(at), at, old(flat), flat, cp)
        invariant forall j: nat :: i <= j < 512 ==> Bare(at, flat, cp.Child(j))
        invariant forall j: nat :: j < i ==> Shared(start, flat, child, pp.Child(j))
      {
        LinkPresence(pp, i);
        var e := tables[pf][i];
        if e.flags.present {
          ok := CloneEntry(level, parent, child, n, e, cf, i, vmas, start, count0, at0, old(at), old(flat));
          if !ok {
            return;
          }
        } else {
          AbsentShared(tables, at, pos, start, flat, parent, child, vmas, pp, i);
        }
      }
      forall j: nat | j < 512 ensures Shared(start, flat, child, pp.Child(j)) {
        if j >= Span(level) { AbsentShared(tables, at, pos, start, flat, parent, child, vmas, pp, j); }
      }
      StartIsLeaves(start, count0, at0, parent, child, vmas);
      ChildrenShared(start, flat, child, pp);
      ok := true;
    }

    /** Give the child a table for entry `i` and clone the subtree below it. */
    method CloneEntry(level: nat, parent: Frame, child: Frame, n: nat, e: Entry, cf: Frame, i: nat, vmas: VmaSet,
                      ghost start: map<Pos, Entry>, ghost count0: map<Frame, nat>, ghost at0: map<Pos, Frame>,
                      ghost atB: map<Pos, Frame>, ghost flatB: map<Pos, Entry>)
      returns (ok: bool)
      requires ForkState(start, count0, at0, parent, child, vmas) && 1 < level <= 4 && i < Span(level)
      requires Pos(parent, level, n) in at && e.flags.present
      requires Pos(parent, level, n).Child(i) in at && at[Pos(parent, level, n).Child(i)] == e.frame
      requires Pos(child, level, n) in at && at[Pos(child, level, n)] == cf
      requires GrewUnder(atB, at, flatB, flat, Pos(child, level, n))
      requires forall j: nat :: i <= j < 512 ==> Bare(at, flat, Pos(child, level, n).Child(j))
      modifies this`tables, this`count, this`flat, this`at, this`pos
      ensures ForkState(start, count0, at0, parent, child, vmas)
      ensures GrewUnder(atB, at, flatB, flat, Pos(child, level, n))
      ensures Pos(parent, level, n) in at && at[Pos(parent, level, n)] == old(at)[Pos(parent, level, n)]
      ensures Pos(child, level, n) in at && at[Pos(child, level, n)] == cf
      ensures forall j: nat :: i < j < 512 ==> Bare(at, flat, Pos(child, level, n).Child(j))
      ensures forall q :: Shared(start, old(flat), child, q) ==> Shared(start, flat, child, q)
      ensures ok ==> Shared(start, flat, child, Pos(parent, level, n).Child(i))
      ensures !ok ==> managed <= count.Keys
      decreases level, 0
    {
      hide TreeOk, FlatOk, KernelHalf, FramesOk, Forking, Accounted, DataOk, ChildTables, Shared, GrewUnder, Bare;
      ghost var cp := Pos(child, level, n);
      BareHead(at, flat, cp.Child(i));
      var c := AddChildTable(child, cp, cf, i, e.flags, parent, vmas, start, count0, at0);
      if c.None? {
        return false;
      }
      forall j: nat | j < 512 ensures Bare(at, flat, cp.Child(i).Child(j)) {
        BareBelowNew(old(at), flat, cp.Child(i), c.value, j);
      }
      ghost var at1 := at;
      ok := CloneLevel(level - 1, parent, child, n * 512 + i, e.frame, c.value, vmas, start, count0, at0);
      EntryCloned(atB, old(at), at, flatB, old(flat), flat, cp, i, c.value);
      forall q | Shared(start, old(flat), child, q) ensures Shared(start, flat, child, q) {
        SharedGrows(start, old(flat), flat, at1, at, child, q, cp.Child(i));
      }
      assert Pos(parent, level, n) in at1 && cp in at1;
      GrewKeeps(at1, at, old(flat), flat, cp.Child(i));
    }

    lemma StartIsLeaves(start: map<Pos, Entry>, count0: map<Frame, nat>, at0: map<Pos, Frame>, parent: Frame,
                        child: Frame, vmas: VmaSet)
      requires ForkState(start, count0, at0, parent, child, vmas)
      ensures forall q :: q in start ==> q.level == 0
    {
    }

    // ---- Undoing a failed fork ----

    method DecRefcount(f: Frame)
      requires f in managed ==> f in count && count[f] > 0
      modifies this`count
      ensures count == Unbump(managed, old(count), f)
    {
      if f in managed {
        count := count[f := count[f] - 1];
      }
    }

    /** Drops a reference, returning the frame to the free list with the last one. */
    method DeallocateFrame(f: Frame)
      requires f in count && count[f] > 0
      modifies this`count
      ensures count == if old(count)[f] > 1 then old(count)[f := old(count)[f] - 1] else old(count) - {f}
    {
      if count[f] > 1 {
        count := count[f := count[f] - 1];
      } else {
        count := count - {f};
      }
    }

    /** Drop every leaf and free every table strictly below the child's table at (level, n). */
    method FreeBelow(level: nat, child: Frame, n: nat, f: Frame, ghost s: Snapshot, ghost freed0: set<Pos>,
                     ghost dropped0: set<Pos>)
      returns (ghost freed: set<Pos>, ghost dropped: set<Pos>)
      requires SnapshotOk(managed, s, child) && 1 <= level <= 4
      requires Pos(child, level, n) in s.at && s.at[Pos(child, level, n)] == f
      requires Undoing(s, child, tables, count, freed0, dropped0)
      requires Untouched(s, Pos(child, level, n), freed0, dropped0)
      modifies this`tables, this`count
      ensures Undoing(s, child, tables, count, freed, dropped)
      ensures TookBelow(s, Pos(child, level, n), 512, freed0, dropped0, freed, dropped)
      decreases level, 1
    {
      hide TreeOk, FlatOk, KernelHalf, FramesOk, Undoing, TookBelow, TookUnder, Untouched;
      ghost var p := Pos(child, level, n);
      freed, dropped := freed0, dropped0;
      TookNothing(s, p, freed, dropped);
      for i := 0 to Span(level)
        invariant Undoing(s, child, tables, count, freed, dropped)
        invariant TookBelow(s, p, i, freed0, dropped0, freed, dropped)
      {
        ghost var freed1, dropped1 := freed, dropped;
        NextUntouched(s, p, i, freed0, dropped0, freed1, dropped1);
        StillLive(s, p, i, freed0, dropped0, freed1, dropped1);
        freed, dropped := FreeEntry(level, child, n, f, i, s, freed1, dropped1);
        TookNext(s, p, i, freed0, dropped0, freed1, dropped1, freed, dropped);
      }
      TookRest(s, p, Span(level), freed0, dropped0, freed, dropped);
    }

    method FreeEntry(level: nat, child: Frame, n: nat, f: Frame, i: nat, ghost s: Snapshot, ghost freed0: set<Pos>,
                     ghost dropped0: set<Pos>)
      returns (ghost freed: set<Pos>, ghost dropped: set<Pos>)
      requires SnapshotOk(managed, s, child) && 1 <= level <= 4 && i < Span(level)
      requires Pos(child, level, n) in s.at && s.at[Pos(child, level, n)] == f
      requires Undoing(s, child, tables, count, freed0, dropped0)
      requires Pos(child, level, n) !in freed0 && Untouched(s, Pos(child, level, n).Child(i), freed0, dropped0)
      modifies this`tables, this`count
      ensures Undoing(s, child, tables, count, freed, dropped)
      ensures TookUnder(s, Pos(child, level, n).Child(i), freed0, dropped0, freed, dropped)
      decreases level, 0
    {
      ghost var p := Pos(child, level, n);
      ghost var c := p.Child(i);
      LiveEntry(managed, s, child, tables, count, freed0, dropped0, p, i);
      hide TreeOk, FlatOk, KernelHalf, FramesOk, Undoing, TookBelow, TookUnder, Untouched;
      freed, dropped := freed0, dropped0;
      var e := tables[f][i];
      if !e.flags.present {
        TookAbsent(s, p, i, freed, dropped);
      } else if level == 1 {
        CanDrop(managed, s, child, tables, count, freed, dropped, c);
        DropLeaf(managed, s, child, tables, count, freed, dropped, c);
        DecRefcount(e.frame);
        TookLeaf(s, c, freed, dropped);
        dropped := dropped + {c};
      } else {
        freed, dropped := FreeBelow(level - 1, child, n * 512 + i, e.frame, s, freed, dropped);
        NotFreed(s, c, freed0, dropped0, freed, dropped);
        FreeTable(managed, s, child, tables, count, freed, dropped, c);
        TookTable(s, c, freed0, dropped0, freed, dropped);
        DeallocateFrame(e.frame);
        tables := tables - {e.frame};
        freed := freed + {c};
      }
    }

    /** Allocate the child's root: empty user half, the kernel's upper half. */
    method NewRoot(parent: Frame, ghost vmas: VmaSet) returns (r: Option<Frame>)
      requires Valid() && IsRoot(parent)
      modifies this`tables, this`count, this`at, this`pos
      ensures r.None? ==>
                managed <= count.Keys && Valid() && at == old(at) && count == old(count) && tables == old(tables)
      ensures r.Some? ==> r.value !in old(count) && r.value !in old(tables)
      ensures r.Some? ==> at == old(at)[Pos(r.value, 4, 0) := r.value]
      ensures r.Some? ==> ForkState(flat, old(count), old(at), parent, r.value, vmas)
      ensures r.Some? ==> forall j: nat :: j < 512 ==> Bare(at, flat, Pos(r.value, 4, 0).Child(j))
    {
      hide TreeOk, FlatOk, FramesOk, Forking, Accounted, DataOk, ChildTables, Bare;
      r := AllocateFrame();
      if r.None? {
        return;
      }
      var table := EMPTY_TABLE;
      for i := 256 to 512
        invariant |table| == 512 && |kernelRoot| == 512
        invariant forall j :: 0 <= j < 256 ==> table[j] == NO_ENTRY
        invariant forall j :: 256 <= j < i ==> table[j] == kernelRoot[j]
      {
        table := table[i := kernelRoot[i]];
      }
      assert table[256..] == kernelRoot[256..];
      FreshFrame(managed, tables, flat, old(count), r.value);
      InstallRoot(tables, at, pos, flat, r.value, table);
      KernelHalfGrown(tables, at, kernelRoot, Pos(r.value, 4, 0), r.value, table);
      RootAccounted(managed, tables, at, pos, flat, old(count), parent, r.value, table, vmas);
      hide KernelHalf;
      tables := tables[r.value := table];
      at := at[Pos(r.value, 4, 0) := r.value];
      pos := pos[r.value := Pos(r.value, 4, 0)];
    }

    /** Free the child's root after everything below it. */
    method FreeTree(child: Frame, ghost s: Snapshot) returns (ghost freed: set<Pos>, ghost dropped: set<Pos>)
      requires SnapshotOk(managed, s, child) && Undoing(s, child, tables, count, {}, {})
      requires Pos(child, 4, 0) in s.at && s.at[Pos(child, 4, 0)] == child && Pos(child, 4, 0) !in s.flat
      requires Untouched(s, Pos(child, 4, 0), {}, {})
      modifies this`tables, this`count
      ensures Undoing(s, child, tables, count, freed, dropped)
      ensures TookUnder(s, Pos(child, 4, 0), {}, {}, freed, dropped)
    {
      hide TreeOk, FlatOk, FramesOk, SnapshotOk, Undoing, TookBelow, TookUnder, Untouched;
      ghost var r := Pos(child, 4, 0);
      freed, dropped := FreeBelow(4, child, 0, child, s, {}, {});
      NotFreed(s, r, {}, {}, freed, dropped);
      FreeTable(managed, s, child, tables, count, freed, dropped, r);
      TookTable(s, r, {}, {}, freed, dropped);
      DeallocateFrame(child);
      tables := tables - {child};
      freed := freed + {r};
    }

    /** Give back a child root and everything the walk built below it. */
    method FreeChild(child: Frame, parent: Frame, ghost vmas: VmaSet,
                     ghost start: map<Pos, Entry>, ghost count0: map<Frame, nat>, ghost at0: map<Pos, Frame>)
      requires ForkState(start, count0, at0, parent, child, vmas) && IsRoot(child)
      modifies this`tables, this`count, this`flat, this`at
      ensures Valid() && count == count0 && at == at0 && flat == Without(old(flat), child)
    {
      hide TreeOk, FlatOk, KernelHalf, FramesOk, Forking, Accounted, DataOk, ChildTables;
      hide SnapshotOk, Undoing, TookBelow, TookUnder, Untouched, Without;
      ghost var s := Snapshot(tables, at, pos, flat, count);
      RootFrame(child);
      UndoStart(managed, count0, s, child);
      ghost var freed, dropped := FreeTree(child, s);
      ChildGone(managed, count0, s, child, at0, tables, count, freed, dropped);
      RemainingFrames(managed, count0, s, child, at0, tables, freed, dropped, kernelRoot);
      DataWithout(flat, data, child);
      at := at0;
      flat := Without(flat, child);
    }

    /** Fork the address space below `parent`. On success the child holds every page of the
        parent's; on failure frame counts and free frames are exactly as before, the parent maps
        every page to the same frame, and some of its private pages are marked copy-on-write. */
    method CloneUserPageTablesCow(parent: Frame, vmas: VmaSet) returns (r: Option<Frame>)
      requires Valid() && IsRoot(parent)
      modifies this`tables, this`count, this`flat, this`at, this`pos
      ensures Valid() && IsRoot(parent)
      ensures r.Some? ==> r.value !in old(count) && !old(IsRoot(r.value)) && IsRoot(r.value)
      ensures r.Some? ==> Forking(old(flat), flat, parent, r.value, vmas)
      ensures r.Some? ==> Shared(old(flat), flat, r.value, Pos(parent, 4, 0))
      ensures r.Some? ==> forall g :: g in old(count) ==>
                g in count && count[g] == old(count)[g] + RefsIn(flat, r.value, g)
      ensures r.None? ==> count == old(count) && at == old(at)
      ensures r.None? ==> flat.Keys == old(flat).Keys
      ensures r.None? ==> forall q :: q in flat ==>
                flat[q] == old(flat)[q] || (q.root == parent && flat[q] == AfterFork(old(flat)[q], q.n, vmas))
    {
      hide TreeOk, FlatOk, KernelHalf, FramesOk, DataOk, Bare, Shared, GrewUnder;
      r := NewRoot(parent, vmas);
      if r.None? {
        return;
      }
      RootFrame(parent);
      ghost var at1, child := at, r.value;
      assert Pos(parent, 4, 0) in at1 && Pos(child, 4, 0) in at1;
      var ok := CloneLevel(4, parent, r.value, 0, parent, r.value, vmas, old(flat), old(count), old(at));
      GrewKeeps(at1, at, old(flat), flat, Pos(child, 4, 0));
      if !ok {
        FreeChild(r.value, parent, vmas, old(flat), old(count), old(at));
        r := None;
      }
    }
  }
}