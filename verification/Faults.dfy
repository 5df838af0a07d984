/** Demand faults: from the area that covers an address to a mapped page, with the frame counts
    and cached-page pins that every path leaves behind. */
module Faults {
  import opened Vmas
  import opened PageTree
  import opened ForkSpec
  import opened UndoSpec
  import opened PhysicalMemory

  datatype Source = Zero | File(inode: nat, pageIdx: nat, slot: nat, shared: bool)

  datatype FaultInfo = FaultInfo(flags: Flags, source: Source)

  datatype Reject =
    | Protection
    | NoVma
    | NotFaultable
    | WriteToReadOnly
    | ExecOnNoExec
    | MountGone
    | PastEof(pageIdx: nat, fileSize: nat)
    | FillFailed(pageIdx: nat)
    | NoFrame
    | MapFailed
    | RelocFailed

  /** How to resolve a fault at `addr`, if the area there is lazy and of a kind that faults in. */
  function LookupFaultVma(vmas: VmaSet, addr: nat): Option<FaultInfo> {
    match Find(vmas, addr)
    case None => None
    case Some(v) =>
      if !v.lazy then None else
      var flags := Flags(true, v.write, true, !v.exec, false, 0);
      match v.backing
      case Anonymous => Some(FaultInfo(flags, Zero))
      case Stack => Some(FaultInfo(flags, Zero))
      case FileBacked(inode, fileOffset, shared) =>
        var offset := addr / PAGE * PAGE - v.start;
        if offset < 0 then None else
        Some(FaultInfo(if shared then flags else flags.(writable := false, cow := true),
                       File(inode, (fileOffset + offset) / PAGE, offset / PAGE, shared)))
      case _ => None
  }

  /** On page-aligned areas: the entry never lets a write through that the area forbids, a private
      file page is copy-on-write, and the page and slot are those at this distance into the area. */
  lemma LookupFaultVmaSound(vmas: VmaSet, addr: nat)
    requires Aligned(vmas)
    ensures LookupFaultVma(vmas, addr).Some? <==>
            exists v :: v in vmas && Find(vmas, addr) == Some(v) && v.lazy
              && (v.backing.Anonymous? || v.backing.Stack? || v.backing.FileBacked?)
    ensures var r := LookupFaultVma(vmas, addr);
            r.Some? ==>
              && r.value.flags.present
              && (r.value.flags.writable ==> PermitsWrite(addr, vmas))
              && (r.value.source.Zero? ==> !r.value.flags.cow && !IsSpecialMapping(addr, vmas))
              && (r.value.source.File? ==>
                    if IsSpecialMapping(addr, vmas) then r.value.source.shared && !r.value.flags.cow
                    else !r.value.source.shared && r.value.flags.cow && !r.value.flags.writable)
    ensures var r := LookupFaultVma(vmas, addr);
            r.Some? && r.value.source.File? ==>
              var v := Find(vmas, addr).value;
              && v.start + r.value.source.slot * PAGE <= addr < v.start + (r.value.source.slot + 1) * PAGE <= v.end
              && (v.backing.fileOffset % PAGE == 0 ==>
                    r.value.source.pageIdx * PAGE == v.backing.fileOffset + r.value.source.slot * PAGE)
  {
    if Find(vmas, addr).Some? {
      var v := Find(vmas, addr).value;
      AlignedIn(vmas, v);
      PageInside(v.start, v.end, addr);
      if v.backing.FileBacked? { OffsetPages(v.backing.fileOffset, addr / PAGE - v.start / PAGE); }
    }
  }

  lemma PageInside(start: nat, end: nat, addr: nat)
    requires start % PAGE == 0 && end % PAGE == 0 && start <= addr < end
    ensures start <= addr / PAGE * PAGE && (addr / PAGE + 1) * PAGE <= end
    ensures addr / PAGE * PAGE - start == (addr / PAGE - start / PAGE) * PAGE
  {
  }

  lemma OffsetPages(fileOffset: nat, k: nat)
    ensures (k * PAGE) / PAGE == k
    ensures fileOffset % PAGE == 0 ==> (fileOffset + k * PAGE) / PAGE * PAGE == fileOffset + k * PAGE
  {
  }

  /** A page of the inode page cache; a pinned page is not evicted. */
  class CachedPage {
    const frame: Frame
    var pins: nat

    constructor (frame: Frame)
      ensures this.frame == frame && pins == 0
    {
      this.frame := frame;
      pins := 0;
    }

    method Pin()
      modifies this
      ensures pins == old(pins) + 1
    {
      pins := pins + 1;
    }

    method Unpin()
      requires pins > 0
      modifies this
      ensures pins == old(pins) - 1
    {
      pins := pins - 1;
    }
  }

  function ZeroPage(): (r: Page) ensures |r| == PAGE { seq(PAGE, i => 0) }

  /** Counts after a mapping attempt: `f` has `n`, every other frame counted before is as it was. */
  ghost predicate CountsKept(count: map<Frame, nat>, count': map<Frame, nat>, f: Frame, n: nat) {
    && (forall g {:trigger count'[g]} {:trigger g in count} :: g in count && g != f ==>
        g in count' && count'[g] == count[g])
    && (f in count ==> f in count' && count'[f] == n)
  }

  /** What a file fault answers, given whether the mount is there, the size it reports and whether
      the page could be filled. */
  function FileReject(mounted: bool, fileSize: Option<nat>, filled: bool, pageIdx: nat): Option<Reject> {
    if !mounted then Some(MountGone)
    else if fileSize.Some? && pageIdx * PAGE >= fileSize.value then Some(PastEof(pageIdx, fileSize.value))
    else if !filled then Some(FillFailed(pageIdx))
    else None
  }

  /** Maps the cache page, taking one reference and one pin; a lost race or a failed mapping gives
      both back. A page handed out still carries its pin. */
  method FaultInFilePage(mem: Memory, root: Frame, addr: nat, flags: Flags, page: CachedPage)
      returns (mapped: bool, kept: bool)
    requires mem.Valid() && mem.IsRoot(root) && addr < USER_VA_END && flags.present
    requires mem.Mappable(page.frame)
    modifies mem`tables, mem`count, mem`at, mem`pos, mem`flat, page
    ensures mem.Valid() && mem.IsRoot(root)
    ensures page.pins == old(page.pins) + if kept then 1 else 0
    ensures var q := Pos(root, 0, addr / PAGE);
            mem.flat == if kept then old(mem.flat)[q := Entry(page.frame, flags)] else old(mem.flat)
    ensures kept ==> mapped && Pos(root, 0, addr / PAGE) !in old(mem.flat)
    ensures !kept ==> (mapped <==> Pos(root, 0, addr / PAGE) in old(mem.flat))
    ensures CountsKept(old(mem.count), mem.count, page.frame, RefsOf(old(mem.count), page.frame) + if kept then 1
              else 0)
    ensures !kept ==> OnlyGrew(mem.managed, old(mem.count), mem.count, old(mem.data), mem.data)
  {
    hide TreeOk, FlatOk, KernelHalf, FramesOk, DataOk;
    page.Pin();
    BumpKeepsFrames(mem.managed, mem.tables, mem.flat, mem.count, page.frame);
    mem.IncRefcount(page.frame);
    var ok := mem.MapPageDirect(root, addr / PAGE, page.frame, flags);
    MappedCounts(mem.managed, root, old(mem.at), mem.at, old(mem.tables), mem.tables, old(mem.count), mem.count,
      page.frame);
    if ok {
      return true, true;
    }
    mapped := mem.IsPagePresent(root, addr / PAGE);
    UnbumpKeepsFrames(mem.managed, mem.tables, mem.flat, mem.count, page.frame);
    mem.DecRefcount(page.frame);
    page.Unpin();
    kept := false;
  }

  lemma MappedCounts(managed: set<Frame>, root: Frame, at: map<Pos, Frame>, at': map<Pos, Frame>, tables: Tables,
                     tables': Tables,
                     count: map<Frame, nat>, count': map<Frame, nat>, f: Frame)
    requires f in managed ==> f in count
    requires f in count ==> f in managed
    requires Extended(managed, root, at, at', tables, tables', Bump(managed, count, f), count')
    ensures CountsKept(count, count', f, RefsOf(count, f) + 1)
    ensures f in managed ==> f in count' && CountsKept(count, Unbump(managed, count', f), f, RefsOf(count, f))
    ensures f !in managed ==> CountsKept(count, count', f, RefsOf(count, f))
    ensures forall g :: g in count' && g !in count ==> g in tables' && g !in tables
    ensures f !in tables ==> f !in tables'
  {
    var bumped := Bump(managed, count, f);
    assert forall g :: g in bumped <==> g in count;
  }

  lemma FreshCounts(managed: set<Frame>, root: Frame, at: map<Pos, Frame>, at': map<Pos, Frame>, tables: Tables,
                    tables': Tables,
                    count: map<Frame, nat>, count': map<Frame, nat>, f: Frame, data: map<Frame, Page>, bytes: Page)
    requires f in managed && f !in count && f !in tables
               && Extended(managed, root, at, at', tables, tables', count[f := 1], count')
    ensures f in count' && f !in tables' && FreshlyCounted(managed, count, count', f)
    ensures OnlyGrew(managed, count, count' - {f}, data, data[f := bytes])
    ensures forall g :: g in count' - {f} && g !in count ==> g in tables' && g !in tables
  {
    assert f in count[f := 1] && forall g :: g in count ==> g in count[f := 1];
  }

  lemma BumpKeepsFrames(managed: set<Frame>, tables: Tables, flat: map<Pos, Entry>, count: map<Frame, nat>, f: Frame)
    requires FramesOk(managed, tables, flat, count) && f !in tables && (f in managed ==> f in count)
    ensures FramesOk(managed, tables, flat, Bump(managed, count, f)) && (f in count ==> f in managed)
  {
  }

  lemma UnbumpKeepsFrames(managed: set<Frame>, tables: Tables, flat: map<Pos, Entry>, count: map<Frame, nat>, f: Frame)
    requires FramesOk(managed, tables, flat, count) && f !in tables && (f in managed ==> f in count && count[f] > 0)
    ensures FramesOk(managed, tables, flat, Unbump(managed, count, f))
  {
  }

  lemma NewFrame(managed: set<Frame>, tables: Tables, flat: map<Pos, Entry>, count: map<Frame, nat>,
                 data: map<Frame, Page>, f: Frame, page: Page)
    requires FramesOk(managed, tables, flat, count) && DataOk(flat, data) && f in managed && f !in count
    ensures FramesOk(managed, tables, flat, count[f := 1]) && f !in tables && DataOk(flat, data[f := page])
    ensures forall q :: q in flat ==> flat[q].frame != f
  {
  }

  lemma ReturnFrame(managed: set<Frame>, tables: Tables, flat: map<Pos, Entry>, count: map<Frame, nat>, f: Frame)
    requires FramesOk(managed, tables, flat, count) && f !in tables
    requires forall q :: q in flat ==> flat[q].frame != f
    ensures FramesOk(managed, tables, flat, count - {f})
  {
  }

  ghost predicate FreshlyCounted(managed: set<Frame>, count: map<Frame, nat>, count': map<Frame, nat>, g: Frame) {
    g in managed && g !in count && g in count' && count'[g] == 1 && CountsKept(count, count', g, 1)
  }

  /** `q` has a fresh frame holding `bytes`, referenced once. */
  ghost predicate FreshMapped(flat: map<Pos, Entry>, flat': map<Pos, Entry>, count: map<Frame, nat>,
                              count': map<Frame, nat>,
                              data: map<Frame, Page>, data': map<Frame, Page>, managed: set<Frame>, q: Pos,
                                flags: Flags, bytes: Page) {
    && q in flat' && flat' == flat[q := flat'[q]] && flat'[q].flags == flags
    && FreshlyCounted(managed, count, count', flat'[q].frame) && data' == data[flat'[q].frame := bytes]
  }

  /** The frame just allocated takes the page, or is returned to the allocator. */
  method MapFresh(mem: Memory, root: Frame, addr: nat, f: Frame, bytes: Page, flags: Flags,
                  ghost count0: map<Frame, nat>) returns (mapped: bool)
    requires f in mem.managed && f !in count0 && mem.count == count0[f := 1]
    requires KernelHalf(mem.tables, mem.at, mem.kernelRoot) && TreeOk(mem.tables, mem.at, mem.pos)
               && FlatOk(mem.tables, mem.at, mem.flat)
    requires FramesOk(mem.managed, mem.tables, mem.flat, count0) && DataOk(mem.flat, mem.data)
    requires mem.IsRoot(root) && addr < USER_VA_END && flags.present
    modifies mem`tables, mem`count, mem`data, mem`at, mem`pos, mem`flat
    ensures mem.Valid() && mem.IsRoot(root)
    ensures mapped <==> Pos(root, 0, addr / PAGE) in mem.flat
    ensures mapped && Pos(root, 0, addr / PAGE) !in old(mem.flat) ==>
              FreshMapped(old(mem.flat), mem.flat, count0, mem.count, old(mem.data), mem.data, mem.managed,
                Pos(root, 0, addr / PAGE), flags, bytes)
    ensures !mapped || Pos(root, 0, addr / PAGE) in old(mem.flat) ==>
              && mem.flat == old(mem.flat) && OnlyGrew(mem.managed, count0, mem.count, old(mem.data), mem.data)
              && (forall g :: g in mem.count && g !in count0 ==> g in mem.tables && g !in old(mem.tables))
  {
    hide TreeOk, FlatOk, KernelHalf, FramesOk, DataOk, Extended, OnlyGrew, FreshlyCounted;
    NewFrame(mem.managed, mem.tables, mem.flat, count0, mem.data, f, bytes);
    mem.data := mem.data[f := bytes];
    var ok := mem.MapPageDirect(root, addr / PAGE, f, flags);
    FreshCounts(mem.managed, root, old(mem.at), mem.at, old(mem.tables), mem.tables, count0, mem.count, f,
      old(mem.data), bytes);
    if ok {
      return true;
    }
    mapped := mem.IsPagePresent(root, addr / PAGE);
    ReturnFrame(mem.managed, mem.tables, mem.flat, mem.count, f);
    mem.DeallocateFrame(f);
  }

  /** A fresh zeroed frame takes the page, or is returned to the allocator. */
  method FaultInZeroPage(mem: Memory, root: Frame, addr: nat, flags: Flags)
      returns (mapped: bool, reject: Option<Reject>)
    requires mem.Valid() && mem.IsRoot(root) && addr < USER_VA_END && flags.present
    modifies mem`tables, mem`count, mem`data, mem`at, mem`pos, mem`flat
    ensures mem.Valid() && mem.IsRoot(root)
    ensures mapped <==> reject.None?
    ensures mapped ==> Pos(root, 0, addr / PAGE) in mem.flat
    ensures mapped && Pos(root, 0, addr / PAGE) !in old(mem.flat) ==>
              FreshMapped(old(mem.flat), mem.flat, old(mem.count), mem.count, old(mem.data), mem.data, mem.managed,
                          Pos(root, 0, addr / PAGE), flags, ZeroPage())
    ensures !mapped || Pos(root, 0, addr / PAGE) in old(mem.flat) ==>
              && mem.flat == old(mem.flat)
              && OnlyGrew(mem.managed, old(mem.count), mem.count, old(mem.data), mem.data)
              && (forall g :: g in mem.count && g !in old(mem.count) ==> g in mem.tables && g !in old(mem.tables))
    ensures reject.Some? ==>
              reject.value == NoFrame || (reject.value == MapFailed && Pos(root, 0, addr / PAGE) !in mem.flat)
  {
    hide TreeOk, FlatOk, KernelHalf, FramesOk, DataOk, FreshMapped;
    var f := mem.AllocateFrame();
    if f.None? {
      return false, Some(NoFrame);
    }
    mapped := MapFresh(mem, root, addr, f.value, ZeroPage(), flags, old(mem.count));
    reject := if mapped then None else Some(MapFailed);
  }

  /** A lost race or a failure leaves every page, count and pin as it was; success adds one page. */
  method FaultInPage(mem: Memory, root: Frame, addr: nat, info: FaultInfo, mounted: bool, fileSize: Option<nat>,
                     filled: Option<CachedPage>)
    returns (mapped: bool, reject: Option<Reject>, cached: Option<(nat, CachedPage)>, dirtied: bool)
    requires mem.Valid() && mem.IsRoot(root) && addr < USER_VA_END && info.flags.present
    requires filled.Some? ==> mem.Mappable(filled.value.frame)
    modifies mem`tables, mem`count, mem`data, mem`at, mem`pos, mem`flat, if filled.Some? then {filled.value} else {}
    ensures mem.Valid() && mem.IsRoot(root)
    ensures mapped <==> reject.None?
    ensures mapped ==> Pos(root, 0, addr / PAGE) in mem.flat
    ensures reject == Some(MapFailed) ==> Pos(root, 0, addr / PAGE) !in mem.flat
    ensures filled.Some? ==> filled.value.pins == old(filled.value.pins) + if cached.Some? then 1 else 0
    ensures dirtied <==> cached.Some? && info.source.File? && info.source.shared
    ensures cached.Some? ==> Pos(root, 0, addr / PAGE) !in old(mem.flat)
    ensures cached.Some? ==>
              mapped && info.source.File? && filled.Some? && cached.value == (info.source.slot, filled.value)
    ensures info.source.File? && FileReject(mounted, fileSize, filled.Some?, info.source.pageIdx).Some? ==>
              && reject == FileReject(mounted, fileSize, filled.Some?, info.source.pageIdx) && cached.None?
              && mem.flat == old(mem.flat) && mem.count == old(mem.count)
    ensures info.source.File? ==> mem.data == old(mem.data)
    ensures info.source.File? && filled.Some? ==>
              && mem.flat == (if cached.Some? then
                  old(mem.flat)[Pos(root, 0, addr / PAGE) := Entry(filled.value.frame, info.flags)] else old(mem.flat))
              && CountsKept(old(mem.count), mem.count, filled.value.frame,
                  RefsOf(old(mem.count), filled.value.frame) + if cached.Some? then 1 else 0)
    ensures info.source.Zero? && mapped && Pos(root, 0, addr / PAGE) !in old(mem.flat) ==>
              FreshMapped(old(mem.flat), mem.flat, old(mem.count), mem.count, old(mem.data), mem.data, mem.managed,
                          Pos(root, 0, addr / PAGE), info.flags, ZeroPage())
    ensures !mapped || Pos(root, 0, addr / PAGE) in old(mem.flat) ==>
              mem.flat == old(mem.flat) && OnlyGrew(mem.managed, old(mem.count), mem.count, old(mem.data), mem.data)
  {
    hide TreeOk, FlatOk, KernelHalf, FramesOk, DataOk;
    cached, dirtied := None, false;
    if info.source.Zero? {
      mapped, reject := FaultInZeroPage(mem, root, addr, info.flags);
      return;
    }
    reject := FileReject(mounted, fileSize, filled.Some?, info.source.pageIdx);
    if reject.Some? {
      mapped := false;
      return;
    }
    var kept;
    mapped, kept := FaultInFilePage(mem, root, addr, info.flags, filled.value);
    if kept {
      dirtied := info.source.shared;
      cached := Some((info.source.slot, filled.value));
    }
    reject := if mapped then None else Some(MapFailed);
  }

  /** A process's areas and, for each file-backed one, the cached pages its slots keep alive. */
  class Process {
    var vmas: VmaSet
    var slots: map<nat, seq<Option<CachedPage>>>

    constructor (vmas: VmaSet, slots: map<nat, seq<Option<CachedPage>>>)
      ensures this.vmas == vmas && this.slots == slots
    {
      this.vmas := vmas;
      this.slots := slots;
    }

    /** The slot for `addr` in the areas as they now are. */
    function SlotFor(addr: nat): Option<(nat, nat)>
      reads this
    {
      match Find(vmas, addr)
      case None => None
      case Some(v) =>
        var pageAddr := addr / PAGE * PAGE;
        if pageAddr < v.start then None
        else if v.backing.FileBacked? && v.start in slots && (pageAddr - v.start) / PAGE < |slots[v.start]|
        then Some((v.start, (pageAddr - v.start) / PAGE)) else None
    }

    /** Consumes the pin the fault took, whether or not the page finds a slot. */
    method StoreCachedPage(addr: nat, page: CachedPage) returns (stored: bool)
      requires page.pins > 0
      modifies this`slots, page
      ensures page.pins == old(page.pins) - 1
      ensures stored <==> old(SlotFor(addr)).Some?
      ensures stored ==> var at := old(SlotFor(addr)).value;
                         slots == old(slots)[at.0 := old(slots)[at.0][at.1 := Some(page)]]
      ensures !stored ==> slots == old(slots)
    {
      page.Unpin();
      var v := Find(vmas, addr);
      if v.None? {
        return false;
      }
      var pageAddr := addr / PAGE * PAGE;
      if pageAddr < v.value.start {
        return false;
      }
      var slot := (pageAddr - v.value.start) / PAGE;
      if v.value.backing.FileBacked? && v.value.start in slots && slot < |slots[v.value.start]| {
        slots := slots[v.value.start := slots[v.value.start][slot := Some(page)]];
        return true;
      }
      stored := false;
    }
  }
}
