/** A whole demand fault: the area's objections, the relocation path for the pages of the segment that
    carries relocations, and the ordinary path for the rest. */
module DemandFaults {
  import opened Vmas
  import opened PageTree
  import opened PhysicalMemory
  import opened Faults
  import Reloc

  const U32: nat := 0x1_0000_0000
  const U64: nat := 0x1_0000_0000_0000_0000

  // ---- Which path a fault takes ----

  /** What the loader leaves with a process: the table, the pages it is for, and the load base. */
  datatype Relocs = Relocs(table: Reloc.Table, start: nat, end: nat, base: nat) {
    predicate Covers(addr: nat) { start <= addr / PAGE * PAGE < end }

    /** The page's distance from the load base, cut to 32 bits. */
    function PageIndex(addr: nat): nat { (addr / PAGE * PAGE - base) % U32 / PAGE }

    function Base(): bv64 { (base % U64) as bv64 }

    predicate Ok() { Reloc.NoStraddle(table.entries) }
  }

  /** The relocation path serves private file pages inside the range and nothing else. */
  predicate TakesRelocPath(relocs: Option<Relocs>, info: FaultInfo, addr: nat) {
    relocs.Some? && relocs.value.Covers(addr) && info.source.File? && !info.source.shared
  }

  /** The entry that path installs: private, patched and writable. */
  function RelocFlags(flags: Flags): Flags { flags.(cow := false, writable := true) }

  /** The flags of the page a fault at `addr` brings in. */
  function FaultFlags(vmas: VmaSet, relocs: Option<Relocs>, addr: nat): Option<Flags> {
    match LookupFaultVma(vmas, addr)
    case None => None
    case Some(info) => Some(if TakesRelocPath(relocs, info, addr) then RelocFlags(info.flags) else info.flags)
  }

  /** The relocation range lies in a private file area without write permission. */
  predicate ReadOnlyReloc(vmas: VmaSet, relocs: Option<Relocs>, addr: nat) {
    && relocs.Some? && relocs.value.Covers(addr)
    && match Find(vmas, addr) { case Some(v) => v.lazy && !v.write && v.backing.FileBacked?
        && !v.backing.shared case None => false }
  }

  /** A fault never makes a page writable that its area forbids, except on the relocation path, which
      sets the bit without looking: exactly a relocation page whose area has lost its write permission. */
  lemma FaultHonoursArea(vmas: VmaSet, relocs: Option<Relocs>, addr: nat)
    requires Aligned(vmas)
    ensures var flags := FaultFlags(vmas, relocs, addr);
            (flags.Some? && flags.value.writable && !PermitsWrite(addr, vmas)) <==> ReadOnlyReloc(vmas, relocs, addr)
  {
    LookupFaultVmaSound(vmas, addr);
    if Find(vmas, addr).Some? {
      AlignedIn(vmas, Find(vmas, addr).value);
      PageInside(Find(vmas, addr).value.start, Find(vmas, addr).value.end, addr);
    }
  }

  // ---- Taking the write permission away ----

  /** The area split at `at`, if `at` lies strictly inside it. */
  function SplitVma(v: Vma, at: nat): seq<Vma> {
    if v.start < at < v.end then
      [v.(end := at),
       v.(start := at, backing := if v.backing.FileBacked? then
         v.backing.(fileOffset := v.backing.fileOffset + (at - v.start)) else v.backing)]
    else [v]
  }

  function SplitAt(vmas: VmaSet, at: nat): VmaSet {
    if vmas == [] then [] else SplitAt(vmas[..|vmas| - 1], at) + SplitVma(vmas[|vmas| - 1], at)
  }

  function Retag(vmas: VmaSet, start: nat, end: nat, read: bool, write: bool, exec: bool): (r: VmaSet)
    ensures |r| == |vmas|
  {
    seq(|vmas|, i requires 0 <= i < |vmas| =>
      if start <= vmas[i].start
          && vmas[i].end <= end then vmas[i].(read := read, write := write, exec := exec) else vmas[i])
  }

  /** The spans inside [start, end) follow one another from `start` to `end`. */
  function Reaches(vmas: VmaSet, start: nat, end: nat, cursor: nat): nat {
    if vmas == [] then cursor
    else if start <= vmas[0].start && vmas[0].end <= end then
      (if vmas[0].start == cursor then Reaches(vmas[1..], start, end, vmas[0].end) else cursor)
    else Reaches(vmas[1..], start, end, cursor)
  }

  /** mprotect on the areas: the range becomes whole areas and each is retagged, unless there is a hole. */
  function Mprotect(vmas: VmaSet, start: nat, end: nat, read: bool, write: bool, exec: bool): Option<VmaSet> {
    var split := SplitAt(SplitAt(vmas, start), end);
    if Reaches(split, start, end, start) != end then None else Some(Retag(split, start, end, read, write, exec))
  }

  /** Where an address of a split area falls. */
  function Half(v: Vma, at: nat, addr: nat): Vma {
    if !(v.start < at < v.end) then v else if addr < at then SplitVma(v, at)[0] else SplitVma(v, at)[1]
  }

  lemma {:induction false} FindSplit(vmas: VmaSet, at: nat, addr: nat)
    ensures Find(SplitAt(vmas, at), addr)
              == match Find(vmas, addr) { case None => None case Some(v) => Some(Half(v, at, addr)) }
  {
    if vmas != [] {
      var n := |vmas| - 1;
      FindSplit(vmas[..n], at, addr);
      FindLast(SplitAt(vmas[..n], at), vmas[n], at, addr);
    }
  }

  lemma FindLast(less: VmaSet, v: Vma, at: nat, addr: nat)
    ensures Find(less + SplitVma(v, at), addr)
            == if v.start > addr then Find(less, addr) else if v.Contains(addr) then Some(Half(v, at, addr)) else None
  {
    var more := less + SplitVma(v, at);
    if v.start < at < v.end {
      var first := SplitVma(v, at)[0];
      assert more[..|less| + 1] == less + [first];
      assert (less + [first])[..|less|] == less;
    } else {
      assert more[..|less|] == less;
    }
  }

  function Retagged(v: Vma, start: nat, end: nat, read: bool, write: bool, exec: bool): Vma {
    if start <= v.start && v.end <= end then v.(read := read, write := write, exec := exec) else v
  }

  lemma {:induction false} FindRetag(vmas: VmaSet, start: nat, end: nat, read: bool, write: bool, exec: bool, addr: nat)
    ensures Find(Retag(vmas, start, end, read, write, exec), addr)
            == match Find(vmas,
              addr) { case None => None case Some(v) => Some(Retagged(v, start, end, read, write, exec)) }
  {
    if vmas != [] {
      var n := |vmas| - 1;
      FindRetag(vmas[..n], start, end, read, write, exec, addr);
      assert Retag(vmas, start, end, read, write, exec)[..n] == Retag(vmas[..n], start, end, read, write, exec);
    }
  }

  /** A piece of `v`: the same kind of area showing the same file bytes at the same addresses. */
  ghost predicate PieceOf(u: Vma, v: Vma) {
    && v.start <= u.start && u.end <= v.end && u.lazy == v.lazy
    && if v.backing.FileBacked? then
         && u.backing.FileBacked? && u.backing.inode == v.backing.inode && u.backing.shared == v.backing.shared
         && u.backing.fileOffset - u.start == v.backing.fileOffset - v.start
       else u.backing == v.backing
  }

  /** What mprotect makes of the part of an area around `addr`. */
  function Piece(v: Vma, start: nat, end: nat, read: bool, write: bool, exec: bool, addr: nat): Vma {
    Retagged(Half(Half(v, start, addr), end, addr), start, end, read, write, exec)
  }

  lemma FindProtected(vmas: VmaSet, start: nat, end: nat, read: bool, write: bool, exec: bool, addr: nat)
    requires Mprotect(vmas, start, end, read, write, exec).Some?
    ensures Find(Mprotect(vmas, start, end, read, write, exec).value, addr)
            == match Find(vmas,
              addr) { case None => None case Some(v) => Some(Piece(v, start, end, read, write, exec, addr)) }
  {
    hide Find, SplitAt, Half, Retagged, Retag, Reaches;
    FindSplit(vmas, start, addr);
    FindSplit(SplitAt(vmas, start), end, addr);
    FindRetag(SplitAt(SplitAt(vmas, start), end), start, end, read, write, exec, addr);
  }

  lemma HalfIsPiece(v: Vma, at: nat, addr: nat)
    requires v.Contains(addr)
    ensures var h := Half(v, at, addr);
            && PieceOf(h, v) && h.Contains(addr) && !(h.start < at < h.end)
            && h.read == v.read && h.write == v.write && h.exec == v.exec
            && (h.start == v.start || h.start == at) && (h.end == v.end || h.end == at)
  {
  }

  lemma PieceIsExact(v: Vma, start: nat, end: nat, read: bool, write: bool, exec: bool, addr: nat)
    requires start < end && v.Contains(addr)
    ensures var u := Piece(v, start, end, read, write, exec, addr);
            && PieceOf(u, v) && u.Contains(addr)
            && (if start <= addr < end then u.read == read && u.write == write && u.exec == exec
                else u.read == v.read && u.write == v.write && u.exec == v.exec)
            && (u.start == v.start || u.start == start || u.start == end)
                && (u.end == v.end || u.end == start || u.end == end)
  {
    HalfIsPiece(v, start, addr);
    HalfIsPiece(Half(v, start, addr), end, addr);
    hide Half;
  }

  /** mprotect gives exactly the addresses of its range the new permissions, and no address another page. */
  lemma MprotectIsExact(vmas: VmaSet, start: nat, end: nat, read: bool, write: bool, exec: bool, addr: nat)
    requires start < end && Mprotect(vmas, start, end, read, write, exec).Some?
    ensures var v, u := Find(vmas, addr), Find(Mprotect(vmas, start, end, read, write, exec).value, addr);
            && (u.Some? <==> v.Some?)
            && (u.Some? ==>
                  && PieceOf(u.value, v.value)
                  && u.value.read == (if start <= addr < end then read else v.value.read)
                  && u.value.write == (if start <= addr < end then write else v.value.write)
                  && u.value.exec == (if start <= addr < end then exec else v.value.exec))
  {
    hide Mprotect, Piece, PieceOf;
    FindProtected(vmas, start, end, read, write, exec, addr);
    if Find(vmas, addr).Some? { PieceIsExact(Find(vmas, addr).value, start, end, read, write, exec, addr); }
  }

  /** Write permission taken from a relocation page that has not faulted yet: the next read of it is
      served, and maps it writable. */
  lemma MprotectThenRead(vmas: VmaSet, relocs: Relocs, start: nat, end: nat, exec: bool, addr: nat)
    requires Aligned(vmas) && start % PAGE == 0 && end % PAGE == 0 && start <= addr < end
    requires Mprotect(vmas, start, end, true, false, exec).Some? && relocs.Covers(addr)
    requires Find(vmas, addr).Some? && Find(vmas, addr).value.lazy
    requires Find(vmas, addr).value.backing.FileBacked? && !Find(vmas, addr).value.backing.shared
    ensures var later := Mprotect(vmas, start, end, true, false, exec).value;
            && AreaReject(later, addr, false, false, false).None? && !PermitsWrite(addr, later)
            && FaultFlags(later, Some(relocs), addr).Some? && FaultFlags(later, Some(relocs), addr).value.writable
  {
    hide Mprotect, Piece;
    var v := Find(vmas, addr).value;
    AlignedIn(vmas, v);
    FindProtected(vmas, start, end, true, false, exec, addr);
    PieceIsExact(v, start, end, true, false, exec, addr);
    hide Find, Aligned;
    var u := Piece(v, start, end, true, false, exec, addr);
    PageInside(u.start, u.end, addr);
  }

  /** The same, as one input: a writable one-page segment at 4 MiB with a relocation in it. */
  lemma MprotectThenReadInput()
    ensures var vmas := [Vma(0x40_0000, 0x40_1000, true, true, false, true, FileBacked(1, 0, false))];
            var relocs := Relocs(Reloc.Table([Reloc.Entry(8, 16)], [Reloc.Bucket(0, 1)], 0), 0x40_0000, 0x40_1000,
                0x40_0000);
            var later := Mprotect(vmas, 0x40_0000, 0x40_1000, true, false, false);
            && !ReadOnlyReloc(vmas, Some(relocs), 0x40_0008)
            && later.Some? && ReadOnlyReloc(later.value, Some(relocs), 0x40_0008)
            && AreaReject(later.value, 0x40_0008, false, false, false).None?
            && FaultFlags(later.value, Some(relocs), 0x40_0008).value.writable
  {
    var vmas := [Vma(0x40_0000, 0x40_1000, true, true, false, true, FileBacked(1, 0, false))];
    assert SplitAt(vmas, 0x40_0000) == vmas by { assert vmas[..0] == []; }
    assert SplitAt(vmas, 0x40_1000) == vmas by { assert vmas[..0] == []; }
    var after := [vmas[0].(read := true, write := false, exec := false)];
    assert Retag(vmas, 0x40_0000, 0x40_1000, true, false, false) == after;
    assert Reaches(vmas, 0x40_0000, 0x40_1000, 0x40_0000) == 0x40_1000;
    assert Find(after, 0x40_0008) == Some(after[0]);
  }

  /** The area's own objections, in the order they are raised. */
  function AreaReject(vmas: VmaSet, addr: nat, protection: bool, isWrite: bool, isExec: bool): Option<Reject> {
    if protection then Some(Protection)
    else match Find(vmas, addr)
      case None => Some(NoVma)
      case Some(v) =>
        if isWrite && !v.write then Some(WriteToReadOnly)
        else if isExec && !v.exec then Some(ExecOnNoExec)
        else if LookupFaultVma(vmas, addr).None? then Some(NotFaultable)
        else None
  }

  // ---- The relocation path ----

  /** A page with the records of the one at `addr` applied. */
  function PatchedPage(relocs: Relocs, addr: nat, page: Page): (r: Page)
    requires |page| == PAGE && relocs.Ok()
    ensures |r| == PAGE
  {
    Reloc.PatchPage(page, Reloc.EntriesForPage(relocs.table, relocs.PageIndex(addr)), relocs.Base())
  }

  /** None hands the fault on to the ordinary path: not a private file page. The cache page is pinned for
      the copy and released before anything can fail; it is never written. */
  method FaultInRelocPage(mem: Memory, root: Frame, addr: nat, info: FaultInfo, relocs: Relocs,
                          mounted: bool, fileSize: Option<nat>, filled: Option<CachedPage>) returns (r: Option<bool>)
    requires mem.Valid() && mem.IsRoot(root) && addr < USER_VA_END && info.flags.present && relocs.Ok()
    requires filled.Some? ==> mem.Mappable(filled.value.frame) && |mem.data[filled.value.frame]| == PAGE
    modifies mem`tables, mem`count, mem`data, mem`at, mem`pos, mem`flat, if filled.Some? then {filled.value} else {}
    ensures mem.Valid() && mem.IsRoot(root)
    ensures filled.Some? ==> filled.value.pins == old(filled.value.pins)
    ensures r.None? <==> info.source.Zero? || info.source.shared
    ensures r.None? ==>
              mem.flat == old(mem.flat) && mem.tables == old(mem.tables) && mem.count == old(mem.count)
              && mem.data == old(mem.data)
    ensures info.source.File? && FileReject(mounted, fileSize, filled.Some?, info.source.pageIdx).Some? ==>
              r != Some(true)
    ensures r == Some(true) ==> Pos(root, 0, addr / PAGE) in mem.flat
    ensures var q := Pos(root, 0, addr / PAGE);
            r == Some(true) && q !in old(mem.flat) ==>
              && filled.Some?
              && FreshMapped(old(mem.flat), mem.flat, old(mem.count), mem.count, old(mem.data), mem.data, mem.managed,
                  q,
                             RelocFlags(info.flags), PatchedPage(relocs, addr, old(mem.data)[filled.value.frame]))
    ensures r != Some(true) || Pos(root, 0, addr / PAGE) in old(mem.flat) ==>
              mem.flat == old(mem.flat) && OnlyGrew(mem.managed, old(mem.count), mem.count, old(mem.data), mem.data)
  {
    hide TreeOk, FlatOk, KernelHalf, FramesOk, DataOk, Reloc.EntriesForPage, Reloc.PatchPage, Reloc.NoStraddle,
      Relocs.PageIndex, Relocs.Base, FreshMapped;
    if info.source.Zero? || info.source.shared {
      return None;
    }
    if FileReject(mounted, fileSize, filled.Some?, info.source.pageIdx).Some? {
      return Some(false);
    }
    var cached := filled.value;
    cached.Pin();
    var f := mem.AllocateFrame();
    if f.None? {
      cached.Unpin();
      return Some(false);
    }
    var bytes := mem.data[cached.frame];
    cached.Unpin();
    bytes := Reloc.ApplyRelocsToPage(relocs.table, relocs.PageIndex(addr), bytes, relocs.Base());
    var mapped := MapFresh(mem, root, addr, f.value, bytes, RelocFlags(info.flags), old(mem.count));
    r := Some(mapped);
  }

  // ---- The whole fault ----

  /** The page a fault brought in, with its count: the patched copy, the cache page, or fresh zeros. */
  ghost predicate FaultedIn(flat: map<Pos, Entry>, flat': map<Pos, Entry>, count: map<Frame, nat>,
                            count': map<Frame, nat>,
                            data: map<Frame, Page>, data': map<Frame, Page>, managed: set<Frame>,
                            q: Pos, info: FaultInfo, relocs: Option<Relocs>, addr: nat, cacheFrame: Option<Frame>) {
    if TakesRelocPath(relocs, info, addr) then
      && cacheFrame.Some? && cacheFrame.value in data && |data[cacheFrame.value]| == PAGE && relocs.value.Ok()
      && FreshMapped(flat, flat', count, count', data, data', managed, q, RelocFlags(info.flags),
                     PatchedPage(relocs.value, addr, data[cacheFrame.value]))
    else if info.source.File? then
      && cacheFrame.Some? && flat' == flat[q := Entry(cacheFrame.value, info.flags)] && data' == data
      && CountsKept(count, count', cacheFrame.value, RefsOf(count, cacheFrame.value) + 1)
    else FreshMapped(flat, flat', count, count', data, data', managed, q, info.flags, ZeroPage())
  }

  /** Why a fault the area allows still fails before anything is mapped. */
  function FillReject(relocs: Option<Relocs>, info: FaultInfo, addr: nat, mounted: bool, fileSize: Option<nat>,
                      filled: bool): Option<Reject> {
    if info.source.Zero? then None
    else
      var r := FileReject(mounted, fileSize, filled, info.source.pageIdx);
      if r.Some? && TakesRelocPath(relocs, info, addr) then Some(RelocFailed) else r
  }

  /** The relocation path if it applies, else the ordinary one. A cached page handed back still carries
      the fault's pin. */
  method FaultIn(mem: Memory, root: Frame, addr: nat, info: FaultInfo, relocs: Option<Relocs>,
                 mounted: bool, fileSize: Option<nat>, filled: Option<CachedPage>)
    returns (reject: Option<Reject>, cached: Option<CachedPage>)
    requires mem.Valid() && mem.IsRoot(root) && addr < USER_VA_END && info.flags.present
    requires filled.Some? ==> mem.Mappable(filled.value.frame) && |mem.data[filled.value.frame]| == PAGE
    requires relocs.Some? ==> relocs.value.Ok()
    modifies mem`tables, mem`count, mem`data, mem`at, mem`pos, mem`flat, if filled.Some? then {filled.value} else {}
    ensures mem.Valid()
    ensures cached.Some? ==> cached == filled
    ensures filled.Some? ==> filled.value.pins == old(filled.value.pins) + if cached.Some? then 1 else 0
    ensures var why := FillReject(relocs, info, addr, mounted, fileSize, filled.Some?); why.Some? ==> reject == why
    ensures reject.None? ==> Pos(root, 0, addr / PAGE) in mem.flat
    ensures reject.Some? || Pos(root, 0, addr / PAGE) in old(mem.flat) ==>
              mem.flat == old(mem.flat) && OnlyGrew(mem.managed, old(mem.count), mem.count, old(mem.data), mem.data)
    ensures reject.None? && Pos(root, 0, addr / PAGE) !in old(mem.flat) ==>
              FaultedIn(old(mem.flat), mem.flat, old(mem.count), mem.count, old(mem.data), mem.data, mem.managed,
                        Pos(root, 0, addr / PAGE), info, relocs, addr, if filled.Some? then Some(filled.value.frame)
                          else None)
  {
    hide TreeOk, FlatOk, KernelHalf, FramesOk, DataOk, CountsKept, PatchedPage, FreshMapped, FreshlyCounted, OnlyGrew;
    hide Relocs.PageIndex, Relocs.Base, Relocs.Ok;
    cached := None;
    if relocs.Some? && relocs.value.Covers(addr) {
      var served := FaultInRelocPage(mem, root, addr, info, relocs.value, mounted, fileSize, filled);
      if served.Some? {
        reject := if served.value then None else Some(RelocFailed);
        return;
      }
    }
    var mapped, slot, dirtied;
    mapped, reject, slot, dirtied := FaultInPage(mem, root, addr, info, mounted, fileSize, filled);
    if slot.Some? {
      cached := Some(slot.value.1);
    }
  }

  /** One demand fault, with the areas free to change (to `later`) while their lock is dropped.
      Whatever happens, the cached page's pins end where they began. A fault that fails or finds the page
      already there leaves every page and count; one that succeeds brings in exactly one page. */
  method HandleDemandFault(p: Process, mem: Memory, root: Frame, addr: nat, protection: bool, isWrite: bool,
                           isExec: bool,
                           relocs: Option<Relocs>, mounted: bool, fileSize: Option<nat>, filled: Option<CachedPage>,
                           later: VmaSet, laterSlots: map<nat, seq<Option<CachedPage>>>)
    returns (reject: Option<Reject>)
    requires mem.Valid() && mem.IsRoot(root) && addr < USER_VA_END
    requires filled.Some? ==> mem.Mappable(filled.value.frame) && |mem.data[filled.value.frame]| == PAGE
    requires relocs.Some? ==> relocs.value.Ok()
    modifies p, mem`tables, mem`count, mem`data, mem`at, mem`pos, mem`flat, if filled.Some? then {filled.value} else {}
    ensures mem.Valid()
    ensures filled.Some? ==> filled.value.pins == old(filled.value.pins)
    ensures reject.None? ==> Pos(root, 0, addr / PAGE) in mem.flat
    ensures AreaReject(old(p.vmas), addr, protection, isWrite, isExec).Some? ==>
              reject == AreaReject(old(p.vmas), addr, protection, isWrite, isExec)
    ensures AreaReject(old(p.vmas), addr, protection, isWrite, isExec).None? ==> LookupFaultVma(old(p.vmas), addr).Some?
    ensures AreaReject(old(p.vmas), addr, protection, isWrite, isExec).None? ==>
              var why := FillReject(relocs, LookupFaultVma(old(p.vmas), addr).value, addr, mounted, fileSize,
                  filled.Some?);
              why.Some? ==> reject == why
    ensures reject.Some? || Pos(root, 0, addr / PAGE) in old(mem.flat) ==>
              mem.flat == old(mem.flat) && OnlyGrew(mem.managed, old(mem.count), mem.count, old(mem.data), mem.data)
    ensures reject.None? && Pos(root, 0, addr / PAGE) !in old(mem.flat) ==>
              && LookupFaultVma(old(p.vmas), addr).Some?
              && FaultedIn(old(mem.flat), mem.flat, old(mem.count), mem.count, old(mem.data), mem.data, mem.managed,
                           Pos(root, 0, addr / PAGE), LookupFaultVma(old(p.vmas), addr).value, relocs, addr,
                           if filled.Some? then Some(filled.value.frame) else None)
    ensures forall q :: q in mem.flat && q !in old(mem.flat) ==>
              && q == Pos(root, 0, addr / PAGE) && Some(mem.flat[q].flags) == FaultFlags(old(p.vmas), relocs, addr)
    ensures Aligned(old(p.vmas)) ==> forall q :: q in mem.flat && q !in old(mem.flat) ==>
              (mem.flat[q].flags.writable && !PermitsWrite(addr, old(p.vmas)) <==>
                ReadOnlyReloc(old(p.vmas), relocs, addr))
  {
    hide TreeOk, FlatOk, KernelHalf, FramesOk, DataOk, CountsKept, FaultedIn, FillReject, FileReject, OnlyGrew,
      Relocs.Ok;
    GrewNothing(mem.managed, mem.count, mem.data);
    if Aligned(p.vmas) { FaultHonoursArea(p.vmas, relocs, addr); }
    hide ReadOnlyReloc, PermitsWrite, Aligned;
    reject := AreaReject(p.vmas, addr, protection, isWrite, isExec);
    if reject.Some? {
      return;
    }
    var info := LookupFaultVma(p.vmas, addr).value;
    var cached;
    reject, cached := FaultIn(mem, root, addr, info, relocs, mounted, fileSize, filled);
    p.vmas, p.slots := later, laterSlots;
    if cached.Some? {
      var _ := p.StoreCachedPage(addr, cached.value);
    }
    if reject.None? && Pos(root, 0, addr / PAGE) !in old(mem.flat) {
      FaultedInFlags(old(mem.flat), mem.flat, old(mem.count), mem.count, old(mem.data), mem.data, mem.managed,
                     Pos(root, 0, addr / PAGE), info, relocs, addr, if filled.Some? then Some(filled.value.frame)
                       else None);
    }
  }

  lemma FaultedInFlags(flat: map<Pos, Entry>, flat': map<Pos, Entry>, count: map<Frame, nat>, count': map<Frame, nat>,
                       data: map<Frame, Page>, data': map<Frame, Page>, managed: set<Frame>,
                       q: Pos, info: FaultInfo, relocs: Option<Relocs>, addr: nat, cacheFrame: Option<Frame>)
    requires FaultedIn(flat, flat', count, count', data, data', managed, q, info, relocs, addr, cacheFrame)
    ensures q in flat' && flat' == flat[q := flat'[q]]
    ensures flat'[q].flags == if TakesRelocPath(relocs, info, addr) then RelocFlags(info.flags) else info.flags
  {
    hide PatchedPage, FreshlyCounted, CountsKept;
  }

  lemma GrewNothing(managed: set<Frame>, count: map<Frame, nat>, data: map<Frame, Page>)
    ensures OnlyGrew(managed, count, count, data, data)
  {
  }
}
