/** Virtual memory areas: the part of a process's `VmaSet` that the fork walk and the
    fault handlers consult. */
module Vmas {

  datatype Option<+T> = None | Some(value: T)

  const PAGE: nat := 4096

  /** Exclusive upper bound of the user half of the address space. */
  const USER_VA_END: nat := 0x8000_0000_0000

  datatype Backing =
    | Anonymous
    | Physical
    | SharedMemory
    | Tls
    | Stack
    | FileBacked(inode: nat, fileOffset: nat, shared: bool)

  datatype Vma = Vma(start: nat, end: nat, read: bool, write: bool, exec: bool, lazy: bool, backing: Backing) {
    predicate Contains(addr: nat) { start <= addr < end }
  }

  /** The areas of one address space in ascending order of start address. */
  type VmaSet = seq<Vma>

  ghost predicate SortedByStart(vmas: VmaSet) {
    forall i, j :: 0 <= i < j < |vmas| ==> vmas[i].start < vmas[j].start
  }

  ghost predicate NonOverlapping(vmas: VmaSet) {
    forall i, j :: 0 <= i < j < |vmas| ==> vmas[i].end <= vmas[j].start
  }

  /** The last area starting at or below `addr`, provided it reaches `addr`. */
  function Find(vmas: VmaSet, addr: nat): (r: Option<Vma>)
    ensures r.Some? ==> r.value in vmas && r.value.Contains(addr)
  {
    if vmas == [] then None
    else
      var last := vmas[|vmas| - 1];
      if last.start <= addr then (if last.Contains(addr) then Some(last) else None)
      else Find(vmas[..|vmas| - 1], addr)
  }

  /** The area holding the address is found if no later one starts at or below it. */
  lemma {:induction false} FindIsLast(vmas: VmaSet, addr: nat, k: nat)
    requires k < |vmas| && vmas[k].Contains(addr) && forall j :: k < j < |vmas| ==> addr < vmas[j].start
    ensures Find(vmas, addr) == Some(vmas[k])
  {
    if k < |vmas| - 1 { FindIsLast(vmas[..|vmas| - 1], addr, k); }
  }

  /** On a sorted set without overlaps, `Find` returns the one area holding the address. */
  lemma FindIsTheCover(vmas: VmaSet, addr: nat, k: nat)
    requires SortedByStart(vmas) && NonOverlapping(vmas)
    requires k < |vmas| && vmas[k].Contains(addr)
    ensures Find(vmas, addr) == Some(vmas[k])
  {
    forall j | k < j < |vmas| ensures addr < vmas[j].start { assert vmas[k].end <= vmas[j].start; }
    FindIsLast(vmas, addr, k);
  }

  /** Keeps the order by start; an area with the same start is replaced. */
  function Insert(vmas: VmaSet, v: Vma): VmaSet {
    if vmas == [] then [v]
    else
      var n := |vmas| - 1;
      if vmas[n].start < v.start then vmas + [v]
      else if vmas[n].start == v.start then vmas[..n] + [v]
      else Insert(vmas[..n], v) + [vmas[n]]
  }

  lemma {:induction false} InsertIsExact(vmas: VmaSet, v: Vma)
    requires SortedByStart(vmas)
    ensures SortedByStart(Insert(vmas, v))
    ensures forall u :: u in Insert(vmas, v) <==> u == v || (u in vmas && u.start != v.start)
  {
    if vmas != [] {
      var n := |vmas| - 1;
      assert vmas == vmas[..n] + [vmas[n]];
      if vmas[n].start > v.start {
        InsertIsExact(vmas[..n], v);
        LastSorted(Insert(vmas[..n], v), vmas[n]);
      } else if vmas[n].start == v.start {
        LastSorted(vmas[..n], v);
      } else {
        LastSorted(vmas, v);
      }
    }
  }

  lemma LastSorted(vmas: VmaSet, v: Vma)
    requires SortedByStart(vmas) && forall u :: u in vmas ==> u.start < v.start
    ensures SortedByStart(vmas + [v])
  {
  }

  function InsertAll(vmas: VmaSet, areas: seq<Vma>): VmaSet {
    if areas == [] then vmas else Insert(InsertAll(vmas, areas[..|areas| - 1]), areas[|areas| - 1])
  }

  /** Shared memory, physical ranges and shared file mappings keep their page-table
      entries across a fork. */
  predicate IsSpecialMapping(addr: nat, vmas: VmaSet) {
    match Find(vmas, addr)
    case Some(v) => v.backing.SharedMemory? || v.backing.Physical? || (v.backing.FileBacked? && v.backing.shared)
    case None => false
  }

  /** Whether the area covering `addr` permits writes; no area permits none. */
  predicate PermitsWrite(addr: nat, vmas: VmaSet) {
    match Find(vmas, addr)
    case Some(v) => v.write
    case None => false
  }

  /** Whether the area covering `addr` is zero-filled memory of its own. */
  predicate IsAnonymous(addr: nat, vmas: VmaSet) {
    match Find(vmas, addr)
    case Some(v) => v.backing.Anonymous? || v.backing.Stack?
    case None => false
  }

  lemma AnonymousIsPrivate(addr: nat, vmas: VmaSet)
    requires IsAnonymous(addr, vmas)
    ensures !IsSpecialMapping(addr, vmas)
  {
  }

  /** Every area starts and ends on a page boundary. */
  ghost predicate Aligned(vmas: VmaSet) {
    forall i :: 0 <= i < |vmas| ==> vmas[i].start % PAGE == 0 && vmas[i].end % PAGE == 0
  }

  lemma AlignedIn(vmas: VmaSet, v: Vma)
    requires Aligned(vmas) && v in vmas
    ensures v.start % PAGE == 0 && v.end % PAGE == 0
  {
  }

  /** All addresses of a page are covered by the same area. */
  lemma {:induction false} OneVmaPerPage(vmas: VmaSet, addr: nat)
    requires Aligned(vmas)
    ensures Find(vmas, addr) == Find(vmas, addr / PAGE * PAGE)
    ensures PermitsWrite(addr, vmas) == PermitsWrite(addr / PAGE * PAGE, vmas)
    ensures IsSpecialMapping(addr, vmas) == IsSpecialMapping(addr / PAGE * PAGE, vmas)
    ensures IsAnonymous(addr, vmas) == IsAnonymous(addr / PAGE * PAGE, vmas)
  {
    if vmas != [] {
      var last := vmas[|vmas| - 1];
      assert (last.start <= addr <==> last.start <= addr / PAGE * PAGE)
          && (addr < last.end <==> addr / PAGE * PAGE < last.end);
      OneVmaPerPage(vmas[..|vmas| - 1], addr);
    }
  }
}
