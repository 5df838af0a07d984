/** Loading an ELF image: validated segments become areas and pre-faulted tail pages, and what a
    process then reads is the file's bytes followed by zeros. */
module Elf {
  import opened Vmas
  import opened PageTree
  import opened Faults
  import opened DemandFaults
  import opened Reloc

  /** The fields of a PT_LOAD program header. */
  datatype Header = Header(read: bool, write: bool, exec: bool, offset: nat, vaddr: nat, filesz: nat, memsz: nat)

  datatype Segment = Segment(vmaStart: nat, vaddrOffset: nat, fileOffset: nat, read: bool, write: bool, exec: bool,
                             filesz: nat, fileEnd: nat, memEnd: nat) {
    function FilePages(): nat { fileEnd / PAGE }

    /** Where the last file page's own bytes end, if not at a page boundary. */
    function TailZeroFrom(): Option<nat> {
      var off := (vaddrOffset + filesz) % PAGE;
      if off != 0 && filesz > 0 then Some(off) else None
    }
  }

  function AlignUp(n: nat): (r: nat)
    ensures r % PAGE == 0 && n <= r < n + PAGE
  {
    (n + PAGE - 1) / PAGE * PAGE
  }

  /** `Panicked`: a relocation record that straddles a page stops the kernel. */
  datatype Loaded<+T> = Ok(value: T) | InvalidSegment | InvalidRelocation | LoadFailed | Panicked

  /** Additions are checked at 64 bits. */
  function CheckedAdd(a: nat, b: nat): Option<nat> { if a + b < U64 then Some(a + b) else None }

  function Validate(loadBase: nat, h: Header): Loaded<Segment> {
    match CheckedAdd(loadBase, h.vaddr)
    case None => InvalidSegment
    case Some(segStart) =>
      match CheckedAdd(segStart, h.memsz)
      case None => InvalidSegment
      case Some(segEnd) =>
        if segEnd > USER_VA_END || h.filesz > h.memsz then InvalidSegment
        else
          var vmaStart := segStart / PAGE * PAGE;
          var vaddrOffset := segStart - vmaStart;
          if h.offset % PAGE != vaddrOffset then InvalidSegment
          else Ok(Segment(vmaStart, vaddrOffset, h.offset - h.offset % PAGE, h.read, h.write, h.exec, h.filesz,
                          AlignUp(vaddrOffset + h.filesz), AlignUp(vaddrOffset + h.memsz)))
  }

  /** A header is accepted exactly when its segment ends in the user half, its file part fits its memory,
      and its file and memory addresses agree within a page; then the segment's pages stay in the user
      half and hold the header's byte ranges. */
  lemma ValidateIsExact(loadBase: nat, h: Header)
    ensures Validate(loadBase, h).Ok? <==>
            loadBase + h.vaddr + h.memsz <= USER_VA_END && h.filesz <= h.memsz
              && h.offset % PAGE == (loadBase + h.vaddr) % PAGE
    ensures var r := Validate(loadBase, h);
            r.Ok? ==> SegmentOk(r.value) && r.value.vmaStart + r.value.vaddrOffset == loadBase + h.vaddr
                      && r.value.fileOffset + r.value.vaddrOffset == h.offset
                          && r.value.vmaStart + r.value.memEnd <= USER_VA_END
  {
    var segStart := loadBase + h.vaddr;
    assert segStart - segStart / PAGE * PAGE == segStart % PAGE;
    if Validate(loadBase, h).Ok? { EndsInUserHalf(segStart, h.memsz); }
  }

  lemma EndsInUserHalf(segStart: nat, memsz: nat)
    requires segStart + memsz <= USER_VA_END
    ensures segStart / PAGE * PAGE + AlignUp(segStart % PAGE + memsz) <= USER_VA_END
  {
    var end := segStart / PAGE * PAGE + AlignUp(segStart % PAGE + memsz);
    assert end % PAGE == 0 && USER_VA_END % PAGE == 0 && end < USER_VA_END + PAGE;
  }

  ghost predicate SegmentOk(s: Segment) {
    && s.vmaStart % PAGE == 0 && s.fileOffset % PAGE == 0 && s.vaddrOffset < PAGE
    && s.fileEnd == AlignUp(s.vaddrOffset + s.filesz) && s.fileEnd <= s.memEnd && s.memEnd % PAGE == 0
  }

  // ---- Areas and tail pages ----

  function FileArea(s: Segment, inode: nat): Vma {
    Vma(s.vmaStart, s.vmaStart + s.fileEnd, s.read, s.write, s.exec, true, FileBacked(inode, s.fileOffset, false))
  }

  function BssArea(s: Segment): Vma {
    Vma(s.vmaStart + s.fileEnd, s.vmaStart + s.memEnd, s.read, s.write, s.exec, true, Anonymous)
  }

  function AreasOf(s: Segment, inode: nat): seq<Vma> {
    [FileArea(s, inode)] + if s.memEnd > s.fileEnd then [BssArea(s)] else []
  }

  function AllAreas(segments: seq<Segment>, inode: nat): seq<Vma> {
    if segments == [] then []
        else AllAreas(segments[..|segments| - 1], inode) + AreasOf(segments[|segments| - 1], inode)
  }

  /** The page cache's page `n` of the file: its bytes, then zeros. */
  function CachePage(file: Bytes, n: nat): (r: Page)
    ensures |r| == PAGE && forall j :: 0 <= j < PAGE ==> r[j] == if n * PAGE + j < |file| then file[n * PAGE + j] else 0
  {
    seq(PAGE, j requires 0 <= j < PAGE => if n * PAGE + j < |file| then file[n * PAGE + j] else 0)
  }

  function ZeroFrom(p: Page, from: nat): (r: Page)
    requires from <= |p|
    ensures |r| == |p| && forall j :: 0 <= j < |p| ==> r[j] == if j < from then p[j] else 0
  {
    p[..from] + seq(|p| - from, _ => 0)
  }

  /** The address of a segment's last file page, and what is put there. */
  function TailAddr(s: Segment): nat requires s.FilePages() > 0 { s.vmaStart + (s.FilePages() - 1) * PAGE }

  function TailPage(s: Segment, file: Bytes): (r: Page)
    requires s.FilePages() > 0 && s.TailZeroFrom().Some?
    ensures |r| == PAGE
  {
    ZeroFrom(CachePage(file, (s.fileOffset + (s.FilePages() - 1) * PAGE) / PAGE), s.TailZeroFrom().value)
  }

  lemma HasFilePage(s: Segment)
    requires SegmentOk(s) && s.filesz > 0
    ensures s.FilePages() > 0 && s.FilePages() * PAGE == s.fileEnd
  {
  }

  /** A pre-faulted page: its bytes and the flags it is mapped with. */
  datatype Tail = Tail(page: Page, flags: Flags)

  /** Every tail page is mapped present, user and writable, whatever its segment. */
  const WRITE_FLAGS := Flags(true, true, true, false, false, 0)

  datatype Image = Image(areas: seq<Vma>, tails: map<nat, Tail>, relocs: Option<Relocs>)

  // ---- Which segment the relocations belong to ----

  /** Some target lies in the segment's pages. */
  predicate Targets(s: Segment, loadBase: nat, relocs: seq<Reloc.Entry>) {
    exists r :: 0 <= r < |relocs| && s.vmaStart <= loadBase + relocs[r].offset < s.vmaStart + s.memEnd
  }

  /** None for an image without relocations; otherwise the one writable segment that has any, and an
      error if there is none or more than one. */
  method ResolveRelocSegment(segments: seq<Segment>, loadBase: nat, relocs: seq<Reloc.Entry>)
      returns (r: Loaded<Option<nat>>)
    ensures r == Ok(None) <==> relocs == []
    ensures r.Ok? && r.value.Some? <==> relocs != [] && exists i: nat :: OnlyCarrier(segments, loadBase, relocs, i)
    ensures r.Ok? && r.value.Some? ==> OnlyCarrier(segments, loadBase, relocs, r.value.value)
    ensures r.Ok? || r.InvalidRelocation?
  {
    if relocs == [] {
      return Ok(None);
    }
    var matched: Option<nat> := None;
    for i := 0 to |segments|
      invariant matched.None? ==> forall j :: 0 <= j < i ==> !Carries(segments, loadBase, relocs, j)
      invariant matched.Some? ==>
                  && matched.value < i && Carries(segments, loadBase, relocs, matched.value)
                  && forall j :: 0 <= j < i && Carries(segments, loadBase, relocs, j) ==> j == matched.value
    {
      if segments[i].write && Targets(segments[i], loadBase, relocs) {
        assert Carries(segments, loadBase, relocs, i);
        if matched.Some? {
          forall k: nat ensures !OnlyCarrier(segments, loadBase, relocs, k) {}
          return InvalidRelocation;
        }
        matched := Some(i);
      }
    }
    assert matched.Some? ==> OnlyCarrier(segments, loadBase, relocs, matched.value);
    assert matched.None? ==> forall k: nat :: !OnlyCarrier(segments, loadBase, relocs, k);
    r := if matched.Some? then Ok(matched) else InvalidRelocation;
  }

  predicate Carries(segments: seq<Segment>, loadBase: nat, relocs: seq<Reloc.Entry>, i: nat)
    requires i < |segments|
  {
    segments[i].write && Targets(segments[i], loadBase, relocs)
  }

  ghost predicate OnlyCarrier(segments: seq<Segment>, loadBase: nat, relocs: seq<Reloc.Entry>, i: nat) {
    && i < |segments| && Carries(segments, loadBase, relocs, i)
    && forall j :: 0 <= j < |segments| && Carries(segments, loadBase, relocs, j) ==> j == i
  }

  // ---- Mapping the image ----

  /** Pushes each segment's areas and pre-faults its partial last page; a fill that fails fails the load. */
  method MapSegments(segments: seq<Segment>, inode: nat, file: Bytes) returns (r: Option<(seq<Vma>, map<nat, Tail>)>)
    requires AllOk(segments)
    ensures r.Some? ==> r.value.0 == AllAreas(segments, inode) && TailsOk(segments, file, None, r.value.1)
  {
    hide AllOk;
    var areas: seq<Vma> := [];
    var tails: map<nat, Tail> := map[];
    for i := 0 to |segments|
      invariant areas == AllAreas(segments[..i], inode) && TailsOk(segments[..i], file, None, tails)
    {
      var s := segments[i];
      assert segments[..i + 1] == segments[..i] + [s];
      assert segments[..i + 1][..i] == segments[..i];
      areas := areas + [FileArea(s, inode)];
      if s.memEnd > s.fileEnd {
        areas := areas + [BssArea(s)];
      }
      assert areas == AllAreas(segments[..i], inode) + AreasOf(s, inode);
      assert SegmentOk(s) by { OkAt(segments, i); }
      TailsNext(segments, i, file, tails);
      if s.TailZeroFrom().Some? {
        HasFilePage(s);
        var filled: bool := *;
        if !filled || TailAddr(s) in tails {
          return None;
        }
        tails := tails[TailAddr(s) := Tail(TailPage(s, file), WRITE_FLAGS)];
      }
    }
    assert segments[..|segments|] == segments;
    r := Some((areas, tails));
  }

  ghost predicate AllOk(segments: seq<Segment>) {
    forall i {:trigger segments[i]} :: 0 <= i < |segments| ==> SegmentOk(segments[i])
  }

  lemma OkAt(segments: seq<Segment>, i: nat)
    requires AllOk(segments) && i < |segments|
    ensures SegmentOk(segments[i])
  {
  }

  /** The pre-faulted pages are patched by hand, since the fault path will never see them. */
  method PatchTails(segments: seq<Segment>, file: Bytes, tails: map<nat, Tail>, relocs: Relocs)
      returns (r: map<nat, Tail>)
    requires TailsOk(segments, file, None, tails) && relocs.Ok()
    ensures TailsOk(segments, file, Some(relocs), r)
  {
    hide PatchedPage, NoStraddle, TailsOk, Relocs.PageIndex, Relocs.Base;
    TailSizes(segments, file, tails);
    r := tails;
    var todo := tails.Keys;
    while todo != {}
      invariant todo <= tails.Keys == r.Keys && PatchedBut(relocs, tails, r, todo)
      decreases |todo|
    {
      var a :| a in todo;
      var page := ApplyRelocsToPage(relocs.table, relocs.PageIndex(a), r[a].page, relocs.Base());
      PatchedIs(relocs, a, r[a].page);
      r := r[a := r[a].(page := page)];
      todo := todo - {a};
    }
    TailsPatched(segments, file, tails, relocs, r);
  }

  ghost predicate PatchedBut(relocs: Relocs, tails: map<nat, Tail>, tails': map<nat, Tail>, todo: set<nat>) {
    && relocs.Ok() && tails'.Keys == tails.Keys
    && (forall a {:trigger tails[a]} {:trigger tails'[a]} :: a in tails ==> |tails[a].page| == PAGE)
    && (forall a {:trigger tails'[a]} :: a in tails ==>
          tails'[a] == Tail(if a in todo then tails[a].page else PatchedPage(relocs, a, tails[a].page), tails[a].flags))
  }

  lemma TailsPatched(segments: seq<Segment>, file: Bytes, tails: map<nat, Tail>, relocs: Relocs, tails': map<nat, Tail>)
    requires TailsOk(segments, file, None, tails) && PatchedBut(relocs, tails, tails', {})
    ensures TailsOk(segments, file, Some(relocs), tails')
  {
    hide PatchedPage, TailPage, NoStraddle, HasTail;
    forall a | a in tails' ensures exists i: nat :: TailOf(segments, i, a) { assert a in tails; }
  }

  lemma TailSizes(segments: seq<Segment>, file: Bytes, tails: map<nat, Tail>)
    requires TailsOk(segments, file, None, tails)
    ensures forall a :: a in tails ==> |tails[a].page| == PAGE
  {
    hide TailPage;
    forall a | a in tails ensures |tails[a].page| == PAGE { var i: nat :| TailOf(segments, i, a); }
  }

  lemma PatchedIs(relocs: Relocs, a: nat, page: Page)
    requires relocs.Ok() && |page| == PAGE
    ensures PatchedPage(relocs, a, page)
              == PatchPage(page, EntriesForPage(relocs.table, relocs.PageIndex(a)), relocs.Base())
  {
  }

  /** An image's areas, its pre-faulted pages with relocations applied, and the state for applying the
      rest as pages fault in. */
  method MapImage(segments: seq<Segment>, loadBase: nat, raw: seq<Reloc.Entry>, inode: nat, file: Bytes)
      returns (r: Loaded<Image>)
    requires AllOk(segments) && loadBase % PAGE == 0 && forall i :: 0 <= i < |segments| ==>
               loadBase <= segments[i].vmaStart
    ensures !r.InvalidSegment?
    ensures r.InvalidRelocation? <==> raw != [] && !exists k: nat :: OnlyCarrier(segments, loadBase, raw, k)
    ensures r.Panicked? ==> exists e :: e in raw && e.Straddles()
    ensures r.Ok? ==>
              r.value.areas == AllAreas(segments, inode) && TailsOk(segments, file, r.value.relocs, r.value.tails)
    ensures r.Ok? ==> RelocsOk(segments, loadBase, raw, r.value.relocs)
  {
    var which := ResolveRelocSegment(segments, loadBase, raw);
    if !which.Ok? {
      return InvalidRelocation;
    }
    var mapped := MapSegments(segments, inode, file);
    if mapped.None? {
      return LoadFailed;
    }
    if which.value.None? {
      return Ok(Image(mapped.value.0, mapped.value.1, None));
    }
    var s := segments[which.value.value];
    var table := Build(raw, (s.vmaStart - loadBase) % U32 / PAGE, s.memEnd / PAGE);
    if table.None? {
      return Panicked;
    }
    var relocs := Relocs(table.value, s.vmaStart, s.vmaStart + s.memEnd, loadBase);
    TableFacts(table.value, s.memEnd / PAGE);
    var tails := PatchTails(segments, file, mapped.value.1, relocs);
    assert OnlyCarrier(segments, loadBase, raw, which.value.value) && RelocsFrom(s, loadBase, raw, relocs);
    r := Ok(Image(mapped.value.0, tails, Some(relocs)));
  }

  /** The relocation state is that of segment `s`: its pages, and a table of all the records. */
  ghost predicate RelocsFrom(s: Segment, loadBase: nat, raw: seq<Reloc.Entry>, relocs: Relocs) {
    && relocs.start == s.vmaStart && relocs.end == s.vmaStart + s.memEnd && relocs.base == loadBase && relocs.Ok()
    && TableOk(relocs.table, s.memEnd / PAGE) && relocs.table.vmaPage == (s.vmaStart - loadBase) % U32 / PAGE
    && multiset(relocs.table.entries) == multiset(raw)
  }

  ghost predicate RelocsOk(segments: seq<Segment>, loadBase: nat, raw: seq<Reloc.Entry>, relocs: Option<Relocs>) {
    && (relocs.None? <==> raw == [])
    && (relocs.Some? ==>
        exists k: nat ::
          OnlyCarrier(segments, loadBase, raw, k) && RelocsFrom(segments[k], loadBase, raw, relocs.value))
  }

  /** The pre-faulted pages are exactly the tail pages of the segments that have one, relocated if the
      image has relocations, and all mapped with the same flags. */
  ghost predicate TailsOk(segments: seq<Segment>, file: Bytes, relocs: Option<Relocs>, tails: map<nat, Tail>) {
    && (relocs.Some? ==> relocs.value.Ok())
    && (forall a {:trigger a in tails} :: a in tails ==> exists i: nat :: TailOf(segments, i, a))
    && (forall i: nat, a {:trigger TailOf(segments, i, a)} :: TailOf(segments, i, a) ==>
          a in tails && tails[a] == Tail(Relocated(relocs, a, TailPage(segments[i], file)), WRITE_FLAGS))
  }

  function Relocated(relocs: Option<Relocs>, a: nat, page: Page): Page
    requires |page| == PAGE && (relocs.Some? ==> relocs.value.Ok())
  {
    if relocs.Some? then PatchedPage(relocs.value, a, page) else page
  }

  ghost predicate HasTail(s: Segment) { s.FilePages() > 0 && s.TailZeroFrom().Some? }

  ghost predicate TailOf(segments: seq<Segment>, i: nat, a: nat) {
    i < |segments| && HasTail(segments[i]) && TailAddr(segments[i]) == a
  }

  lemma TailsNext(segments: seq<Segment>, n: nat, file: Bytes, tails: map<nat, Tail>)
    requires n < |segments| && SegmentOk(segments[n]) && TailsOk(segments[..n], file, None, tails)
    ensures !HasTail(segments[n]) ==> TailsOk(segments[..n + 1], file, None, tails)
    ensures HasTail(segments[n]) && TailAddr(segments[n]) !in tails ==>
              TailsOk(segments[..n + 1], file, None,
                tails[TailAddr(segments[n]) := Tail(TailPage(segments[n], file), WRITE_FLAGS)])
  {
    hide TailPage;
    var less, more := segments[..n], segments[..n + 1];
    forall i: nat, a ensures TailOf(more, i, a) <==> TailOf(less, i, a) || (i == n && TailOf(more, n, a)) {
      if i < n { assert more[i] == less[i]; }
    }
    forall i: nat, a | TailOf(less, i, a) ensures more[i] == less[i] {}
    if HasTail(segments[n]) {
      var at := TailAddr(segments[n]);
      assert more[n] == segments[n] && TailOf(more, n, at);
      if at !in tails {
        var tails' := tails[at := Tail(TailPage(segments[n], file), WRITE_FLAGS)];
        forall a | a in tails' ensures exists i: nat :: TailOf(more, i, a) {
          if a != at { var i: nat :| TailOf(less, i, a); assert TailOf(more, i, a); }
        }
        forall i: nat, a | TailOf(more, i, a)
            ensures a in tails' && tails'[a] == Tail(TailPage(more[i], file), WRITE_FLAGS) {
          assert i < n ==> TailOf(less, i, a);
        }
      }
    } else {
      forall a | a in tails ensures exists i: nat :: TailOf(more, i, a) {
        var i: nat :| TailOf(less, i, a);
        assert TailOf(more, i, a);
      }
    }
  }

  // ---- The areas of a process ----

  /** The set holds the segment's areas, and nothing else starts inside the segment's pages. */
  ghost predicate Mapped(vmas: VmaSet, s: Segment, inode: nat) {
    && SortedByStart(vmas)
    && (s.fileEnd > 0 ==> FileArea(s, inode) in vmas) && (s.memEnd > s.fileEnd ==> BssArea(s) in vmas)
    && NoneStarts(vmas, s, inode)
  }

  ghost predicate NoneStarts(vmas: VmaSet, s: Segment, inode: nat) {
    forall v :: v in vmas && Inside(s, v) ==> v == FileArea(s, inode) || v == BssArea(s)
  }

  /** Segment `i` shares no page with another. */
  ghost predicate Apart(segments: seq<Segment>, i: nat)
    requires i < |segments|
  {
    forall j {:trigger segments[j]} :: 0 <= j < |segments| && j != i ==> Disjoint(segments[i], segments[j])
  }

  ghost predicate Disjoint(s: Segment, t: Segment) {
    s.vmaStart + s.memEnd <= t.vmaStart || t.vmaStart + t.memEnd <= s.vmaStart
  }

  /** A process's areas are its stack, its thread-local block and then the image's, inserted in order. The
      segment's are found there if none of the others starts inside it. */
  lemma {:induction false} ProcessIsMapped(others: VmaSet, segments: seq<Segment>, inode: nat, i: nat)
    requires SortedByStart(others) && i < |segments| && Apart(segments, i)
    requires forall j {:trigger segments[j]} :: 0 <= j < |segments| ==> SegmentOk(segments[j]) && segments[j].memEnd > 0
    requires forall v :: v in others ==> !(segments[i].vmaStart <= v.start < segments[i].vmaStart + segments[i].memEnd)
    ensures Mapped(InsertAll(others, AllAreas(segments, inode)), segments[i], inode)
  {
    hide Mapped, NoneStarts;
    var n := |segments| - 1;
    InsertSegment(others, segments, inode);
    if i < n {
      ProcessIsMapped(others, segments[..n], inode, i);
      OtherSegment(InsertAll(others, AllAreas(segments[..n], inode)), segments[i], segments[n], inode);
    } else {
      NothingThere(others, segments, inode, n, segments[n]);
      OwnSegment(InsertAll(others, AllAreas(segments[..n], inode)), segments[n], inode);
    }
  }

  function PutSegment(vmas: VmaSet, s: Segment, inode: nat): VmaSet {
    var more := Insert(vmas, FileArea(s, inode));
    if s.memEnd > s.fileEnd then Insert(more, BssArea(s)) else more
  }

  lemma InsertSegment(others: VmaSet, segments: seq<Segment>, inode: nat)
    requires segments != []
    ensures var n := |segments| - 1;
            InsertAll(others, AllAreas(segments, inode))
              == PutSegment(InsertAll(others, AllAreas(segments[..n], inode)), segments[n], inode)
  {
    hide Insert, InsertAll;
    var less := AllAreas(segments[..|segments| - 1], inode);
    var s := segments[|segments| - 1];
    InsertOneMore(others, less, FileArea(s, inode));
    InsertOneMore(others, less + [FileArea(s, inode)], BssArea(s));
    assert AreasOf(s, inode) == if s.memEnd > s.fileEnd then [FileArea(s, inode), BssArea(s)] else [FileArea(s, inode)];
    assert less + [FileArea(s, inode), BssArea(s)] == less + [FileArea(s, inode)] + [BssArea(s)];
  }

  lemma InsertOneMore(vmas: VmaSet, areas: seq<Vma>, v: Vma)
    ensures InsertAll(vmas, areas + [v]) == Insert(InsertAll(vmas, areas), v)
  {
    assert (areas + [v])[..|areas|] == areas;
  }

  /** Nothing inserted so far starts inside `s`. */
  lemma {:induction false} NothingThere(others: VmaSet, segments: seq<Segment>, inode: nat, n: nat, s: Segment)
    requires SortedByStart(others) && n <= |segments|
    requires forall j {:trigger segments[j]} :: 0 <= j < n ==>
               SegmentOk(segments[j]) && segments[j].memEnd > 0 && Disjoint(s, segments[j])
    requires forall v :: v in others ==> !(s.vmaStart <= v.start < s.vmaStart + s.memEnd)
    ensures var vmas := InsertAll(others, AllAreas(segments[..n], inode));
            SortedByStart(vmas) && forall v :: v in vmas ==> !(s.vmaStart <= v.start < s.vmaStart + s.memEnd)
  {
    if n > 0 {
      NothingThere(others, segments, inode, n - 1, s);
      InsertSegment(others, segments[..n], inode);
      assert segments[..n][..n - 1] == segments[..n - 1];
      PutIsExact(InsertAll(others, AllAreas(segments[..n - 1], inode)), segments[n - 1], inode);
    }
  }

  /** Inserting the segment's areas would replace an area with this start. */
  ghost predicate Replaces(s: Segment, v: Vma) {
    v.start == s.vmaStart || (s.memEnd > s.fileEnd && v.start == s.vmaStart + s.fileEnd)
  }

  lemma PutIsExact(vmas: VmaSet, s: Segment, inode: nat)
    requires SortedByStart(vmas)
    ensures var more := PutSegment(vmas, s, inode);
            && SortedByStart(more)
            && forall v :: v in more ==>
                v in vmas || v == FileArea(s, inode) || (s.memEnd > s.fileEnd && v == BssArea(s))
    ensures var more := PutSegment(vmas, s, inode);
            forall v :: v in vmas && !Replaces(s, v) ==> v in more
    ensures var more := PutSegment(vmas, s, inode);
            (s.fileEnd > 0 ==> FileArea(s, inode) in more) && (s.memEnd > s.fileEnd ==> BssArea(s) in more)
  {
    InsertIsExact(vmas, FileArea(s, inode));
    InsertIsExact(Insert(vmas, FileArea(s, inode)), BssArea(s));
  }

  lemma OtherSegment(vmas: VmaSet, s: Segment, t: Segment, inode: nat)
    requires Mapped(vmas, s, inode) && Disjoint(s, t) && SegmentOk(s) && SegmentOk(t) && s.memEnd > 0 && t.memEnd > 0
    ensures Mapped(PutSegment(vmas, t, inode), s, inode)
  {
    PutIsExact(vmas, t, inode);
    OwnStarts(s, inode);
    forall v | Inside(s, v) ensures !Inside(t, v) && !Replaces(t, v) { Elsewhere(s, t, v); }
    OwnStarts(t, inode);
    hide PutSegment, Replaces, SegmentOk, Disjoint;
  }

  /** The area starts in the segment's pages. */
  ghost predicate Inside(s: Segment, v: Vma) { s.vmaStart <= v.start < s.vmaStart + s.memEnd }

  lemma OwnStarts(s: Segment, inode: nat)
    requires SegmentOk(s) && s.memEnd > 0
    ensures Inside(s, FileArea(s, inode)) && (s.memEnd > s.fileEnd ==> Inside(s, BssArea(s)))
  {
  }

  lemma Elsewhere(s: Segment, t: Segment, v: Vma)
    requires Disjoint(s, t) && SegmentOk(t) && t.memEnd > 0 && Inside(s, v)
    ensures !Inside(t, v) && !Replaces(t, v)
  {
  }

  lemma OwnSegment(vmas: VmaSet, s: Segment, inode: nat)
    requires SortedByStart(vmas) && forall v :: v in vmas ==> !(s.vmaStart <= v.start < s.vmaStart + s.memEnd)
    ensures Mapped(PutSegment(vmas, s, inode), s, inode)
  {
    PutIsExact(vmas, s, inode);
  }

  // ---- What a process sees ----

  /** The byte at `a`: from a pre-faulted page, or from the page a demand fault brings in. None is a
      fault that kills the process. */
  function Seen(vmas: VmaSet, tails: map<nat, Tail>, relocs: Option<Relocs>, file: Bytes, a: nat): Option<bv8>
    requires relocs.Some? ==> relocs.value.Ok()
  {
    var at := a / PAGE * PAGE;
    if at in tails && |tails[at].page| == PAGE then Some(tails[at].page[a % PAGE])
    else
      match LookupFaultVma(vmas, a)
      case None => None
      case Some(info) =>
        match info.source
        case Zero => Some(0)
        case File(_, pageIdx, _, _) =>
          if pageIdx * PAGE >= |file| then None
          else if TakesRelocPath(relocs, info, a) then
            Some(PatchedPage(relocs.value, a, CachePage(file, pageIdx))[a % PAGE])
          else Some(CachePage(file, pageIdx)[a % PAGE])
  }

  /** Page `n` of a segment as it should be before relocation: the file's bytes, then zeros. */
  function SegmentPage(s: Segment, file: Bytes, n: nat): (r: Page)
    ensures |r| == PAGE && forall j :: 0 <= j < PAGE ==> r[j] == SegmentByte(s, file, n * PAGE + j)
  {
    seq(PAGE, j requires 0 <= j < PAGE => SegmentByte(s, file, n * PAGE + j))
  }

  function SegmentByte(s: Segment, file: Bytes, x: nat): bv8 {
    if x < s.vaddrOffset + s.filesz && s.fileOffset + x < |file| then file[s.fileOffset + x] else 0
  }

  lemma FoundArea(vmas: VmaSet, s: Segment, inode: nat, x: nat)
    requires Mapped(vmas, s, inode) && SegmentOk(s) && x < s.memEnd
    ensures Find(vmas, s.vmaStart + x) == Some(if x < s.fileEnd then FileArea(s, inode) else BssArea(s))
  {
    hide Find;
    var v := if x < s.fileEnd then FileArea(s, inode) else BssArea(s);
    assert s.fileEnd <= s.memEnd && v in vmas && v.Contains(s.vmaStart + x);
    hide SegmentOk;
    var k :| 0 <= k < |vmas| && vmas[k] == v;
    forall j | k < j < |vmas| ensures s.vmaStart + x < vmas[j].start {
      assert vmas[j] in vmas && vmas[k].start < vmas[j].start;
    }
    FindIsLast(vmas, s.vmaStart + x, k);
  }

  /** A page of one segment is no other segment's tail page. */
  lemma TailIsOwn(segments: seq<Segment>, i: nat, j: nat, a: nat)
    requires AllOk(segments) && i < |segments| && Apart(segments, i)
    requires segments[i].vmaStart <= a < segments[i].vmaStart + segments[i].memEnd
               && TailOf(segments, j, a / PAGE * PAGE)
    ensures j == i
  {
    var s, t := segments[i], segments[j];
    assert SegmentOk(s) && SegmentOk(t);
    assert t.FilePages() * PAGE <= t.fileEnd && TailAddr(t) + PAGE <= t.vmaStart + t.memEnd
        && t.vmaStart <= TailAddr(t);
    assert s.vmaStart <= a / PAGE * PAGE && a / PAGE * PAGE + PAGE <= s.vmaStart + s.memEnd by {
      InsidePages(s.vmaStart, s.memEnd, a);
    }
  }

  lemma InsidePages(start: nat, len: nat, a: nat)
    requires start % PAGE == 0 && len % PAGE == 0 && start <= a < start + len
    ensures start <= a / PAGE * PAGE && a / PAGE * PAGE + PAGE <= start + len
  {
  }

  lemma PageSplit(base: nat, x: nat)
    requires base % PAGE == 0
    ensures (base + x) / PAGE * PAGE == base + x / PAGE * PAGE && (base + x) % PAGE == x % PAGE
              && x / PAGE * PAGE + x % PAGE == x
    ensures (base + x / PAGE * PAGE) / PAGE * PAGE == base + x / PAGE * PAGE
  {
  }

  /** Where the file's bytes stop: at the end of the last file page, or inside it. */
  lemma TailGeometry(s: Segment, x: nat)
    requires SegmentOk(s) && s.filesz > 0 && x < s.fileEnd
    ensures s.FilePages() > 0 && x / PAGE < s.FilePages()
    ensures s.TailZeroFrom().None? ==> x < s.vaddrOffset + s.filesz
    ensures s.TailZeroFrom().Some? && x / PAGE < s.FilePages() - 1 ==> x < s.vaddrOffset + s.filesz
    ensures s.TailZeroFrom().Some? && x / PAGE == s.FilePages() - 1 ==>
              (x < s.vaddrOffset + s.filesz <==> x % PAGE < s.TailZeroFrom().value)
  {
    var n := s.vaddrOffset + s.filesz;
    assert n == n / PAGE * PAGE + n % PAGE;
    assert s.FilePages() == n / PAGE + if n % PAGE == 0 then 0 else 1;
  }

  /** A page of the segment is pre-faulted exactly if it is the segment's own tail page. */
  lemma TailHere(segments: seq<Segment>, file: Bytes, relocs: Option<Relocs>, tails: map<nat, Tail>, i: nat, x: nat)
    requires AllOk(segments) && i < |segments| && Apart(segments, i) && TailsOk(segments, file, relocs, tails)
    requires x < segments[i].memEnd && segments[i].filesz > 0
    ensures var s := segments[i];
            && s.FilePages() > 0
            && (s.vmaStart + x / PAGE * PAGE in tails <==> HasTail(s) && x / PAGE == s.FilePages() - 1)
    ensures var s := segments[i]; var at := s.vmaStart + x / PAGE * PAGE;
            at in tails ==> tails[at] == Tail(Relocated(relocs, at, TailPage(s, file)), WRITE_FLAGS)
  {
    hide TailPage, Relocated;
    var s := segments[i];
    var a := s.vmaStart + x / PAGE * PAGE;
    assert SegmentOk(s);
    HasFilePage(s);
    PageSplit(s.vmaStart, x);
    if a in tails {
      var j: nat :| TailOf(segments, j, a);
      TailIsOwn(segments, i, j, s.vmaStart + x);
      assert (s.FilePages() - 1) * PAGE == x / PAGE * PAGE;
    }
    if HasTail(s) && x / PAGE == s.FilePages() - 1 { assert TailOf(segments, i, a); }
  }

  /** The file holds all the segment's file bytes. */
  predicate InFile(s: Segment, file: Bytes) { s.fileOffset + s.vaddrOffset + s.filesz <= |file| }

  lemma TailIsSegmentPage(s: Segment, file: Bytes)
    requires SegmentOk(s) && s.filesz > 0 && HasTail(s) && InFile(s, file)
    ensures TailPage(s, file) == SegmentPage(s, file, s.FilePages() - 1)
  {
    var n := s.FilePages() - 1;
    HasFilePage(s);
    forall j | 0 <= j < PAGE ensures TailPage(s, file)[j] == SegmentPage(s, file, n)[j] {
      TailByte(s, file, n, j);
    }
  }

  lemma TailByte(s: Segment, file: Bytes, n: nat, j: nat)
    requires SegmentOk(s) && s.filesz > 0 && HasTail(s) && InFile(s, file) && n == s.FilePages() - 1 && j < PAGE
    ensures TailPage(s, file)[j] == SegmentByte(s, file, n * PAGE + j)
  {
    HasFilePage(s);
    PagePlus(n, j);
    TailGeometry(s, n * PAGE + j);
    PageSplit(s.fileOffset, n * PAGE + j);
    assert (s.fileOffset + n * PAGE) / PAGE * PAGE + j == s.fileOffset + (n * PAGE + j);
  }

  lemma PagePlus(n: nat, j: nat)
    requires j < PAGE
    ensures (n * PAGE + j) / PAGE == n && (n * PAGE + j) % PAGE == j
  {
  }

  lemma CacheIsSegmentPage(s: Segment, file: Bytes, x: nat)
    requires SegmentOk(s) && s.filesz > 0 && InFile(s, file) && x < s.fileEnd
               && !(HasTail(s) && x / PAGE == s.FilePages() - 1)
    ensures var n := (s.fileOffset + x / PAGE * PAGE) / PAGE;
            n * PAGE < |file| && CachePage(file, n) == SegmentPage(s, file, x / PAGE)
  {
    var k := x / PAGE;
    var n := (s.fileOffset + k * PAGE) / PAGE;
    TailGeometry(s, x);
    CacheByte(s, file, k, 0);
    assert n * PAGE == s.fileOffset + k * PAGE;
    forall j | 0 <= j < PAGE ensures CachePage(file, n)[j] == SegmentPage(s, file, k)[j] { CacheByte(s, file, k, j); }
  }

  lemma CacheByte(s: Segment, file: Bytes, k: nat, j: nat)
    requires SegmentOk(s) && s.filesz > 0 && InFile(s, file) && k < s.FilePages()
               && !(HasTail(s) && k == s.FilePages() - 1) && j < PAGE
    ensures (s.fileOffset + k * PAGE) / PAGE * PAGE + j == s.fileOffset + (k * PAGE + j) < |file|
    ensures k * PAGE + j < s.vaddrOffset + s.filesz
  {
    HasFilePage(s);
    PagePlus(k, j);
    TailGeometry(s, k * PAGE + j);
    PageSplit(s.fileOffset, k * PAGE + j);
  }

  lemma FileLookup(vmas: VmaSet, s: Segment, inode: nat, x: nat)
    requires Find(vmas, s.vmaStart + x) == Some(FileArea(s, inode)) && s.vmaStart % PAGE == 0
    ensures var r := LookupFaultVma(vmas, s.vmaStart + x);
            r.Some? && r.value.source.File? && r.value.source.pageIdx == (s.fileOffset + x / PAGE * PAGE) / PAGE
              && !r.value.source.shared
  {
    PageSplit(s.vmaStart, x);
  }

  /** The pages the relocation state reaches: its range, and pages pre-faulted by the loader. */
  predicate Reached(relocs: Option<Relocs>, tails: map<nat, Tail>, a: nat) {
    relocs.Some? && (relocs.value.Covers(a) || a / PAGE * PAGE in tails)
  }

  function Shown(relocs: Option<Relocs>, reached: bool, a: nat, page: Page): (r: Page)
    requires |page| == PAGE && (relocs.Some? ==> relocs.value.Ok())
    ensures |r| == PAGE
  {
    if reached then Relocated(relocs, a, page) else page
  }

  lemma TailSeen(s: Segment, file: Bytes, relocs: Option<Relocs>, x: nat)
    requires SegmentOk(s) && s.filesz > 0 && HasTail(s) && InFile(s, file) && x / PAGE == s.FilePages() - 1
    requires relocs.Some? ==> relocs.value.Ok()
    ensures Relocated(relocs, s.vmaStart + x / PAGE * PAGE, TailPage(s, file))
              == Relocated(relocs, s.vmaStart + x, SegmentPage(s, file, x / PAGE))
  {
    hide TailPage, SegmentPage, PatchPage, EntriesForPage, Relocs.Base;
    TailIsSegmentPage(s, file);
    PageSplit(s.vmaStart, x);
  }

  lemma BssSeen(vmas: VmaSet, s: Segment, file: Bytes, relocs: Option<Relocs>, x: nat)
    requires SegmentOk(s) && s.fileEnd <= x && Find(vmas, s.vmaStart + x) == Some(BssArea(s))
    requires relocs.Some? ==>
               relocs.value.Ok() && EntriesForPage(relocs.value.table, relocs.value.PageIndex(s.vmaStart + x)) == []
    ensures LookupFaultVma(vmas, s.vmaStart + x).Some? && LookupFaultVma(vmas, s.vmaStart + x).value.source == Zero
    ensures SegmentPage(s, file, x / PAGE)[x % PAGE] == 0
    ensures Relocated(relocs, s.vmaStart + x, SegmentPage(s, file, x / PAGE)) == SegmentPage(s, file, x / PAGE)
  {
    assert SegmentByte(s, file, x / PAGE * PAGE + x % PAGE) == 0;
    hide SegmentByte;
  }

  /** A segment with file bytes that shares no page with another: every byte from its first page to its
      last is the file's or zero, with the page's relocations applied where they reach. */
  lemma SegmentSeen(vmas: VmaSet, segments: seq<Segment>, inode: nat, file: Bytes, tails: map<nat, Tail>,
                    relocs: Option<Relocs>, i: nat, x: nat)
    requires AllOk(segments) && i < |segments| && Apart(segments, i) && Mapped(vmas, segments[i], inode)
    requires TailsOk(segments, file, relocs, tails) && (relocs.Some? ==> relocs.value.Ok())
    requires segments[i].filesz > 0 && InFile(segments[i], file) && x < segments[i].memEnd
    requires relocs.Some? && x >= segments[i].fileEnd ==>
               EntriesForPage(relocs.value.table, relocs.value.PageIndex(segments[i].vmaStart + x)) == []
    ensures var s, a := segments[i], segments[i].vmaStart + x;
            Seen(vmas, tails, relocs, file, a)
              == Some(Shown(relocs, Reached(relocs, tails, a), a, SegmentPage(s, file, x / PAGE))[x % PAGE])
  {
    hide Mapped, TailsOk, PatchedPage, TailPage, CachePage, SegmentPage, Relocs.Ok, Relocs.Covers, SegmentOk,
      LookupFaultVma;
    var s := segments[i];
    OkAt(segments, i);
    PageSplit(s.vmaStart, x);
    TailHere(segments, file, relocs, tails, i, x);
    FoundArea(vmas, s, inode, x);
    if s.vmaStart + x / PAGE * PAGE in tails {
      TailSeen(s, file, relocs, x);
    } else if x < s.fileEnd {
      FileLookup(vmas, s, inode, x);
      CacheIsSegmentPage(s, file, x);
    } else {
      BssSeen(vmas, s, file, relocs, x);
    }
  }

  /** Before relocation: from the segment's first byte to the end of its last page, a process sees the
      file's bytes and then zeros. */
  lemma ImageIsTheFileThenZeros(vmas: VmaSet, segments: seq<Segment>, inode: nat, file: Bytes, tails: map<nat, Tail>,
                                i: nat, x: nat)
    requires AllOk(segments) && i < |segments| && Apart(segments, i) && Mapped(vmas, segments[i], inode)
    requires TailsOk(segments, file, None, tails)
    requires segments[i].filesz > 0 && InFile(segments[i], file) && x < segments[i].memEnd
    ensures Seen(vmas, tails, None, file, segments[i].vmaStart + x)
            == Some(if x < segments[i].vaddrOffset + segments[i].filesz then file[segments[i].fileOffset + x] else 0)
  {
    hide AllOk, Apart, Mapped, TailsOk, Seen, SegmentPage;
    SegmentSeen(vmas, segments, inode, file, tails, None, i, x);
    SegmentPageAt(segments[i], file, x);
  }

  /** A page-aligned segment without file bytes is zeros throughout. */
  lemma PureBssIsZero(vmas: VmaSet, segments: seq<Segment>, inode: nat, file: Bytes, tails: map<nat, Tail>,
                      i: nat, x: nat)
    requires AllOk(segments) && i < |segments| && Apart(segments, i) && Mapped(vmas, segments[i], inode)
    requires TailsOk(segments, file, None, tails) && segments[i].fileEnd == 0 && x < segments[i].memEnd
    ensures Seen(vmas, tails, None, file, segments[i].vmaStart + x) == Some(0)
  {
    hide Mapped, Apart, AllOk, TailPage, CachePage, LookupFaultVma, Relocated;
    var s := segments[i];
    OkAt(segments, i);
    PageSplit(s.vmaStart, x);
    var at := s.vmaStart + x / PAGE * PAGE;
    if at in tails {
      var j: nat :| TailOf(segments, j, at);
      TailIsOwn(segments, i, j, s.vmaStart + x);
    }
    FoundArea(vmas, s, inode, x);
    BssSeen(vmas, s, file, None, x);
  }

  lemma SegmentPageAt(s: Segment, file: Bytes, x: nat)
    ensures SegmentPage(s, file, x / PAGE)[x % PAGE] == SegmentByte(s, file, x)
  {
    assert x / PAGE * PAGE + x % PAGE == x;
  }

  /** The same, in the headers' own terms and for the areas a new process has: whatever it had before
      (a stack, a thread-local block) and then the image's. */
  lemma LoadedSegment(loadBase: nat, headers: seq<Header>, segments: seq<Segment>, others: VmaSet, inode: nat,
                      file: Bytes,
                      tails: map<nat, Tail>, i: nat, k: nat)
    requires |segments| == |headers| && forall j :: 0 <= j < |headers| ==>
               headers[j].memsz > 0 && Validate(loadBase, headers[j]) == Ok(segments[j])
    requires i < |headers| && Apart(segments, i) && TailsOk(segments, file, None, tails)
    requires SortedByStart(others)
    requires forall v :: v in others ==> !(segments[i].vmaStart <= v.start < segments[i].vmaStart + segments[i].memEnd)
    requires headers[i].filesz > 0 && headers[i].offset + headers[i].filesz <= |file| && k < headers[i].memsz
    ensures Seen(InsertAll(others, AllAreas(segments, inode)), tails, None, file, loadBase + headers[i].vaddr + k)
            == Some(if k < headers[i].filesz then file[headers[i].offset + k] else 0)
  {
    hide Mapped, Apart, TailsOk, SegmentOk, Seen, InsertAll, AllAreas, Validate, AlignUp, SortedByStart;
    var s := segments[i];
    forall j {:trigger segments[j]} | 0 <= j < |segments| ensures SegmentOk(segments[j]) && segments[j].memEnd > 0 {
      ValidateIsExact(loadBase, headers[j]);
      HeaderSizes(loadBase, headers[j], segments[j]);
    }
    ValidateIsExact(loadBase, headers[i]);
    HeaderSizes(loadBase, headers[i], s);
    ProcessIsMapped(others, segments, inode, i);
    ImageIsTheFileThenZeros(InsertAll(others, AllAreas(segments, inode)), segments, inode, file, tails, i,
      s.vaddrOffset + k);
  }

  lemma HeaderSizes(loadBase: nat, h: Header, s: Segment)
    requires Validate(loadBase, h) == Ok(s)
    ensures s.filesz == h.filesz && s.vaddrOffset + h.memsz <= s.memEnd
  {
  }

  // ---- After relocation ----

  /** The page's index from the load base is its own exactly within 4 GiB of the base; a page 4 GiB
      further up is taken for this one. */
  lemma PageIndexIsExact(relocs: Relocs, a: nat)
    requires relocs.base % PAGE == 0
    ensures relocs.base + relocs.PageIndex(a) * PAGE == a / PAGE * PAGE <==>
              relocs.base <= a / PAGE * PAGE < relocs.base + U32
    ensures relocs.PageIndex(a + U32) == relocs.PageIndex(a)
  {
    var d := a / PAGE * PAGE - relocs.base;
    assert d % PAGE == 0 by { Multiple(a / PAGE - relocs.base / PAGE); }
    PagesMod(d);
    assert (a + U32) / PAGE == a / PAGE + 0x10_0000;
    assert (d + U32) % U32 == d % U32;
    assert d % U32 == d <==> 0 <= d < U32;
  }

  lemma Multiple(m: int)
    ensures (m * PAGE) / PAGE == m && (m * PAGE) % PAGE == 0
  {
  }

  lemma PagesMod(d: int)
    requires d % PAGE == 0
    ensures d % U32 / PAGE * PAGE == d % U32
  {
    var m := d / PAGE - d / U32 * 0x10_0000;
    assert d == d / PAGE * PAGE && d == d / U32 * U32 + d % U32;
    assert d % U32 == m * PAGE;
    Multiple(m);
  }

  /** No record lands in a page past the file part of the segment that carries them. */
  ghost predicate NoneInBss(s: Segment, loadBase: nat, raw: seq<Reloc.Entry>) {
    forall e :: e in raw ==> !(s.vmaStart + s.fileEnd <= loadBase + e.offset < s.vmaStart + s.memEnd)
  }

  /** With relocations, in an image of at most 4 GiB: the segment that carries them shows its pages with
      exactly the records that target each page applied; every other segment shows its own bytes. */
  lemma RelocatedSegment(vmas: VmaSet, segments: seq<Segment>, loadBase: nat, raw: seq<Reloc.Entry>, inode: nat,
                         file: Bytes,
                         tails: map<nat, Tail>, relocs: Relocs, carrier: nat, i: nat, x: nat)
    requires AllOk(segments) && i < |segments| && Apart(segments, i) && Mapped(vmas, segments[i], inode)
    requires loadBase % PAGE == 0 && WithinReach(segments[i], loadBase)
    requires OnlyCarrier(segments, loadBase, raw, carrier) && RelocsFrom(segments[carrier], loadBase, raw, relocs)
    requires WithinReach(segments[carrier], loadBase) && NoneInBss(segments[carrier], loadBase, raw)
    requires TailsOk(segments, file, Some(relocs), tails)
    requires segments[i].filesz > 0 && InFile(segments[i], file) && x < segments[i].memEnd
    ensures loadBase <= segments[i].vmaStart
              && NoStraddle(OfPage(relocs.table.entries, ImagePage(segments[i], loadBase, x)))
    ensures var page := SegmentPage(segments[i], file, x / PAGE);
            Seen(vmas, tails, Some(relocs), file, segments[i].vmaStart + x)
            == Some((if i == carrier then
              PatchPage(page, OfPage(relocs.table.entries, ImagePage(segments[i], loadBase, x)), relocs.Base())
                     else page)[x % PAGE])
  {
    hide AllOk, Apart, TailsOk, Mapped, OnlyCarrier, RelocsFrom, NoneInBss, WithinReach, NoStraddle, SegmentPage,
      SegmentOk;
    hide PatchPage, OfPage, EntriesForPage, PatchedPage, Seen, Relocs.Covers, Relocs.PageIndex, Relocs.Base;
    PageRecords(segments, loadBase, raw, relocs, carrier, i, x);
    SegmentSeen(vmas, segments, inode, file, tails, Some(relocs), i, x);
    PatchedIs(relocs, segments[i].vmaStart + x, SegmentPage(segments[i], file, x / PAGE));
    PatchNone(SegmentPage(segments[i], file, x / PAGE), relocs.Base());
  }

  lemma PageRecords(segments: seq<Segment>, loadBase: nat, raw: seq<Reloc.Entry>, relocs: Relocs, carrier: nat, i: nat,
                    x: nat)
    requires AllOk(segments) && i < |segments| && Apart(segments, i) && loadBase % PAGE == 0
               && WithinReach(segments[i], loadBase)
    requires OnlyCarrier(segments, loadBase, raw, carrier) && RelocsFrom(segments[carrier], loadBase, raw, relocs)
    requires WithinReach(segments[carrier], loadBase) && NoneInBss(segments[carrier], loadBase, raw)
               && x < segments[i].memEnd
    ensures relocs.Ok() && loadBase <= segments[i].vmaStart
    ensures NoStraddle(OfPage(relocs.table.entries, ImagePage(segments[i], loadBase, x)))
    ensures var entries := EntriesForPage(relocs.table, relocs.PageIndex(segments[i].vmaStart + x));
            && (i == carrier ==> relocs.Covers(segments[i].vmaStart + x)
                                 && entries == OfPage(relocs.table.entries, ImagePage(segments[i], loadBase, x)))
            && (i != carrier || x >= segments[i].fileEnd ==> entries == [])
  {
    hide NoneInBss, OfPage, EntriesForPage;
    OkAt(segments, i);
    OkAt(segments, carrier);
    OfPageKeeps(relocs.table.entries, ImagePage(segments[i], loadBase, x));
    IndexOfPage(segments[i], loadBase, relocs, x);
    if i == carrier {
      RecordsOfPage(segments[i], loadBase, raw, relocs, x);
    } else {
      assert Disjoint(segments[i], segments[carrier]);
      CarrierHasPages(segments, loadBase, raw, carrier);
      NoRecords(segments[i], segments[carrier], loadBase, raw, relocs, x);
    }
  }

  lemma CarrierHasPages(segments: seq<Segment>, loadBase: nat, raw: seq<Reloc.Entry>, carrier: nat)
    requires OnlyCarrier(segments, loadBase, raw, carrier)
    ensures segments[carrier].memEnd > 0
  {
  }

  predicate WithinReach(s: Segment, loadBase: nat) { loadBase <= s.vmaStart && s.vmaStart + s.memEnd <= loadBase + U32 }

  /** The page's place in the image, counted from the load base. */
  function ImagePage(s: Segment, loadBase: nat, x: nat): nat
    requires loadBase <= s.vmaStart
  {
    (s.vmaStart - loadBase) / PAGE + x / PAGE
  }

  lemma IndexOfPage(s: Segment, loadBase: nat, relocs: Relocs, x: nat)
    requires SegmentOk(s) && loadBase % PAGE == 0 && WithinReach(s, loadBase) && relocs.base == loadBase && x < s.memEnd
    ensures relocs.PageIndex(s.vmaStart + x) == ImagePage(s, loadBase, x)
  {
    PageSplit(s.vmaStart, x);
    var d := s.vmaStart - loadBase + x / PAGE * PAGE;
    assert d < U32 && d % U32 == d;
  }

  lemma {:induction false} OfPageEmpty(entries: seq<Reloc.Entry>, page: nat)
    requires forall e :: e in entries ==> !e.InPage(page)
    ensures OfPage(entries, page) == []
  {
    if entries != [] {
      OfPageEmpty(entries[..|entries| - 1], page);
      assert entries[|entries| - 1] in entries;
    }
  }

  /** The table finds the carrier's pages, and nothing for its pages past the file part. */
  lemma RecordsOfPage(s: Segment, loadBase: nat, raw: seq<Reloc.Entry>, relocs: Relocs, x: nat)
    requires SegmentOk(s) && loadBase % PAGE == 0 && WithinReach(s, loadBase) && RelocsFrom(s, loadBase, raw, relocs)
               && x < s.memEnd
    requires NoneInBss(s, loadBase, raw)
    ensures relocs.Covers(s.vmaStart + x)
    ensures EntriesForPage(relocs.table, ImagePage(s, loadBase, x))
              == OfPage(relocs.table.entries, ImagePage(s, loadBase, x))
    ensures x >= s.fileEnd ==> OfPage(relocs.table.entries, ImagePage(s, loadBase, x)) == []
  {
    hide TableOk, OfPage, EntriesForPage;
    PageSplit(s.vmaStart, x);
    var page := ImagePage(s, loadBase, x);
    assert (s.vmaStart - loadBase) % U32 == s.vmaStart - loadBase;
    assert x / PAGE < s.memEnd / PAGE;
    LookupIsExact(relocs.table, s.memEnd / PAGE, page);
    if x >= s.fileEnd {
      forall e | e in relocs.table.entries ensures !e.InPage(page) {
        assert e in multiset(raw);
        if e.InPage(page) { InBss(s, loadBase, e.offset, x); }
      }
      OfPageEmpty(relocs.table.entries, page);
    }
  }

  lemma InBss(s: Segment, loadBase: nat, offset: nat, x: nat)
    requires SegmentOk(s) && loadBase % PAGE == 0 && loadBase <= s.vmaStart && s.fileEnd <= x < s.memEnd
    requires offset / PAGE == ImagePage(s, loadBase, x)
    ensures s.vmaStart + s.fileEnd <= loadBase + offset < s.vmaStart + s.memEnd
  {
    var d := s.vmaStart - loadBase;
    assert d % PAGE == 0 && d / PAGE * PAGE == d;
    assert s.fileEnd / PAGE * PAGE == s.fileEnd && s.memEnd / PAGE * PAGE == s.memEnd;
    assert s.fileEnd / PAGE <= x / PAGE < s.memEnd / PAGE;
    assert offset / PAGE * PAGE == d + x / PAGE * PAGE;
  }

  /** The table holds nothing for a page of another segment. */
  lemma NoRecords(s: Segment, t: Segment, loadBase: nat, raw: seq<Reloc.Entry>, relocs: Relocs, x: nat)
    requires SegmentOk(s) && SegmentOk(t) && loadBase % PAGE == 0 && WithinReach(s, loadBase)
               && WithinReach(t, loadBase) && Disjoint(s, t)
    requires RelocsFrom(t, loadBase, raw, relocs) && x < s.memEnd && t.memEnd > 0
    ensures !relocs.Covers(s.vmaStart + x) && EntriesForPage(relocs.table, ImagePage(s, loadBase, x)) == []
  {
    NotCovered(s, t, relocs, x);
    TableShape(t, loadBase, raw, relocs);
    SegmentOutside(s, t, loadBase, x);
    hide SegmentOk, RelocsFrom, Relocs.Covers, WithinReach;
  }

  lemma SegmentOutside(s: Segment, t: Segment, loadBase: nat, x: nat)
    requires s.vmaStart % PAGE == 0 && t.vmaStart % PAGE == 0 && t.memEnd % PAGE == 0 && loadBase % PAGE == 0
    requires loadBase <= s.vmaStart && loadBase <= t.vmaStart && Disjoint(s, t) && x < s.memEnd
    ensures ImagePage(s, loadBase, x) < (t.vmaStart - loadBase) / PAGE
            || (t.vmaStart - loadBase) / PAGE + t.memEnd / PAGE <= ImagePage(s, loadBase, x)
  {
    assert (s.vmaStart - loadBase) % PAGE == 0 && (t.vmaStart - loadBase) % PAGE == 0;
    OutsidePages(s.vmaStart - loadBase, x, t.vmaStart - loadBase, t.memEnd);
  }

  lemma TableShape(t: Segment, loadBase: nat, raw: seq<Reloc.Entry>, relocs: Relocs)
    requires WithinReach(t, loadBase) && RelocsFrom(t, loadBase, raw, relocs) && t.memEnd > 0
    ensures relocs.table.vmaPage == (t.vmaStart - loadBase) / PAGE && |relocs.table.buckets| == t.memEnd / PAGE
  {
    assert (t.vmaStart - loadBase) % U32 == t.vmaStart - loadBase;
  }

  lemma NotCovered(s: Segment, t: Segment, relocs: Relocs, x: nat)
    requires SegmentOk(s) && Disjoint(s, t) && x < s.memEnd && relocs.start == t.vmaStart
               && relocs.end == t.vmaStart + t.memEnd
    ensures !relocs.Covers(s.vmaStart + x)
  {
    InsidePages(s.vmaStart, s.memEnd, s.vmaStart + x);
  }

  lemma OutsidePages(d: nat, x: nat, e: nat, m: nat)
    requires d % PAGE == 0 && e % PAGE == 0 && m % PAGE == 0 && (d + x < e || e + m <= d + x)
    ensures d / PAGE + x / PAGE < e / PAGE || e / PAGE + m / PAGE <= d / PAGE + x / PAGE
  {
    PagesAdd(d, x);
    PagesAdd(e, m);
    PagesOrder(d + x, e);
    PagesOrder(d + x, e + m);
  }

  lemma PagesAdd(a: nat, b: nat)
    requires a % PAGE == 0
    ensures (a + b) / PAGE == a / PAGE + b / PAGE
  {
  }

  lemma PagesOrder(a: nat, b: nat)
    requires b % PAGE == 0
    ensures a / PAGE < b / PAGE <==> a < b
  {
  }

  // ---- Write permission ----

  /** The loader maps every tail page writable, so the pages it pre-faults respect their areas exactly if
      every segment whose file bytes end inside a page is writable. */
  lemma TailsHonourAreas(vmas: VmaSet, segments: seq<Segment>, inode: nat, file: Bytes, relocs: Option<Relocs>,
                         tails: map<nat, Tail>)
    requires AllOk(segments) && TailsOk(segments, file, relocs, tails)
    requires forall i {:trigger segments[i]} :: 0 <= i < |segments| ==> Mapped(vmas, segments[i], inode)
    ensures (forall a :: a in tails ==> (tails[a].flags.writable ==> PermitsWrite(a, vmas)))
            <==> (forall i {:trigger segments[i]} :: 0 <= i < |segments| && segments[i].TailZeroFrom().Some? ==>
              segments[i].write)
  {
    hide Mapped, TailPage, Relocated, Find;
    forall i: nat, a | TailOf(segments, i, a)
        ensures a in tails && tails[a].flags.writable && PermitsWrite(a, vmas) == segments[i].write {
      OkAt(segments, i);
      TailArea(vmas, segments[i], inode);
    }
    forall i: nat | i < |segments| && segments[i].TailZeroFrom().Some?
        ensures TailOf(segments, i, TailAddr(segments[i])) {
      OkAt(segments, i);
      HasFilePage(segments[i]);
    }
    forall a | a in tails ensures exists i: nat :: TailOf(segments, i, a) {}
  }

  lemma TailArea(vmas: VmaSet, s: Segment, inode: nat)
    requires SegmentOk(s) && Mapped(vmas, s, inode) && HasTail(s)
    ensures PermitsWrite(TailAddr(s), vmas) == s.write
  {
    HasFilePage(s);
    FoundArea(vmas, s, inode, (s.FilePages() - 1) * PAGE);
  }

  /** As one input: a read-execute segment of 100 bytes, the first page of the file. */
  lemma ReadOnlyTail(file: Bytes, tails: map<nat, Tail>)
    requires |file| >= 100
    ensures var h := Header(true, false, true, 0, 0, 100, 100);
            && Validate(0x40_0000, h).Ok?
            && var s := Validate(0x40_0000, h).value;
            TailsOk([s], file, None, tails) ==>
              && 0x40_0000 in tails && tails[0x40_0000].flags.writable
              && !PermitsWrite(0x40_0000, InsertAll([], AllAreas([s], 1)))
  {
    var s := Segment(0x40_0000, 0, 0, true, false, true, 100, 0x1000, 0x1000);
    assert AlignUp(100) == 0x1000;
    assert Validate(0x40_0000, Header(true, false, true, 0, 0, 100, 100)) == Ok(s);
    assert [s][..0] == [];
    assert AllAreas([s], 1) == [FileArea(s, 1)];
    assert [FileArea(s, 1)][..0] == [];
    assert InsertAll([], [FileArea(s, 1)]) == [FileArea(s, 1)];
    assert Find([FileArea(s, 1)], 0x40_0000) == Some(FileArea(s, 1));
    if TailsOk([s], file, None, tails) { assert TailOf([s], 0, 0x40_0000); }
  }

  /** The relocation range is the carrier's pages, and the carrier is writable: as long as the areas are
      those of the load, no fault makes a page writable against its area. */
  lemma LoadedFaultsHonourAreas(vmas: VmaSet, segments: seq<Segment>, loadBase: nat, raw: seq<Reloc.Entry>, inode: nat,
                                relocs: Option<Relocs>, a: nat)
    requires AllOk(segments) && RelocsOk(segments, loadBase, raw, relocs) && Aligned(vmas)
    requires forall i {:trigger segments[i]} :: 0 <= i < |segments| ==> Mapped(vmas, segments[i], inode)
    ensures !ReadOnlyReloc(vmas, relocs, a)
    ensures var flags := FaultFlags(vmas, relocs, a); flags.Some? && flags.value.writable ==> PermitsWrite(a, vmas)
  {
    hide Mapped, Find, FaultFlags, Aligned;
    FaultHonoursArea(vmas, relocs, a);
    if relocs.Some? && relocs.value.Covers(a) {
      var k: nat :| OnlyCarrier(segments, loadBase, raw, k) && RelocsFrom(segments[k], loadBase, raw, relocs.value);
      var s := segments[k];
      OkAt(segments, k);
      CoversInside(s, a);
      FoundArea(vmas, s, inode, a - s.vmaStart);
    }
  }

  lemma CoversInside(s: Segment, a: nat)
    requires SegmentOk(s) && s.vmaStart <= a / PAGE * PAGE < s.vmaStart + s.memEnd
    ensures s.vmaStart <= a < s.vmaStart + s.memEnd
  {
  }
}
