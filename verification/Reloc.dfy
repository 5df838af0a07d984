/** Relative relocations applied a page at a time, as pages fault in, against applying them all to
    the whole image at once. */
module Reloc {
  import opened Collections
  import opened Vmas

  type Bytes = seq<bv8>

  /** An R_X86_64_RELATIVE record: the eight bytes at `offset` become base + addend. */
  datatype Entry = Entry(offset: nat, addend: bv64) {
    predicate Straddles() { Slot() > PAGE - 8 }
    function Slot(): nat { offset % PAGE }
    predicate InPage(page: nat) { offset / PAGE == page }
  }

  datatype Bucket = Bucket(start: nat, len: nat)

  /** `vmaPage` is the first page of the writable segment, in the image. */
  datatype Table = Table(entries: seq<Entry>, buckets: seq<Bucket>, vmaPage: nat)

  ghost predicate Sorted(entries: seq<Entry>) {
    forall i, j :: 0 <= i < j < |entries| ==> entries[i].offset <= entries[j].offset
  }

  // ---- Building the table ----

  function InsertByOffset(entries: seq<Entry>, e: Entry): seq<Entry> {
    if entries == [] || entries[|entries| - 1].offset <= e.offset then entries + [e]
    else InsertByOffset(entries[..|entries| - 1], e) + [entries[|entries| - 1]]
  }

  lemma {:induction false} InsertByOffsetOk(entries: seq<Entry>, e: Entry)
    requires Sorted(entries)
    ensures Sorted(InsertByOffset(entries, e))
              && multiset(InsertByOffset(entries, e)) == multiset(entries) + multiset{e}
    ensures forall x :: x in InsertByOffset(entries, e) <==> x in entries || x == e
  {
    var n := |entries| - 1;
    if entries == [] || entries[n].offset <= e.offset {
      LastSorted(entries, e);
    } else {
      InsertByOffsetOk(entries[..n], e);
      assert entries == entries[..n] + [entries[n]];
      LastSorted(InsertByOffset(entries[..n], e), entries[n]);
    }
  }

  lemma LastSorted(entries: seq<Entry>, last: Entry)
    requires Sorted(entries) && forall e :: e in entries ==> e.offset <= last.offset
    ensures Sorted(entries + [last])
  {
    forall i, j | 0 <= i < j < |entries + [last]| ensures (entries + [last])[i].offset <= (entries + [last])[j].offset {
      if j == |entries| { assert entries[i] in entries; }
    }
  }

  /** Some ordering by offset; records at one offset may come out in any order. */
  method SortEntries(raw: seq<Entry>) returns (entries: seq<Entry>)
    ensures Sorted(entries) && multiset(entries) == multiset(raw)
    ensures forall e :: e in entries <==> e in raw
  {
    entries := [];
    for n := 0 to |raw|
      invariant Sorted(entries) && multiset(entries) == multiset(raw[..n])
      invariant forall e :: e in entries <==> e in raw[..n]
    {
      InsertByOffsetOk(entries, raw[n]);
      assert raw[..n + 1] == raw[..n] + [raw[n]];
      entries := InsertByOffset(entries, raw[n]);
    }
    assert raw[..|raw|] == raw;
  }

  /** The bucket is exactly the stretch of the first `n` entries that lie in `page`. */
  ghost predicate BucketOk(entries: seq<Entry>, n: nat, b: Bucket, page: nat) {
    && n <= |entries| && b.start + b.len <= n
    && forall k {:trigger entries[k]} :: 0 <= k < n ==> (entries[k].InPage(page) <==> b.start <= k < b.start + b.len)
  }

  function Counted(b: Bucket, n: nat): Bucket { if b.len == 0 then Bucket(n, 1) else Bucket(b.start, b.len + 1) }

  /** In sorted order the entries of one page are adjacent. */
  lemma Adjacent(entries: seq<Entry>, n: nat, b: Bucket, page: nat)
    requires Sorted(entries) && n < |entries| && BucketOk(entries, n, b, page) && entries[n].InPage(page) && b.len > 0
    ensures b.start + b.len == n
  {
    var k := b.start + b.len;
    if k < n { SamePage(entries[b.start].offset, entries[k].offset, entries[n].offset, page); }
  }

  lemma BucketNext(entries: seq<Entry>, n: nat, b: Bucket, page: nat)
    requires Sorted(entries) && n < |entries| && BucketOk(entries, n, b, page)
    ensures BucketOk(entries, n + 1, if entries[n].InPage(page) then Counted(b, n) else b, page)
  {
    if entries[n].InPage(page) && b.len > 0 { Adjacent(entries, n, b, page); }
  }

  lemma SamePage(a: nat, b: nat, c: nat, page: nat)
    requires a <= b <= c && a / PAGE == page && c / PAGE == page
    ensures b / PAGE == page
  {
  }

  /** None for a record that straddles a page boundary, which the loader refuses with a panic. */
  method Build(raw: seq<Entry>, vmaPage: nat, pageCount: nat) returns (r: Option<Table>)
    ensures r.None? <==> exists e :: e in raw && e.Straddles()
    ensures r.Some? ==>
              TableOk(r.value, pageCount) && r.value.vmaPage == vmaPage && multiset(r.value.entries) == multiset(raw)
  {
    var entries := SortEntries(raw);
    for i := 0 to |entries|
      invariant forall k :: 0 <= k < i ==> !entries[k].Straddles()
    {
      if entries[i].Straddles() {
        assert entries[i] in entries;
        return None;
      }
    }
    var buckets := seq(pageCount, _ => Bucket(0, 0));
    for n := 0 to |entries|
      invariant |buckets| == pageCount && forall p :: 0 <= p < pageCount ==>
                  BucketOk(entries, n, buckets[p], vmaPage + p)
    {
      forall p | 0 <= p < pageCount
          ensures BucketOk(entries, n + 1, if entries[n].InPage(vmaPage + p) then Counted(buckets[p], n)
          else buckets[p], vmaPage + p) {
        BucketNext(entries, n, buckets[p], vmaPage + p);
      }
      var page := entries[n].offset / PAGE;
      hide BucketOk;
      if page >= vmaPage && page - vmaPage < pageCount {
        buckets := buckets[page - vmaPage := Counted(buckets[page - vmaPage], n)];
      }
    }
    r := Some(Table(entries, buckets, vmaPage));
  }

  ghost predicate TableOk(t: Table, pageCount: nat) {
    && Sorted(t.entries) && |t.buckets| == pageCount
    && NoStraddle(t.entries)
    && (forall p :: 0 <= p < pageCount ==> BucketOk(t.entries, |t.entries|, t.buckets[p], t.vmaPage + p))
  }

  // ---- Looking up a page ----

  function EntriesForPage(t: Table, page: nat): (r: seq<Entry>)
    ensures NoStraddle(t.entries) ==> NoStraddle(r)
  {
    if page < t.vmaPage || page - t.vmaPage >= |t.buckets| then []
    else
      var b := t.buckets[page - t.vmaPage];
      if b.len == 0 || b.start + b.len > |t.entries| then [] else t.entries[b.start..b.start + b.len]
  }

  /** The entries of a page, in order. */
  function OfPage(entries: seq<Entry>, page: nat): seq<Entry> {
    if entries == [] then []
    else OfPage(entries[..|entries| - 1], page) + if entries[|entries| - 1].InPage(page) then [entries[|entries| - 1]]
      else []
  }

  lemma {:induction false} StretchIsFilter(entries: seq<Entry>, n: nat, b: Bucket, page: nat)
    requires BucketOk(entries, n, b, page)
    ensures OfPage(entries[..n], page) == entries[b.start..b.start + b.len]
  {
    if n == 0 {
    } else if b.len > 0 && b.start + b.len == n {
      assert BucketOk(entries, n - 1, Bucket(b.start, b.len - 1), page);
      StretchIsFilter(entries, n - 1, Bucket(b.start, b.len - 1), page);
      assert entries[..n][..n - 1] == entries[..n - 1] && entries[n - 1].InPage(page);
      assert entries[b.start..b.start + b.len] == entries[b.start..b.start + b.len - 1] + [entries[n - 1]];
    } else if b.start + b.len < n {
      StretchIsFilter(entries, n - 1, b, page);
      assert entries[..n][..n - 1] == entries[..n - 1] && !entries[n - 1].InPage(page);
    } else {
      assert forall k :: 0 <= k < n ==> !entries[k].InPage(page);
      assert BucketOk(entries, n - 1, Bucket(0, 0), page);
      StretchIsFilter(entries, n - 1, Bucket(0, 0), page);
      assert entries[..n][..n - 1] == entries[..n - 1] && !entries[n - 1].InPage(page);
    }
  }

  /** The lookup returns exactly the page's entries, for every page of the segment. */
  lemma LookupIsExact(t: Table, pageCount: nat, page: nat)
    requires TableOk(t, pageCount) && t.vmaPage <= page < t.vmaPage + pageCount
    ensures EntriesForPage(t, page) == OfPage(t.entries, page)
  {
    var b := t.buckets[page - t.vmaPage];
    assert BucketOk(t.entries, |t.entries|, t.buckets[page - t.vmaPage], t.vmaPage + (page - t.vmaPage));
    StretchIsFilter(t.entries, |t.entries|, b, page);
    assert t.entries[..|t.entries|] == t.entries;
  }

  // ---- Patching ----

  predicate NoStraddle(entries: seq<Entry>) {
    forall k {:trigger entries[k]} :: 0 <= k < |entries| ==> entries[k].Slot() <= PAGE - 8
  }

  /** Every record lies inside an image of `len` bytes. */
  predicate Fits(entries: seq<Entry>, len: nat) {
    forall k {:trigger entries[k]} :: 0 <= k < |entries| ==> entries[k].offset + 8 <= len
  }

  /** A 64-bit word, least significant byte first. */
  function Le8(w: bv64): (r: Bytes)
    ensures |r| == 8
  {
    [(w & 0xFF) as bv8, ((w >> 8) & 0xFF) as bv8, ((w >> 16) & 0xFF) as bv8, ((w >> 24) & 0xFF) as bv8,
     ((w >> 32) & 0xFF) as bv8, ((w >> 40) & 0xFF) as bv8, ((w >> 48) & 0xFF) as bv8, ((w >> 56) & 0xFF) as bv8]
  }

  /** What a record stores; the sum wraps at 64 bits. */
  function Word(base: bv64, e: Entry): (r: Bytes)
    ensures |r| == 8
  {
    Le8(base + e.addend)
  }

  /** The whole list applied to the whole image. */
  function ApplyAll(image: Bytes, entries: seq<Entry>, base: bv64): (r: Bytes)
    requires Fits(entries, |image|)
    ensures |r| == |image|
  {
    if entries == [] then image
    else
      var e := entries[|entries| - 1];
      Splice(ApplyAll(image, entries[..|entries| - 1], base), e.offset, Word(base, e))
  }

  /** A page's own entries applied to its bytes. */
  function PatchPage(page: Bytes, entries: seq<Entry>, base: bv64): (r: Bytes)
    requires |page| == PAGE && NoStraddle(entries)
    ensures |r| == PAGE
  {
    if entries == [] then page
    else
      var e := entries[|entries| - 1];
      Splice(PatchPage(page, entries[..|entries| - 1], base), e.Slot(), Word(base, e))
  }

  lemma PatchNone(page: Bytes, base: bv64)
    requires |page| == PAGE
    ensures PatchPage(page, [], base) == page
  {
  }

  lemma PatchOneMore(page: Bytes, entries: seq<Entry>, e: Entry, base: bv64)
    requires |page| == PAGE && NoStraddle(entries) && e.Slot() <= PAGE - 8
    ensures NoStraddle(entries + [e])
    ensures PatchPage(page, entries + [e], base) == Splice(PatchPage(page, entries, base), e.Slot(), Word(base, e))
  {
    hide Word, Splice, Entry.Slot;
    var more := entries + [e];
    assert more[..|more| - 1] == entries && more[|more| - 1] == e;
  }

  /** The handler's loop over one page's entries. */
  method ApplyRelocsToPage(t: Table, page: nat, frame: Bytes, base: bv64) returns (r: Bytes)
    requires |frame| == PAGE && NoStraddle(t.entries)
    ensures r == PatchPage(frame, EntriesForPage(t, page), base)
  {
    hide Word, Splice, PatchPage, Entry.Slot;
    var entries := EntriesForPage(t, page);
    assert PatchPage(frame, entries[..0], base) == frame by { PatchNone(frame, base); }
    r := frame;
    for i := 0 to |entries|
      invariant |r| == PAGE && NoStraddle(entries) && NoStraddle(entries[..i])
                  && r == PatchPage(frame, entries[..i], base)
    {
      assert entries[..i + 1] == entries[..i] + [entries[i]];
      PatchOneMore(frame, entries[..i], entries[i], base);
      r := Splice(r, entries[i].Slot(), Word(base, entries[i]));
    }
    assert entries[..|entries|] == entries;
  }

  function PageOf(image: Bytes, page: nat): (r: Bytes)
    requires (page + 1) * PAGE <= |image|
    ensures |r| == PAGE
  {
    image[page * PAGE..(page + 1) * PAGE]
  }

  lemma {:induction false} OfPageKeeps(entries: seq<Entry>, page: nat)
    requires NoStraddle(entries)
    ensures NoStraddle(OfPage(entries, page))
  {
    if entries != [] { OfPageKeeps(entries[..|entries| - 1], page); }
  }

  /** One record written into the image is, on each page, either that record written into the page or
      nothing. */
  lemma PutOnPage(image: Bytes, e: Entry, w: Bytes, page: nat)
    requires (page + 1) * PAGE <= |image| && |w| == 8 && e.offset + 8 <= |image| && !e.Straddles()
    ensures PageOf(Splice(image, e.offset, w), page) == if e.InPage(page) then Splice(PageOf(image, page), e.Slot(), w)
              else PageOf(image, page)
  {
    var left := PageOf(Splice(image, e.offset, w), page);
    var right := if e.InPage(page) then Splice(PageOf(image, page), e.Slot(), w) else PageOf(image, page);
    forall j | 0 <= j < PAGE ensures left[j] == right[j] { WithinPage(e.offset, page, j); }
  }

  lemma WithinPage(offset: nat, page: nat, j: nat)
    requires j < PAGE && offset % PAGE <= PAGE - 8
    ensures offset / PAGE == page ==>
              (offset <= page * PAGE + j < offset + 8 <==> offset % PAGE <= j < offset % PAGE + 8)
    ensures offset / PAGE == page ==> page * PAGE + j - offset == j - offset % PAGE
    ensures offset / PAGE != page ==> !(offset <= page * PAGE + j < offset + 8)
  {
    assert offset == offset / PAGE * PAGE + offset % PAGE;
    if offset / PAGE < page { assert (offset / PAGE + 1) * PAGE <= page * PAGE; }
    if offset / PAGE > page { assert (page + 1) * PAGE <= offset / PAGE * PAGE; }
  }

  /** Patching a page with its own entries gives that page of the eagerly relocated image. */
  lemma {:induction false} PatchIsEagerPage(image: Bytes, entries: seq<Entry>, base: bv64, page: nat)
    requires (page + 1) * PAGE <= |image|
    requires Fits(entries, |image|) && NoStraddle(entries)
    ensures NoStraddle(OfPage(entries, page))
    ensures PageOf(ApplyAll(image, entries, base), page) == PatchPage(PageOf(image, page), OfPage(entries, page), base)
  {
    hide Word, Splice, PageOf;
    OfPageKeeps(entries, page);
    if entries != [] {
      var n := |entries| - 1;
      var e := entries[n];
      PatchIsEagerPage(image, entries[..n], base, page);
      PutOnPage(ApplyAll(image, entries[..n], base), e, Word(base, e), page);
      if e.InPage(page) {
        PatchOneMore(PageOf(image, page), OfPage(entries[..n], page), e, base);
        assert OfPage(entries, page) == OfPage(entries[..n], page) + [e];
      } else {
        assert OfPage(entries, page) == OfPage(entries[..n], page);
      }
    }
  }

  // ---- Any order of faults ----

  function WithPage(image: Bytes, page: nat, bytes: Bytes): Bytes
    requires (page + 1) * PAGE <= |image| && |bytes| == PAGE
  {
    Splice(image, page * PAGE, bytes)
  }

  predicate PagesIn(faults: seq<nat>, len: nat) {
    forall i {:trigger faults[i]} :: 0 <= i < |faults| ==> (faults[i] + 1) * PAGE <= len
  }

  /** The image after faulting the pages of `faults` in that order: each brings in its page of the file,
      patched. */
  function Faulted(image: Bytes, t: Table, base: bv64, faults: seq<nat>): (r: Bytes)
    requires NoStraddle(t.entries) && PagesIn(faults, |image|)
    ensures |r| == |image|
  {
    if faults == [] then image
    else
      var n := |faults| - 1;
      WithPage(Faulted(image, t, base, faults[..n]), faults[n],
        PatchPage(PageOf(image, faults[n]), EntriesForPage(t, faults[n]), base))
  }

  lemma PageAfter(image: Bytes, page: nat, bytes: Bytes, other: nat)
    requires (page + 1) * PAGE <= |image| && (other + 1) * PAGE <= |image| && |bytes| == PAGE
    ensures PageOf(WithPage(image, page, bytes), other) == if other == page then bytes else PageOf(image, other)
  {
    var left := PageOf(WithPage(image, page, bytes), other);
    var right := if other == page then bytes else PageOf(image, other);
    if other < page { assert (other + 1) * PAGE <= page * PAGE; }
    if other > page { assert (page + 1) * PAGE <= other * PAGE; }
    assert forall j :: 0 <= j < PAGE ==> left[j] == right[j];
  }

  lemma TableFacts(t: Table, pageCount: nat)
    requires TableOk(t, pageCount)
    ensures NoStraddle(t.entries)
  {
  }

  /** Whatever the order and however often, a page that has faulted is the eager image's and one that
      has not is the file's. */
  lemma {:induction false} FaultOrderDoesNotMatter(image: Bytes, t: Table, pageCount: nat, base: bv64, faults: seq<nat>,
                                                   page: nat)
    requires TableOk(t, pageCount) && (page + 1) * PAGE <= |image| && NoStraddle(t.entries)
    requires Fits(t.entries, |image|) && PagesIn(faults, |image|)
    requires forall i :: 0 <= i < |faults| ==> t.vmaPage <= faults[i] < t.vmaPage + pageCount
    ensures PageOf(Faulted(image, t, base, faults), page) == if page in faults then
              PageOf(ApplyAll(image, t.entries, base), page) else PageOf(image, page)
  {
    hide Word, Splice, PageOf, PatchPage, ApplyAll, EntriesForPage, OfPage, TableOk, WithPage;
    TableFacts(t, pageCount);
    if faults != [] {
      var n := |faults| - 1;
      var p := faults[n];
      FaultOrderDoesNotMatter(image, t, pageCount, base, faults[..n], page);
      assert faults == faults[..n] + [p];
      LookupIsExact(t, pageCount, p);
      PatchIsEagerPage(image, t.entries, base, p);
      PageAfter(Faulted(image, t, base, faults[..n]), p, PatchPage(PageOf(image, p), EntriesForPage(t, p), base), page);
    }
  }
}
