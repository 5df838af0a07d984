/** One inode's page cache, with prefetches that may still be in flight: reads and writes as whole
    operations on a plain array of file pages. */
module PageCache {
  import opened Collections
  import opened Vmas

  type Page = seq<bv8>

  const RA_INIT_PAGES: nat := 4
  const RA_MAX_PAGES: nat := 128
  const RA_WHOLE_FILE_MAX_PAGES: nat := 512
  const RA_NO_PREV: nat := 0xFFFF_FFFF_FFFF_FFFF

  function Zeros(n: nat): (r: Page)
    ensures |r| == n && forall i :: 0 <= i < n ==> r[i] == 0
  {
    seq(n, _ => 0)
  }

  function Min(a: nat, b: nat): nat { if a < b then a else b }

  function Max(a: nat, b: nat): nat { if a < b then b else a }

  // ---- Prefetches ----

  /** A device read for the pages from `pageOffset` of a window on. */
  datatype Run = Run(pageOffset: nat, buffer: seq<bv8>) {
    predicate Has(j: nat) { pageOffset <= j && j - pageOffset < |buffer| / PAGE }
  }

  datatype Prefetch = Prefetch(id: nat, first: nat, len: nat, runs: seq<Run>) {
    predicate Covers(n: nat) { first <= n < first + len }
  }

  /** What the window's `j`-th page is filled with: the first run that has it, or zeros. */
  function PageFrom(runs: seq<Run>, j: nat): Page {
    if runs == [] then Zeros(PAGE)
    else if runs[0].Has(j) then RunPage(runs[0], j)
    else PageFrom(runs[1..], j)
  }

  function RunPage(r: Run, j: nat): (p: Page)
    requires r.Has(j)
    ensures |p| == PAGE
  {
    r.buffer[(j - r.pageOffset) * PAGE..(j - r.pageOffset + 1) * PAGE]
  }

  /** The copy loop: search for the run, copy what its buffer has, zero the rest of the frame. */
  method CopyPrefetched(runs: seq<Run>, j: nat) returns (page: Page)
    ensures page == PageFrom(runs, j)
  {
    var i := 0;
    while i < |runs| && !runs[i].Has(j)
      invariant i <= |runs| && PageFrom(runs, j) == PageFrom(runs[i..], j)
    {
      assert runs[i..][1..] == runs[i + 1..];
      i := i + 1;
    }
    if i < |runs| {
      var at := (j - runs[i].pageOffset) * PAGE;
      var copy := Min(|runs[i].buffer| - at, PAGE);
      assert copy == PAGE && runs[i..][0] == runs[i];
      page := runs[i].buffer[at..at + copy] + Zeros(PAGE - copy);
    } else {
      page := Zeros(PAGE);
    }
  }

  // ---- Readahead ----

  datatype Readahead = Readahead(prevLastPage: nat, windowSize: nat)

  predicate Sequential(ra: Readahead, startPage: nat) {
    ra.prevLastPage == RA_NO_PREV || startPage == (ra.prevLastPage + 1) % (RA_NO_PREV + 1)
  }

  /** The last page to look at: the request's own unless the read is sequential. */
  function ReadEnd(ra: Readahead, startPage: nat, endPage: nat, fileSizePages: nat): nat {
    if !Sequential(ra, startPage) then endPage
    else if ra.prevLastPage == RA_NO_PREV && 0 < fileSizePages <= RA_WHOLE_FILE_MAX_PAGES then fileSizePages - 1
    else
      var clipped := Min(endPage + 1 + (if ra.windowSize == 0 then RA_INIT_PAGES else ra.windowSize), fileSizePages);
      Max(if clipped == 0 then 0 else clipped - 1, endPage)
  }

  /** The window doubles from 4 up to 128 pages while reads are sequential and miss. */
  function NextReadahead(ra: Readahead, startPage: nat, endPage: nat, didIo: bool): (r: Readahead) {
    var window := if Sequential(ra, startPage) then ra.windowSize else 0;
    var wider := Min(if window == 0 then RA_INIT_PAGES else window * 2, RA_MAX_PAGES);
    Readahead(endPage, if Sequential(ra, startPage) && didIo then wider else window)
  }

  datatype Cached = Cached(data: Page, dirty: bool)

  class Inode {
    /** The filesystem's own copy: page `n`, zeros in holes and past the end. */
    var stored: nat -> Page
    var pages: map<nat, Cached>
    var inFlight: map<nat, Prefetch>
    var dirtyKeys: seq<nat>
    var nextId: nat

    /** Cached bytes if present, else the filesystem's. */
    ghost function View(n: nat): Page
      reads this`pages, this`stored
    {
      ViewOf(pages, stored, n)
    }

    ghost predicate Valid()
      reads this
    {
      StoredOk(stored) && PagesOk(pages) && FlightOk(inFlight, stored, pages.Keys, nextId)
    }

    /** As `Valid`, but what is in flight may be anything. */
    ghost predicate Shaped()
      reads this
    {
      StoredOk(stored) && PagesOk(pages) && FlightShape(inFlight, nextId)
    }

    constructor (stored: nat -> Page)
      requires StoredOk(stored)
      ensures Valid() && this.stored == stored && pages == map[] && inFlight == map[] && dirtyKeys == [] && nextId == 0
    {
      this.stored, pages, inFlight, dirtyKeys, nextId := stored, map[], map[], [], 0;
    }

    // ---- The filesystem driver ----

    /** Reads up to a page; past `valid` bytes the buffer is whatever it was. */
    method DriverFill(n: nat, garbage: Page) returns (r: Option<(Page, nat)>)
      requires Valid() && |garbage| == PAGE
      ensures r.Some? ==> |r.value.0| == PAGE && r.value.1 <= PAGE
      ensures r.Some? ==> stored(n) == r.value.0[..r.value.1] + Zeros(PAGE - r.value.1)
    {
      var ok: bool := *;
      r := if ok then Some((stored(n), PAGE)) else None;
      if ok {
        assert stored(n)[..PAGE] == stored(n);
        var valid: int := *;
        if 0 <= valid <= PAGE && |stored(n)| == PAGE && stored(n) == stored(n)[..valid] + Zeros(PAGE - valid) {
          r := Some((stored(n)[..valid] + garbage[valid..], valid));
          assert (stored(n)[..valid] + garbage[valid..])[..valid] == stored(n)[..valid];
        }
      }
    }

    /** Fills one page's buffer and zeroes what the driver did not. */
    method FillPage(n: nat, garbage: Page) returns (r: Option<Page>)
      requires Valid() && |garbage| == PAGE
      ensures r.Some? ==> r.value == stored(n)
    {
      var filled := DriverFill(n, garbage);
      if filled.None? {
        return None;
      }
      var (buf, valid) := filled.value;
      r := Some(if valid < PAGE then buf[..valid] + Zeros(PAGE - valid) else buf);
    }

    /** Any bytes for the range that the filesystem's pages extend with zeros. */
    method DriverBulk(start: nat, count: nat) returns (r: Option<seq<bv8>>)
      requires Valid()
      ensures r.Some? ==> BulkOk(stored, start, count, r.value)
    {
      var ok: bool := *;
      var data: seq<bv8> := *;
      r := if ok && BulkOk(stored, start, count, data) then Some(data) else None;
    }

    /** An error, a refusal, or a plan for some of the pages asked for. */
    method DriverPrefetch(start: nat, count: nat) returns (failed: bool, plan: Option<(nat, seq<Run>)>)
      requires Valid()
      ensures plan.Some? ==> !failed && 0 < plan.value.0 <= count && PlanOk(stored, start, plan.value.0, plan.value.1)
    {
      failed := *;
      plan := None;
      var pages: int := *;
      var runs: seq<Run> := *;
      if !failed && 0 < pages <= count && PlanOk(stored, start, pages, runs) {
        var n: nat := pages;
        plan := Some((n, runs));
      }
    }

    // ---- Filling ----

    /** Puts a page in unless one is there already. */
    method OrInsert(n: nat, data: Page)
      requires PagesOk(pages) && |data| == PAGE
      modifies this`pages
      ensures PagesOk(pages) && n in pages
      ensures pages == if n in old(pages) then old(pages) else old(pages)[n := Cached(data, false)]
    {
      if n !in pages {
        pages := pages[n := Cached(data, false)];
      }
    }

    /** The first joiner of a prefetch waits for its reads, copies the buffers into pages, and takes
        the handle out; a failed read or a lack of frames only takes it out. */
    method FinalizePrefetch(n: nat) returns (good: bool)
      requires Shaped() && n in inFlight
      modifies this`pages, this`inFlight
      ensures Shaped() && inFlight == RemoveHandle(old(inFlight), old(inFlight)[n])
      ensures pages == if good then Deliver(old(pages), old(inFlight)[n], old(inFlight)[n].len) else old(pages)
      ensures old(Valid()) ==> Valid() && Filled(old(pages), pages, stored)
    {
      hide PageFrom, FlightOk, FlightShape, Filled, StoredOk, Holds, PagesOk;
      var h := inFlight[n];
      good := *;
      if good {
        for j := 0 to h.len
          invariant PagesOk(pages) && inFlight == old(inFlight) && pages == Deliver(old(pages), h, j)
        {
          var page := CopyPrefetched(h.runs, j);
          PageFromSize(h.runs, j);
          OrInsert(h.first + j, page);
        }
      }
      RemoveShape(inFlight, h, nextId);
      if old(Valid()) {
        DeliverFilled(inFlight, stored, old(pages), pages, n, good, nextId);
      }
      inFlight := RemoveHandle(inFlight, h);
    }

    /** A cached page, or the page filled under the registry's protocol. With `zero` the caller is
        about to replace every byte, so nothing is read. */
    method GetOrFill(n: nat, zero: bool, garbage: Page) returns (ok: bool)
      requires Valid() && |garbage| == PAGE
      modifies this`pages, this`inFlight
      ensures Valid() && (ok ==> n in pages)
      ensures !ok || !zero ==> Filled(old(pages), pages, stored)
      ensures ok && zero ==>
                Filled(old(pages), pages, stored)
                || (n !in old(pages) && n in pages && pages[n] == Cached(Zeros(PAGE), false)
                && Filled(old(pages), pages - {n}, stored))
    {
      hide FlightOk, Filled, StoredOk, PagesOk;
      FilledNone(pages, stored);
      if n in pages {
        return true;
      }
      while n in inFlight
        invariant Valid() && Filled(old(pages), pages, stored) && n !in pages
        decreases |inFlight|
      {
        ghost var pages1 := pages;
        InFlightFacts(inFlight, stored, pages.Keys, nextId, n);
        OkShape(inFlight, stored, pages.Keys, nextId);
        RemoveShrinks(inFlight, n);
        var _ := FinalizePrefetch(n);
        FilledTwice(old(pages), pages1, pages, stored);
        if n in pages {
          return true;
        }
      }
      var framed: bool := *;
      if !framed {
        return false;
      }
      if zero {
        assert pages[n := Cached(Zeros(PAGE), false)] - {n} == pages;
        PagePut(pages, n, Cached(Zeros(PAGE), false));
        FlightGrows(inFlight, stored, pages.Keys, pages[n := Cached(Zeros(PAGE), false)].Keys, nextId);
        FilledAbsent(old(pages), pages, stored, n);
        pages := pages[n := Cached(Zeros(PAGE), false)];
        return true;
      }
      var page := FillPage(n, garbage);
      if page.None? {
        return false;
      }
      StoredPage(stored, n);
      PagePut(pages, n, Cached(page.value, false));
      FlightGrows(inFlight, stored, pages.Keys, pages[n := Cached(page.value, false)].Keys, nextId);
      FilledMore(old(pages), pages, stored, n);
      pages := pages[n := Cached(page.value, false)];
      ok := true;
    }

    /** One driver call for a whole range, or nothing. */
    method BulkFill(start: nat, count: nat) returns (ok: bool)
      requires Valid() && count > 0
      modifies this`pages, this`inFlight
      ensures Valid() && Filled(old(pages), pages, stored)
      ensures ok ==> forall n :: start <= n < start + count ==> n in pages
    {
      hide FlightOk, Filled, StoredOk, PagesOk;
      FilledNone(pages, stored);
      while true
        invariant Valid() && Filled(old(pages), pages, stored)
        decreases |inFlight|
      {
        if forall n :: start <= n < start + count ==> n in pages {
          return true;
        }
        var conflict := FirstBusy(start, count);
        if conflict.None? {
          break;
        }
        ghost var pages1 := pages;
        InFlightFacts(inFlight, stored, pages.Keys, nextId, conflict.value);
        OkShape(inFlight, stored, pages.Keys, nextId);
        RemoveShrinks(inFlight, conflict.value);
        var _ := FinalizePrefetch(conflict.value);
        FilledTwice(old(pages), pages1, pages, stored);
      }
      var framed: bool := *;
      if !framed {
        return false;
      }
      var data := DriverBulk(start, count);
      if data.None? {
        return false;
      }
      ghost var pages1 := pages;
      InsertBulk(start, count, data.value);
      FilledTwice(old(pages), pages1, pages, stored);
      ok := true;
    }

    method InsertBulk(start: nat, count: nat, data: seq<bv8>)
      requires Valid() && BulkOk(stored, start, count, data)
      modifies this`pages
      ensures Valid() && Filled(old(pages), pages, stored)
      ensures forall n :: start <= n < start + count ==> n in pages
    {
      hide FlightOk, Filled, StoredOk, PagesOk, BulkOk;
      FilledNone(pages, stored);
      for i := 0 to count
        invariant Valid() && Filled(old(pages), pages, stored)
        invariant forall n :: start <= n < start + i ==> n in pages
      {
        var at := i * PAGE;
        var copy := Min(if at < |data| then |data| - at else 0, PAGE);
        var page := (if copy > 0 then data[at..at + copy] else []) + Zeros(PAGE - copy);
        StoredPage(stored, start + i);
        BulkPage(stored, start, count, data, i, page);
        FilledMore(old(pages), pages, stored, start + i);
        FlightGrows(inFlight, stored, pages.Keys, pages.Keys + {start + i}, nextId);
        assert pages[start + i := Cached(page, false)].Keys == pages.Keys + {start + i};
        OrInsert(start + i, page);
      }
    }

    method FirstBusy(start: nat, count: nat) returns (r: Option<nat>)
      ensures r.Some? ==> start <= r.value < start + count && r.value in inFlight
      ensures r.None? ==> forall n :: start <= n < start + count ==> n !in inFlight
    {
      for i := start to start + count
        invariant forall n :: start <= n < i ==> n !in inFlight
      {
        if i in inFlight {
          return Some(i);
        }
      }
      r := None;
    }

    /** Installs a prefetch at every page of its window, unless one is busy. */
    method IssuePrefetch(start: nat, count: nat, runs: seq<Run>) returns (installed: bool)
      requires Valid() && count > 0 && PlanOk(stored, start, count, runs)
      modifies this`inFlight, this`nextId
      ensures Valid()
      ensures installed <==> forall n :: start <= n < start + count ==> n !in old(inFlight)
      ensures inFlight == if installed then InstallAll(old(inFlight), Prefetch(old(nextId), start, count, runs), count)
                else old(inFlight)
    {
      hide FlightOk, StoredOk, PagesOk, PlanOk, PageFrom;
      var conflict := FirstBusy(start, count);
      if conflict.Some? {
        return false;
      }
      var h := Prefetch(nextId, start, count, runs);
      InstallKeeps(inFlight, stored, pages.Keys, h) by { PlanHolds(stored, pages.Keys, h); }
      inFlight := InstallAll(inFlight, h, count);
      nextId := nextId + 1;
      installed := true;
    }

    // ---- Reading ----

    /** The maximal runs of uncached pages in [start, last]. */
    method UncachedRanges(start: nat, last: nat) returns (ranges: seq<(nat, nat)>)
      requires start <= last
      ensures RangesOk(ranges, start, last + 1) && forall n :: start <= n <= last ==>
                (n !in pages <==> InRanges(ranges, n))
    {
      hide Scan;
      ranges := [];
      var from: Option<nat> := None;
      ScanStart(start, pages);
      for n := start to last + 1
        invariant Scan(ranges, from, start, n, pages)
      {
        ScanStep(ranges, from, start, n, pages);
        if n !in pages {
          if from.None? {
            from := Some(n);
          }
        } else if from.Some? {
          ranges, from := ranges + [(from.value, n - 1)], None;
        }
      }
      ScanEnd(ranges, from, start, last, pages);
      if from.Some? {
        ranges := ranges + [(from.value, last)];
      }
    }

    /** Submits readahead for the windows past the request, trimmed to what is not already in flight;
        windows the driver would not take are returned for a synchronous fill. */
    method SubmitWindows(ranges: seq<(nat, nat)>, endPage: nat) returns (deferred: seq<(nat, nat)>)
      requires Valid()
      modifies this`inFlight, this`nextId
      ensures Valid() && forall w :: w in deferred ==> w.1 > 0
    {
      hide FlightOk, StoredOk, PagesOk, PlanOk;
      deferred := [];
      for r := 0 to |ranges|
        invariant Valid() && forall w :: w in deferred ==> w.1 > 0
      {
        if ranges[r].1 > endPage {
          var start := NarrowWindow(endPage + 1, ranges[r].1);
          if start.Some? {
            var count := ranges[r].1 - start.value + 1;
            var failed, plan := DriverPrefetch(start.value, count);
            if plan.Some? {
              var _ := IssuePrefetch(start.value, plan.value.0, plan.value.1);
            } else {
              deferred := deferred + [(start.value, count)];
            }
          }
        }
      }
    }

    /** The longest free tail of [start, last]; none if the last page is busy. */
    method NarrowWindow(start: nat, last: nat) returns (r: Option<nat>)
      requires start <= last
      ensures r.None? <==> last in inFlight
      ensures r.Some? ==> start <= r.value <= last && forall n :: r.value <= n <= last ==> n !in inFlight
      ensures r.Some? && r.value > start ==> r.value - 1 in inFlight
    {
      var n := last + 1;
      while n > start && n - 1 !in inFlight
        invariant start <= n <= last + 1 && forall m :: n <= m <= last ==> m !in inFlight
      {
        n := n - 1;
      }
      r := if n == last + 1 then None else Some(n);
    }

    /** Fills the part of each run that the request needs, page by page where the driver cannot do it
        in one call. */
    method FillRequested(ranges: seq<(nat, nat)>, endPage: nat, garbage: Page) returns (ok: bool)
      requires Valid() && |garbage| == PAGE
      modifies this`pages, this`inFlight
      ensures Valid() && Filled(old(pages), pages, stored)
    {
      hide FlightOk, StoredOk, PagesOk, Filled;
      FilledNone(pages, stored);
      for r := 0 to |ranges|
        invariant Valid() && Filled(old(pages), pages, stored)
      {
        var syncEnd := Min(ranges[r].1, endPage);
        if ranges[r].0 <= syncEnd {
          ghost var pages1 := pages;
          var bulk := BulkFill(ranges[r].0, syncEnd - ranges[r].0 + 1);
          FilledTwice(old(pages), pages1, pages, stored);
          if !bulk {
            for n := ranges[r].0 to syncEnd + 1
              invariant Valid() && Filled(old(pages), pages, stored)
            {
              ghost var pages2 := pages;
              var one := GetOrFill(n, false, garbage);
              FilledTwice(old(pages), pages2, pages, stored);
              if !one {
                return false;
              }
            }
          }
        }
      }
      ok := true;
    }

    method FillDeferred(deferred: seq<(nat, nat)>)
      requires Valid() && forall w :: w in deferred ==> w.1 > 0
      modifies this`pages, this`inFlight
      ensures Valid() && Filled(old(pages), pages, stored)
    {
      hide FlightOk, StoredOk, PagesOk, Filled;
      FilledNone(pages, stored);
      for r := 0 to |deferred|
        invariant Valid() && Filled(old(pages), pages, stored)
      {
        ghost var pages1 := pages;
        assert deferred[r] in deferred;
        var _ := BulkFill(deferred[r].0, deferred[r].1);
        FilledTwice(old(pages), pages1, pages, stored);
      }
    }

    /** Hands out the request's bytes page by page. */
    method Emit(offset: nat, count: nat, garbage: Page) returns (out: Option<seq<bv8>>)
      requires Valid() && |garbage| == PAGE && count > 0
      modifies this`pages, this`inFlight
      ensures Valid() && Filled(old(pages), pages, stored)
      ensures out.Some? ==> |out.value| == count && Bytes(old(pages), stored, offset, out.value)
    {
      hide FlightOk, StoredOk, PagesOk, Filled, Bytes;
      FilledNone(pages, stored);
      var startPage, endPage := offset / PAGE, (offset + count - 1) / PAGE;
      var bytes := [];
      NoBytes(pages, stored, offset);
      for n := startPage to endPage + 1
        invariant Valid() && Filled(old(pages), pages, stored) && Bytes(old(pages), stored, offset, bytes)
        invariant |bytes| == if n == startPage then 0 else if n == endPage + 1 then count else n * PAGE - offset
      {
        ghost var pages1 := pages;
        var ok := GetOrFill(n, false, garbage);
        FilledTwice(old(pages), pages1, pages, stored);
        if !ok {
          return None;
        }
        FilledView(old(pages), pages, stored, n);
        PageLength(pages, n);
        var from := if n == startPage then offset - n * PAGE else 0;
        var upto := Min(if n == endPage then offset + count - n * PAGE else PAGE, PAGE);
        PageSpan(offset, count, n);
        TakeBytes(old(pages), stored, offset, bytes, n, from, upto);
        bytes := bytes + pages[n].data[from..upto];
      }
      out := Some(bytes);
    }

    /** A successful read is exactly the view's bytes, whatever was cached, in flight, or refused by
        the driver on the way; and no read, successful or not, changes the view. */
    method Read(ra: Readahead, fileSize: nat, offset: nat, count: nat, garbage: Page)
        returns (out: Option<seq<bv8>>, ra': Readahead)
      requires Valid() && |garbage| == PAGE
      modifies this`pages, this`inFlight, this`nextId
      ensures Valid() && Filled(old(pages), pages, stored) && (forall n :: View(n) == old(View(n)))
      ensures out.Some? ==> |out.value| == count && Bytes(old(pages), stored, offset, out.value)
      ensures count > 0 && out.Some? ==>
                ra'.prevLastPage == (offset + count - 1) / PAGE && ra'.windowSize <= Max(ra.windowSize, RA_MAX_PAGES)
    {
      hide FlightOk, StoredOk, PagesOk, Filled, Bytes, RangesOk;
      FilledNone(pages, stored);
      ra' := ra;
      if count == 0 {
        NoBytes(pages, stored, offset);
        FilledViews(old(pages), pages, stored);
        return Some([]), ra;
      }
      var startPage, endPage := offset / PAGE, (offset + count - 1) / PAGE;
      var readEnd := ReadEnd(ra, startPage, endPage, (fileSize + PAGE - 1) / PAGE);
      // A file that ends before the request has no window: then only the request's pages are tried.
      var ranges := [];
      if startPage <= readEnd {
        ranges := UncachedRanges(startPage, readEnd);
      }
      var deferred := SubmitWindows(ranges, endPage);
      var ok := FillRequested(ranges, endPage, garbage);
      if ok {
        ghost var pages1 := pages;
        FillDeferred(deferred);
        FilledTwice(old(pages), pages1, pages, stored);
        ra' := NextReadahead(ra, startPage, endPage, ranges != []);
        ghost var pages2 := pages;
        out := EmitFrom(old(pages), offset, count, garbage);
      } else {
        out := None;
      }
      FilledViews(old(pages), pages, stored);
    }

    method EmitFrom(ghost pages0: map<nat, Cached>, offset: nat, count: nat, garbage: Page)
        returns (out: Option<seq<bv8>>)
      requires Valid() && |garbage| == PAGE && count > 0 && Filled(pages0, pages, stored)
      modifies this`pages, this`inFlight
      ensures Valid() && Filled(pages0, pages, stored)
      ensures out.Some? ==> |out.value| == count && Bytes(pages0, stored, offset, out.value)
    {
      hide FlightOk, StoredOk, PagesOk, Filled, Bytes;
      FilledViews(pages0, pages, stored);
      out := Emit(offset, count, garbage);
      FilledTwice(pages0, old(pages), pages, stored);
      if out.Some? {
        SameBytes(pages0, old(pages), stored, offset, out.value);
      }
    }

    // ---- Writing ----

    /** Marks the page, and lists it once for the next flush. */
    method MarkDirty(n: nat)
      requires Valid()
      modifies this`pages, this`dirtyKeys
      ensures Valid()
      ensures pages == if n in old(pages) then old(pages)[n := old(pages)[n].(dirty := true)] else old(pages)
      ensures dirtyKeys == if n in old(dirtyKeys) then old(dirtyKeys) else old(dirtyKeys) + [n]
    {
      hide FlightOk;
      if n in pages {
        assert pages[n := pages[n].(dirty := true)].Keys == pages.Keys;
        pages := pages[n := pages[n].(dirty := true)];
      }
      if n !in dirtyKeys {
        dirtyKeys := dirtyKeys + [n];
      }
    }

    /** Copies the caller's bytes into one page. A fault in the caller's buffer stops the copy after
        `copied` bytes, which stay in the page; a page that was to be replaced whole and was not cached
        holds zeros after them. Nothing is marked dirty. */
    method WriteOnePage(n: nat, from: nat, bytes: seq<bv8>, garbage: Page) returns (ok: bool, copied: nat)
      requires Valid() && |garbage| == PAGE && from + |bytes| <= PAGE
      modifies this`pages, this`inFlight
      ensures Valid() && (ok ==> n in pages) && SameDirty(old(pages), pages)
      ensures forall m: nat :: m != n ==> ViewOf(pages, stored, m) == ViewOf(old(pages), stored, m)
      ensures copied <= |bytes| && (ok ==> copied == |bytes|) && (!ok && |bytes| > 0 ==> copied < |bytes|)
      ensures PageCopied(old(pages), pages, stored, n, from, bytes[..copied])
                || (!ok && |bytes| == PAGE && ZeroCopied(old(pages), pages, n, bytes[..copied]))
    {
      hide FlightOk, StoredOk, PagesOk, Filled;
      var whole := |bytes| == PAGE;
      var got := GetOrFill(n, whole, garbage);
      OldLength(old(pages), stored, n);
      FilledDirty(old(pages), pages, stored, n);
      if !got {
        FilledViews(old(pages), pages, stored);
        NothingCopied(old(pages), pages, stored, n, from, bytes);
        return false, 0;
      }
      FilledBut(old(pages), pages, stored, n);
      PageLength(pages, n);
      ok, copied := UserCopy(|bytes|);
      var data := Splice(pages[n].data, from, bytes[..copied]);
      PagePut(pages, n, pages[n].(data := data));
      assert pages[n := pages[n].(data := data)].Keys == pages.Keys;
      PartCopied(old(pages), pages, pages[n := pages[n].(data := data)], stored, n, from, bytes, copied);
      pages := pages[n := pages[n].(data := data)];
    }

    /** Byte by byte from user space: all of it, or as many bytes as came before a fault. */
    method UserCopy(len: nat) returns (ok: bool, copied: nat)
      ensures copied <= len && (ok <==> copied == len)
    {
      var k: int := *;
      copied := if 0 <= k < len then k else len;
      ok := copied == len;
    }

    /** The pages' bytes first, then the size, then the dirty marks. On failure some prefix of the bytes is
        in the cache and nothing has become dirty. */
    method Write(offset: nat, data: seq<bv8>, garbage: Page) returns (ok: bool)
      requires Valid() && |garbage| == PAGE
      modifies this`pages, this`inFlight, this`dirtyKeys
      ensures Valid()
      ensures ok ==> Written(old(pages), pages, stored, offset, data)
      ensures ok && data != [] ==>
                forall n :: offset / PAGE <= n <= (offset + |data| - 1) / PAGE ==>
                    n in pages && pages[n].dirty && n in dirtyKeys
      ensures !ok ==> exists done: nat :: done <= |data| && WrittenBut(old(pages), pages, stored, offset, data[..done])
      ensures !ok ==> SameDirty(old(pages), pages) && dirtyKeys == old(dirtyKeys)
    {
      hide FlightOk, StoredOk, PagesOk, Written, WrittenBut, SameDirty;
      WrittenNone(pages, stored, offset);
      assert data[..0] == [];
      if data == [] {
        return true;
      }
      var done := WritePages(offset, data, garbage);
      if done < |data| {
        return false;
      }
      assert data[..done] == data;
      WrittenWeaken(old(pages), pages, stored, offset, data);
      var sized: bool := *;
      if !sized {
        return false;
      }
      var startPage, endPage := offset / PAGE, (offset + |data| - 1) / PAGE;
      ghost var pages1 := pages;
      for n := startPage to endPage + 1
        invariant Valid() && pages.Keys == pages1.Keys && (forall m :: m in pages1 ==> pages[m].data == pages1[m].data)
        invariant forall m :: startPage <= m < n ==> m in pages && pages[m].dirty && m in dirtyKeys
      {
        MarkDirty(n);
      }
      WrittenSame(old(pages), pages1, pages, stored, offset, data);
      ok := true;
    }

    /** Returns how many of the bytes were written: all of them, or those before the one that failed. */
    method WritePages(offset: nat, data: seq<bv8>, garbage: Page) returns (done: nat)
      requires Valid() && |garbage| == PAGE && data != []
      modifies this`pages, this`inFlight
      ensures Valid() && done <= |data|
                && (done < |data| ==> WrittenBut(old(pages), pages, stored, offset, data[..done]))
      ensures SameDirty(old(pages), pages)
      ensures done == |data| ==> Written(old(pages), pages, stored, offset, data)
      ensures done == |data| ==> forall n :: offset / PAGE <= n <= (offset + |data| - 1) / PAGE ==> n in pages
    {
      hide FlightOk, StoredOk, PagesOk, Written, WrittenBut, Splice, SameDirty, PageCopied, ZeroCopied;
      var startPage, endPage := offset / PAGE, (offset + |data| - 1) / PAGE;
      done := 0;
      OldLengths(pages, stored);
      WrittenNone(pages, stored, offset);
      SameDirtyNone(pages);
      assert data[..0] == [];
      for n := startPage to endPage + 1
        invariant Valid() && done <= |data| && Written(old(pages), pages, stored, offset, data[..done])
        invariant done == if n == startPage then 0 else if n == endPage + 1 then |data| else n * PAGE - offset
        invariant (forall m :: startPage <= m < n ==> m in pages) && SameDirty(old(pages), pages)
      {
        var from := if n == startPage then offset - n * PAGE else 0;
        var upto := if n == endPage then offset + |data| - n * PAGE else PAGE;
        PageSpan(offset, |data|, n);
        var bytes := data[done..done + (upto - from)];
        ghost var before := pages;
        var ok, copied := WriteOnePage(n, from, bytes, garbage);
        SameDirtyTwice(old(pages), before, pages);
        PrefixGrows(data, done, upto - from, copied);
        WrittenPart(old(pages), before, pages, stored, offset, data[..done], n, from, bytes, copied, ok);
        done := done + copied;
        if !ok {
          return;
        }
      }
      assert data[..done] == data;
    }

    /** The driver takes every listed page and they become clean; or it fails, having stored any of them, and
        they stay dirty and listed. Keys without a page are not offered, and stay listed. */
    method FlushDirtyBulk() returns (ok: bool)
      requires Valid()
      modifies this`pages, this`stored, this`dirtyKeys
      ensures Valid() && (forall n :: View(n) == old(View(n))) && pages.Keys == old(pages).Keys
      ensures !ok ==> pages == old(pages) && dirtyKeys == old(dirtyKeys)
      ensures forall n: nat {:trigger stored(n)} ::
                || stored(n) == old(stored)(n)
                || (n in old(dirtyKeys) && n in old(pages) && stored(n) == old(pages)[n].data)
      ensures ok ==> forall n :: n in old(dirtyKeys) && n in pages ==>
                !pages[n].dirty && stored(n) == pages[n].data && n !in dirtyKeys
      ensures ok ==> forall n :: n in pages && n !in old(dirtyKeys) ==> pages[n] == old(pages)[n]
    {
      hide FlightOk, StoredOk, PagesOk;
      if forall n :: n in dirtyKeys ==> n !in pages {
        return true;
      }
      ok := *;
      var listed, was, home := dirtyKeys, pages, stored;
      var landed: set<nat> := *;
      stored := (n: nat) => if n in listed && n in was && (ok || n in landed) then was[n].data else home(n);
      FlushHome(inFlight, home, stored, pages, nextId);
      if !ok {
        return;
      }
      pages := map n | n in was :: if n in listed then was[n].(dirty := false) else was[n];
      assert pages.Keys == was.Keys;
      FlushedSizes(was, pages);
      dirtyKeys := Unlisted(listed, was);
    }

    // ---- Truncating ----

    method InvalidateFrom(from: nat)
      modifies this`pages, this`dirtyKeys
      ensures forall n :: n in pages <==> n in old(pages) && n < from
      ensures forall n :: n in pages ==> pages[n] == old(pages)[n]
      ensures forall n :: n in dirtyKeys <==> n in old(dirtyKeys) && n < from
    {
      pages := map n | n in pages && n < from :: pages[n];
      dirtyKeys := KeysBelow(dirtyKeys, from);
    }

    /** Zeroes the cached last page past `size`, without marking it dirty. */
    method ZeroTail(size: nat)
      requires PagesOk(pages)
      modifies this`pages
      ensures PagesOk(pages) && pages.Keys == old(pages).Keys
      ensures forall n {:trigger pages[n]} :: n in pages ==>
                pages[n] == if n == size / PAGE && size % PAGE != 0
                            then old(pages)[n].(data := old(pages)[n].data[..size % PAGE] + Zeros(PAGE - size % PAGE))
                              else old(pages)[n]
    {
      var offset, n := size % PAGE, size / PAGE;
      if offset == 0 {
        return;
      }
      if n in pages {
        pages := pages[n := pages[n].(data := pages[n].data[..offset] + Zeros(PAGE - offset))];
      }
    }

    /** The cache's side of a truncate, with the filesystem left in state `after`: nothing cached at or
        past the cut, zeros past the size in the last page, everything below untouched. Prefetches in
        flight are left alone. */
    method Truncate(size: nat, after: nat -> Page)
      requires Valid() && StoredOk(after)
      modifies this`pages, this`stored, this`dirtyKeys
      ensures stored == after && PagesOk(pages) && (Valid() <==> FlightOk(inFlight, after, pages.Keys, nextId))
      ensures (forall n: nat :: |old(stored)(n)| == PAGE && after(n) == CutTo(old(stored)(n), n, size)) ==>
                (Valid() <==> NoneCut(inFlight, old(pages).Keys, size))
      ensures forall n :: n in pages <==> n in old(pages) && n < CeilPages(size)
      ensures forall n {:trigger pages[n]} :: n in pages && n < size / PAGE ==> pages[n] == old(pages)[n]
      ensures forall n, j {:trigger pages[n].data[j]} :: n in pages && 0 <= j < PAGE ==>
                n in old(pages) && pages[n].data[j] == if n * PAGE + j < size then old(pages)[n].data[j] else 0
      ensures forall n :: n in dirtyKeys <==> n in old(dirtyKeys) && n < CeilPages(size)
    {
      hide FlightOk, StoredOk;
      stored := after;
      InvalidateFrom(CeilPages(size));
      PagesSub(old(pages), pages);
      ZeroTail(size);
      TailCut(size);
      if forall n: nat :: |old(stored)(n)| == PAGE && after(n) == CutTo(old(stored)(n), n, size) {
        TruncateAndPrefetches(inFlight, old(stored), after, old(pages).Keys, pages.Keys, size, nextId);
      }
    }
  }

  function CeilPages(size: nat): nat { (size + PAGE - 1) / PAGE }

  lemma TailCut(size: nat)
    ensures CeilPages(size) == size / PAGE + if size % PAGE != 0 then 1 else 0
    ensures forall n: nat, j: nat {:trigger n * PAGE + j} :: j < PAGE && n < size / PAGE ==> n * PAGE + j < size
    ensures forall j: nat {:trigger size / PAGE * PAGE + j} :: size / PAGE * PAGE + j < size <==> j < size % PAGE
  {
    forall n: nat, j: nat {:trigger n * PAGE + j} | j < PAGE && n < size / PAGE ensures n * PAGE + j < size {
      assert (n + 1) * PAGE <= size / PAGE * PAGE;
    }
  }

  lemma PagesSub(pages: map<nat, Cached>, pages': map<nat, Cached>)
    requires PagesOk(pages) && forall n :: n in pages' ==> n in pages && pages'[n] == pages[n]
    ensures PagesOk(pages')
  {
  }

  function KeysBelow(keys: seq<nat>, from: nat): (r: seq<nat>)
    ensures forall n :: n in r <==> n in keys && n < from
  {
    if keys == [] then [] else (if keys[0] < from then [keys[0]] else []) + KeysBelow(keys[1..], from)
  }

  // ---- Truncating under prefetches ----

  /** Page `n` of a file cut to `size`. */
  function CutTo(p: Page, n: nat, size: nat): (r: Page)
    requires |p| == PAGE
    ensures |r| == PAGE && forall j :: 0 <= j < PAGE ==> r[j] == if n * PAGE + j < size then p[j] else 0
  {
    seq(PAGE, j requires 0 <= j < PAGE => if n * PAGE + j < size then p[j] else 0)
  }

  /** No byte of page `n` at or past `size` is other than zero. */
  predicate NothingPast(p: Page, n: nat, size: nat)
    requires |p| == PAGE
  {
    forall j :: 0 <= j < PAGE && n * PAGE + j >= size ==> p[j] == 0
  }

  lemma CutIsSame(p: Page, n: nat, size: nat)
    requires |p| == PAGE
    ensures CutTo(p, n, size) == p <==> NothingPast(p, n, size)
  {
    if NothingPast(p, n, size) { assert forall j :: 0 <= j < PAGE ==> CutTo(p, n, size)[j] == p[j]; }
    if CutTo(p, n, size) == p {
      forall j | 0 <= j < PAGE && n * PAGE + j >= size ensures p[j] == 0 { assert CutTo(p, n, size)[j] == 0; }
    }
  }

  function InFlightPage(h: Prefetch, n: nat): (p: Page)
    requires h.Covers(n)
    ensures |p| == PAGE
  {
    PageFromSize(h.runs, n - h.first);
    PageFrom(h.runs, n - h.first)
  }

  /** Nothing on its way past the new size: every page in flight either stays cached, so it will not be
      delivered, or carries only zeros from `size` on. */
  predicate NoneCut(inFlight: map<nat, Prefetch>, cached: set<nat>, size: nat) {
    forall n {:trigger inFlight[n]} :: n in inFlight && inFlight[n].Covers(n) ==>
      (n in cached && n < CeilPages(size)) || NothingPast(InFlightPage(inFlight[n], n), n, size)
  }

  /** A truncate to `size` leaves the prefetches in flight sound exactly when none of them carries a byte
      it cuts away: something to be checked before the truncate, over every window that can be open. */
  lemma TruncateAndPrefetches(inFlight: map<nat, Prefetch>, stored: nat -> Page, after: nat -> Page,
                              cached: set<nat>, cached': set<nat>, size: nat, nextId: nat)
    requires FlightOk(inFlight, stored, cached, nextId) && StoredOk(stored)
    requires forall n: nat :: after(n) == CutTo(stored(n), n, size)
    requires forall n: nat :: n in cached' <==> n in cached && n < CeilPages(size)
    ensures FlightOk(inFlight, after, cached', nextId) <==> NoneCut(inFlight, cached, size)
  {
    hide Holds, InFlightPage, NothingPast, CutTo, StoredOk;
    forall n | n in inFlight
      ensures inFlight[n].Covers(n)
      ensures (n in cached' || InFlightPage(inFlight[n], n) == after(n))
              <==> ((n in cached && n < CeilPages(size)) || NothingPast(InFlightPage(inFlight[n], n), n, size))
    {
      assert Occupies(inFlight, inFlight[n], n) && Holds(stored, cached, inFlight[n]);
      StoredPage(stored, n);
      OnePrefetched(inFlight[n], stored, cached, n, size);
    }
    if NoneCut(inFlight, cached, size) {
      forall n | n in inFlight ensures Holds(after, cached', inFlight[n]) { AllDeliver(inFlight, after, cached', n); }
    }
    if FlightOk(inFlight, after, cached', nextId) {
      forall n | n in inFlight ensures n in cached' || InFlightPage(inFlight[n], n) == after(n) {
        assert Holds(after, cached', inFlight[n]);
        HeldAt(after, cached', inFlight[n], n);
      }
    }
  }

  lemma HeldAt(stored: nat -> Page, cached: set<nat>, h: Prefetch, n: nat)
    requires Holds(stored, cached, h) && h.Covers(n)
    ensures n in cached || InFlightPage(h, n) == stored(n)
  {
    hide PageFrom;
    HeldPage(stored, cached, h, n - h.first);
  }

  lemma OnePrefetched(h: Prefetch, stored: nat -> Page, cached: set<nat>, n: nat, size: nat)
    requires Holds(stored, cached, h) && h.Covers(n) && |stored(n)| == PAGE
    ensures ((n in cached && n < CeilPages(size)) || InFlightPage(h, n) == CutTo(stored(n), n, size))
            <==> ((n in cached && n < CeilPages(size)) || NothingPast(InFlightPage(h, n), n, size))
  {
    hide Holds, InFlightPage, NothingPast;
    HeldAt(stored, cached, h, n);
    CutIsSame(InFlightPage(h, n), n, size);
    if n >= CeilPages(size) { AllCut(InFlightPage(h, n), stored(n), n, size); }
  }

  lemma AllCut(p: Page, q: Page, n: nat, size: nat)
    requires |p| == PAGE && |q| == PAGE && n >= CeilPages(size)
    ensures CutTo(p, n, size) == CutTo(q, n, size)
  {
    assert n * PAGE >= size;
    assert forall j :: 0 <= j < PAGE ==> CutTo(p, n, size)[j] == CutTo(q, n, size)[j];
  }

  lemma AllDeliver(inFlight: map<nat, Prefetch>, after: nat -> Page, cached: set<nat>, n: nat)
    requires n in inFlight && Occupies(inFlight, inFlight[n], n)
    requires forall m :: m in inFlight ==>
               inFlight[m].Covers(m) && (m in cached || InFlightPage(inFlight[m], m) == after(m))
    ensures Holds(after, cached, inFlight[n])
  {
    hide PageFrom;
    var h := inFlight[n];
    forall j | 0 <= j < h.len ensures h.first + j in cached || PageFrom(h.runs, j) == after(h.first + j) {
      assert h.Covers(h.first + j);
    }
  }

  /** So windows that end at or below the new size are safe. */
  lemma WindowsBelowAreSafe(inFlight: map<nat, Prefetch>, cached: set<nat>, size: nat)
    requires forall n {:trigger inFlight[n]} :: n in inFlight ==> (n + 1) * PAGE <= size
    ensures NoneCut(inFlight, cached, size)
  {
    forall n | n in inFlight && inFlight[n].Covers(n) ensures NothingPast(InFlightPage(inFlight[n], n), n, size) {}
  }

  // ---- A read of cut bytes ----

  function Ones(n: nat): (r: Page)
    ensures |r| == n && forall i :: 0 <= i < n ==> r[i] == 1
  {
    seq(n, _ => 1)
  }

  function OnesFile(): (r: nat -> Page)
    ensures forall n: nat :: r(n) == if n == 0 then Ones(PAGE) else Zeros(PAGE)
  {
    (n: nat) => if n == 0 then Ones(PAGE) else Zeros(PAGE)
  }

  function CutFile(size: nat): (r: nat -> Page)
    ensures forall n: nat :: r(n) == CutTo(if n == 0 then Ones(PAGE) else Zeros(PAGE), n, size)
  {
    (n: nat) => CutTo(if n == 0 then Ones(PAGE) else Zeros(PAGE), n, size)
  }

  lemma OnesPlan()
    ensures PageFrom([Run(0, Ones(PAGE))], 0) == Ones(PAGE)
  {
    var r := Run(0, Ones(PAGE));
    assert r.Has(0) && RunPage(r, 0) == Ones(PAGE);
  }

  /** A page of ones is being prefetched while its file is truncated to 100 bytes; whoever joins the
      prefetch then brings all of it back. */
  method TruncateThenJoin() returns (inode: Inode, joined: bool)
    ensures fresh(inode) && inode.Valid() && inode.stored == CutFile(100)
    ensures joined ==> inode.pages == map[0 := Cached(Ones(PAGE), false)]
    ensures inode.inFlight == map[]
  {
    hide PageFrom, FlightOk, CutTo, NoneCut, Bytes;
    inode := new Inode(OnesFile());
    OnesPlan();
    var installed := inode.IssuePrefetch(0, 1, [Run(0, Ones(PAGE))]);
    ghost var h := Prefetch(0, 0, 1, [Run(0, Ones(PAGE))]);
    assert installed && inode.inFlight == map[0 := h];
    OkShape(inode.inFlight, inode.stored, inode.pages.Keys, inode.nextId);
    inode.Truncate(100, CutFile(100));
    joined := inode.FinalizePrefetch(0);
    assert inode.inFlight == map[];
    NothingInFlight(inode.stored, inode.pages.Keys, inode.nextId);
  }

  /** The file is grown again, to a page, and byte 200 is read: a one, where the file has a zero. */
  method TruncateThenRead(garbage: Page) returns (joined: bool, out: Option<seq<bv8>>, home: bv8)
    requires |garbage| == PAGE
    ensures home == 0 && (joined && out.Some? ==> out == Some([1]))
  {
    hide PageFrom, FlightOk, Bytes, Filled, NoneCut;
    var inode;
    inode, joined := TruncateThenJoin();
    inode.Truncate(PAGE, CutFile(100));
    NothingInFlight(inode.stored, inode.pages.Keys, inode.nextId);
    home := inode.stored(0)[200];
    ghost var pages := inode.pages;
    assert joined ==> 0 in pages && pages[0].data[200] == 1;
    var ra := Readahead(RA_NO_PREV, 0);
    out, ra := inode.Read(ra, PAGE, 200, 1, garbage);
    if joined && out.Some? { FirstByte(pages, inode.stored, 200, out.value); }
  }

  lemma NothingInFlight(stored: nat -> Page, cached: set<nat>, nextId: nat)
    ensures FlightOk(map[], stored, cached, nextId)
  {
  }

  lemma FirstByte(pages: map<nat, Cached>, stored: nat -> Page, at: nat, out: seq<bv8>)
    requires Bytes(pages, stored, at, out) && |out| == 1 && |ViewOf(pages, stored, at / PAGE)| == PAGE
    ensures out == [ViewOf(pages, stored, at / PAGE)[at % PAGE]]
  {
    assert ByteAt(pages, stored, at + 0, out[0]);
  }

  /** The keys that had no page to flush. */
  function Unlisted(listed: seq<nat>, pages: map<nat, Cached>): (r: seq<nat>)
    ensures forall n :: n in r <==> n in listed && n !in pages
  {
    if listed == [] then [] else (if listed[0] in pages then [] else [listed[0]]) + Unlisted(listed[1..], pages)
  }

  lemma FlushHome(inFlight: map<nat, Prefetch>, home: nat -> Page, stored: nat -> Page, pages: map<nat, Cached>,
                  nextId: nat)
    requires FlightOk(inFlight, home, pages.Keys, nextId) && StoredOk(home) && PagesOk(pages)
    requires forall n :: stored(n) == home(n) || (n in pages && stored(n) == pages[n].data)
    ensures FlightOk(inFlight, stored, pages.Keys, nextId) && StoredOk(stored)
  {
    forall n | n in inFlight ensures Holds(stored, pages.Keys, inFlight[n]) {
      assert Holds(home, pages.Keys, inFlight[n]);
    }
  }

  lemma FlushedSizes(pages: map<nat, Cached>, pages': map<nat, Cached>)
    requires PagesOk(pages) && pages'.Keys == pages.Keys && forall n :: n in pages ==> pages'[n].data == pages[n].data
    ensures PagesOk(pages')
  {
  }

  lemma WholePage(from: nat, bytes: seq<bv8>)
    requires |bytes| == PAGE && from + |bytes| <= PAGE
    ensures from == 0
    ensures forall p: Page, q: Page {:trigger Splice(p, from, bytes), Splice(q, from, bytes)} ::
              |p| == PAGE && |q| == PAGE ==> Splice(p, from, bytes) == Splice(q, from, bytes)
  {
  }

  lemma FilledBut(pages: map<nat, Cached>, pages': map<nat, Cached>, stored: nat -> Page, n: nat)
    requires Filled(pages, pages', stored) || (n !in pages && n in pages' && Filled(pages, pages' - {n}, stored))
    ensures forall m :: m != n ==> ViewOf(pages', stored, m) == ViewOf(pages, stored, m)
    ensures Filled(pages, pages', stored) ==> ViewOf(pages', stored, n) == ViewOf(pages, stored, n)
  {
    if !Filled(pages, pages', stored) {
      forall m | m != n ensures ViewOf(pages', stored, m) == ViewOf(pages, stored, m) {
        FilledView(pages, pages' - {n}, stored, m);
      }
    } else {
      FilledViews(pages, pages', stored);
    }
  }

  lemma OldLengths(pages: map<nat, Cached>, stored: nat -> Page)
    requires PagesOk(pages) && StoredOk(stored)
    ensures forall m: nat :: |ViewOf(pages, stored, m)| == PAGE
  {
  }

  lemma OldLength(pages: map<nat, Cached>, stored: nat -> Page, n: nat)
    requires PagesOk(pages) && StoredOk(stored)
    ensures |ViewOf(pages, stored, n)| == PAGE
  {
  }

  /** The view changed in exactly the bytes [offset, offset + |bytes|), to `bytes`. */
  ghost predicate Written(pages: map<nat, Cached>, pages': map<nat, Cached>, stored: nat -> Page, offset: nat,
                          bytes: seq<bv8>) {
    forall n: nat {:trigger ViewOf(pages', stored, n)} ::
        PageWritten(ViewOf(pages, stored, n), ViewOf(pages', stored, n), n, offset, bytes)
  }

  ghost predicate PageWritten(p: Page, p': Page, n: nat, offset: nat, bytes: seq<bv8>) {
    && |p'| == |p|
    && forall j {:trigger p'[j]} :: 0 <= j < |p| ==>
        p'[j] == if offset <= n * PAGE + j < offset + |bytes| then bytes[n * PAGE + j - offset] else p[j]
  }

  /** As `Written`, except that the page the bytes stop in may hold zeros after them: a page that was not
      cached and was to be replaced whole. */
  ghost predicate WrittenBut(pages: map<nat, Cached>, pages': map<nat, Cached>, stored: nat -> Page, offset: nat,
                             bytes: seq<bv8>) {
    || Written(pages, pages', stored, offset, bytes)
    || (var n := (offset + |bytes|) / PAGE;
        && n !in pages && n in pages' && ZerosAfter(pages'[n].data, n, offset, bytes)
        && forall m: nat {:trigger ViewOf(pages', stored, m)} :: m != n ==>
            PageWritten(ViewOf(pages, stored, m), ViewOf(pages', stored, m), m, offset, bytes))
  }

  /** The page starts within the written bytes and is zero past their end. */
  ghost predicate ZerosAfter(p: Page, n: nat, offset: nat, bytes: seq<bv8>) {
    && |p| == PAGE && offset <= n * PAGE
    && forall j {:trigger p[j]} :: 0 <= j < PAGE ==>
        p[j] == if n * PAGE + j < offset + |bytes| then bytes[n * PAGE + j - offset] else 0
  }

  /** Pages stay cached and keep their dirty flags; new ones are clean. */
  ghost predicate SameDirty(pages: map<nat, Cached>, pages': map<nat, Cached>) {
    && (forall m :: m in pages ==> m in pages')
    && forall m {:trigger pages'[m]} :: m in pages' ==> pages'[m].dirty == (m in pages && pages[m].dirty)
  }

  ghost predicate PageCopied(pages: map<nat, Cached>, pages': map<nat, Cached>, stored: nat -> Page, n: nat, from: nat,
                             bytes: seq<bv8>) {
    |ViewOf(pages, stored, n)| == PAGE && from + |bytes| <= PAGE
      && ViewOf(pages', stored, n) == Splice(ViewOf(pages, stored, n), from, bytes)
  }

  ghost predicate ZeroCopied(pages: map<nat, Cached>, pages': map<nat, Cached>, n: nat, bytes: seq<bv8>) {
    n !in pages && n in pages' && |bytes| <= PAGE && pages'[n].data == Splice(Zeros(PAGE), 0, bytes)
  }

  lemma SameDirtyNone(pages: map<nat, Cached>)
    ensures SameDirty(pages, pages)
  {
  }

  lemma SameDirtyTwice(a: map<nat, Cached>, b: map<nat, Cached>, c: map<nat, Cached>)
    requires SameDirty(a, b) && SameDirty(b, c)
    ensures SameDirty(a, c) && (forall m :: m in a ==> m in b) && (forall m :: m in b ==> m in c)
  {
  }

  lemma FilledDirty(pages: map<nat, Cached>, pages': map<nat, Cached>, stored: nat -> Page, n: nat)
    requires Filled(pages, pages', stored)
               || (n !in pages && n in pages' && !pages'[n].dirty && Filled(pages, pages' - {n}, stored))
    ensures SameDirty(pages, pages')
  {
    if !Filled(pages, pages', stored) {
      forall m | m in pages ensures m in pages' && pages'[m] == pages[m] {
        assert m in pages' - {n} && (pages' - {n})[m] == pages'[m];
      }
      forall m | m in pages' && m !in pages ensures !pages'[m].dirty {
        if m != n { assert (pages' - {n})[m] == pages'[m]; }
      }
    }
  }

  lemma NothingCopied(pages: map<nat, Cached>, pages': map<nat, Cached>, stored: nat -> Page, n: nat, from: nat,
                      bytes: seq<bv8>)
    requires ViewOf(pages', stored, n) == ViewOf(pages, stored, n) && |ViewOf(pages, stored, n)| == PAGE
               && from + |bytes| <= PAGE
    ensures PageCopied(pages, pages', stored, n, from, bytes[..0])
  {
    assert bytes[..0] == [];
  }

  /** The copied bytes went into what the page showed before, or into a page of zeros. */
  lemma PartCopied(pages: map<nat, Cached>, pages': map<nat, Cached>, pages'': map<nat, Cached>, stored: nat -> Page,
                   n: nat, from: nat, bytes: seq<bv8>, copied: nat)
    requires from + |bytes| <= PAGE && copied <= |bytes| && n in pages' && |pages'[n].data| == PAGE
               && |ViewOf(pages, stored, n)| == PAGE
    requires pages'' == pages'[n := pages'[n].(data := Splice(pages'[n].data, from, bytes[..copied]))]
    requires ViewOf(pages', stored, n) == ViewOf(pages, stored, n)
               || (|bytes| == PAGE && n !in pages && pages'[n].data == Zeros(PAGE))
    ensures PageCopied(pages, pages'', stored, n, from, bytes[..copied])
            || (copied < |bytes| == PAGE && ZeroCopied(pages, pages'', n, bytes[..copied]))
  {
    if copied == |bytes| == PAGE { WholePage(from, bytes[..copied]); }
  }

  lemma WrittenNone(pages: map<nat, Cached>, stored: nat -> Page, offset: nat)
    ensures Written(pages, pages, stored, offset, []) && WrittenBut(pages, pages, stored, offset, [])
  {
  }

  lemma WrittenWeaken(pages: map<nat, Cached>, pages': map<nat, Cached>, stored: nat -> Page, offset: nat,
                      bytes: seq<bv8>)
    requires Written(pages, pages', stored, offset, bytes)
    ensures WrittenBut(pages, pages', stored, offset, bytes) && bytes[..|bytes|] == bytes
  {
  }

  lemma WrittenSame(pages: map<nat, Cached>, pages': map<nat, Cached>, pages'': map<nat, Cached>, stored: nat -> Page,
                    offset: nat, bytes: seq<bv8>)
    requires Written(pages, pages', stored, offset, bytes) && pages''.Keys == pages'.Keys && forall m :: m in pages' ==>
               pages''[m].data == pages'[m].data
    ensures Written(pages, pages'', stored, offset, bytes)
  {
    forall n: nat ensures PageWritten(ViewOf(pages, stored, n), ViewOf(pages'', stored, n), n, offset, bytes) {
      assert ViewOf(pages'', stored, n) == ViewOf(pages', stored, n) by { assert n in pages'' <==> n in pages'; }
    }
  }

  lemma WrittenMore(pages: map<nat, Cached>, pages': map<nat, Cached>, pages'': map<nat, Cached>, stored: nat -> Page,
                    offset: nat, done: seq<bv8>, n: nat, from: nat, bytes: seq<bv8>)
    requires Written(pages, pages', stored, offset, done) && offset + |done| == n * PAGE + from
               && from + |bytes| <= PAGE
    requires forall m: nat :: m != n ==> ViewOf(pages'', stored, m) == ViewOf(pages', stored, m)
    requires |ViewOf(pages', stored, n)| == PAGE
               && ViewOf(pages'', stored, n) == Splice(ViewOf(pages', stored, n), from, bytes)
    requires forall m: nat :: |ViewOf(pages, stored, m)| == PAGE
    ensures Written(pages, pages'', stored, offset, done + bytes)
  {
    forall m: nat ensures PageWritten(ViewOf(pages, stored, m), ViewOf(pages'', stored, m), m, offset, done + bytes) {
      assert PageWritten(ViewOf(pages, stored, m), ViewOf(pages', stored, m), m, offset, done);
      hide Written, ViewOf;
      MorePage(ViewOf(pages, stored, m), ViewOf(pages', stored, m), ViewOf(pages'', stored, m), m, offset, done, n,
        from, bytes);
    }
  }

  lemma MorePage(p: Page, p': Page, p'': Page, m: nat, offset: nat, done: seq<bv8>, n: nat, from: nat, bytes: seq<bv8>)
    requires |p| == PAGE && PageWritten(p, p', m, offset, done) && offset + |done| == n * PAGE + from
               && from + |bytes| <= PAGE
    requires p'' == if m == n then Splice(p', from, bytes) else p'
    ensures PageWritten(p, p'', m, offset, done + bytes)
  {
    forall j | 0 <= j < |p|
        ensures p''[j] == if offset <= m * PAGE + j < offset + |done + bytes| then (done + bytes)[m * PAGE + j - offset]
        else p[j] {
      assert p'[j] == if offset <= m * PAGE + j < offset + |done| then done[m * PAGE + j - offset] else p[j];
      hide PageWritten, Splice;
      WhichPage(m, n, j, from, |bytes|);
    }
  }

  lemma WhichPage(m: nat, n: nat, j: nat, from: nat, len: nat)
    requires j < PAGE && from + len <= PAGE
    ensures m != n ==> !(n * PAGE + from <= m * PAGE + j < n * PAGE + from + len)
  {
    if m < n { assert (m + 1) * PAGE <= n * PAGE; }
    if m > n { assert (n + 1) * PAGE <= m * PAGE; }
  }

  lemma PrefixGrows(data: seq<bv8>, done: nat, n: nat, copied: nat)
    requires copied <= n && done + n <= |data|
    ensures data[..done] + data[done..done + n][..copied] == data[..done + copied]
  {
  }

  lemma WrittenPart(pages: map<nat, Cached>, pages': map<nat, Cached>, pages'': map<nat, Cached>, stored: nat -> Page,
                    offset: nat, done: seq<bv8>,
                    n: nat, from: nat, bytes: seq<bv8>, copied: nat, ok: bool)
    requires Written(pages, pages', stored, offset, done) && offset + |done| == n * PAGE + from
               && from + |bytes| <= PAGE && copied <= |bytes|
    requires forall m: nat :: m != n ==> ViewOf(pages'', stored, m) == ViewOf(pages', stored, m)
    requires forall m: nat :: |ViewOf(pages, stored, m)| == PAGE
    requires forall m :: m in pages ==> m in pages'
    requires PageCopied(pages', pages'', stored, n, from, bytes[..copied])
             || (!ok && copied < |bytes| == PAGE && ZeroCopied(pages', pages'', n, bytes[..copied]))
    ensures ok ==> Written(pages, pages'', stored, offset, done + bytes[..copied])
    ensures WrittenBut(pages, pages'', stored, offset, done + bytes[..copied])
  {
    hide Written, Splice;
    if PageCopied(pages', pages'', stored, n, from, bytes[..copied]) {
      WrittenMore(pages, pages', pages'', stored, offset, done, n, from, bytes[..copied]);
    } else {
      WrittenZeros(pages, pages', pages'', stored, offset, done, n, bytes[..copied]);
    }
  }

  lemma WrittenZeros(pages: map<nat, Cached>, pages': map<nat, Cached>, pages'': map<nat, Cached>, stored: nat -> Page,
                     offset: nat, done: seq<bv8>, n: nat, bytes: seq<bv8>)
    requires Written(pages, pages', stored, offset, done) && offset + |done| == n * PAGE && |bytes| < PAGE
    requires forall m: nat :: m != n ==> ViewOf(pages'', stored, m) == ViewOf(pages', stored, m)
    requires forall m: nat :: |ViewOf(pages, stored, m)| == PAGE
    requires n !in pages && ZeroCopied(pages', pages'', n, bytes)
    ensures WrittenBut(pages, pages'', stored, offset, done + bytes)
  {
    assert (offset + |done + bytes|) / PAGE == n;
    assert ZerosAfter(pages''[n].data, n, offset, done + bytes);
    forall m: nat | m != n
        ensures PageWritten(ViewOf(pages, stored, m), ViewOf(pages'', stored, m), m, offset, done + bytes) {
      assert PageWritten(ViewOf(pages, stored, m), ViewOf(pages', stored, m), m, offset, done);
      hide Written, ViewOf, ZeroCopied;
      MorePage(ViewOf(pages, stored, m), ViewOf(pages', stored, m), ViewOf(pages'', stored, m), m, offset, done, n, 0,
        bytes);
    }
  }

  /** Ascending ranges inside [lo, hi), no two of them touching. */
  ghost predicate RangesOk(ranges: seq<(nat, nat)>, lo: nat, hi: nat) {
    && (forall r {:trigger ranges[r]} :: 0 <= r < |ranges| ==> lo <= ranges[r].0 <= ranges[r].1 < hi)
    && (forall r, t {:trigger ranges[r], ranges[t]} :: 0 <= r < t < |ranges| ==> ranges[r].1 + 1 < ranges[t].0)
  }

  ghost predicate InRanges(ranges: seq<(nat, nat)>, n: nat) {
    exists r :: 0 <= r < |ranges| && ranges[r].0 <= n <= ranges[r].1
  }

  /** The last range ends before the page in front of `n`. */
  ghost predicate Apart(ranges: seq<(nat, nat)>, n: nat) {
    forall r {:trigger ranges[r]} :: 0 <= r < |ranges| ==> ranges[r].1 + 1 < n
  }

  /** The scan has reached `n`; a run of uncached pages is open at `from`. */
  ghost predicate Scan(ranges: seq<(nat, nat)>, from: Option<nat>, start: nat, n: nat, pages: map<nat, Cached>) {
    var hi := if from.Some? then from.value else n;
    && start <= hi <= n && RangesOk(ranges, start, hi) && Exact(ranges, start, hi, pages)
    && (from.Some? ==> hi < n && Apart(ranges, hi) && forall m :: hi <= m < n ==> m !in pages)
    && (from.None? && n > start ==> n - 1 in pages)
  }

  ghost predicate Exact(ranges: seq<(nat, nat)>, lo: nat, hi: nat, pages: map<nat, Cached>) {
    forall n {:trigger n in pages} :: lo <= n < hi ==> (n !in pages <==> InRanges(ranges, n))
  }

  lemma ScanStart(start: nat, pages: map<nat, Cached>)
    ensures Scan([], None, start, start, pages)
  {
  }

  lemma ScanStep(ranges: seq<(nat, nat)>, from: Option<nat>, start: nat, n: nat, pages: map<nat, Cached>)
    requires Scan(ranges, from, start, n, pages)
    ensures from.Some? ==> from.value < n
    ensures n !in pages ==> Scan(ranges, Some(if from.Some? then from.value else n), start, n + 1, pages)
    ensures n in pages && from.Some? ==> Scan(ranges + [(from.value, n - 1)], None, start, n + 1, pages)
    ensures n in pages && from.None? ==> Scan(ranges, None, start, n + 1, pages)
  {
    if from.Some? {
      CloseRange(ranges, start, from.value, n - 1, pages);
      ExactMore(ranges + [(from.value, n - 1)], start, n, pages);
    } else {
      ApartAfter(ranges, start, n, pages);
      ExactMore(ranges, start, n, pages);
    }
  }

  lemma ScanEnd(ranges: seq<(nat, nat)>, from: Option<nat>, start: nat, last: nat, pages: map<nat, Cached>)
    requires Scan(ranges, from, start, last + 1, pages)
    ensures var all := if from.Some? then ranges + [(from.value, last)] else ranges;
            RangesOk(all, start, last + 1) && forall n :: start <= n <= last ==> (n !in pages <==> InRanges(all, n))
  {
    if from.Some? { CloseRange(ranges, start, from.value, last, pages); }
    assert forall n :: start <= n <= last ==> (n in pages || n !in pages);
  }

  lemma ApartAfter(ranges: seq<(nat, nat)>, start: nat, n: nat, pages: map<nat, Cached>)
    requires RangesOk(ranges, start, n) && Exact(ranges, start, n, pages) && (n > start ==> n - 1 in pages)
    ensures Apart(ranges, n)
  {
    forall r | 0 <= r < |ranges| ensures ranges[r].1 + 1 < n {
      assert InRanges(ranges, ranges[r].1) && ranges[r].1 !in pages;
    }
  }

  /** A page past all ranges that is cached. */
  lemma ExactMore(ranges: seq<(nat, nat)>, start: nat, n: nat, pages: map<nat, Cached>)
    requires RangesOk(ranges, start, n) && Exact(ranges, start, n, pages)
    ensures n in pages ==> Exact(ranges, start, n + 1, pages) && RangesOk(ranges, start, n + 1)
  {
  }

  lemma CloseRange(ranges: seq<(nat, nat)>, start: nat, from: nat, last: nat, pages: map<nat, Cached>)
    requires RangesOk(ranges, start, from) && Apart(ranges, from) && start <= from <= last
    requires Exact(ranges, start, from, pages) && forall m :: from <= m <= last ==> m !in pages
    ensures var more := ranges + [(from, last)]; RangesOk(more, start, last + 1) && Exact(more, start, last + 1, pages)
  {
    var more := ranges + [(from, last)];
    forall m | start <= m < last + 1 ensures m !in pages <==> InRanges(more, m) {
      if InRanges(ranges, m) {
        var r :| 0 <= r < |ranges| && ranges[r].0 <= m <= ranges[r].1;
        assert more[r] == ranges[r];
      }
      if from <= m { assert more[|ranges|] == (from, last); }
      if InRanges(more, m) && m < from {
        var r :| 0 <= r < |more| && more[r].0 <= m <= more[r].1;
        assert ranges[r] == more[r] && InRanges(ranges, m);
      }
      assert m in pages || m !in pages;
    }
  }

  ghost function ViewOf(pages: map<nat, Cached>, stored: nat -> Page, n: nat): Page {
    if n in pages then pages[n].data else stored(n)
  }

  /** `out` is what the view has from `offset` on. */
  ghost predicate Bytes(pages: map<nat, Cached>, stored: nat -> Page, offset: nat, out: seq<bv8>) {
    forall i {:trigger out[i]} :: 0 <= i < |out| ==> ByteAt(pages, stored, offset + i, out[i])
  }

  ghost predicate ByteAt(pages: map<nat, Cached>, stored: nat -> Page, pos: nat, b: bv8) {
    var p := ViewOf(pages, stored, pos / PAGE);
    |p| == PAGE && p[pos % PAGE] == b
  }

  lemma NoBytes(pages: map<nat, Cached>, stored: nat -> Page, offset: nat)
    ensures Bytes(pages, stored, offset, [])
  {
  }

  lemma SameBytes(pages: map<nat, Cached>, pages': map<nat, Cached>, stored: nat -> Page, offset: nat, out: seq<bv8>)
    requires Bytes(pages', stored, offset, out) && forall n :: ViewOf(pages', stored, n) == ViewOf(pages, stored, n)
    ensures Bytes(pages, stored, offset, out)
  {
    forall i | 0 <= i < |out| ensures ByteAt(pages, stored, offset + i, out[i]) {
      assert ByteAt(pages', stored, offset + i, out[i]);
    }
  }

  lemma FilledView(pages: map<nat, Cached>, pages': map<nat, Cached>, stored: nat -> Page, n: nat)
    requires Filled(pages, pages', stored)
    ensures ViewOf(pages', stored, n) == ViewOf(pages, stored, n)
  {
  }

  lemma FilledViews(pages: map<nat, Cached>, pages': map<nat, Cached>, stored: nat -> Page)
    requires Filled(pages, pages', stored)
    ensures forall n :: ViewOf(pages', stored, n) == ViewOf(pages, stored, n)
  {
  }

  /** A read that follows a write sees the bytes written, and everything else as it was. */
  lemma ReadAfterWrite(pages: map<nat, Cached>, pages': map<nat, Cached>, stored: nat -> Page, offset: nat,
                       bytes: seq<bv8>, at: nat, out: seq<bv8>, i: nat)
    requires Written(pages, pages', stored, offset, bytes) && Bytes(pages', stored, at, out) && i < |out|
    ensures |ViewOf(pages, stored, (at + i) / PAGE)| == PAGE
    ensures out[i] == if offset <= at + i < offset + |bytes| then bytes[at + i - offset]
              else ViewOf(pages, stored, (at + i) / PAGE)[(at + i) % PAGE]
  {
    var n := (at + i) / PAGE;
    assert ByteAt(pages', stored, at + i, out[i]);
    assert PageWritten(ViewOf(pages, stored, n), ViewOf(pages', stored, n), n, offset, bytes);
    assert n * PAGE + (at + i) % PAGE == at + i;
  }

  lemma PageLength(pages: map<nat, Cached>, n: nat)
    requires PagesOk(pages) && n in pages
    ensures |pages[n].data| == PAGE
  {
  }

  lemma PageSpan(offset: nat, count: nat, n: nat)
    requires count > 0 && offset / PAGE <= n <= (offset + count - 1) / PAGE
    ensures n == offset / PAGE ==> n * PAGE <= offset < (n + 1) * PAGE
    ensures n > offset / PAGE ==> offset < n * PAGE
    ensures n == (offset + count - 1) / PAGE ==> n * PAGE < offset + count <= (n + 1) * PAGE
    ensures n < (offset + count - 1) / PAGE ==> (n + 1) * PAGE < offset + count
  {
  }

  lemma TakeBytes(pages: map<nat, Cached>, stored: nat -> Page, offset: nat, bytes: seq<bv8>, n: nat, from: nat,
                  upto: nat)
    requires Bytes(pages, stored, offset, bytes) && from <= upto <= PAGE && |ViewOf(pages, stored, n)| == PAGE
               && offset + |bytes| == n * PAGE + from
    ensures Bytes(pages, stored, offset, bytes + ViewOf(pages, stored, n)[from..upto])
  {
    var more := bytes + ViewOf(pages, stored, n)[from..upto];
    forall i | 0 <= i < |more| ensures ByteAt(pages, stored, offset + i, more[i]) {
      if i < |bytes| {
        assert ByteAt(pages, stored, offset + i, bytes[i]);
      } else {
        InBlock(n, from + i - |bytes|, n + 1);
      }
    }
  }

  predicate BulkOk(stored: nat -> Page, start: nat, count: nat, data: seq<bv8>) {
    forall j :: 0 <= j < count * PAGE ==>
        |stored(start + j / PAGE)| == PAGE && stored(start + j / PAGE)[j % PAGE] == if j < |data| then data[j] else 0
  }

  predicate PlanOk(stored: nat -> Page, start: nat, count: nat, runs: seq<Run>) {
    forall j :: 0 <= j < count ==> PageFrom(runs, j) == stored(start + j)
  }

  /** Pages were added, each holding what the filesystem has; none was replaced. */
  ghost predicate Filled(pages: map<nat, Cached>, pages': map<nat, Cached>, stored: nat -> Page) {
    && (forall n {:trigger n in pages} {:trigger pages'[n]} :: n in pages ==> n in pages' && pages'[n] == pages[n])
    && (forall n {:trigger pages'[n]} :: n in pages' && n !in pages ==> pages'[n] == Cached(stored(n), false))
  }

  lemma FilledNone(pages: map<nat, Cached>, stored: nat -> Page)
    ensures Filled(pages, pages, stored)
  {
  }

  lemma FilledMore(pages: map<nat, Cached>, pages': map<nat, Cached>, stored: nat -> Page, n: nat)
    requires Filled(pages, pages', stored)
    ensures n !in pages' ==> Filled(pages, pages'[n := Cached(stored(n), false)], stored)
  {
  }

  lemma FilledAbsent(pages: map<nat, Cached>, pages': map<nat, Cached>, stored: nat -> Page, n: nat)
    requires Filled(pages, pages', stored) && n !in pages'
    ensures n !in pages
  {
  }

  lemma PagePut(pages: map<nat, Cached>, n: nat, p: Cached)
    requires PagesOk(pages) && |p.data| == PAGE
    ensures PagesOk(pages[n := p])
  {
  }

  lemma StoredPage(stored: nat -> Page, n: nat)
    requires StoredOk(stored)
    ensures |stored(n)| == PAGE
  {
  }

  lemma FilledTwice(a: map<nat, Cached>, b: map<nat, Cached>, c: map<nat, Cached>, stored: nat -> Page)
    requires Filled(a, b, stored) && Filled(b, c, stored)
    ensures Filled(a, c, stored)
  {
  }

  function RemoveHandle(inFlight: map<nat, Prefetch>, h: Prefetch): map<nat, Prefetch> {
    map n | n in inFlight && !(h.Covers(n) && inFlight[n] == h) :: inFlight[n]
  }

  lemma RemoveShrinks(inFlight: map<nat, Prefetch>, n: nat)
    requires n in inFlight && inFlight[n].Covers(n)
    ensures |RemoveHandle(inFlight, inFlight[n])| < |inFlight|
  {
    var less := RemoveHandle(inFlight, inFlight[n]);
    assert less.Keys <= inFlight.Keys - {n};
    SubsetSize(less.Keys, inFlight.Keys - {n});
    assert |inFlight.Keys - {n}| == |inFlight.Keys| - 1;
    assert |less.Keys| == |less| && |inFlight.Keys| == |inFlight|;
  }

  lemma HeldPage(stored: nat -> Page, cached: set<nat>, h: Prefetch, j: nat)
    requires Holds(stored, cached, h) && j < h.len
    ensures h.first + j in cached || PageFrom(h.runs, j) == stored(h.first + j)
    ensures |PageFrom(h.runs, j)| == PAGE
  {
    PageFromSize(h.runs, j);
  }

  lemma {:induction false} PageFromSize(runs: seq<Run>, j: nat)
    ensures |PageFrom(runs, j)| == PAGE
  {
    if runs != [] && !runs[0].Has(j) { PageFromSize(runs[1..], j); }
  }

  lemma RemoveKeeps(inFlight: map<nat, Prefetch>, stored: nat -> Page, cached: set<nat>, h: Prefetch, nextId: nat)
    requires FlightOk(inFlight, stored, cached, nextId)
    ensures FlightOk(RemoveHandle(inFlight, h), stored, cached, nextId)
  {
    hide Holds;
    var less := RemoveHandle(inFlight, h);
    forall n | n in less ensures Occupies(less, less[n], n) {
      var g := inFlight[n];
      assert Occupies(inFlight, g, n);
      forall m | g.Covers(m) ensures m in less && less[m] == g {}
    }
  }

  lemma InFlightFacts(inFlight: map<nat, Prefetch>, stored: nat -> Page, cached: set<nat>, nextId: nat, n: nat)
    requires FlightOk(inFlight, stored, cached, nextId) && n in inFlight
    ensures inFlight[n].Covers(n) && Holds(stored, cached, inFlight[n])
  {
  }

  lemma BulkPage(stored: nat -> Page, start: nat, count: nat, data: seq<bv8>, i: nat, page: Page)
    requires BulkOk(stored, start, count, data) && i < count && |page| == PAGE && |stored(start + i)| == PAGE
    requires forall j :: 0 <= j < PAGE ==> page[j] == if i * PAGE + j < |data| then data[i * PAGE + j] else 0
    ensures page == stored(start + i)
  {
    forall j | 0 <= j < PAGE ensures page[j] == stored(start + i)[j] { InBlock(i, j, count); }
  }

  lemma InBlock(i: nat, j: nat, count: nat)
    requires j < PAGE && i < count
    ensures (i * PAGE + j) / PAGE == i && (i * PAGE + j) % PAGE == j && i * PAGE + j < count * PAGE
  {
    assert (i + 1) * PAGE <= count * PAGE;
  }

  function InstallAll(inFlight: map<nat, Prefetch>, h: Prefetch, n: nat): (r: map<nat, Prefetch>)
    ensures forall m :: m in r <==> m in inFlight || h.first <= m < h.first + n
    ensures forall m :: m in r ==> r[m] == if h.first <= m < h.first + n then h else inFlight[m]
  {
    if n == 0 then inFlight else InstallAll(inFlight, h, n - 1)[h.first + n - 1 := h]
  }

  lemma PlanHolds(stored: nat -> Page, cached: set<nat>, h: Prefetch)
    requires PlanOk(stored, h.first, h.len, h.runs)
    ensures Holds(stored, cached, h)
  {
  }

  lemma InstallKeeps(inFlight: map<nat, Prefetch>, stored: nat -> Page, cached: set<nat>, h: Prefetch)
    requires FlightOk(inFlight, stored, cached, h.id) && Holds(stored, cached, h)
               && forall n :: h.first <= n < h.first + h.len ==> n !in inFlight
    ensures FlightOk(InstallAll(inFlight, h, h.len), stored, cached, h.id + 1)
  {
    hide Holds;
    var more := InstallAll(inFlight, h, h.len);
    forall n | n in more ensures Occupies(more, more[n], n) && Holds(stored, cached, more[n]) && more[n].id < h.id + 1 {
      if n in inFlight {
        assert Occupies(inFlight, inFlight[n], n) && Holds(stored, cached, inFlight[n]);
        InstallSpares(inFlight, more, h, inFlight[n], n);
      }
    }
  }

  lemma InstallSpares(inFlight: map<nat, Prefetch>, more: map<nat, Prefetch>, h: Prefetch, g: Prefetch, n: nat)
    requires Occupies(inFlight, g, n) && (forall m :: h.first <= m < h.first + h.len ==> m !in inFlight)
    requires forall m :: m in inFlight && !(h.first <= m < h.first + h.len) ==> m in more && more[m] == inFlight[m]
    ensures Occupies(more, g, n)
  {
    forall m | g.Covers(m) ensures m in more && more[m] == g { assert m in inFlight; }
  }

  ghost predicate StoredOk(stored: nat -> Page) { forall n :: |stored(n)| == PAGE }

  ghost predicate PagesOk(pages: map<nat, Cached>) {
    forall n {:trigger pages[n]} :: n in pages ==> |pages[n].data| == PAGE
  }

  /** A pending prefetch sits at every page of its window and holds what the filesystem has there,
      except for pages that are cached anyway. */
  ghost predicate FlightOk(inFlight: map<nat, Prefetch>, stored: nat -> Page, cached: set<nat>, nextId: nat) {
    forall n {:trigger inFlight[n]} :: n in inFlight ==>
        Occupies(inFlight, inFlight[n], n) && Holds(stored, cached, inFlight[n]) && inFlight[n].id < nextId
  }

  ghost predicate FlightShape(inFlight: map<nat, Prefetch>, nextId: nat) {
    forall n {:trigger inFlight[n]} :: n in inFlight ==> Occupies(inFlight, inFlight[n], n) && inFlight[n].id < nextId
  }

  lemma OkShape(inFlight: map<nat, Prefetch>, stored: nat -> Page, cached: set<nat>, nextId: nat)
    requires FlightOk(inFlight, stored, cached, nextId)
    ensures FlightShape(inFlight, nextId)
  {
  }

  /** The cache after the first `k` pages of a prefetch went in where none was cached. */
  function Deliver(pages: map<nat, Cached>, h: Prefetch, k: nat): map<nat, Cached> {
    if k == 0 then pages
    else
      var less := Deliver(pages, h, k - 1);
      if h.first + k - 1 in less then less else less[h.first + k - 1 := Cached(PageFrom(h.runs, k - 1), false)]
  }

  lemma {:induction false} DeliverIsFilling(pages: map<nat, Cached>, h: Prefetch, stored: nat -> Page, k: nat)
    requires Holds(stored, pages.Keys, h) && k <= h.len
    ensures Filled(pages, Deliver(pages, h, k), stored)
  {
    hide PageFrom;
    if k > 0 {
      DeliverIsFilling(pages, h, stored, k - 1);
      HeldPage(stored, pages.Keys, h, k - 1);
    }
  }

  lemma DeliverFilled(inFlight: map<nat, Prefetch>, stored: nat -> Page, pages: map<nat, Cached>,
                      pages': map<nat, Cached>, n: nat, good: bool, nextId: nat)
    requires FlightOk(inFlight, stored, pages.Keys, nextId) && n in inFlight
    requires pages' == if good then Deliver(pages, inFlight[n], inFlight[n].len) else pages
    ensures Filled(pages, pages', stored) && FlightOk(RemoveHandle(inFlight, inFlight[n]), stored, pages'.Keys, nextId)
  {
    hide Deliver, Holds;
    assert Holds(stored, pages.Keys, inFlight[n]);
    DeliverIsFilling(pages, inFlight[n], stored, inFlight[n].len);
    FilledNone(pages, stored);
    RemoveKeeps(inFlight, stored, pages.Keys, inFlight[n], nextId);
    hide FlightOk;
    assert pages.Keys <= pages'.Keys;
    FlightGrows(RemoveHandle(inFlight, inFlight[n]), stored, pages.Keys, pages'.Keys, nextId);
  }

  lemma RemoveShape(inFlight: map<nat, Prefetch>, h: Prefetch, nextId: nat)
    requires FlightShape(inFlight, nextId)
    ensures FlightShape(RemoveHandle(inFlight, h), nextId)
  {
    var less := RemoveHandle(inFlight, h);
    forall n | n in less ensures Occupies(less, less[n], n) {
      var g := inFlight[n];
      assert Occupies(inFlight, g, n);
      forall m | g.Covers(m) ensures m in less && less[m] == g {}
    }
  }

  ghost predicate Occupies(inFlight: map<nat, Prefetch>, h: Prefetch, n: nat) {
    h.Covers(n) && forall m {:trigger h.Covers(m)} {:trigger m in inFlight} :: h.Covers(m) ==>
      m in inFlight && inFlight[m] == h
  }

  ghost predicate Holds(stored: nat -> Page, cached: set<nat>, h: Prefetch) {
    forall j :: 0 <= j < h.len ==> h.first + j in cached || PageFrom(h.runs, j) == stored(h.first + j)
  }

  lemma FlightGrows(inFlight: map<nat, Prefetch>, stored: nat -> Page, cached: set<nat>, cached': set<nat>, nextId: nat)
    requires FlightOk(inFlight, stored, cached, nextId) && cached <= cached'
    ensures FlightOk(inFlight, stored, cached', nextId)
  {
    forall n | n in inFlight ensures Holds(stored, cached', inFlight[n]) { assert Holds(stored, cached, inFlight[n]); }
  }
}
