/** The write-back block cache in front of a disk, as whole operations that refine a plain array
    of blocks. */
module BlockCache {
  import opened Collections
  import opened BlockShards
  import opened Vmas
  import LockOrder

  const MAX_RUN_PAGES: nat := 248
  const WRITE_PAGE_ATTEMPTS: nat := 3
  const SECTORS_PER_PAGE: nat := 8
  const MAX_INFLIGHT_PAGES: nat := 8

  type Disk = map<Key, Page>

  /** What a reader sees: the cached bytes if present, else the disk's. */
  ghost function View(pages: map<Key, Cached>, disk: Disk): map<Key, Page> {
    map k | k in disk.Keys + pages.Keys :: if k in pages then pages[k].data else disk[k]
  }

  ghost predicate SameBut(v: map<Key, Page>, v': map<Key, Page>, k: Key) {
    (forall j :: j != k ==> (j in v' <==> j in v)) && (forall j :: j != k && j in v ==> v'[j] == v[j])
  }

  /** A clean page is the disk's. */
  ghost predicate CleanOk(pages: map<Key, Cached>, disk: Disk, loose: set<Key>) {
    forall k {:trigger pages[k]} :: k in pages && !pages[k].dirty && k !in loose ==>
        k in disk && disk[k] == pages[k].data
  }

  ghost predicate SizesOk(pages: map<Key, Cached>, disk: Disk) {
    (forall k {:trigger pages[k]} :: k in pages ==> |pages[k].data| == PAGE_SIZE)
      && (forall k {:trigger disk[k]} :: k in disk ==> |disk[k]| == PAGE_SIZE)
  }

  /** Pages were evicted from `pages` to give `pages'`: clean ones only. */
  ghost predicate Evicted(pages: map<Key, Cached>, pages': map<Key, Cached>) {
    && (forall k {:trigger k in pages'} :: k in pages' ==> k in pages && pages'[k] == pages[k])
    && (forall k {:trigger k in pages'} :: k in pages && k !in pages' ==> !pages[k].dirty && pages[k].pins == 0)
  }

  /** Evicting clean pages is invisible. */
  lemma EvictionInvisible(pages: map<Key, Cached>, pages': map<Key, Cached>, disk: Disk)
    requires Evicted(pages, pages') && CleanOk(pages, disk, {})
    ensures View(pages', disk) == View(pages, disk) && CleanOk(pages', disk, {})
  {
    assert forall k :: k in pages && k !in pages' ==> k in disk && disk[k] == pages[k].data;
  }

  datatype Fill = FromDisk | Overwrite

  datatype Acquired = NotAcquired | Got(cached: bool, data: Page)

  class Cache {
    var shards: seq<Shard>
    var pages: map<Key, Cached>
    var disk: Disk
    var dirtyPages: nat
    var kicks: nat
    /** Per journalled device, the last committed sequence; and the sequence each block was enrolled at. */
    var committed: map<nat, nat>
    var tracker: map<Key, nat>

    ghost predicate Consistent(loose: set<Key>)
      reads this
    {
      && ShardsOk(shards, pages, loose) && dirtyPages == DirtyTotal(shards)
      && CleanOk(pages, disk, loose) && SizesOk(pages, disk)
    }

    ghost predicate Valid()
      reads this
    {
      Consistent({})
    }

    /** The journal tracks only blocks of its own device that are cached and dirty. */
    ghost predicate TrackedOk()
      reads this`committed, this`tracker, this`pages
    {
      Tracked(committed, tracker, pages)
    }

    /** The blocks held back from their home until their transaction commits. */
    ghost function HeldBack(): set<Key>
      reads this`committed, this`tracker
    {
      set k | k in tracker && Gated(k)
    }

    ghost function Contents(): map<Key, Page>
      reads this
    {
      View(pages, disk)
    }

    constructor (disk: Disk)
      requires forall k :: k in disk ==> |disk[k]| == PAGE_SIZE
      ensures Valid() && TrackedOk() && Contents() == disk && this.disk == disk && committed == map[]
                && tracker == map[]
    {
      shards := seq(NUM_SHARDS, _ => Shard([], {}));
      pages, this.disk, dirtyPages, kicks, committed, tracker := map[], disk, 0, 0, map[], map[];
      new;
      NoDirty(shards);
      assert forall i {:trigger shards[i]} :: 0 <= i < NUM_SHARDS ==> ShardOk(shards[i], i, pages, {});
    }

    // ---- The device ----

    method ReadFrame(k: Key) returns (r: Option<Page>)
      ensures r.Some? ==> k in disk && r.value == disk[k]
    {
      var ok: bool := *;
      r := if ok && k in disk then Some(disk[k]) else None;
    }

    /** A failed write changes nothing. */
    method WriteFrame(k: Key, data: Page) returns (ok: bool)
      modifies this`disk
      ensures disk == if ok then old(disk)[k := data] else old(disk)
      ensures ok ==> k in old(disk)
    {
      ok := *;
      ok := ok && k in disk;
      if ok {
        disk := disk[k := data];
      }
    }

    // ---- Finding a page ----

    /** Evicts from the old end of shard `i` until it has room, stopping at a pinned or dirty page. */
    method MakeRoom(i: nat) returns (room: bool)
      requires Valid() && i < NUM_SHARDS
      modifies this`shards, this`pages, this`kicks
      ensures Valid() && Evicted(old(pages), pages)
      ensures room <==> |shards[i].lru| < SHARD_CAPACITY
    {
      hide ShardOk, CleanOk, SizesOk, ShardIndex;
      EvictedNone(pages);
      while |shards[i].lru| >= SHARD_CAPACITY
        invariant Valid() && Evicted(old(pages), pages)
        decreases |shards[i].lru|
      {
        var k := shards[i].lru[0];
        LruHead(shards, pages, i);
        if pages[k].pins != 0 || pages[k].dirty {
          kicks := kicks + 1;
          return false;
        }
        DropOk(shards, pages, {}, k);
        EvictOne(old(pages), pages, disk, k);
        CleanNotDirty(shards, pages, k);
        shards, pages := Dropped(shards, k), pages - {k};
      }
      room := true;
    }

    /** A page another filler installed wins; otherwise the new page goes in if the shard has room. */
    method InsertOrResolveRace(k: Key, data: Page) returns (cached: bool)
      requires Valid() && |data| == PAGE_SIZE
      modifies this`shards, this`pages, this`kicks
      ensures Consistent({k})
      ensures !cached || k in old(pages) || (k in disk && disk[k] == data) ==> Valid()
      ensures k in old(pages) ==> cached && pages == old(pages)
      ensures cached ==> k in pages
      ensures !cached ==> k !in pages && Evicted(old(pages), pages)
      ensures cached && k !in old(pages) ==> pages[k] == Cached(data, false, 0) && Evicted(old(pages), pages - {k})
      ensures DirtyStay(old(pages), pages)
    {
      hide ShardOk, CleanOk, SizesOk, ShardIndex, Evicted, DirtyStay;
      DirtyStayNone(pages);
      LooseMore(shards, pages, disk, k);
      if k in pages {
        TouchOk(shards, pages, {}, k);
        shards := Touched(shards, k);
        LooseMore(shards, pages, disk, k);
        return true;
      }
      var room := MakeRoom(ShardIndex(k));
      EvictedSub(old(pages), pages, k);
      EvictedStay(old(pages), pages, k, Cached(data, false, 0));
      LooseMore(shards, pages, disk, k);
      if !room {
        return false;
      }
      PutOk(shards, pages, {}, k, Cached(data, false, 0));
      PutClean(pages, disk, k, data);
      assert pages[k := Cached(data, false, 0)] - {k} == pages;
      shards, pages := Put(shards, k), pages[k := Cached(data, false, 0)];
      LooseShards(shards, pages, k);
      cached := true;
    }

    /** Pins a page, filled from the disk unless every byte is about to be replaced; `garbage` is what
        a fresh frame happens to hold. */
    method AcquirePage(k: Key, fill: Fill, garbage: Page) returns (r: Acquired)
      requires Valid() && |garbage| == PAGE_SIZE
      modifies this`shards, this`pages, this`kicks
      ensures r.NotAcquired? || fill.FromDisk? || !r.cached ==> Valid() && Contents() == old(Contents())
      ensures r.Got? && fill.FromDisk? ==> k in old(Contents()) && r.data == old(Contents())[k]
      ensures r.Got? ==> |r.data| == PAGE_SIZE && Consistent({k}) && SameBut(old(Contents()), Contents(), k)
      ensures r.Got? && r.cached ==> k in pages && pages[k].data == r.data
      ensures r.Got? && !r.cached ==> k !in pages
      ensures DirtyStay(old(pages), pages) && (k in old(pages) ==> r.Got? && r.cached)
    {
      hide ShardsOk, CleanOk, SizesOk, ShardIndex, Evicted, View, SameBut, DirtyStay;
      DirtyStayNone(pages);
      SameButSelf(Contents(), k);
      if k in pages {
        PageSize(pages, disk, k);
        LooseMore(shards, pages, disk, k);
        TouchOk(shards, pages, {}, k);
        shards := Touched(shards, k);
        LooseMore(shards, pages, disk, k);
        ViewAt(pages, disk, k);
        return Got(true, pages[k].data);
      }
      var framed: bool := *;
      if !framed {
        return NotAcquired;
      }
      var data := garbage;
      if fill.FromDisk? {
        var read := ReadFrame(k);
        if read.None? {
          return NotAcquired;
        }
        data := read.value;
        DiskSize(pages, disk, k);
      }
      var cached := InsertOrResolveRace(k, data);
      InsertedView(old(pages), pages, disk, k, data, cached);
      r := Got(cached, data);
    }

    // ---- Writing ----

    /** Mounting a journalled filesystem: the device's journal has committed up to `upTo`. */
    method RegisterDevice(device: nat, upTo: nat)
      modifies this`committed
      ensures committed == old(committed)[device := upTo]
      ensures old(Valid()) ==> Valid() && Contents() == old(Contents())
      ensures old(TrackedOk()) ==> TrackedOk() && (device !in old(committed) ==> HeldBack() == old(HeldBack()))
    {
      committed := committed[device := upTo];
    }

    /** A transaction takes the block in. A clean page is at home already and is not tracked. */
    method Enrol(k: Key, active: nat)
      requires k.0 in committed && k in pages
      modifies this`tracker
      ensures tracker == if pages[k].dirty then old(tracker)[k := active] else old(tracker)
      ensures old(Valid()) ==> Valid() && Contents() == old(Contents())
      ensures old(TrackedOk()) ==> TrackedOk()
      ensures pages[k].dirty ==> (Gated(k) <==> active > committed[k.0])
    {
      if pages[k].dirty {
        tracker := tracker[k := active];
      }
    }

    /** The journal commits up to `upTo`, never back: what was held back may be released, nothing more is
        held back. */
    method Commit(device: nat, upTo: nat)
      requires device in committed
      modifies this`committed
      ensures committed == old(committed)[device := if old(committed)[device] < upTo then upTo
                else old(committed)[device]]
      ensures forall k :: Gated(k) ==> old(Gated(k))
      ensures old(Valid()) ==> Valid() && Contents() == old(Contents())
      ensures old(TrackedOk()) ==> TrackedOk()
    {
      if committed[device] < upTo {
        committed := committed[device := upTo];
      }
    }

    method NoteCheckpointed(k: Key)
      modifies this`tracker
      ensures tracker == if k.0 in committed then old(tracker) - {k} else old(tracker)
    {
      if k.0 in committed && k in tracker {
        tracker := tracker - {k};
      }
    }

    /** A cached page is enrolled as dirty; a detached one, which writeback cannot find, goes to the
        disk at once, even one the journal has not committed. */
    method PublishWrite(k: Key, data: Page, cached: bool) returns (ok: bool)
      requires |data| == PAGE_SIZE
      requires if cached then Consistent({k}) && k in pages && pages[k].dirty && pages[k].data == data
               else Valid() && k !in pages
      modifies this`shards, this`disk, this`dirtyPages, this`kicks, this`tracker
      ensures Valid()
      ensures cached ==> ok && disk == old(disk)
      ensures !cached ==> disk == if ok then old(disk)[k := data] else old(disk)
      ensures old(Gated(k)) && disk != old(disk) ==> !cached && ok && !Gated(k)
      ensures old(TrackedOk()) ==> TrackedOk() && tracker == old(tracker)
    {
      hide ShardsOk, CleanOk, SizesOk, ShardIndex;
      if !cached {
        DiskWriteOk(pages, disk, k, data);
        ok := WriteFrame(k, data);
        if ok {
          NoteCheckpointed(k);
        }
        return;
      }
      SetDirtyOk(shards, pages, {k}, k, true);
      TightClean(pages, disk, k);
      ShardCount(shards, pages);
      assert {k} - {k} == {};
      var i := ShardIndex(k);
      if k !in shards[i].dirty {
        dirtyPages := dirtyPages + 1;
      }
      shards := SetDirty(shards, k, true);
      if |shards[i].dirty| > SHARD_CAPACITY / 4 {
        kicks := kicks + 1;
      }
      ok := true;
    }

    /** Patches the page just acquired and publishes it. */
    method PatchAndPublish(k: Key, got: Acquired, offset: nat, bytes: seq<bv8>) returns (ok: bool)
      requires got.Got? && |got.data| == PAGE_SIZE && offset + |bytes| <= PAGE_SIZE
      requires if got.cached then Consistent({k}) && k in pages && pages[k].data == got.data else Valid() && k !in pages
      modifies this`shards, this`pages, this`disk, this`dirtyPages, this`kicks, this`tracker
      ensures Valid()
      ensures ok ==>
                k in Contents() && Contents()[k] == Splice(got.data, offset, bytes)
                && SameBut(old(Contents()), Contents(), k)
      ensures !ok ==> !got.cached && Contents() == old(Contents())
      ensures ok ==> WentTo(pages, disk, k, Splice(got.data, offset, bytes))
      ensures old(TrackedOk()) ==> TrackedOk() && Kept(old(disk), disk, old(tracker), tracker, old(HeldBack()))
    {
      hide ShardsOk, CleanOk, SizesOk, ShardIndex, View, SameBut, Splice;
      var data := Splice(got.data, offset, bytes);
      if got.cached {
        var p := pages[k].(data := data, dirty := true);
        RewriteOk(shards, pages, {k}, k, p);
        RewriteClean(pages, disk, k, p);
        assert {k} + {k} == {k};
        pages := pages[k := p];
      }
      ok := PublishWrite(k, data, got.cached);
      WrittenView(old(pages), pages, old(disk), disk, k, data, got.cached, ok);
    }

    // ---- Flushing ----

    /** Writes a batch with all its commands outstanding together. A command that cannot be submitted
        ends the batch; one that fails leaves its page dirty. */
    method WriteBatch(batch: seq<Key>) returns (ok: bool)
      requires Valid() && NoDup(batch) && forall k :: k in batch ==> k in pages
      modifies this`shards, this`pages, this`disk, this`dirtyPages, this`tracker
      ensures Valid() && Flushed(old(pages), pages, old(disk), disk, Elements(batch))
      ensures ok ==> forall k :: k in batch ==> k in pages && !pages[k].dirty
      ensures TrackerKept(old(tracker), tracker, pages) && (old(TrackedOk()) ==> TrackedOk())
    {
      hide ShardsOk, CleanOk, SizesOk, ShardIndex, Flushed, TrackerKept;
      var sorted := SortKeys(batch);
      BatchLocksInOrder(batch, sorted);
      var inFlight: seq<Key> := [];
      ok := true;
      var i := 0;
      while i < |sorted|
        invariant i <= |sorted| && forall k :: k in inFlight ==> k in sorted && pages[k].dirty
        invariant ok ==> forall k :: k in sorted[..i] ==> k in inFlight || !pages[k].dirty
      {
        if pages[sorted[i]].dirty {
          var submitted: bool := *;
          if !submitted {
            ok := false;
            break;
          }
          inFlight := inFlight + [sorted[i]];
        }
        i := i + 1;
      }
      assert ok ==> sorted[..i] == sorted;
      var written, done := AwaitBatch(batch, inFlight);
      assert ok && done ==> forall k :: k in batch ==> k in sorted;
      ok := ok && done;
      FlushedFacts(old(pages), pages, old(disk), disk, Elements(batch));
      SettleBatch(written);
      TrackerShrunk(old(tracker), tracker, pages, written);
      assert old(TrackedOk()) ==> TrackedOk();
    }

    /** Waits for every command; a page whose write landed has its flag cleared. */
    method AwaitBatch(ghost batch: seq<Key>, inFlight: seq<Key>) returns (written: seq<Key>, ok: bool)
      requires Valid() && (forall k :: k in inFlight ==> k in pages && pages[k].dirty && k in batch)
      modifies this`pages, this`disk
      ensures Consistent(Elements(written)) && CleanOk(pages, disk, {})
                && Flushed(old(pages), pages, old(disk), disk, Elements(batch))
      ensures forall k :: k in written ==> k in pages && !pages[k].dirty
      ensures ok ==> forall k :: k in inFlight ==> k in pages && !pages[k].dirty
      ensures forall k :: k in old(pages) && old(pages)[k].dirty && k !in written ==> k in pages && pages[k].dirty
    {
      hide ShardsOk, CleanOk, SizesOk, ShardIndex, Flushed;
      written, ok := [], true;
      assert Elements(written) == {};
      FlushedNone(pages, disk, Elements(batch));
      for i := 0 to |inFlight|
        invariant ShardsOk(shards, pages, Elements(written)) && CleanOk(pages, disk, {}) && SizesOk(pages, disk)
        invariant Flushed(old(pages), pages, old(disk), disk, Elements(batch)) && pages.Keys == old(pages).Keys
        invariant forall k :: k in written ==> k in pages && !pages[k].dirty
        invariant ok ==> forall k :: k in inFlight[..i] ==> k in pages && !pages[k].dirty
        invariant forall k :: k in old(pages) && old(pages)[k].dirty && k !in written ==> k in pages && pages[k].dirty
      {
        var k := inFlight[i];
        PageSize(pages, disk, k);
        LandOne(old(pages), pages, old(disk), disk, Elements(batch), k);
        RewriteOk(shards, pages, Elements(written), k, pages[k].(dirty := false));
        var landed := WriteFrame(k, pages[k].data);
        if landed {
          pages := pages[k := pages[k].(dirty := false)];
          ElementsAppend(written, k);
          written := written + [k];
        } else {
          ok := false;
        }
      }
      assert inFlight[..|inFlight|] == inFlight;
      LooserClean(pages, disk, Elements(written));
    }

    /** Takes the written pages out of the dirty set and tells the journal. */
    method SettleBatch(written: seq<Key>)
      requires Consistent(Elements(written)) && CleanOk(pages, disk, {})
      requires forall k :: k in written ==> k in pages && !pages[k].dirty
      modifies this`shards, this`dirtyPages, this`tracker
      ensures Valid()
      ensures forall k :: k in tracker ==> k in old(tracker) && tracker[k] == old(tracker)[k]
      ensures forall k :: k in old(tracker) && k !in written ==> k in tracker
      ensures forall k :: k in written && k.0 in committed ==> k !in tracker
    {
      hide ShardsOk, CleanOk, SizesOk, ShardIndex;
      assert written[0..] == written;
      for i := 0 to |written|
        invariant ShardsOk(shards, pages, Elements(written[i..])) && dirtyPages == DirtyTotal(shards)
        invariant forall k :: k in tracker ==> k in old(tracker) && tracker[k] == old(tracker)[k]
        invariant forall k :: k in old(tracker) && k !in written ==> k in tracker
        invariant forall k :: k in written[..i] && k.0 in committed ==> k !in tracker
      {
        var k := written[i];
        NoteCheckpointed(k);
        ShardCount(shards, pages);
        SetDirtyOk(shards, pages, Elements(written[i..]), k, false);
        LooserShards(SetDirty(shards, k, false), pages, Elements(written[i..]) - {k}, Elements(written[i + 1..]));
        var n := ShardIndex(k);
        DirtyPositive(shards, n, k);
        if k in shards[n].dirty {
          dirtyPages := dirtyPages - 1;
        }
        shards := SetDirty(shards, k, false);
      }
      assert written[..|written|] == written;
      assert Elements(written[|written|..]) == {};
    }

    /** Enrolled in a transaction that has not committed. */
    predicate Gated(k: Key)
      reads this`committed, this`tracker
    {
      k.0 in committed && k in tracker && tracker[k] > committed[k.0]
    }

    /** One shard's dirty pages: skips what is gated and, unless forced, whatever is not old enough,
        and writes the rest in batches. */
    method FlushShard(i: nat, force: bool, ghost start: map<Key, nat>) returns (ok: bool)
      requires Valid() && i < NUM_SHARDS && TrackerKept(start, tracker, pages)
      modifies this`shards, this`pages, this`disk, this`dirtyPages, this`tracker
      ensures Valid() && Flushed(old(pages), pages, old(disk), disk, Committed(committed, start, old(pages)))
      ensures TrackerKept(start, tracker, pages) && (old(TrackedOk()) ==> TrackedOk())
      ensures force && ok ==> forall k :: k in pages && ShardIndex(k) == i && pages[k].dirty ==>
                k !in Committed(committed, start, old(pages))
    {
      hide ShardsOk, CleanOk, SizesOk, ShardIndex, Flushed, TrackerKept, Committed, Tracked;
      ghost var free := Committed(committed, start, pages);
      ShardCount(shards, pages);
      var keys := DirtyKeys(shards[i].dirty);
      DirtyCached(shards, pages, i);
      assert forall k :: k in keys ==> k in pages;
      FlushedNone(pages, disk, free);
      var batch: seq<Key> := [];
      ok := true;
      for n := 0 to |keys|
        invariant Valid() && Flushed(old(pages), pages, old(disk), disk, free) && TrackerKept(start, tracker, pages)
        invariant pages.Keys == old(pages).Keys && (old(TrackedOk()) ==> TrackedOk())
        invariant NoDup(batch) && forall k :: k in batch ==>
                    k in keys[..n] && k in pages && (k in free || !pages[k].dirty)
        invariant force && ok ==> forall k :: k in keys[..n] && k in free ==> k in batch || !pages[k].dirty
      {
        var k := keys[n];
        assert k !in keys[..n];
        TouchOk(shards, pages, {}, k);
        ShardCount(shards, pages);
        shards := Touched(shards, k);
        GateAgrees(committed, start, tracker, old(pages), pages, k);
        var expired: bool := *;
        if !Gated(k) && (force || expired) {
          batch := batch + [k];
          if |batch| >= MAX_INFLIGHT_PAGES {
            var done := FlushBatch(batch, old(pages), old(disk), free, start);
            ok := ok && done;
            batch := [];
          }
        }
      }
      var done := FlushBatch(batch, old(pages), old(disk), free, start);
      ok := ok && done;
      assert keys[..|keys|] == keys;
      assert force && ok ==> forall k :: k in keys && k in free ==> !pages[k].dirty;
      StillDirty(old(shards), old(pages), pages, old(disk), disk, free, i, keys);
    }

    method FlushBatch(batch: seq<Key>, ghost pages0: map<Key, Cached>, ghost disk0: Disk, ghost free: set<Key>,
                      ghost start: map<Key, nat>) returns (ok: bool)
      requires Valid() && Flushed(pages0, pages, disk0, disk, free) && TrackerKept(start, tracker, pages)
      requires pages.Keys == pages0.Keys && NoDup(batch) && forall k :: k in batch ==>
                 k in pages && (k in free || !pages[k].dirty)
      modifies this`shards, this`pages, this`disk, this`dirtyPages, this`tracker
      ensures Valid() && Flushed(pages0, pages, disk0, disk, free) && TrackerKept(start, tracker, pages)
      ensures pages.Keys == pages0.Keys && (old(TrackedOk()) ==> TrackedOk())
      ensures forall k :: k in pages && pages[k].dirty ==> old(pages)[k].dirty
      ensures ok ==> forall k :: k in batch ==> !pages[k].dirty
    {
      hide ShardsOk, CleanOk, SizesOk, ShardIndex, Flushed, TrackerKept, Tracked;
      ok := WriteBatch(batch);
      FlushedFacts(old(pages), pages, old(disk), disk, Elements(batch));
      FlushedOnlyDirty(old(pages), pages, old(disk), disk, Elements(batch), free);
      FlushedTwice(pages0, old(pages), pages, disk0, old(disk), disk, free, free);
      assert free + free == free;
      TrackerTwice(start, old(tracker), tracker, old(pages), pages);
    }

    /** A flush pass loses nothing and shows nothing: each page dirty before it is clean with its bytes
        on the disk or still dirty; uncommitted pages are not written; a forced pass that reports success
        leaves only those dirty. */
    method FlushDirtyOnce(force: bool) returns (ok: bool)
      requires Valid()
      modifies this`shards, this`pages, this`disk, this`dirtyPages, this`tracker
      ensures Valid() && Contents() == old(Contents())
      ensures Flushed(old(pages), pages, old(disk), disk, Committed(committed, old(tracker), old(pages)))
      ensures force && ok ==> forall k :: k in pages && pages[k].dirty ==> old(Gated(k))
      ensures old(TrackedOk()) ==> TrackedOk() && Kept(old(disk), disk, old(tracker), tracker, old(HeldBack()))
    {
      hide ShardsOk, CleanOk, SizesOk, ShardIndex, Flushed, TrackerKept, Tracked, Kept;
      ghost var free, start := Committed(committed, tracker, pages), tracker;
      FlushedNone(pages, disk, free);
      TrackerSame(tracker, pages);
      ok := true;
      for i := 0 to NUM_SHARDS
        invariant Valid() && Flushed(old(pages), pages, old(disk), disk, free) && TrackerKept(start, tracker, pages)
        invariant pages.Keys == old(pages).Keys && (old(TrackedOk()) ==> TrackedOk())
        invariant force && ok ==> forall k :: k in pages && ShardIndex(k) < i && pages[k].dirty ==> k !in free
      {
        ghost var pages1, disk1 := pages, disk;
        assert Committed(committed, start, pages1) == free;
        var done := FlushShard(i, force, start);
        ok := ok && done;
        FlushedFacts(pages1, pages, disk1, disk, free);
        FlushedTwice(old(pages), pages1, pages, old(disk), disk1, disk, free, free);
        assert free + free == free;
      }
      FlushedFacts(old(pages), pages, old(disk), disk, free);
      if old(TrackedOk()) {
        FlushKeeps(committed, start, tracker, old(pages), pages, old(disk), disk, old(HeldBack()));
      }
    }

    // ---- Whole writes ----

    /** Acquires a page for writing, draining and retrying while the shard has no room for it. The
        detached page is still handed out on the last attempt. */
    method ReadPageForWrite(k: Key, fill: Fill, garbage: Page) returns (r: Acquired)
      requires Valid() && |garbage| == PAGE_SIZE
      modifies this`shards, this`pages, this`disk, this`dirtyPages, this`kicks, this`tracker
      ensures r.NotAcquired? || fill.FromDisk? || !r.cached ==> Valid() && Contents() == old(Contents())
      ensures r.Got? && fill.FromDisk? ==> k in old(Contents()) && r.data == old(Contents())[k]
      ensures r.Got? ==> |r.data| == PAGE_SIZE && Consistent({k}) && SameBut(old(Contents()), Contents(), k)
      ensures r.Got? && r.cached ==> k in pages && pages[k].data == r.data
      ensures r.Got? && !r.cached ==> k !in pages
      ensures old(TrackedOk()) ==> TrackedOk() && Kept(old(disk), disk, old(tracker), tracker, old(HeldBack()))
    {
      hide ShardsOk, CleanOk, SizesOk, View, SameBut, Flushed, Tracked, Kept, DirtyStay;
      var attempt := 0;
      KeptNone(disk, tracker, HeldBack());
      r := AcquirePage(k, fill, garbage);
      if old(TrackedOk()) { StayTracked(committed, tracker, old(pages), pages); }
      while r.Got? && !r.cached && attempt + 1 < WRITE_PAGE_ATTEMPTS
        invariant attempt < WRITE_PAGE_ATTEMPTS
        invariant r.NotAcquired? || fill.FromDisk? || !r.cached ==> Valid() && Contents() == old(Contents())
        invariant r.Got? && fill.FromDisk? ==> k in old(Contents()) && r.data == old(Contents())[k]
        invariant r.Got? ==> |r.data| == PAGE_SIZE && Consistent({k}) && SameBut(old(Contents()), Contents(), k)
        invariant r.Got? && r.cached ==> k in pages && pages[k].data == r.data
        invariant r.Got? && !r.cached ==> k !in pages
        invariant old(TrackedOk()) ==> TrackedOk() && Kept(old(disk), disk, old(tracker), tracker, old(HeldBack()))
        decreases WRITE_PAGE_ATTEMPTS - attempt
      {
        kicks := kicks + 1;
        var ran: bool := *;
        ghost var disk1, tracker1, held1 := disk, tracker, HeldBack();
        if ran {
          var _ := FlushDirtyOnce(true);
          if old(TrackedOk()) {
            StillHeld(old(disk), disk1, disk, committed, old(tracker), tracker1, tracker, old(HeldBack()), held1);
          }
        }
        ghost var pages2 := pages;
        r := AcquirePage(k, fill, garbage);
        if old(TrackedOk()) { StayTracked(committed, tracker, pages2, pages); }
        attempt := attempt + 1;
      }
    }

    /** Replaces a whole block, without reading it first. */
    method WritePage(k: Key, data: Page, garbage: Page) returns (ok: bool)
      requires Valid() && |data| == PAGE_SIZE && |garbage| == PAGE_SIZE
      modifies this`shards, this`pages, this`disk, this`dirtyPages, this`kicks, this`tracker
      ensures Valid()
      ensures Contents() == if ok then old(Contents())[k := data] else old(Contents())
      ensures ok ==> WentTo(pages, disk, k, data)
      ensures old(TrackedOk()) ==> TrackedOk() && Kept(old(disk), disk, old(tracker), tracker, old(HeldBack()))
    {
      hide ShardsOk, CleanOk, SizesOk, View, SameBut, Tracked, Kept;
      var got := ReadPageForWrite(k, Overwrite, garbage);
      if got.NotAcquired? {
        return false;
      }
      ghost var mid, disk1, tracker1, held1 := Contents(), disk, tracker, HeldBack();
      ok := PatchAndPublish(k, got, 0, data);
      if old(TrackedOk()) {
        StillHeld(old(disk), disk1, disk, committed, old(tracker), tracker1, tracker, old(HeldBack()), held1);
      }
      assert Splice(got.data, 0, data) == data;
      if ok {
        SameButTwice(old(Contents()), mid, Contents(), k);
      }
    }

    /** Replaces `bytes` at `offset` of one block; the bytes around them survive. */
    method PatchPage(k: Key, offset: nat, bytes: seq<bv8>, garbage: Page) returns (ok: bool)
      requires Valid() && offset + |bytes| <= PAGE_SIZE && |garbage| == PAGE_SIZE
      modifies this`shards, this`pages, this`disk, this`dirtyPages, this`kicks, this`tracker
      ensures Valid()
      ensures !ok ==> Contents() == old(Contents())
      ensures ok ==> k in old(Contents()) && |old(Contents())[k]| == PAGE_SIZE
      ensures ok ==> Contents() == old(Contents())[k := Splice(old(Contents())[k], offset, bytes)]
      ensures ok ==> WentTo(pages, disk, k, Splice(old(Contents())[k], offset, bytes))
      ensures old(TrackedOk()) ==> TrackedOk() && Kept(old(disk), disk, old(tracker), tracker, old(HeldBack()))
    {
      hide ShardsOk, CleanOk, SizesOk, View, SameBut, Splice, Tracked, Kept;
      var got := ReadPageForWrite(k, FromDisk, garbage);
      if got.NotAcquired? {
        return false;
      }
      ghost var disk1, tracker1, held1 := disk, tracker, HeldBack();
      ok := PatchAndPublish(k, got, offset, bytes);
      if old(TrackedOk()) {
        StillHeld(old(disk), disk1, disk, committed, old(tracker), tracker1, tracker, old(HeldBack()), held1);
      }
      if ok {
        SameButTwice(old(Contents()), old(Contents()), Contents(), k) by { SameButSelf(old(Contents()), k); }
      }
    }

    /** `data` covers whole sectors of one page. */
    method WritePartialPage(device: nat, lba: nat, data: seq<bv8>, garbage: Page) returns (ok: bool)
      requires Valid() && |data| % 512 == 0 && lba % SECTORS_PER_PAGE * 512 + |data| <= PAGE_SIZE
                 && |garbage| == PAGE_SIZE
      modifies this`shards, this`pages, this`disk, this`dirtyPages, this`kicks, this`tracker
      ensures Valid()
      ensures !ok ==> Contents() == old(Contents())
      ensures ok ==> BytesWritten(old(Contents()), Contents(), device, lba * 512, data)
      ensures old(TrackedOk()) ==> TrackedOk() && Kept(old(disk), disk, old(tracker), tracker, old(HeldBack()))
    {
      hide ShardsOk, CleanOk, SizesOk, View, SameBut, Splice, Tracked, Kept;
      var k := (device, lba / SECTORS_PER_PAGE);
      ContentsSizes();
      ok := PatchPage(k, lba % SECTORS_PER_PAGE * 512, data, garbage);
      if ok {
        PatchIsBytes(old(Contents()), k, lba % SECTORS_PER_PAGE * 512, data);
        assert k.1 * PAGE_SIZE + lba % SECTORS_PER_PAGE * 512 == lba * 512;
      }
    }

    lemma ContentsSizes()
      requires Valid()
      ensures AllPages(Contents())
    {
      ViewSizes(pages, disk);
    }

    // ---- Byte ranges ----

    /** One command over consecutive blocks. One that fails may have stored any of them. */
    method WriteFrames(device: nat, first: nat, data: seq<bv8>) returns (ok: bool)
      requires |data| % PAGE_SIZE == 0
      modifies this`disk
      ensures !ok ==> Torn(old(disk), disk, device, first, data)
      ensures ok ==> BlocksStored(old(disk), disk, device, first, data, |data| / PAGE_SIZE)
    {
      hide BlocksStored, Torn;
      ok := true;
      NoneStored(disk, device, first, data);
      NoneTorn(disk, device, first, data);
      for i := 0 to |data| / PAGE_SIZE
        invariant Torn(old(disk), disk, device, first, data)
                    && (ok ==> BlocksStored(old(disk), disk, device, first, data, i))
      {
        var stored: bool := *;
        if stored && (device, first + i) in disk {
          BlockFits(data, i);
          TearOne(old(disk), disk, device, first, data, i);
          if ok { StoreOne(old(disk), disk, device, first, data, i); }
          disk := disk[(device, first + i) := Block(data, i)];
        } else {
          ok := false;
        }
      }
      var reported: bool := *;
      ok := ok && reported;
    }

    /** Drops whatever is cached for blocks just written behind the cache's back. */
    method InvalidatePages(device: nat, first: nat, count: nat)
      requires Consistent(Range(device, first, count))
      modifies this`shards, this`pages, this`dirtyPages, this`tracker
      ensures Valid()
      ensures pages == old(pages) - Range(device, first, count)
      ensures tracker == if device in committed then old(tracker) - Range(device, first, count) else old(tracker)
    {
      hide ShardsOk, CleanOk, SizesOk, ShardIndex, Range;
      ghost var loose := Range(device, first, count);
      MinusNone(pages, device, first);
      MinusNone(tracker, device, first);
      for i := 0 to count
        invariant Consistent(loose) && pages == old(pages) - Range(device, first, i)
        invariant tracker == if device in committed then old(tracker) - Range(device, first, i) else old(tracker)
      {
        var k := (device, first + i);
        ShardCount(shards, pages);
        DropOk(shards, pages, loose, k);
        DirtyPositive(shards, ShardIndex(k), k);
        DropClean(pages, disk, loose, k);
        if k in shards[ShardIndex(k)].dirty {
          dirtyPages := dirtyPages - 1;
        }
        MinusNext(old(pages), device, first, i);
        MinusNext(old(tracker), device, first, i);
        shards, pages := Dropped(shards, k), pages - {k};
        NoteCheckpointed(k);
      }
      RangeKeys(device, first, count);
      LooseGone(shards, pages, disk, loose);
    }

    /** A run of whole pages goes straight to the device, and the cache forgets them. A run that fails is
        not forgotten: bytes not cached are old or new, and a clean page whose block changed no longer
        agrees with the disk. */
    method WriteDirect(device: nat, first: nat, data: seq<bv8>) returns (ok: bool)
      requires Valid() && |data| % PAGE_SIZE == 0
      modifies this`shards, this`pages, this`disk, this`dirtyPages, this`tracker
      ensures ok ==> Valid() && BytesWritten(old(Contents()), Contents(), device, first * PAGE_SIZE, data)
      ensures !ok ==> pages == old(pages) && BytesMaybe(old(Contents()), Contents(), device, first * PAGE_SIZE, data)
      ensures !ok ==> Consistent(Range(device, first, |data| / PAGE_SIZE)) && Torn(old(disk), disk, device, first, data)
      ensures !ok ==> (Valid() <==> CleanKept(pages, old(disk), disk))
      ensures !ok && Harmless(old(pages), device, first, data) ==> Valid()
      ensures old(TrackedOk()) ==> TrackedOk()
      ensures Kept(old(disk), disk, old(tracker), tracker, old(HeldBack()) - Range(device, first, |data| / PAGE_SIZE))
      ensures ok ==> WrittenHome(disk, tracker, old(HeldBack()) * Range(device, first, |data| / PAGE_SIZE), first, data)
    {
      hide ShardsOk, CleanOk, SizesOk, View, BlocksStored, BytesWritten, BytesMaybe, CleanKept, Torn, Harmless, Range;
      hide Kept, WrittenHome, Tracked;
      var n := |data| / PAGE_SIZE;
      ok := WriteFrames(device, first, data);
      if ok {
        DirectLoose(shards, pages, old(disk), disk, device, first, data);
        InvalidatePages(device, first, n);
        DirectView(old(pages), pages, old(disk), disk, device, first, data);
        DirectHome(committed, old(tracker), tracker, old(pages), pages, old(disk), disk, device, first, data,
          old(HeldBack()));
      } else {
        TornLoose(shards, pages, old(disk), disk, device, first, data);
        TornIsHarmless(pages, old(disk), device, first, data);
        TornHome(old(disk), disk, tracker, device, first, data, HeldBack());
        TornView(pages, old(disk), disk, device, first, data);
      }
    }

    /** One step of a byte-range write: a run of whole pages, or part of one page. Returns how many bytes
        it was for. */
    method WriteChunk(device: nat, pos: nat, data: seq<bv8>, garbage: Page) returns (ok: bool, n: nat, ghost torn: bool)
      requires Valid() && |garbage| == PAGE_SIZE && data != []
      modifies this`shards, this`pages, this`disk, this`dirtyPages, this`kicks, this`tracker
      ensures 0 < n <= |data| && (ok ==> !torn)
      ensures ok ==> Valid() && BytesWritten(old(Contents()), Contents(), device, pos, data[..n])
      ensures !ok && !torn ==> Valid() && Contents() == old(Contents())
      ensures old(TrackedOk()) ==> TrackedOk()
      ensures torn ==>
                BytesMaybe(old(Contents()), Contents(), device, pos, data[..n])
                && Consistent(Range(device, pos / PAGE_SIZE, n / PAGE_SIZE))
    {
      hide ShardsOk, CleanOk, SizesOk, View, BytesWritten, BytesMaybe, CleanKept, Splice, Range;
      ContentsSizes();
      var page, at := pos / PAGE_SIZE, pos % PAGE_SIZE;
      if at == 0 && |data| >= PAGE_SIZE {
        var pages := Min(|data| / PAGE_SIZE, MAX_RUN_PAGES);
        RunFits(|data|, pages);
        n := pages * PAGE_SIZE;
        ok := WriteDirect(device, page, data[..n]);
        torn := !ok;
        return;
      }
      n := Min(PAGE_SIZE - at, |data|);
      ghost var before := Contents();
      ok := PatchPage((device, page), at, data[..n], garbage);
      torn := false;
      if ok {
        PatchIsBytes(before, (device, page), at, data[..n]);
      }
    }

    /** Exactly the addressed bytes change. A failure part way leaves a prefix of them written; if it was a
        run of whole pages that failed, the next `torn` bytes are each old or new. */
    method WriteBytes(device: nat, offset: nat, data: seq<bv8>, garbage: Page)
        returns (ok: bool, ghost written: nat, ghost torn: nat)
      requires Valid() && |garbage| == PAGE_SIZE
      modifies this`shards, this`pages, this`disk, this`dirtyPages, this`kicks, this`tracker
      ensures written + torn <= |data| && (ok ==> written == |data|)
      ensures torn == 0 ==> Valid() && BytesWritten(old(Contents()), Contents(), device, offset, data[..written])
      ensures torn > 0 ==>
                BytesTorn(old(Contents()), Contents(), device, offset, data[..written], data[written..written + torn])
      ensures torn > 0 ==> Consistent(Range(device, (offset + written) / PAGE_SIZE, torn / PAGE_SIZE))
      ensures old(TrackedOk()) ==> TrackedOk()
    {
      hide ShardsOk, CleanOk, SizesOk, View, BytesWritten, BytesMaybe, BytesTorn, Range, Tracked;
      ContentsSizes();
      NothingWritten(Contents(), device, offset);
      assert data[..0] == [];
      var w := 0;
      while w < |data|
        invariant Valid() && w <= |data| && BytesWritten(old(Contents()), Contents(), device, offset, data[..w])
        invariant old(TrackedOk()) ==> TrackedOk()
      {
        ghost var before := Contents();
        var n;
        ghost var inDoubt;
        ok, n, inDoubt := WriteChunk(device, offset + w, data[w..], garbage);
        assert data[w..][..n] == data[w..w + n];
        if !ok {
          if inDoubt { TornFrom(old(Contents()), before, Contents(), device, offset, data[..w], data[w..w + n]); }
          return false, w, if inDoubt then n else 0;
        }
        BytesTwice(old(Contents()), before, Contents(), device, offset, data[..w], data[w..w + n]);
        assert data[..w] + data[w..w + n] == data[..w + n];
        w := w + n;
      }
      assert data[..w] == data;
      ok, written, torn := true, |data|, 0;
    }

    // ---- Reading ----

    /** One command over consecutive blocks into a staging buffer. */
    method ReadRun(device: nat, first: nat, len: nat) returns (buf: Option<seq<bv8>>)
      requires SizesOk(pages, disk)
      ensures buf.Some? ==> |buf.value| == len * PAGE_SIZE && forall i :: 0 <= i < len ==>
                BlockOf(buf.value, i, disk, device, first)
    {
      var ok: bool := *;
      if !ok {
        return None;
      }
      var bytes := [];
      for i := 0 to len
        invariant |bytes| == i * PAGE_SIZE && forall j :: 0 <= j < i ==> BlockOf(bytes, j, disk, device, first)
      {
        if (device, first + i) !in disk {
          return None;
        }
        BlockAppend(bytes, bytes + disk[(device, first + i)], disk, device, first, i);
        bytes := bytes + disk[(device, first + i)];
      }
      buf := Some(bytes);
    }

    /** Reads the missing pages a run at a time and scatters each run into its frames: the same bytes
        as reading them one by one. */
    method ReadMisses(device: nat, start: nat, miss: seq<nat>) returns (frames: Option<seq<Page>>)
      requires SizesOk(pages, disk) && Increasing(miss)
      ensures frames.Some? ==> |frames.value| == |miss|
      ensures frames.Some? ==> forall f :: 0 <= f < |miss| ==>
                (device, start + miss[f]) in disk && frames.value[f] == disk[(device, start + miss[f])]
    {
      hide SizesOk, RunOk, Block, BlockOf, Scattered;
      var runs := CoalesceRuns(miss);
      assert Scattered(miss, [], disk, device, start) by { NoneScattered(miss, disk, device, start); }
      var all: seq<Page> := [];
      for r := 0 to |runs|
        invariant |all| == if r == 0 then 0 else runs[r - 1].first + runs[r - 1].len
        invariant |all| <= |miss| && Scattered(miss, all, disk, device, start)
      {
        var run := runs[r];
        assert RunOk(miss, run) && FollowsOn(runs, r);
        RunBounds(miss, run);
        var from := start + miss[run.first];
        var buf := ReadRun(device, from, run.len);
        if buf.None? {
          return None;
        }
        for i := 0 to run.len
          invariant |all| == run.first + i && Scattered(miss, all, disk, device, start)
        {
          ScatterOne(miss, all, disk, device, start, run, from, buf.value, i);
          all := all + [Block(buf.value, i)];
        }
      }
      ScatteredAll(miss, all, disk, device, start);
      frames := Some(all);
    }

    /** Looks up each page of the range, listing the ones not cached. */
    method Probe(device: nat, start: nat, count: nat) returns (found: seq<Option<Page>>, miss: seq<nat>)
      requires Valid()
      modifies this`shards
      ensures Valid() && |found| == count && Increasing(miss)
      ensures forall f :: 0 <= f < |miss| ==> miss[f] < count
      ensures forall i :: 0 <= i < count && found[i].None? ==> i in miss
      ensures forall i :: 0 <= i < count && found[i].Some? ==>
                (device, start + i) in pages && found[i].value == pages[(device, start + i)].data
    {
      hide ShardsOk, CleanOk, SizesOk;
      found, miss := [], [];
      for i := 0 to count
        invariant Valid() && |found| == i && Increasing(miss)
        invariant forall f :: 0 <= f < |miss| ==> miss[f] < i
        invariant forall j :: 0 <= j < i && found[j].None? ==> j in miss
        invariant forall j :: 0 <= j < i && found[j].Some? ==>
                    (device, start + j) in pages && found[j].value == pages[(device, start + j)].data
      {
        var k := (device, start + i);
        if k in pages {
          TouchOk(shards, pages, {}, k);
          ShardCount(shards, pages);
          shards := Touched(shards, k);
          found := found + [Some(pages[k].data)];
        } else {
          found, miss := found + [None], miss + [i];
        }
      }
    }

    /** Inserts the pages just read, as far as there is room; the cache's view does not move. */
    method FillMisses(device: nat, start: nat, found: seq<Option<Page>>, miss: seq<nat>, frames: seq<Page>)
        returns (all: seq<Option<Page>>)
      requires Valid() && |frames| == |miss| && (forall f :: 0 <= f < |miss| ==> miss[f] < |found|)
      requires forall f :: 0 <= f < |miss| ==>
                 (device, start + miss[f]) in disk && frames[f] == disk[(device, start + miss[f])]
      modifies this`shards, this`pages, this`kicks
      ensures Valid() && Contents() == old(Contents()) && |all| == |found|
      ensures forall i :: 0 <= i < |all| ==> all[i] == found[i] || HasPage(old(Contents()), device, start + i, all[i])
      ensures forall i :: 0 <= i < |all| && (i in miss || found[i].Some?) ==> all[i].Some?
      ensures old(TrackedOk()) ==> TrackedOk()
    {
      hide ShardsOk, CleanOk, SizesOk, View, Evicted, HasPage, Tracked, DirtyStay;
      all := found;
      for f := 0 to |miss|
        invariant Valid() && Contents() == old(Contents()) && |all| == |found|
        invariant forall i :: 0 <= i < |all| ==>
                    all[i] == found[i] || HasPage(old(Contents()), device, start + i, all[i])
        invariant forall i :: 0 <= i < |all| && (i in miss[..f] || found[i].Some?) ==> all[i].Some?
        invariant old(TrackedOk()) ==> TrackedOk()
      {
        var k := (device, start + miss[f]);
        DiskSize(pages, disk, k);
        ghost var before := pages;
        var cached := InsertOrResolveRace(k, frames[f]);
        if k !in before { InsertedView(before, pages, disk, k, frames[f], cached); }
        if old(TrackedOk()) { StayTracked(committed, tracker, before, pages); }
        ViewAt(pages, disk, k);
        assert miss[..f + 1] == miss[..f] + [miss[f]];
        all := all[miss[f] := Some(if cached then pages[k].data else frames[f])];
        PageThere(old(Contents()), k, all[miss[f]]);
      }
      assert miss[..|miss|] == miss;
    }

    /** Every page of the range as the view has it, whatever was cached and however the misses were
        grouped into commands. */
    method ReadPages(device: nat, start: nat, count: nat) returns (r: Option<seq<Page>>)
      requires Valid()
      modifies this`shards, this`pages, this`kicks
      ensures Valid() && Contents() == old(Contents())
      ensures r.Some? ==> |r.value| == count && PagesRead(old(Contents()), device, start, r.value)
      ensures old(TrackedOk()) ==> TrackedOk()
    {
      hide ShardsOk, CleanOk, SizesOk, View, HasPage, Increasing, Tracked;
      var found, miss := Probe(device, start, count);
      var framed: bool := *;
      if !framed {
        return None;
      }
      var frames := ReadMisses(device, start, miss);
      if frames.None? {
        return None;
      }
      ghost var v := Contents();
      forall i | 0 <= i < count && found[i].Some? ensures HasPage(v, device, start + i, found[i]) {
        ViewAt(pages, disk, (device, start + i));
        PageThere(v, (device, start + i), found[i]);
      }
      var all := FillMisses(device, start, found, miss, frames.value);
      assert forall i :: 0 <= i < count ==> all[i].Some?;
      r := Some(seq(count, i requires 0 <= i < count => all[i].value));
      PagesTogether(v, device, start, all, r.value);
    }

    /** Exactly the bytes [offset, offset + len) of the view. */
    method ReadBytes(device: nat, offset: nat, len: nat) returns (r: Option<seq<bv8>>)
      requires Valid()
      modifies this`shards, this`pages, this`kicks
      ensures Valid() && Contents() == old(Contents())
      ensures r.Some? ==> |r.value| == len && BytesRead(old(Contents()), device, offset, r.value)
      ensures old(TrackedOk()) ==> TrackedOk()
    {
      hide ShardsOk, CleanOk, SizesOk, View, PagesRead, BytesRead, Tracked;
      ghost var v := Contents();
      ContentsSizes();
      var out := [];
      NoBytes(v, device, offset);
      while |out| < len
        invariant Valid() && Contents() == v && |out| <= len && BytesRead(v, device, offset, out)
        invariant old(TrackedOk()) ==> TrackedOk()
        decreases len - |out|
      {
        var pos := offset + |out|;
        var first, at := pos / PAGE_SIZE, pos % PAGE_SIZE;
        var count := Min((at + (len - |out|) + PAGE_SIZE - 1) / PAGE_SIZE, MAX_RUN_PAGES);
        BatchCount(at, len - |out|, count);
        var pages := ReadPages(device, first, count);
        if pages.None? {
          return None;
        }
        var i := 0;
        ghost var had := |out|;
        while i < count
          invariant Valid() && Contents() == v && i <= count && had <= |out| <= len && BytesRead(v, device, offset, out)
          invariant (i > 0 ==> had < |out|) && (old(TrackedOk()) ==> TrackedOk())
          invariant |out| < len ==> offset + |out| == (first + i) * PAGE_SIZE + if i == 0 then at else 0
          invariant |out| == len ==> at + (len - had) <= i * PAGE_SIZE
          invariant i < count ==> (i * PAGE_SIZE < at + (len - had))
        {
          assert |out| < len;
          var from := if i == 0 then at else 0;
          var chunk := Min(PAGE_SIZE - from, len - |out|);
          PageOf(v, device, first, pages.value, i);
          TakeChunk(v, device, offset, out, first + i, from, chunk, pages.value[i]);
          out := out + pages.value[i][from..from + chunk];
          i := i + 1;
        }
      }
      r := Some(out);
    }
  }

  /** `p` is the view's page `n`. */
  ghost predicate HasPage(v: map<Key, Page>, device: nat, n: nat, p: Option<Page>) {
    p.Some? && (device, n) in v && p.value == v[(device, n)]
  }

  lemma PageThere(v: map<Key, Page>, k: Key, p: Option<Page>)
    requires k in v && p == Some(v[k])
    ensures HasPage(v, k.0, k.1, p)
  {
  }

  ghost predicate PagesRead(v: map<Key, Page>, device: nat, start: nat, pages: seq<Page>) {
    forall i :: 0 <= i < |pages| ==> HasPage(v, device, start + i, Some(pages[i]))
  }

  lemma PagesTogether(v: map<Key, Page>, device: nat, start: nat, all: seq<Option<Page>>, pages: seq<Page>)
    requires |all| == |pages| && forall i :: 0 <= i < |all| ==>
               HasPage(v, device, start + i, all[i]) && pages[i] == all[i].value
    ensures PagesRead(v, device, start, pages)
  {
    forall i | 0 <= i < |pages| ensures HasPage(v, device, start + i, Some(pages[i])) {
      assert HasPage(v, device, start + i, all[i]);
    }
  }

  lemma PageOf(v: map<Key, Page>, device: nat, start: nat, pages: seq<Page>, i: nat)
    requires PagesRead(v, device, start, pages) && i < |pages|
    ensures (device, start + i) in v && pages[i] == v[(device, start + i)]
  {
  }

  ghost predicate BytesRead(v: map<Key, Page>, device: nat, offset: nat, out: seq<bv8>) {
    AllPages(v) && forall i :: 0 <= i < |out| ==> ByteIs(v, device, offset + i, out[i])
  }

  /** The device's byte at `pos` is `b`. */
  ghost predicate ByteIs(v: map<Key, Page>, device: nat, pos: nat, b: bv8)
    requires AllPages(v)
  {
    (device, pos / PAGE_SIZE) in v && v[(device, pos / PAGE_SIZE)][pos % PAGE_SIZE] == b
  }

  lemma NoBytes(v: map<Key, Page>, device: nat, offset: nat)
    requires AllPages(v)
    ensures BytesRead(v, device, offset, [])
  {
  }

  lemma BatchCount(at: nat, left: nat, count: nat)
    requires at < PAGE_SIZE && left > 0 && count == Min((at + left + PAGE_SIZE - 1) / PAGE_SIZE, MAX_RUN_PAGES)
    ensures count > 0 && (count - 1) * PAGE_SIZE < at + left
  {
  }

  lemma TakeChunk(v: map<Key, Page>, device: nat, offset: nat, out: seq<bv8>, page: nat, from: nat, chunk: nat, p: Page)
    requires BytesRead(v, device, offset, out) && from + chunk <= PAGE_SIZE
    requires (device, page) in v && p == v[(device, page)] && offset + |out| == page * PAGE_SIZE + from
    ensures |p| == PAGE_SIZE && BytesRead(v, device, offset, out + p[from..from + chunk])
  {
    var more := out + p[from..from + chunk];
    forall i | 0 <= i < |more| ensures ByteIs(v, device, offset + i, more[i]) {
      if i < |out| {
        assert ByteIs(v, device, offset + i, out[i]);
      } else {
        InPage(page, from + i - |out|, offset + i);
      }
    }
  }

  lemma InPage(page: nat, j: nat, pos: nat)
    requires j < PAGE_SIZE && pos == page * PAGE_SIZE + j
    ensures pos / PAGE_SIZE == page && pos % PAGE_SIZE == j
  {
  }

  /** The `i`-th block of the buffer is the disk's `i`-th from `first`. */
  ghost predicate BlockOf(buf: seq<bv8>, i: nat, disk: Disk, device: nat, first: nat) {
    (i + 1) * PAGE_SIZE <= |buf| && (device, first + i) in disk && Block(buf, i) == disk[(device, first + i)]
  }

  lemma BlockAppend(bytes: seq<bv8>, more: seq<bv8>, disk: Disk, device: nat, first: nat, n: nat)
    requires |bytes| == n * PAGE_SIZE && (device, first + n) in disk && |disk[(device, first + n)]| == PAGE_SIZE
    requires forall j :: 0 <= j < n ==> BlockOf(bytes, j, disk, device, first)
    requires more == bytes + disk[(device, first + n)]
    ensures forall j :: 0 <= j < n + 1 ==> BlockOf(more, j, disk, device, first)
  {
    forall j | 0 <= j < n + 1 ensures BlockOf(more, j, disk, device, first) {
      if j < n {
        assert BlockOf(bytes, j, disk, device, first);
        assert Block(more, j) == Block(bytes, j);
      } else {
        assert Block(more, j) == disk[(device, first + n)];
      }
    }
  }

  /** The first frames hold the disk's pages for the first misses. */
  ghost predicate Scattered(miss: seq<nat>, frames: seq<Page>, disk: Disk, device: nat, start: nat) {
    |frames| <= |miss| && forall f :: 0 <= f < |frames| ==>
      (device, start + miss[f]) in disk && frames[f] == disk[(device, start + miss[f])]
  }

  lemma NoneScattered(miss: seq<nat>, disk: Disk, device: nat, start: nat)
    ensures Scattered(miss, [], disk, device, start)
  {
  }

  lemma ScatteredAll(miss: seq<nat>, frames: seq<Page>, disk: Disk, device: nat, start: nat)
    requires Scattered(miss, frames, disk, device, start)
    ensures forall f :: 0 <= f < |frames| ==>
              (device, start + miss[f]) in disk && frames[f] == disk[(device, start + miss[f])]
  {
  }

  lemma ScatterOne(miss: seq<nat>, frames: seq<Page>, disk: Disk, device: nat, start: nat, run: Run, from: nat,
                   buf: seq<bv8>, i: nat)
    requires RunOk(miss, run) && i < run.len && |frames| == run.first + i
               && Scattered(miss, frames, disk, device, start)
    requires from == start + miss[run.first] && forall j :: 0 <= j < run.len ==> BlockOf(buf, j, disk, device, from)
    ensures (i + 1) * PAGE_SIZE <= |buf| && Scattered(miss, frames + [Block(buf, i)], disk, device, start)
  {
    hide Block;
    assert BlockOf(buf, i, disk, device, from);
    assert miss[run.first + i] == miss[run.first] + i;
  }

  ghost predicate Increasing(miss: seq<nat>) { forall i, j :: 0 <= i < j < |miss| ==> miss[i] < miss[j] }

  datatype Run = Run(first: nat, len: nat)

  function RunEnd(runs: seq<Run>): nat { if runs == [] then 0 else runs[|runs| - 1].first + runs[|runs| - 1].len }

  /** A run covers consecutive pages, no more than one command carries. */
  ghost predicate RunOk(miss: seq<nat>, run: Run) {
    && 0 < run.len <= MAX_RUN_PAGES && run.first + run.len <= |miss|
    && forall f :: run.first <= f < run.first + run.len ==> miss[f] == miss[run.first] + f - run.first
  }

  /** The runs cover the misses in order, each exactly once. */
  ghost predicate RunsOk(miss: seq<nat>, runs: seq<Run>) {
    && (forall r :: 0 <= r < |runs| ==> RunOk(miss, runs[r]))
    && (forall r :: 0 <= r < |runs| ==> FollowsOn(runs, r))
  }

  ghost predicate FollowsOn(runs: seq<Run>, r: nat)
    requires r < |runs|
  {
    runs[r].first == if r == 0 then 0 else runs[r - 1].first + runs[r - 1].len
  }

  method CoalesceRuns(miss: seq<nat>) returns (runs: seq<Run>)
    ensures RunsOk(miss, runs) && RunEnd(runs) == |miss|
  {
    hide RunOk, RunsOk;
    runs := [];
    assert RunsOk(miss, runs) by { NoRuns(miss); }
    for f := 0 to |miss|
      invariant RunsOk(miss, runs) && RunEnd(runs) == f
    {
      var n := |runs| - 1;
      RunFacts(miss, runs);
      if n >= 0 && miss[runs[n].first + runs[n].len - 1] + 1 == miss[f] && runs[n].len < MAX_RUN_PAGES {
        ExtendRun(miss, runs[n]);
        RunsPop(miss, runs);
        RunsPush(miss, runs[..n], Run(runs[n].first, runs[n].len + 1));
        runs := runs[..n] + [Run(runs[n].first, runs[n].len + 1)];
      } else {
        StartRun(miss, f);
        RunsPush(miss, runs, Run(f, 1));
        runs := runs + [Run(f, 1)];
      }
    }
  }

  lemma NoRuns(miss: seq<nat>)
    ensures RunsOk(miss, [])
  {
  }

  lemma RunsPush(miss: seq<nat>, runs: seq<Run>, run: Run)
    requires RunsOk(miss, runs) && RunOk(miss, run) && run.first == RunEnd(runs)
    ensures RunsOk(miss, runs + [run]) && RunEnd(runs + [run]) == run.first + run.len
  {
    hide RunOk;
    var more := runs + [run];
    forall r | 0 <= r < |more| ensures RunOk(miss, more[r]) { if r < |runs| { assert more[r] == runs[r]; } }
    forall r | 0 <= r < |more| ensures FollowsOn(more, r) {
      if r < |runs| { assert more[r] == runs[r] && FollowsOn(runs, r); }
      if r > 0 { assert more[r - 1] == runs[r - 1]; }
    }
  }

  lemma RunsPop(miss: seq<nat>, runs: seq<Run>)
    requires RunsOk(miss, runs) && runs != []
    ensures RunsOk(miss, runs[..|runs| - 1]) && RunEnd(runs[..|runs| - 1]) == runs[|runs| - 1].first
  {
    hide RunOk;
    var n := |runs| - 1;
    var less := runs[..n];
    forall r | 0 <= r < n ensures RunOk(miss, less[r]) && FollowsOn(less, r) {
      assert less[r] == runs[r] && FollowsOn(runs, r);
      if r > 0 { assert less[r - 1] == runs[r - 1]; }
    }
    if n > 0 { assert less[n - 1] == runs[n - 1]; }
    assert FollowsOn(runs, n);
  }

  lemma RunBounds(miss: seq<nat>, run: Run)
    requires RunOk(miss, run)
    ensures 0 < run.len && run.first + run.len <= |miss|
  {
  }

  lemma RunFacts(miss: seq<nat>, runs: seq<Run>)
    requires RunsOk(miss, runs)
    ensures runs != [] ==> RunEnd(runs) > 0 && RunOk(miss, runs[|runs| - 1]) && runs[|runs| - 1].len > 0
  {
  }

  lemma ExtendRun(miss: seq<nat>, run: Run)
    requires RunOk(miss, run) && run.first + run.len < |miss| && run.len < MAX_RUN_PAGES
               && miss[run.first + run.len - 1] + 1 == miss[run.first + run.len]
    ensures RunOk(miss, Run(run.first, run.len + 1))
  {
  }

  lemma StartRun(miss: seq<nat>, f: nat)
    requires f < |miss|
    ensures RunOk(miss, Run(f, 1))
  {
  }

  function Min(a: nat, b: nat): nat { if a < b then a else b }

  lemma RunFits(left: nat, pages: nat)
    requires left >= PAGE_SIZE && pages == Min(left / PAGE_SIZE, MAX_RUN_PAGES)
    ensures 0 < pages * PAGE_SIZE <= left && pages * PAGE_SIZE % PAGE_SIZE == 0
  {
  }

  function Block(data: seq<bv8>, i: nat): (r: Page)
    requires (i + 1) * PAGE_SIZE <= |data|
    ensures |r| == PAGE_SIZE
  {
    data[i * PAGE_SIZE..(i + 1) * PAGE_SIZE]
  }

  /** The first `n` blocks of `data` have been stored from block `first` on. */
  ghost predicate BlocksStored(disk: Disk, disk': Disk, device: nat, first: nat, data: seq<bv8>, n: nat) {
    && n * PAGE_SIZE <= |data| && disk'.Keys == disk.Keys
    && (forall k: Key {:trigger disk'[k]} :: k in disk ==>
        disk'[k] == if k.0 == device && first <= k.1 < first + n then Block(data, k.1 - first) else disk[k])
    && (forall j {:trigger (device, j) in disk} :: first <= j < first + n ==> (device, j) in disk)
  }

  lemma NoneStored(disk: Disk, device: nat, first: nat, data: seq<bv8>)
    ensures BlocksStored(disk, disk, device, first, data, 0)
  {
  }

  lemma StoreOne(disk: Disk, disk': Disk, device: nat, first: nat, data: seq<bv8>, i: nat)
    requires BlocksStored(disk, disk', device, first, data, i) && (device, first + i) in disk
               && (i + 1) * PAGE_SIZE <= |data|
    ensures BlocksStored(disk, disk'[(device, first + i) := Block(data, i)], device, first, data, i + 1)
  {
    hide Block;
  }

  /** Some of the blocks of `data` have been stored from block `first` on. */
  ghost predicate Torn(disk: Disk, disk': Disk, device: nat, first: nat, data: seq<bv8>) {
    && disk'.Keys == disk.Keys
    && forall k: Key {:trigger disk'[k]} :: k in disk ==>
        disk'[k] == disk[k] || TornBlock(disk'[k], k, device, first, data)
  }

  ghost predicate TornBlock(p: Page, k: Key, device: nat, first: nat, data: seq<bv8>) {
    k.0 == device && first <= k.1 && (k.1 - first + 1) * PAGE_SIZE <= |data| && p == Block(data, k.1 - first)
  }

  lemma NoneTorn(disk: Disk, device: nat, first: nat, data: seq<bv8>)
    ensures Torn(disk, disk, device, first, data)
  {
  }

  lemma BlockFits(data: seq<bv8>, i: nat)
    requires i < |data| / PAGE_SIZE
    ensures (i + 1) * PAGE_SIZE <= |data|
  {
  }

  lemma TearOne(disk: Disk, disk': Disk, device: nat, first: nat, data: seq<bv8>, i: nat)
    requires Torn(disk, disk', device, first, data) && (i + 1) * PAGE_SIZE <= |data| && (device, first + i) in disk'
    ensures Torn(disk, disk'[(device, first + i) := Block(data, i)], device, first, data) && (device, first + i) in disk
  {
  }

  /** Every clean page cached inside the run holds already what the run writes there. */
  predicate Harmless(pages: map<Key, Cached>, device: nat, first: nat, data: seq<bv8>) {
    forall k: Key {:trigger pages[k]} :: k in pages && !pages[k].dirty && InDirect(k, device, first, data) ==>
      pages[k].data == Block(data, k.1 - first)
  }

  predicate InDirect(k: Key, device: nat, first: nat, data: seq<bv8>) {
    k.0 == device && first <= k.1 && (k.1 - first + 1) * PAGE_SIZE <= |data|
  }

  /** Whatever a failing run of whole pages stores, clean pages stay the disk's: exactly if the run was
      harmless to begin with. */
  lemma TornIsHarmless(pages: map<Key, Cached>, disk: Disk, device: nat, first: nat, data: seq<bv8>)
    requires CleanOk(pages, disk, {})
    ensures (forall disk' :: Torn(disk, disk', device, first, data) ==> CleanOk(pages, disk', {}))
            <==> Harmless(pages, device, first, data)
  {
    hide Block;
    if Harmless(pages, device, first, data) {
      forall disk' | Torn(disk, disk', device, first, data) ensures CleanOk(pages, disk', {}) {
        forall k | k in pages && !pages[k].dirty ensures k in disk' && disk'[k] == pages[k].data { assert k in disk; }
      }
    } else {
      var k: Key :| k in pages && !pages[k].dirty && InDirect(k, device, first, data)
          && pages[k].data != Block(data, k.1 - first);
      var disk' := disk[k := Block(data, k.1 - first)];
      assert Torn(disk, disk', device, first, data) && disk'[k] != pages[k].data;
    }
  }

  /** A clean page that no longer agrees with its block: evicting it changes what a reader sees. */
  lemma EvictingStaleShows(pages: map<Key, Cached>, disk: Disk, k: Key)
    requires k in pages && !pages[k].dirty && pages[k].pins == 0 && k in disk
    ensures Evicted(pages, pages - {k})
    ensures View(pages - {k}, disk) == View(pages, disk) <==> disk[k] == pages[k].data
  {
    var v, v' := View(pages, disk), View(pages - {k}, disk);
    assert k in v && k in v' && v[k] == pages[k].data && v'[k] == disk[k];
    if disk[k] == pages[k].data { assert forall j :: j in v ==> j in v' && v'[j] == v[j]; assert v == v'; }
  }

  function Filled(b: bv8): (r: Page)
    ensures |r| == PAGE_SIZE && forall i :: 0 <= i < PAGE_SIZE ==> r[i] == b
  {
    seq(PAGE_SIZE, _ => b)
  }

  /** As one input: a run of ones over a block of zeros that is cached and clean. The device stores the block
      and reports an error; the cache still shows zeros, until it evicts the page. */
  lemma StaleAfterFailedRun()
    ensures var k: Key := (0, 0);
            var pages, disk, disk' := map[k := Cached(Filled(0), false, 0)], map[k := Filled(0)], map[k := Filled(1)];
            && CleanOk(pages, disk, {}) && Torn(disk, disk', 0, 0, Filled(1)) && !CleanOk(pages, disk', {})
            && View(pages, disk')[k] == Filled(0) && View(pages - {k}, disk')[k] == Filled(1)
                && Evicted(pages, pages - {k})
  {
    var k: Key := (0, 0);
    var pages, disk, disk' := map[k := Cached(Filled(0), false, 0)], map[k := Filled(0)], map[k := Filled(1)];
    assert Filled(0)[0] != Filled(1)[0];
    assert Block(Filled(1), 0) == Filled(1);
    assert TornBlock(disk'[k], k, 0, 0, Filled(1));
    assert pages[k].data == Filled(0);
    EvictingStaleShows(pages, disk', k);
  }

  /** A block is written, enrolled in transaction 1 of a journal that has committed nothing, and so held back.
      A direct write of its page puts it home all the same. */
  method HeldBackGoesHome(garbage: Page) returns (cache: Cache, wrote: bool, ghost before: set<Key>)
    requires |garbage| == PAGE_SIZE
    ensures wrote ==> (0, 0) in before && (0, 0) in cache.disk && cache.disk[(0, 0)] == Filled(2)
    ensures wrote ==> cache.committed == map[0 := 0] && (0, 0) !in cache.tracker
  {
    hide ShardsOk, CleanOk, SizesOk, ShardIndex, View, Tracked, Kept, BytesWritten, BytesMaybe;
    var k: Key := (0, 0);
    before := {};
    cache := new Cache(map[k := Filled(0)]);
    cache.RegisterDevice(0, 0);
    wrote := cache.WritePage(k, Filled(1), garbage);
    if !wrote || k !in cache.pages {
      return cache, false, {};
    }
    cache.Enrol(k, 1);
    before := cache.HeldBack();
    wrote := cache.WriteDirect(0, 0, Filled(2));
    RangeKeys(0, 0, 1);
    assert Block(Filled(2), 0) == Filled(2);
  }

  /** The blocks of `keys` now hold the run's data at home and are tracked no longer. */
  ghost predicate WrittenHome(disk: Disk, tracker: map<Key, nat>, keys: set<Key>, first: nat, data: seq<bv8>) {
    forall k: Key :: k in keys ==>
      && first <= k.1 && (k.1 - first + 1) * PAGE_SIZE <= |data|
      && k in disk && disk[k] == Block(data, k.1 - first) && k !in tracker
  }

  lemma DirectHome(committed: map<nat, nat>, tracker: map<Key, nat>, tracker': map<Key, nat>, pages: map<Key, Cached>,
                   pages': map<Key, Cached>, disk: Disk, disk': Disk, device: nat, first: nat, data: seq<bv8>,
                     held: set<Key>)
    requires |data| % PAGE_SIZE == 0 && BlocksStored(disk, disk', device, first, data, |data| / PAGE_SIZE)
    requires pages' == pages - Range(device, first, |data| / PAGE_SIZE)
    requires tracker' == if device in committed then tracker - Range(device, first, |data| / PAGE_SIZE) else tracker
    requires forall k :: k in held ==> k in tracker && k.0 in committed
    ensures Tracked(committed, tracker, pages) ==> Tracked(committed, tracker', pages')
    ensures Kept(disk, disk', tracker, tracker', held - Range(device, first, |data| / PAGE_SIZE))
    ensures WrittenHome(disk', tracker', held * Range(device, first, |data| / PAGE_SIZE), first, data)
  {
    hide Block;
    RangeKeys(device, first, |data| / PAGE_SIZE);
    forall k: Key | k in held * Range(device, first, |data| / PAGE_SIZE)
      ensures (k.1 - first + 1) * PAGE_SIZE <= |data| && k in disk' && disk'[k] == Block(data, k.1 - first)
    {
      BlockFits(data, k.1 - first);
      assert (device, k.1) in disk;
    }
  }

  lemma TornHome(disk: Disk, disk': Disk, tracker: map<Key, nat>, device: nat, first: nat, data: seq<bv8>,
                 held: set<Key>)
    requires Torn(disk, disk', device, first, data)
    ensures Kept(disk, disk', tracker, tracker, held - Range(device, first, |data| / PAGE_SIZE))
  {
    hide Block;
    forall k | k in held && k !in Range(device, first, |data| / PAGE_SIZE) && k in disk ensures disk'[k] == disk[k] {
      if TornBlock(disk'[k], k, device, first, data) { InRun(device, first, data, k); }
    }
  }

  /** No clean page's block changed under it. */
  ghost predicate CleanKept(pages: map<Key, Cached>, disk: Disk, disk': Disk) {
    forall k {:trigger pages[k]} :: k in pages && !pages[k].dirty ==> k in disk && k in disk' && disk'[k] == disk[k]
  }

  lemma TornLoose(shards: seq<Shard>, pages: map<Key, Cached>, disk: Disk, disk': Disk, device: nat, first: nat,
                  data: seq<bv8>)
    requires ShardsOk(shards, pages, {}) && CleanOk(pages, disk, {}) && SizesOk(pages, disk)
    requires Torn(disk, disk', device, first, data) && |data| % PAGE_SIZE == 0
    ensures var loose := Range(device, first, |data| / PAGE_SIZE);
            ShardsOk(shards, pages, loose) && CleanOk(pages, disk', loose)
    ensures SizesOk(pages, disk') && (CleanOk(pages, disk', {}) <==> CleanKept(pages, disk, disk'))
  {
    LooserShards(shards, pages, {}, Range(device, first, |data| / PAGE_SIZE));
    hide ShardsOk, Block;
    forall k: Key | k in disk && k !in Range(device, first, |data| / PAGE_SIZE) ensures disk'[k] == disk[k] {
      if TornBlock(disk'[k], k, device, first, data) { InRun(device, first, data, k); }
    }
  }

  lemma InRun(device: nat, first: nat, data: seq<bv8>, k: Key)
    requires k.0 == device && first <= k.1 && (k.1 - first + 1) * PAGE_SIZE <= |data|
    ensures k in Range(device, first, |data| / PAGE_SIZE)
  {
    assert k.1 - first + 1 <= |data| / PAGE_SIZE;
    assert k == (device, k.1);
  }

  lemma TornView(pages: map<Key, Cached>, disk: Disk, disk': Disk, device: nat, first: nat, data: seq<bv8>)
    requires SizesOk(pages, disk) && SizesOk(pages, disk') && Torn(disk, disk', device, first, data)
               && |data| % PAGE_SIZE == 0
    ensures BytesMaybe(View(pages, disk), View(pages, disk'), device, first * PAGE_SIZE, data)
  {
    ViewSizes(pages, disk);
    ViewSizes(pages, disk');
    hide PageMaybe, Block;
    var v, v' := View(pages, disk), View(pages, disk');
    forall k: Key | k in v ensures PageMaybe(v[k], v'[k], k.0 == device, k.1, first * PAGE_SIZE, data) {
      if v'[k] == v[k] { SamePage(v[k], k.0 == device, k.1, first * PAGE_SIZE, data); }
      else { TornPage(v[k], v'[k], k, device, first, data); }
    }
  }

  lemma SamePage(p: Page, here: bool, page: nat, offset: nat, bytes: seq<bv8>)
    requires |p| == PAGE_SIZE
    ensures PageMaybe(p, p, here, page, offset, bytes)
  {
  }

  lemma TornPage(p: Page, p': Page, k: Key, device: nat, first: nat, data: seq<bv8>)
    requires |p| == PAGE_SIZE && TornBlock(p', k, device, first, data)
    ensures PageMaybe(p, p', k.0 == device, k.1, first * PAGE_SIZE, data)
  {
    forall j | 0 <= j < PAGE_SIZE ensures MaybeByte(p[j], p'[j], true, k.1 * PAGE_SIZE + j, first * PAGE_SIZE, data) {
      ByteOfBlock(data, k.1, first, j);
      hide Block;
      assert (k.1 - first) * PAGE_SIZE == k.1 * PAGE_SIZE - first * PAGE_SIZE;
    }
  }

  /** Bytes outside [offset, offset + |bytes|) are as they were; each inside is as it was or as in `bytes`. */
  ghost predicate BytesMaybe(v: map<Key, Page>, v': map<Key, Page>, device: nat, offset: nat, bytes: seq<bv8>) {
    && v'.Keys == v.Keys && AllPages(v) && AllPages(v')
    && forall k: Key {:trigger v'[k]} :: k in v ==> PageMaybe(v[k], v'[k], k.0 == device, k.1, offset, bytes)
  }

  ghost predicate PageMaybe(p: Page, p': Page, here: bool, page: nat, offset: nat, bytes: seq<bv8>) {
    && |p| == PAGE_SIZE && |p'| == PAGE_SIZE
    && forall j {:trigger p'[j]} :: 0 <= j < PAGE_SIZE ==>
        MaybeByte(p[j], p'[j], here, page * PAGE_SIZE + j, offset, bytes)
  }

  ghost predicate MaybeByte(b: bv8, b': bv8, here: bool, at: nat, offset: nat, bytes: seq<bv8>) {
    b' == b || (here && offset <= at < offset + |bytes| && b' == bytes[at - offset])
  }

  /** `x` written from `offset` on, and then `y` perhaps. */
  ghost predicate BytesTorn(v: map<Key, Page>, v': map<Key, Page>, device: nat, offset: nat, x: seq<bv8>, y: seq<bv8>) {
    exists mid {:trigger BytesWritten(v, mid, device, offset, x)} :: BytesWritten(v, mid, device, offset, x)
      && BytesMaybe(mid, v', device, offset + |x|, y)
  }

  lemma TornFrom(v: map<Key, Page>, mid: map<Key, Page>, v': map<Key, Page>, device: nat, offset: nat, x: seq<bv8>,
                 y: seq<bv8>)
    requires BytesWritten(v, mid, device, offset, x) && BytesMaybe(mid, v', device, offset + |x|, y)
    ensures BytesTorn(v, v', device, offset, x, y)
  {
  }

  ghost function Range(device: nat, first: nat, count: nat): set<Key> {
    set j | first <= j < first + count :: (device, j)
  }

  lemma RangeKeys(device: nat, first: nat, count: nat)
    ensures forall k: Key :: k in Range(device, first, count) <==> k.0 == device && first <= k.1 < first + count
  {
  }

  lemma RangeNext(device: nat, first: nat, i: nat)
    ensures Range(device, first, i + 1) == Range(device, first, i) + {(device, first + i)}
  {
  }

  lemma MinusNone<V>(m: map<Key, V>, device: nat, first: nat)
    ensures m - Range(device, first, 0) == m
  {
    RangeKeys(device, first, 0);
  }

  lemma MinusNext<V>(m: map<Key, V>, device: nat, first: nat, i: nat)
    ensures (m - Range(device, first, i)) - {(device, first + i)} == m - Range(device, first, i + 1)
  {
    RangeNext(device, first, i);
  }

  lemma DropClean(pages: map<Key, Cached>, disk: Disk, loose: set<Key>, k: Key)
    requires CleanOk(pages, disk, loose) && SizesOk(pages, disk)
    ensures CleanOk(pages - {k}, disk, loose) && SizesOk(pages - {k}, disk)
  {
  }

  lemma LooseGone(shards: seq<Shard>, pages: map<Key, Cached>, disk: Disk, loose: set<Key>)
    requires ShardsOk(shards, pages, loose) && CleanOk(pages, disk, loose) && forall k :: k in loose ==> k !in pages
    ensures ShardsOk(shards, pages, {}) && CleanOk(pages, disk, {})
  {
    forall i | 0 <= i < NUM_SHARDS ensures ShardOk(shards[i], i, pages, {}) {
      assert ShardOk(shards[i], i, pages, loose);
    }
  }

  /** After a direct write only the blocks written can disagree with their cached copies. */
  lemma DirectLoose(shards: seq<Shard>, pages: map<Key, Cached>, disk: Disk, disk': Disk, device: nat, first: nat,
                    data: seq<bv8>)
    requires ShardsOk(shards, pages, {}) && CleanOk(pages, disk, {}) && SizesOk(pages, disk)
    requires BlocksStored(disk, disk', device, first, data, |data| / PAGE_SIZE)
    ensures var loose := Range(device, first, |data| / PAGE_SIZE);
            ShardsOk(shards, pages, loose) && CleanOk(pages, disk', loose) && SizesOk(pages, disk')
  {
    LooserShards(shards, pages, {}, Range(device, first, |data| / PAGE_SIZE));
  }

  lemma DirectView(pages: map<Key, Cached>, pages': map<Key, Cached>, disk: Disk, disk': Disk, device: nat, first: nat,
                   data: seq<bv8>)
    requires SizesOk(pages, disk) && SizesOk(pages', disk') && |data| % PAGE_SIZE == 0
    requires BlocksStored(disk, disk', device, first, data, |data| / PAGE_SIZE)
               && pages' == pages - Range(device, first, |data| / PAGE_SIZE)
    ensures BytesWritten(View(pages, disk), View(pages', disk'), device, first * PAGE_SIZE, data)
  {
    ViewSizes(pages, disk);
    ViewSizes(pages', disk');
    DirectPages(pages, pages', disk, disk', device, first, data);
    hide View, BlocksStored, SizesOk;
    BlocksAreBytes(View(pages, disk), View(pages', disk'), device, first, data);
  }

  /** Whole blocks of `data` in place of the view's. */
  ghost predicate BlocksReplaced(v: map<Key, Page>, v': map<Key, Page>, device: nat, first: nat, data: seq<bv8>) {
    && v'.Keys == v.Keys
    && forall k: Key {:trigger v'[k]} :: k in v ==>
        v'[k] == if k.0 == device && first <= k.1 < first + |data| / PAGE_SIZE then Block(data, k.1 - first) else v[k]
  }

  lemma DirectPages(pages: map<Key, Cached>, pages': map<Key, Cached>, disk: Disk, disk': Disk, device: nat, first: nat,
                    data: seq<bv8>)
    requires BlocksStored(disk, disk', device, first, data, |data| / PAGE_SIZE)
               && pages' == pages - Range(device, first, |data| / PAGE_SIZE)
    ensures BlocksReplaced(View(pages, disk), View(pages', disk'), device, first, data)
  {
    var n := |data| / PAGE_SIZE;
    assert forall k: Key :: k in Range(device, first, n) <==> k.0 == device && first <= k.1 < first + n;
    assert forall k :: k in Range(device, first, n) ==> k in disk;
  }

  lemma BlocksAreBytes(v: map<Key, Page>, v': map<Key, Page>, device: nat, first: nat, data: seq<bv8>)
    requires AllPages(v) && AllPages(v') && |data| % PAGE_SIZE == 0 && BlocksReplaced(v, v', device, first, data)
    ensures BytesWritten(v, v', device, first * PAGE_SIZE, data)
  {
    hide PageBytes, Block;
    forall k: Key | k in v ensures PageBytes(v[k], v'[k], k.0 == device, k.1, first * PAGE_SIZE, data) {
      ReplacedPage(v[k], v'[k], k.0 == device, k.1, first, data);
    }
  }

  lemma ReplacedPage(p: Page, p': Page, here: bool, page: nat, first: nat, data: seq<bv8>)
    requires |p| == PAGE_SIZE && |p'| == PAGE_SIZE && |data| % PAGE_SIZE == 0
    requires p' == if here && first <= page < first + |data| / PAGE_SIZE then Block(data, page - first) else p
    ensures PageBytes(p, p', here, page, first * PAGE_SIZE, data)
  {
    hide Block;
    forall j | 0 <= j < PAGE_SIZE
      ensures p'[j] == if here
                && first * PAGE_SIZE <= page * PAGE_SIZE + j < first * PAGE_SIZE + |data| then
                data[page * PAGE_SIZE + j - first * PAGE_SIZE] else p[j]
    {
      PageInRun(first, |data| / PAGE_SIZE, |data|, page, j);
      if here && first <= page < first + |data| / PAGE_SIZE { ByteOfBlock(data, page, first, j); }
    }
  }

  lemma ByteOfBlock(data: seq<bv8>, page: nat, first: nat, j: nat)
    requires first <= page && (page - first + 1) * PAGE_SIZE <= |data| && j < PAGE_SIZE
    ensures Block(data, page - first)[j] == data[page * PAGE_SIZE + j - first * PAGE_SIZE]
  {
    assert (page - first) * PAGE_SIZE == page * PAGE_SIZE - first * PAGE_SIZE;
  }

  lemma PageInRun(first: nat, n: nat, len: nat, page: nat, j: nat)
    requires len % PAGE_SIZE == 0 && n == len / PAGE_SIZE && j < PAGE_SIZE
    ensures first <= page < first + n <==> first * PAGE_SIZE <= page * PAGE_SIZE + j < first * PAGE_SIZE + len
  {
    assert len == n * PAGE_SIZE;
    if page < first { assert (page + 1) * PAGE_SIZE <= first * PAGE_SIZE; }
    if page >= first + n { assert (first + n) * PAGE_SIZE <= page * PAGE_SIZE; }
    if first <= page < first + n { assert (page + 1) * PAGE_SIZE <= (first + n) * PAGE_SIZE; }
  }

  lemma NothingWritten(v: map<Key, Page>, device: nat, offset: nat)
    requires AllPages(v)
    ensures BytesWritten(v, v, device, offset, [])
  {
  }

  lemma BytesTwice(a: map<Key, Page>, b: map<Key, Page>, c: map<Key, Page>, device: nat, offset: nat, x: seq<bv8>,
                   y: seq<bv8>)
    requires BytesWritten(a, b, device, offset, x) && BytesWritten(b, c, device, offset + |x|, y)
    ensures BytesWritten(a, c, device, offset, x + y)
  {
    hide PageBytes;
    forall k: Key | k in a ensures PageBytes(a[k], c[k], k.0 == device, k.1, offset, x + y) {
      assert k in b && PageBytes(a[k], b[k], k.0 == device, k.1, offset, x)
          && PageBytes(b[k], c[k], k.0 == device, k.1, offset + |x|, y);
      PageTwice(a[k], b[k], c[k], k.0 == device, k.1, offset, x, y);
    }
  }

  lemma PageTwice(p: Page, q: Page, r: Page, here: bool, page: nat, offset: nat, x: seq<bv8>, y: seq<bv8>)
    requires PageBytes(p, q, here, page, offset, x) && PageBytes(q, r, here, page, offset + |x|, y)
    ensures PageBytes(p, r, here, page, offset, x + y)
  {
    forall j | 0 <= j < PAGE_SIZE
        ensures r[j] == if here
        && offset <= page * PAGE_SIZE + j < offset + |x + y| then (x + y)[page * PAGE_SIZE + j - offset] else p[j] {
      var _ := q[j];
    }
  }

  ghost predicate AllPages(v: map<Key, Page>) { forall k {:trigger v[k]} :: k in v ==> |v[k]| == PAGE_SIZE }

  lemma ViewSizes(pages: map<Key, Cached>, disk: Disk)
    requires SizesOk(pages, disk)
    ensures AllPages(View(pages, disk))
  {
  }

  lemma SameButTwice(a: map<Key, Page>, b: map<Key, Page>, c: map<Key, Page>, k: Key)
    requires SameBut(a, b, k) && SameBut(b, c, k) && k in c
    ensures c == a[k := c[k]]
  {
  }

  /** Exactly the bytes [offset, offset + |bytes|) of the device changed, to `bytes`. */
  ghost predicate BytesWritten(v: map<Key, Page>, v': map<Key, Page>, device: nat, offset: nat, bytes: seq<bv8>) {
    && v'.Keys == v.Keys && AllPages(v) && AllPages(v')
    && forall k: Key {:trigger v'[k]} :: k in v ==> PageBytes(v[k], v'[k], k.0 == device, k.1, offset, bytes)
  }

  /** The same for one block, `here` saying whether it is on the device written. */
  ghost predicate PageBytes(p: Page, p': Page, here: bool, page: nat, offset: nat, bytes: seq<bv8>) {
    && |p| == PAGE_SIZE && |p'| == PAGE_SIZE
    && forall j {:trigger p'[j]} :: 0 <= j < PAGE_SIZE ==>
        p'[j] == if here
        && offset <= page * PAGE_SIZE + j < offset + |bytes| then bytes[page * PAGE_SIZE + j - offset] else p[j]
  }

  lemma PatchIsBytes(v: map<Key, Page>, k: Key, offset: nat, bytes: seq<bv8>)
    requires AllPages(v) && k in v && offset + |bytes| <= PAGE_SIZE
    ensures BytesWritten(v, v[k := Splice(v[k], offset, bytes)], k.0, k.1 * PAGE_SIZE + offset, bytes)
  {
    hide PageBytes, Splice;
    var v' := v[k := Splice(v[k], offset, bytes)];
    forall q: Key | q in v ensures PageBytes(v[q], v'[q], q.0 == k.0, q.1, k.1 * PAGE_SIZE + offset, bytes) {
      PatchedPage(v[q], v'[q], q.0 == k.0, q.1, k.1, offset, bytes);
    }
  }

  lemma PatchedPage(p: Page, p': Page, here: bool, page: nat, at: nat, offset: nat, bytes: seq<bv8>)
    requires |p| == PAGE_SIZE && offset + |bytes| <= PAGE_SIZE
    requires p' == if here && page == at then Splice(p, offset, bytes) else p
    ensures PageBytes(p, p', here, page, at * PAGE_SIZE + offset, bytes)
  {
    var from := at * PAGE_SIZE + offset;
    forall j | 0 <= j < PAGE_SIZE
        ensures p'[j] == if here
        && from <= page * PAGE_SIZE + j < from + |bytes| then bytes[page * PAGE_SIZE + j - from] else p[j] {
      if page != at { PagesApart(page, at, j, offset, |bytes|); }
    }
  }

  lemma PagesApart(a: nat, b: nat, j: nat, offset: nat, len: nat)
    requires a != b && j < PAGE_SIZE && offset + len <= PAGE_SIZE
    ensures !(b * PAGE_SIZE + offset <= a * PAGE_SIZE + j < b * PAGE_SIZE + offset + len)
  {
    if a < b { assert (a + 1) * PAGE_SIZE <= b * PAGE_SIZE; } else { assert (b + 1) * PAGE_SIZE <= a * PAGE_SIZE; }
  }

  ghost predicate Tracked(committed: map<nat, nat>, tracker: map<Key, nat>, pages: map<Key, Cached>) {
    forall k {:trigger k in tracker} :: k in tracker ==> k.0 in committed && k in pages && pages[k].dirty
  }

  /** Dirty pages are still there, as they were. */
  ghost predicate DirtyStay(pages: map<Key, Cached>, pages': map<Key, Cached>) {
    forall k {:trigger pages[k]} {:trigger pages'[k]} :: k in pages && pages[k].dirty ==>
      k in pages' && pages'[k] == pages[k]
  }

  lemma DirtyStayNone(pages: map<Key, Cached>)
    ensures DirtyStay(pages, pages)
  {
  }

  lemma StayTracked(committed: map<nat, nat>, tracker: map<Key, nat>, pages: map<Key, Cached>, pages': map<Key, Cached>)
    requires Tracked(committed, tracker, pages) && DirtyStay(pages, pages')
    ensures Tracked(committed, tracker, pages')
  {
    forall k | k in tracker ensures k in pages' && pages'[k].dirty { assert pages'[k] == pages[k]; }
  }

  lemma EvictedStay(pages: map<Key, Cached>, pages': map<Key, Cached>, k: Key, p: Cached)
    requires Evicted(pages, pages') && k !in pages
    ensures DirtyStay(pages, pages') && DirtyStay(pages, pages'[k := p])
  {
    forall j | j in pages && pages[j].dirty ensures j in pages' && pages'[j] == pages[j] { assert j in pages'; }
  }

  /** The blocks of `held` are at home as they were, and still held back. */
  ghost predicate Kept(disk: Disk, disk': Disk, tracker: map<Key, nat>, tracker': map<Key, nat>, held: set<Key>) {
    && (forall k :: k in held ==> (k in disk' <==> k in disk) && (k in disk ==> disk'[k] == disk[k]))
    && (forall k :: k in held && k in tracker ==> k in tracker' && tracker'[k] == tracker[k])
  }

  lemma KeptNone(disk: Disk, tracker: map<Key, nat>, held: set<Key>)
    ensures Kept(disk, disk, tracker, tracker, held)
  {
  }

  lemma KeptTwice(a: Disk, b: Disk, c: Disk, ta: map<Key, nat>, tb: map<Key, nat>, tc: map<Key, nat>, held: set<Key>,
                  held': set<Key>)
    requires Kept(a, b, ta, tb, held) && Kept(b, c, tb, tc, held') && held <= held' && held <= ta.Keys
    ensures Kept(a, c, ta, tc, held)
  {
  }

  /** What is held back stays so across two operations in a row. */
  lemma StillHeld(a: Disk, b: Disk, c: Disk, committed: map<nat, nat>, ta: map<Key, nat>, tb: map<Key, nat>,
                  tc: map<Key, nat>,
                  held: set<Key>, held': set<Key>)
    requires Kept(a, b, ta, tb, held) && Kept(b, c, tb, tc, held')
    requires forall k :: k in held ==> k in ta && k.0 in committed && ta[k] > committed[k.0]
    requires forall k :: k in tb && k.0 in committed && tb[k] > committed[k.0] ==> k in held'
    ensures Kept(a, c, ta, tc, held)
  {
    assert held <= held';
    KeptTwice(a, b, c, ta, tb, tc, held, held');
  }

  /** Where a block just written is: cached and dirty, or, if the cache had no room for it, at home. */
  ghost predicate WentTo(pages: map<Key, Cached>, disk: Disk, k: Key, data: Page) {
    if k in pages then pages[k].dirty && pages[k].data == data else k in disk && disk[k] == data
  }

  lemma FlushKeeps(committed: map<nat, nat>, tracker: map<Key, nat>, tracker': map<Key, nat>, pages: map<Key, Cached>,
                   pages': map<Key, Cached>, disk: Disk, disk': Disk, held: set<Key>)
    requires Tracked(committed, tracker, pages) && TrackerKept(tracker, tracker', pages')
    requires Flushed(pages, pages', disk, disk', Committed(committed, tracker, pages))
    requires forall k :: k in held ==> k in tracker && k.0 in committed && tracker[k] > committed[k.0]
    ensures Kept(disk, disk', tracker, tracker', held)
  {
    forall k | k in held ensures k in tracker' && pages'[k] == pages[k] {
      assert k in pages && pages[k].dirty && k !in Committed(committed, tracker, pages);
    }
  }

  /** Keys whose pages the journal lets go home. */
  ghost function Committed(committed: map<nat, nat>, tracker: map<Key, nat>, pages: map<Key, Cached>): set<Key> {
    set k | k in pages && !(k.0 in committed && k in tracker && tracker[k] > committed[k.0])
  }

  method DirtyKeys(dirty: set<Key>) returns (keys: seq<Key>)
    ensures NoDup(keys)
    ensures forall k :: k in keys <==> k in dirty
  {
    keys := [];
    var rest := dirty;
    while rest != {}
      invariant rest <= dirty && NoDup(keys) && forall k :: k in keys <==> k in dirty && k !in rest
      decreases |rest|
    {
      var k :| k in rest;
      keys, rest := keys + [k], rest - {k};
    }
  }

  lemma DirtyCached(shards: seq<Shard>, pages: map<Key, Cached>, i: nat)
    requires ShardsOk(shards, pages, {}) && i < NUM_SHARDS
    ensures forall k :: k in shards[i].dirty ==> k in pages
  {
    assert ShardOk(shards[i], i, pages, {});
  }

  /** The live gate and the gate at the start agree on a page that is still dirty. */
  lemma GateAgrees(committed: map<nat, nat>, start: map<Key, nat>, tracker: map<Key, nat>, pages0: map<Key, Cached>,
                   pages: map<Key, Cached>, k: Key)
    requires TrackerKept(start, tracker, pages) && k in pages0 && k in pages
    ensures pages[k].dirty ==>
              (k in Committed(committed, start, pages0) <==>
              !(k.0 in committed && k in tracker && tracker[k] > committed[k.0]))
  {
  }

  lemma TrackerTwice(a: map<Key, nat>, b: map<Key, nat>, c: map<Key, nat>, pages: map<Key, Cached>,
                     pages': map<Key, Cached>)
    requires TrackerKept(a, b, pages) && TrackerKept(b, c, pages') && pages.Keys == pages'.Keys
    requires forall k :: k in pages' && pages'[k].dirty ==> pages[k].dirty
    ensures TrackerKept(a, c, pages')
  {
  }

  lemma TrackerSame(tracker: map<Key, nat>, pages: map<Key, Cached>)
    ensures TrackerKept(tracker, tracker, pages)
  {
  }

  /** A page of the shard that is dirty at the end was dirty at the start, so it was looked at. */
  lemma StillDirty(shards: seq<Shard>, pages: map<Key, Cached>, pages': map<Key, Cached>, disk: Disk, disk': Disk,
                   free: set<Key>, i: nat, keys: seq<Key>)
    requires ShardsOk(shards, pages, {}) && i < NUM_SHARDS && Flushed(pages, pages', disk, disk', free)
    requires forall k :: k in keys <==> k in shards[i].dirty
    ensures forall k :: k in pages' && ShardIndex(k) == i && pages'[k].dirty ==> k in keys
  {
    assert ShardOk(shards[i], i, pages, {});
    FlushedFacts(pages, pages', disk, disk', free);
  }

  ghost function Elements(batch: seq<Key>): set<Key> { set k | k in batch }

  lemma ElementsAppend(batch: seq<Key>, k: Key)
    ensures Elements(batch + [k]) == Elements(batch) + {k}
  {
  }

  /** From one state to another, some dirty pages of `batch` were written and marked clean; nothing
      else happened to pages or disk. */
  ghost predicate Flushed(pages: map<Key, Cached>, pages': map<Key, Cached>, disk: Disk, disk': Disk, batch: set<Key>) {
    && (forall k {:trigger k in pages} {:trigger k in pages'} :: k in pages' <==> k in pages)
    && (forall k {:trigger pages'[k]} {:trigger pages[k]} :: k in pages ==>
          pages'[k] == pages[k]
            || (k in batch && pages[k].dirty && pages'[k] == pages[k].(dirty := false) && k in disk'
            && disk'[k] == pages[k].data))
    && (forall k {:trigger k in disk} {:trigger k in disk'} :: k in disk' <==> k in disk)
    && (forall k {:trigger disk'[k]} {:trigger disk[k]} :: k in disk ==>
          disk'[k] == disk[k]
            || (k in batch && k in pages && pages[k].dirty && !pages'[k].dirty && disk'[k] == pages[k].data))
  }

  /** The journal's entries for pages still dirty are as they were. */
  ghost predicate TrackerKept(tracker: map<Key, nat>, tracker': map<Key, nat>, pages: map<Key, Cached>) {
    && (forall k {:trigger k in tracker'} :: k in tracker' ==> k in tracker && tracker'[k] == tracker[k])
    && (forall k {:trigger k in tracker'} :: k in tracker && (k in pages ==> pages[k].dirty) ==> k in tracker')
  }

  lemma FlushedNone(pages: map<Key, Cached>, disk: Disk, batch: set<Key>)
    ensures Flushed(pages, pages, disk, disk, batch)
  {
  }

  lemma FlushedFacts(pages: map<Key, Cached>, pages': map<Key, Cached>, disk: Disk, disk': Disk, batch: set<Key>)
    requires Flushed(pages, pages', disk, disk', batch)
    ensures pages'.Keys == pages.Keys && View(pages', disk') == View(pages, disk)
    ensures forall k :: k in pages && pages'[k].dirty ==> pages[k].dirty
  {
  }

  /** Clean pages in a batch are passed over. */
  lemma FlushedOnlyDirty(pages: map<Key, Cached>, pages': map<Key, Cached>, disk: Disk, disk': Disk, batch: set<Key>,
                         free: set<Key>)
    requires Flushed(pages, pages', disk, disk', batch) && forall k :: k in batch ==>
               k in pages && (k in free || !pages[k].dirty)
    ensures Flushed(pages, pages', disk, disk', free)
  {
  }

  lemma FlushedTwice(pages: map<Key, Cached>, pages': map<Key, Cached>, pages'': map<Key, Cached>, disk: Disk,
                     disk': Disk, disk'': Disk, batch: set<Key>, more: set<Key>)
    requires Flushed(pages, pages', disk, disk', batch) && Flushed(pages', pages'', disk', disk'', more)
    ensures Flushed(pages, pages'', disk, disk'', batch + more)
  {
  }

  lemma LandOne(pages: map<Key, Cached>, pages': map<Key, Cached>, disk: Disk, disk': Disk, batch: set<Key>, k: Key)
    requires Flushed(pages, pages', disk, disk', batch) && k in pages && pages[k].dirty && k in batch
               && CleanOk(pages', disk', {}) && SizesOk(pages', disk')
    ensures k in disk' ==> var p := pages'[k].(dirty := false);
              && Flushed(pages, pages'[k := p], disk, disk'[k := p.data], batch)
              && CleanOk(pages'[k := p], disk'[k := p.data], {}) && SizesOk(pages'[k := p], disk'[k := p.data])
  {
  }

  lemma LooserClean(pages: map<Key, Cached>, disk: Disk, loose: set<Key>)
    requires CleanOk(pages, disk, {})
    ensures CleanOk(pages, disk, loose)
  {
  }

  lemma LooserShards(shards: seq<Shard>, pages: map<Key, Cached>, loose: set<Key>, loose': set<Key>)
    requires ShardsOk(shards, pages, loose) && loose <= loose'
    ensures ShardsOk(shards, pages, loose')
  {
    forall i | 0 <= i < NUM_SHARDS ensures ShardOk(shards[i], i, pages, loose') {
      assert ShardOk(shards[i], i, pages, loose);
    }
  }

  lemma DirtyPositive(shards: seq<Shard>, i: nat, k: Key)
    requires i < |shards|
    ensures k in shards[i].dirty ==> DirtyTotal(shards) > 0
  {
    if k in shards[i].dirty { DirtyTotalUpdate(shards, i, Shard([], {})); }
  }

  lemma TrackerShrunk(tracker: map<Key, nat>, tracker': map<Key, nat>, pages: map<Key, Cached>, written: seq<Key>)
    requires forall k :: k in tracker' ==> k in tracker && tracker'[k] == tracker[k]
    requires forall k :: k in tracker && k !in written ==> k in tracker'
    requires forall k :: k in written ==> k in pages && !pages[k].dirty
    ensures TrackerKept(tracker, tracker', pages)
  {
  }

  /** The order in which the batch takes its pages' write locks. */
  function LockKeys(keys: seq<Key>): (r: seq<LockOrder.Key>)
    ensures |r| == |keys| && forall i :: 0 <= i < |keys| ==> r[i] == LockOrder.Key(keys[i].0, keys[i].1)
  {
    seq(|keys|, i requires 0 <= i < |keys| => LockOrder.Key(keys[i].0, keys[i].1))
  }

  /** A batch names each page once, so sorted it is in the strict key order the lock ranks ask for. */
  lemma BatchLocksInOrder(batch: seq<Key>, sorted: seq<Key>)
    requires NoDup(batch) && Ascending(sorted) && multiset(sorted) == multiset(batch)
    ensures LockOrder.StrictlySorted(LockKeys(sorted))
  {
    forall i, j | 0 <= i < j < |sorted| ensures sorted[i] != sorted[j] {
      if sorted[i] == sorted[j] {
        TwiceIn(sorted, i, j);
        OnceIn(batch, sorted[i]);
      }
    }
    forall i, j | 0 <= i < j < |sorted| ensures LockOrder.KeyLess(LockKeys(sorted)[i], LockKeys(sorted)[j]) {
      assert !KeyLess(sorted[j], sorted[i]);
    }
  }

  lemma TwiceIn(keys: seq<Key>, i: nat, j: nat)
    requires i < j < |keys| && keys[i] == keys[j]
    ensures multiset(keys)[keys[i]] >= 2
  {
    assert keys == keys[..i] + [keys[i]] + keys[i + 1..j] + [keys[j]] + keys[j + 1..];
  }

  lemma {:induction false} OnceIn(keys: seq<Key>, k: Key)
    requires NoDup(keys)
    ensures multiset(keys)[k] <= 1
  {
    if keys != [] {
      var n := |keys| - 1;
      OnceIn(keys[..n], k);
      assert keys == keys[..n] + [keys[n]];
      if keys[n] == k { assert k !in keys[..n]; assert multiset(keys[..n])[k] == 0; }
    }
  }

  predicate KeyLess(a: Key, b: Key) { a.0 < b.0 || (a.0 == b.0 && a.1 < b.1) }

  ghost predicate Ascending(keys: seq<Key>) { forall i, j :: 0 <= i < j < |keys| ==> !KeyLess(keys[j], keys[i]) }

  /** `k` placed in a sorted list, after everything not above it. */
  function InsertSorted(keys: seq<Key>, k: Key): seq<Key> {
    if keys == [] || !KeyLess(k, keys[|keys| - 1]) then keys + [k]
    else InsertSorted(keys[..|keys| - 1], k) + [keys[|keys| - 1]]
  }

  lemma {:induction false} InsertSortedOk(keys: seq<Key>, k: Key)
    requires Ascending(keys)
    ensures Ascending(InsertSorted(keys, k)) && multiset(InsertSorted(keys, k)) == multiset(keys) + multiset{k}
    ensures forall j :: j in InsertSorted(keys, k) <==> j in keys || j == k
  {
    var n := |keys| - 1;
    if keys == [] || !KeyLess(k, keys[n]) {
      LastAscending(keys, k);
    } else {
      InsertSortedOk(keys[..n], k);
      assert keys == keys[..n] + [keys[n]];
      LastAscending(InsertSorted(keys[..n], k), keys[n]);
    }
  }

  lemma LastAscending(keys: seq<Key>, last: Key)
    requires Ascending(keys) && (keys == [] || forall j :: j in keys ==> !KeyLess(last, j))
    ensures Ascending(keys + [last])
  {
    forall i, j | 0 <= i < j < |keys + [last]| ensures !KeyLess((keys + [last])[j], (keys + [last])[i]) {
      if j == |keys| { assert keys[i] in keys; }
    }
  }

  method SortKeys(batch: seq<Key>) returns (sorted: seq<Key>)
    ensures multiset(sorted) == multiset(batch) && Ascending(sorted)
    ensures forall k :: k in sorted <==> k in batch
  {
    sorted := [];
    for n := 0 to |batch|
      invariant multiset(sorted) == multiset(batch[..n]) && Ascending(sorted)
      invariant forall k :: k in sorted <==> k in batch[..n]
    {
      assert batch[..n + 1] == batch[..n] + [batch[n]];
      InsertSortedOk(sorted, batch[n]);
      sorted := InsertSorted(sorted, batch[n]);
    }
    assert batch[..|batch|] == batch;
  }

  lemma {:induction false} NoDirty(shards: seq<Shard>)
    requires forall i :: 0 <= i < |shards| ==> shards[i].dirty == {}
    ensures DirtyTotal(shards) == 0
  {
    if shards != [] { NoDirty(shards[..|shards| - 1]); }
  }

  lemma EvictedNone(pages: map<Key, Cached>)
    ensures Evicted(pages, pages)
  {
  }

  lemma EvictOne(pages: map<Key, Cached>, pages': map<Key, Cached>, disk: Disk, k: Key)
    requires Evicted(pages, pages') && k in pages' && pages'[k].pins == 0 && !pages'[k].dirty
    requires CleanOk(pages', disk, {}) && SizesOk(pages', disk)
    ensures Evicted(pages, pages' - {k}) && CleanOk(pages' - {k}, disk, {}) && SizesOk(pages' - {k}, disk)
  {
  }

  lemma EvictedSub(pages: map<Key, Cached>, pages': map<Key, Cached>, k: Key)
    requires Evicted(pages, pages') && k !in pages
    ensures k !in pages'
  {
  }

  lemma LruHead(shards: seq<Shard>, pages: map<Key, Cached>, i: nat)
    requires ShardsOk(shards, pages, {}) && i < NUM_SHARDS && |shards[i].lru| > 0
    ensures shards[i].lru[0] in pages && ShardIndex(shards[i].lru[0]) == i
  {
    assert ShardOk(shards[i], i, pages, {});
    assert shards[i].lru[0] in shards[i].lru;
  }

  lemma CleanNotDirty(shards: seq<Shard>, pages: map<Key, Cached>, k: Key)
    requires ShardsOk(shards, pages, {}) && k in pages
    ensures k in shards[ShardIndex(k)].dirty <==> pages[k].dirty
  {
    assert ShardOk(shards[ShardIndex(k)], ShardIndex(k), pages, {});
  }

  lemma LooseShards(shards: seq<Shard>, pages: map<Key, Cached>, k: Key)
    requires ShardsOk(shards, pages, {})
    ensures ShardsOk(shards, pages, {k})
  {
    forall i | 0 <= i < NUM_SHARDS ensures ShardOk(shards[i], i, pages, {k}) {
      assert ShardOk(shards[i], i, pages, {});
    }
  }

  lemma LooseMore(shards: seq<Shard>, pages: map<Key, Cached>, disk: Disk, k: Key)
    requires ShardsOk(shards, pages, {}) && CleanOk(pages, disk, {})
    ensures ShardsOk(shards, pages, {k}) && CleanOk(pages, disk, {k})
  {
    LooseShards(shards, pages, k);
  }

  lemma PutClean(pages: map<Key, Cached>, disk: Disk, k: Key, data: Page)
    requires CleanOk(pages, disk, {}) && SizesOk(pages, disk) && |data| == PAGE_SIZE
    ensures CleanOk(pages[k := Cached(data, false, 0)], disk, {k}) && SizesOk(pages[k := Cached(data, false, 0)], disk)
    ensures k in disk && disk[k] == data ==> CleanOk(pages[k := Cached(data, false, 0)], disk, {})
  {
  }

  lemma SameButSelf(v: map<Key, Page>, k: Key)
    ensures SameBut(v, v, k)
  {
  }

  lemma PageSize(pages: map<Key, Cached>, disk: Disk, k: Key)
    requires SizesOk(pages, disk) && k in pages
    ensures |pages[k].data| == PAGE_SIZE
  {
  }

  lemma DiskSize(pages: map<Key, Cached>, disk: Disk, k: Key)
    requires SizesOk(pages, disk) && k in disk
    ensures |disk[k]| == PAGE_SIZE
  {
  }

  lemma ViewAt(pages: map<Key, Cached>, disk: Disk, k: Key)
    ensures k in View(pages, disk) <==> k in pages || k in disk
    ensures k in pages ==> View(pages, disk)[k] == pages[k].data
    ensures k !in pages && k in disk ==> View(pages, disk)[k] == disk[k]
  {
  }

  lemma InsertedView(pages: map<Key, Cached>, pages': map<Key, Cached>, disk: Disk, k: Key, data: Page, cached: bool)
    requires k !in pages && CleanOk(pages, disk, {})
    requires if cached then k in pages' && pages'[k].data == data
               && Evicted(pages, pages' - {k}) else Evicted(pages, pages')
    ensures SameBut(View(pages, disk), View(pages', disk), k)
    ensures !cached ==> View(pages', disk) == View(pages, disk)
    ensures k in disk && disk[k] == data ==>
              View(pages', disk) == View(pages, disk) && k in View(pages, disk) && View(pages, disk)[k] == data
  {
    var rest := pages' - {k};
    if !cached { assert rest == pages'; }
    EvictionInvisible(pages, rest, disk);
    assert forall j :: j != k ==> (j in pages' <==> j in rest) && (j in rest ==> pages'[j] == rest[j]);
  }

  lemma DiskWriteOk(pages: map<Key, Cached>, disk: Disk, k: Key, data: Page)
    requires CleanOk(pages, disk, {}) && SizesOk(pages, disk) && k !in pages && |data| == PAGE_SIZE
    ensures CleanOk(pages, disk[k := data], {}) && SizesOk(pages, disk[k := data])
  {
  }

  /** A dirty page owes the disk nothing, so its key need not be loose. */
  lemma TightClean(pages: map<Key, Cached>, disk: Disk, k: Key)
    requires CleanOk(pages, disk, {k}) && (k in pages ==> pages[k].dirty || (k in disk && disk[k] == pages[k].data))
    ensures CleanOk(pages, disk, {})
  {
  }

  lemma ShardCount(shards: seq<Shard>, pages: map<Key, Cached>)
    requires exists loose :: ShardsOk(shards, pages, loose)
    ensures |shards| == NUM_SHARDS
  {
  }

  lemma RewriteClean(pages: map<Key, Cached>, disk: Disk, k: Key, p: Cached)
    requires CleanOk(pages, disk, {k}) && SizesOk(pages, disk) && |p.data| == PAGE_SIZE
    ensures CleanOk(pages[k := p], disk, {k}) && SizesOk(pages[k := p], disk)
  {
  }

  lemma WrittenView(pages: map<Key, Cached>, pages': map<Key, Cached>, disk: Disk, disk': Disk, k: Key, data: Page,
                    cached: bool, ok: bool)
    requires if cached then ok && k in pages && k in pages' && pages' == pages[k := pages'[k]] && pages'[k].data == data
               && disk' == disk
             else k !in pages && pages' == pages && disk' == if ok then disk[k := data] else disk
    ensures ok ==>
              k in View(pages', disk') && View(pages', disk')[k] == data
              && SameBut(View(pages, disk), View(pages', disk'), k)
    ensures !ok ==> View(pages', disk') == View(pages, disk)
  {
  }
}
