/** What `sync` is for: the counter protocol of the callers and the writeback thread, together with what
    a flush pass does to the block cache. */
module Durability {
  import opened BlockShards
  import opened BlockCache
  import Writeback

  /** The block cache and its disk; `gated` are the dirty pages enrolled above the committed sequence. */
  datatype CacheState = CacheState(pages: map<Key, Cached>, disk: Disk, gated: set<Key>)

  /** What flushing shard `i` in a forced pass promises. */
  ghost predicate ForcedShard(s: CacheState, s': CacheState, i: nat, ok: bool) {
    && CleanOk(s'.pages, s'.disk, {}) && View(s'.pages, s'.disk) == View(s.pages, s.disk)
    && (ok ==> forall k :: k in s'.pages && ShardIndex(k) == i && s'.pages[k].dirty ==> k in s.gated)
  }

  ghost function StateOf(cache: Cache): CacheState
    reads cache
  {
    CacheState(cache.pages, cache.disk, set k | k in cache.pages && cache.Gated(k))
  }

  /** One shard of a forced pass over the block cache, whatever happened to it since the pass began. */
  method FlushOneShard(cache: Cache, i: nat) returns (ok: bool)
    requires cache.Valid() && i < NUM_SHARDS
    modifies cache`shards, cache`pages, cache`disk, cache`dirtyPages, cache`tracker
    ensures cache.Valid() && ForcedShard(old(StateOf(cache)), StateOf(cache), i, ok)
  {
    hide ShardsOk, SizesOk, View, ShardIndex;
    TrackerSame(cache.tracker, cache.pages);
    ok := cache.FlushShard(i, true, cache.tracker);
    FlushedFacts(old(cache.pages), cache.pages, old(cache.disk), cache.disk,
                 old(Committed(cache.committed, cache.tracker, cache.pages)));
  }

  /** What a reader would see of the block is on the disk, unless the journal held it back. */
  ghost predicate OnDisk(s: CacheState, gated: set<Key>, k: Key) {
    k in View(s.pages, s.disk) && k !in gated ==> k in s.disk && s.disk[k] == View(s.pages, s.disk)[k]
  }

  lemma ShardWritten(s: CacheState, s': CacheState, i: nat, k: Key)
    requires ForcedShard(s, s', i, true) && ShardIndex(k) == i
    ensures OnDisk(s', s.gated, k)
  {
  }

  /** Each forced pass of the run flushed every shard at some moment between its beginning and its end;
      `history` is the cache at each tick, with writers and anything else in between. */
  ghost predicate PassesFlush(passes: seq<Writeback.Pass>, history: nat -> CacheState) {
    forall i {:trigger passes[i]} :: 0 <= i < |passes| && passes[i].forced ==>
      forall j: nat :: j < NUM_SHARDS ==> FlushedIn(passes[i], history, j)
  }

  ghost predicate FlushedIn(p: Writeback.Pass, history: nat -> CacheState, shard: nat) {
    exists t {:trigger history(t)} :: p.begin <= t < p.end && ForcedShard(history(t), history(t + 1), shard, p.ok)
  }

  /** There was a moment strictly between the two times at which the block was on the disk. */
  ghost predicate OnDiskBetween(history: nat -> CacheState, from: nat, to: nat, k: Key) {
    exists t {:trigger history(t)} :: from < t && t + 1 < to && OnDisk(history(t + 1), history(t).gated, k)
  }

  /** A forced pass of the caller's wait that did not write everything. */
  ghost predicate PassFailed(passes: seq<Writeback.Pass>, from: nat, to: nat) {
    exists i :: 0 <= i < |passes| && passes[i].forced && !passes[i].ok && from < passes[i].begin < passes[i].end < to
  }

  /** For every block, a caller that `sync` has released can count on a moment, after its request and before
      its release, at which what the cache showed of the block was on the disk; unless a forced pass in that
      time failed. The moments may differ from block to block: writers run between the shards of a pass. */
  lemma SyncIsDurable(states: seq<Writeback.State>, steps: seq<Writeback.Step>, n: nat, c: nat,
                      history: nat -> CacheState)
    requires Writeback.Run(states, steps) && n < |states| && states[n].Caller(c).Released?
    requires PassesFlush(states[n].passes, history)
    ensures var caller, passes := states[n].Caller(c), states[n].passes;
            PassFailed(passes, caller.since, caller.at)
              || forall k :: OnDiskBetween(history, caller.since, caller.at, k)
  {
    hide Writeback.Run, ShardIndex;
    Writeback.SyncWaitsForItsPass(states, steps, n, c);
    var caller, passes := states[n].Caller(c), states[n].passes;
    var i :| 0 <= i < |passes| && passes[i].forced && caller.since < passes[i].begin < passes[i].end < caller.at;
    if passes[i].ok {
      forall k ensures OnDiskBetween(history, caller.since, caller.at, k) {
        assert FlushedIn(passes[i], history, ShardIndex(k));
        var t :| passes[i].begin <= t < passes[i].end
                 && ForcedShard(history(t), history(t + 1), ShardIndex(k), passes[i].ok);
        ShardWritten(history(t), history(t + 1), ShardIndex(k), k);
      }
    }
  }
}
