/** The block cache's shards: least-recently-used order, dirty sets, and the small updates that
    operations are made of. */
module BlockShards {

  const PAGE_SIZE: nat := 4096
  const NUM_SHARDS: nat := 8
  const SHARD_CAPACITY: nat := 256

  type Page = seq<bv8>

  /** Device and page number. */
  type Key = (nat, nat)

  datatype Cached = Cached(data: Page, dirty: bool, pins: nat)

  /** `lru` runs from the least to the most recently used. */
  datatype Shard = Shard(lru: seq<Key>, dirty: set<Key>)

  const WORD: nat := 0x1_0000_0000_0000_0000

  /** A 64-bit wrapping mix of the key, cut to the number of shards. */
  function ShardIndex(key: Key): (r: nat)
    ensures r < NUM_SHARDS
  {
    (key.0 * 0x517cc1b727220a95 % WORD + key.1 * 0x6c62272e07bb0142 % WORD) % WORD % NUM_SHARDS
  }

  ghost predicate NoDup(lru: seq<Key>) { forall i, j :: 0 <= i < j < |lru| ==> lru[i] != lru[j] }

  /** The shard lists exactly the cached pages that hash to it, and its dirty set is exactly the
      dirty ones; `loose` keys are between the flag and the set. */
  ghost predicate ShardOk(sh: Shard, i: nat, pages: map<Key, Cached>, loose: set<Key>) {
    && |sh.lru| <= SHARD_CAPACITY && NoDup(sh.lru)
    && (forall k {:trigger k in sh.lru} :: k in sh.lru <==> k in pages && ShardIndex(k) == i)
    && (forall k {:trigger k in sh.dirty} :: k in sh.dirty ==> k in pages && ShardIndex(k) == i)
    && (forall k {:trigger k in sh.dirty} {:trigger pages[k]} :: k in pages && ShardIndex(k) == i && k !in loose ==>
        (k in sh.dirty <==> pages[k].dirty))
  }

  ghost predicate ShardsOk(shards: seq<Shard>, pages: map<Key, Cached>, loose: set<Key>) {
    |shards| == NUM_SHARDS && forall i {:trigger shards[i]} :: 0 <= i < NUM_SHARDS ==>
      ShardOk(shards[i], i, pages, loose)
  }

  function DirtyTotal(shards: seq<Shard>): nat {
    if shards == [] then 0 else DirtyTotal(shards[..|shards| - 1]) + |shards[|shards| - 1].dirty|
  }

  lemma {:induction false} DirtyTotalUpdate(shards: seq<Shard>, i: nat, sh: Shard)
    requires i < |shards|
    ensures DirtyTotal(shards[i := sh]) == DirtyTotal(shards) - |shards[i].dirty| + |sh.dirty|
  {
    var n := |shards| - 1;
    if i < n {
      DirtyTotalUpdate(shards[..n], i, sh);
      assert shards[i := sh][..n] == shards[..n][i := sh];
    } else {
      assert shards[i := sh][..n] == shards[..n];
    }
  }

  function Position(lru: seq<Key>, k: Key): (r: nat)
    requires k in lru
    ensures r < |lru| && lru[r] == k
  {
    if lru[0] == k then 0 else 1 + Position(lru[1..], k)
  }

  function Without(lru: seq<Key>, k: Key): seq<Key> {
    if k in lru then lru[..Position(lru, k)] + lru[Position(lru, k) + 1..] else lru
  }

  lemma WithoutOne(lru: seq<Key>, k: Key)
    requires NoDup(lru)
    ensures NoDup(Without(lru, k)) && forall j :: j in Without(lru, k) <==> j in lru && j != k
    ensures |Without(lru, k)| == |lru| - if k in lru then 1 else 0
  {
    if k in lru {
      var p := Position(lru, k);
      var r := Without(lru, k);
      assert forall i :: 0 <= i < |r| ==> r[i] == if i < p then lru[i] else lru[i + 1];
      forall j | j in lru && j != k ensures j in r {
        var i :| 0 <= i < |lru| && lru[i] == j;
        if i < p { assert r[i] == j; } else { assert r[i - 1] == j; }
      }
    }
  }

  lemma AppendNew(lru: seq<Key>, k: Key)
    requires NoDup(lru) && k !in lru
    ensures NoDup(lru + [k]) && forall j :: j in lru + [k] <==> j in lru || j == k
  {
  }

  function Touched(shards: seq<Shard>, k: Key): seq<Shard>
    requires |shards| == NUM_SHARDS
  {
    var i := ShardIndex(k);
    shards[i := shards[i].(lru := Without(shards[i].lru, k) + [k])]
  }

  /** A lookup moves its page to the most recent end and changes nothing else. */
  lemma TouchOk(shards: seq<Shard>, pages: map<Key, Cached>, loose: set<Key>, k: Key)
    requires ShardsOk(shards, pages, loose) && k in pages
    ensures ShardsOk(Touched(shards, k), pages, loose) && DirtyTotal(Touched(shards, k)) == DirtyTotal(shards)
  {
    hide ShardIndex;
    var i := ShardIndex(k);
    assert ShardOk(shards[i], i, pages, loose);
    WithoutOne(shards[i].lru, k);
    AppendNew(Without(shards[i].lru, k), k);
    assert k in shards[i].lru;
    OtherShards(shards, pages, pages, loose, loose, k, Touched(shards, k)[i]);
    DirtyTotalUpdate(shards, i, Touched(shards, k)[i]);
  }

  /** A change to one key touches one shard. */
  lemma OtherShards(shards: seq<Shard>, pages: map<Key, Cached>, pages': map<Key, Cached>, loose: set<Key>,
                    loose': set<Key>, k: Key, sh: Shard)
    requires ShardsOk(shards, pages, loose) && ShardOk(sh, ShardIndex(k), pages', loose')
    requires forall j :: j != k ==> (j in pages' <==> j in pages) && (j in loose ==> j in loose')
    requires forall j :: j != k && j in pages ==> pages'[j] == pages[j]
    ensures ShardsOk(shards[ShardIndex(k) := sh], pages', loose')
  {
    hide ShardIndex;
    var n := ShardIndex(k);
    forall i | 0 <= i < NUM_SHARDS && i != n ensures ShardOk(shards[i], i, pages', loose') {
      assert ShardOk(shards[i], i, pages, loose);
    }
  }

  function Dropped(shards: seq<Shard>, k: Key): seq<Shard>
    requires |shards| == NUM_SHARDS
  {
    var i := ShardIndex(k);
    shards[i := Shard(Without(shards[i].lru, k), shards[i].dirty - {k})]
  }

  lemma DropOk(shards: seq<Shard>, pages: map<Key, Cached>, loose: set<Key>, k: Key)
    requires ShardsOk(shards, pages, loose)
    ensures ShardsOk(Dropped(shards, k), pages - {k}, loose)
    ensures DirtyTotal(Dropped(shards, k)) == DirtyTotal(shards) - if k in shards[ShardIndex(k)].dirty then 1 else 0
    ensures k in pages ==> |Dropped(shards, k)[ShardIndex(k)].lru| == |shards[ShardIndex(k)].lru| - 1
  {
    hide ShardIndex;
    var i := ShardIndex(k);
    assert ShardOk(shards[i], i, pages, loose);
    WithoutOne(shards[i].lru, k);
    OtherShards(shards, pages, pages - {k}, loose, loose, k, Dropped(shards, k)[i]);
    DirtyTotalUpdate(shards, i, Dropped(shards, k)[i]);
    assert k in pages ==> k in shards[i].lru;
  }

  function Put(shards: seq<Shard>, k: Key): seq<Shard>
    requires |shards| == NUM_SHARDS
  {
    var i := ShardIndex(k);
    shards[i := shards[i].(lru := shards[i].lru + [k])]
  }

  lemma PutOk(shards: seq<Shard>, pages: map<Key, Cached>, loose: set<Key>, k: Key, p: Cached)
    requires ShardsOk(shards, pages, loose) && k !in pages && !p.dirty && |shards[ShardIndex(k)].lru| < SHARD_CAPACITY
    ensures ShardsOk(Put(shards, k), pages[k := p], loose) && DirtyTotal(Put(shards, k)) == DirtyTotal(shards)
  {
    hide ShardIndex;
    var i := ShardIndex(k);
    assert ShardOk(shards[i], i, pages, loose);
    AppendNew(shards[i].lru, k);
    OtherShards(shards, pages, pages[k := p], loose, loose, k, Put(shards, k)[i]);
    DirtyTotalUpdate(shards, i, Put(shards, k)[i]);
  }

  /** Rewriting a cached page leaves its key loose. */
  lemma RewriteOk(shards: seq<Shard>, pages: map<Key, Cached>, loose: set<Key>, k: Key, p: Cached)
    requires ShardsOk(shards, pages, loose) && k in pages
    ensures ShardsOk(shards, pages[k := p], loose + {k})
    ensures p.dirty == pages[k].dirty ==> ShardsOk(shards, pages[k := p], loose)
  {
    hide ShardIndex;
    forall i | 0 <= i < NUM_SHARDS
      ensures ShardOk(shards[i], i, pages[k := p], loose + {k})
                && (p.dirty == pages[k].dirty ==> ShardOk(shards[i], i, pages[k := p], loose))
    {
      assert ShardOk(shards[i], i, pages, loose);
    }
  }

  function SetDirty(shards: seq<Shard>, k: Key, dirty: bool): seq<Shard>
    requires |shards| == NUM_SHARDS
  {
    var i := ShardIndex(k);
    shards[i := shards[i].(dirty := if dirty then shards[i].dirty + {k} else shards[i].dirty - {k})]
  }

  /** Bringing the dirty set in line with a page's flag ties the key up again. */
  lemma SetDirtyOk(shards: seq<Shard>, pages: map<Key, Cached>, loose: set<Key>, k: Key, dirty: bool)
    requires ShardsOk(shards, pages, loose) && k in pages && pages[k].dirty == dirty
    ensures ShardsOk(SetDirty(shards, k, dirty), pages, loose - {k})
    ensures DirtyTotal(SetDirty(shards, k, dirty)) + (if k in shards[ShardIndex(k)].dirty then 1 else 0)
              == DirtyTotal(shards) + if dirty then 1 else 0
  {
    hide ShardIndex;
    var i := ShardIndex(k);
    assert ShardOk(shards[i], i, pages, loose);
    forall n | 0 <= n < NUM_SHARDS && n != i ensures ShardOk(shards[n], n, pages, loose - {k}) {
      assert ShardOk(shards[n], n, pages, loose);
    }
    DirtyTotalUpdate(shards, i, SetDirty(shards, k, dirty)[i]);
  }
}
