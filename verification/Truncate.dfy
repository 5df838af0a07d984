/** Taking a truncated file's pages out of every process that maps it. */
module Truncate {
  import opened Vmas
  import opened PageCache

  type Frame = nat

  /** A mapping of a file: `slots` keep the cached pages its faults brought in. */
  datatype Mapping = Mapping(start: nat, end: nat, inode: Option<nat>, fileOffset: nat, slots: seq<Option<nat>>) {
    function NumSlots(): nat requires start <= end { (end - start) / PAGE }
    function Vpn(slot: nat): nat { start / PAGE + slot }

    /** The first slot whose page starts at or past `size`. */
    function FirstInvalid(size: nat): nat {
      if size <= fileOffset then 0 else (size - fileOffset + PAGE - 1) / PAGE
    }
  }

  /** A slot is cut exactly when its page of the file starts at or past the new size; for a page-aligned
      mapping that is the cache's own cut. */
  lemma SameCut(m: Mapping, size: nat, slot: nat)
    ensures slot >= m.FirstInvalid(size) <==> m.fileOffset + slot * PAGE >= size
    ensures m.fileOffset % PAGE == 0 ==>
              (slot >= m.FirstInvalid(size) <==> m.fileOffset / PAGE + slot >= CeilPages(size))
  {
  }

  /** Mappings are page-aligned, page-granular and do not overlap. */
  ghost predicate LayoutOk(mappings: seq<Mapping>) {
    && (forall i {:trigger mappings[i]} :: 0 <= i < |mappings| ==>
        mappings[i].start % PAGE == 0 && mappings[i].end % PAGE == 0 && mappings[i].start <= mappings[i].end)
    && (forall i, j {:trigger mappings[i], mappings[j]} :: 0 <= i < j < |mappings| ==>
        mappings[i].end <= mappings[j].start)
  }

  /** The page-table page of a slot that a cut to `size` removes. */
  ghost predicate CutPage(m: Mapping, size: nat, vpn: nat) {
    m.start <= m.end && m.Vpn(m.FirstInvalid(size)) <= vpn < m.Vpn(m.NumSlots())
  }

  ghost predicate CutSlots(m: Mapping, m': Mapping, size: nat) {
    && m.start <= m.end && m' == m.(slots := m'.slots) && |m'.slots| == |m.slots|
    && forall s {:trigger m'.slots[s]} :: 0 <= s < |m.slots| ==>
        m'.slots[s] == if m.FirstInvalid(size) <= s < m.NumSlots() then None else m.slots[s]
  }

  /** `released` are the frames of the entries removed, one for each, in the order of `removed`. */
  ghost predicate Released(ptes: map<nat, Frame>, ptes': map<nat, Frame>, removed: seq<nat>, released: seq<Frame>) {
    && (forall i, j :: 0 <= i < j < |removed| ==> removed[i] != removed[j])
    && (forall v {:trigger v in removed} {:trigger v in ptes'} :: v in removed <==> v in ptes && v !in ptes')
    && |released| == |removed|
        && (forall i {:trigger released[i]} :: 0 <= i < |removed| ==>
        removed[i] in ptes && released[i] == ptes[removed[i]])
  }

  /** Each frame is released as often as entries naming it were removed. */
  lemma ReleasedIsExact(ptes: map<nat, Frame>, ptes': map<nat, Frame>, removed: seq<nat>, released: seq<Frame>,
                        f: Frame)
    requires Released(ptes, ptes', removed, released)
    ensures multiset(released)[f] == |set v | v in ptes && v !in ptes' && ptes[v] == f|
  {
    CountReleased(ptes, ptes', removed, released, |removed|, f);
    assert released[..|removed|] == released && removed[..|removed|] == removed;
    assert (set v | v in ptes && v !in ptes' && ptes[v] == f) == NamedIn(ptes, removed, |removed|, f);
  }

  ghost function NamedIn(ptes: map<nat, Frame>, removed: seq<nat>, n: nat, f: Frame): set<nat>
    requires n <= |removed|
  {
    set v | v in ptes && v in removed[..n] && ptes[v] == f
  }

  lemma {:induction false} CountReleased(ptes: map<nat, Frame>, ptes': map<nat, Frame>, removed: seq<nat>,
                                         released: seq<Frame>, n: nat, f: Frame)
    requires Released(ptes, ptes', removed, released) && n <= |removed|
    ensures multiset(released[..n])[f] == |NamedIn(ptes, removed, n, f)|
  {
    if n > 0 {
      hide Released;
      CountReleased(ptes, ptes', removed, released, n - 1, f);
      ReleasedAt(ptes, ptes', removed, released, n - 1);
      var v := removed[n - 1];
      assert released[..n] == released[..n - 1] + [released[n - 1]];
      assert removed[..n] == removed[..n - 1] + [v];
      assert NamedIn(ptes, removed, n, f) == NamedIn(ptes, removed, n - 1, f) + if ptes[v] == f then {v} else {};
    }
  }

  lemma ReleasedAt(ptes: map<nat, Frame>, ptes': map<nat, Frame>, removed: seq<nat>, released: seq<Frame>, i: nat)
    requires Released(ptes, ptes', removed, released) && i < |removed|
    ensures |released| == |removed| && removed[i] in ptes && released[i] == ptes[removed[i]]
              && removed[i] !in removed[..i]
  {
    assert released[i] == ptes[removed[i]];
  }

  lemma ReleasedMore(a: map<nat, Frame>, b: map<nat, Frame>, c: map<nat, Frame>, removed: seq<nat>,
                     released: seq<Frame>,
                     removed': seq<nat>, released': seq<Frame>)
    requires Released(a, b, removed, released) && Released(b, c, removed', released')
    requires forall v :: v in b ==> v in a && b[v] == a[v]
    requires forall v :: v in c ==> v in b
    ensures Released(a, c, removed + removed', released + released')
  {
    var all := removed + removed';
    forall i, j | 0 <= i < j < |all| ensures all[i] != all[j] {
      if i < |removed| <= j { assert removed[i] in removed && removed'[j - |removed|] in removed'; }
    }
  }

  class Process {
    var mappings: seq<Mapping>
    var ptes: map<nat, Frame>

    constructor (mappings: seq<Mapping>, ptes: map<nat, Frame>)
      ensures this.mappings == mappings && this.ptes == ptes
    {
      this.mappings, this.ptes := mappings, ptes;
    }

    /** One mapping: `released` are the frames whose count drops, one for each entry removed. */
    method CutMapping(i: nat, size: nat) returns (released: seq<Frame>, ghost removed: seq<nat>)
      requires i < |mappings| && mappings[i].start <= mappings[i].end
      modifies this
      ensures |mappings| == |old(mappings)| && CutSlots(old(mappings)[i], mappings[i], size)
      ensures mappings == old(mappings)[i := mappings[i]]
      ensures forall v :: v in ptes <==> v in old(ptes) && !CutPage(old(mappings)[i], size, v)
      ensures forall v :: v in ptes ==> ptes[v] == old(ptes)[v]
      ensures Released(old(ptes), ptes, removed, released)
    {
      var m := mappings[i];
      released, removed := [], [];
      var first := m.FirstInvalid(size);
      if first >= m.NumSlots() {
        return;
      }
      var slots := m.slots;
      for s := first to m.NumSlots()
        invariant mappings == old(mappings) && |slots| == |m.slots|
        invariant forall t {:trigger slots[t]} :: 0 <= t < |slots| ==>
                    slots[t] == if first <= t < s then None else m.slots[t]
        invariant forall v :: v in ptes <==> v in old(ptes) && !(m.Vpn(first) <= v < m.Vpn(s))
        invariant forall v :: v in ptes ==> ptes[v] == old(ptes)[v]
        invariant Released(old(ptes), ptes, removed, released)
      {
        var v := m.Vpn(s);
        if v in ptes {
          ReleasedMore(old(ptes), ptes, ptes - {v}, removed, released, [v], [ptes[v]]);
          released, removed := released + [ptes[v]], removed + [v];
          ptes := ptes - {v};
        }
        if s < |slots| {
          slots := slots[s := None];
        }
      }
      mappings := mappings[i := m.(slots := slots)];
    }

    /** Every mapping of the inode in this process. */
    method Cut(inode: nat, size: nat) returns (released: seq<Frame>, ghost removed: seq<nat>)
      requires LayoutOk(mappings)
      modifies this
      ensures LayoutOk(mappings) && |mappings| == |old(mappings)|
      ensures forall i {:trigger mappings[i]} :: 0 <= i < |mappings| ==>
                if old(mappings)[i].inode == Some(inode) then CutSlots(old(mappings)[i], mappings[i], size)
                    else mappings[i] == old(mappings)[i]
      ensures forall v :: v in ptes <==> v in old(ptes) && !CutSomewhere(old(mappings), |mappings|, inode, size, v)
      ensures forall v :: v in ptes ==> ptes[v] == old(ptes)[v]
      ensures Released(old(ptes), ptes, removed, released)
    {
      hide CutPage, CutSlots, LayoutOk, Released;
      released, removed := [], [];
      assert Released(ptes, ptes, [], []) by { ReleasedNone(ptes); }
      for i := 0 to |mappings|
        invariant |mappings| == |old(mappings)|
                    && (forall j {:trigger mappings[j]} :: i <= j < |mappings| ==> mappings[j] == old(mappings)[j])
        invariant forall j {:trigger mappings[j]} :: 0 <= j < i ==>
                    if old(mappings)[j].inode == Some(inode) then CutSlots(old(mappings)[j], mappings[j], size)
                        else mappings[j] == old(mappings)[j]
        invariant forall v :: v in ptes <==> v in old(ptes) && !CutSomewhere(old(mappings), i, inode, size, v)
        invariant forall v :: v in ptes ==> ptes[v] == old(ptes)[v]
        invariant Released(old(ptes), ptes, removed, released)
      {
        LayoutOne(old(mappings), i);
        CutNext(old(mappings), i, inode, size);
        if mappings[i].inode == Some(inode) {
          ghost var ptes1 := ptes;
          var more, gone := CutMapping(i, size);
          ReleasedMore(old(ptes), ptes1, ptes, removed, released, gone, more);
          released, removed := released + more, removed + gone;
        }
      }
      CutLayout(old(mappings), mappings, inode, size);
    }
  }

  /** What one process looks like after the cut. */
  ghost predicate CutDone(mappings: seq<Mapping>, mappings': seq<Mapping>, ptes: map<nat, Frame>,
                          ptes': map<nat, Frame>,
                          inode: nat, size: nat, removed: seq<nat>, released: seq<Frame>) {
    && |mappings'| == |mappings| && Released(ptes, ptes', removed, released)
    && (forall i {:trigger mappings'[i]} :: 0 <= i < |mappings| ==>
        if mappings[i].inode == Some(inode) then CutSlots(mappings[i], mappings'[i], size)
        else mappings'[i] == mappings[i])
    && (forall v :: v in ptes' <==> v in ptes && !CutSomewhere(mappings, |mappings|, inode, size, v))
    && (forall v :: v in ptes' ==> ptes'[v] == ptes[v])
  }

  /** Every process that maps the inode, one after the other; `released[i]` are the references dropped for
      process `i`. */
  method InvalidateMappingsAbove(procs: seq<Process>, inode: nat, size: nat)
      returns (released: seq<seq<Frame>>, ghost removed: seq<seq<nat>>)
    requires forall i, j :: 0 <= i < j < |procs| ==> procs[i] != procs[j]
    requires forall i :: 0 <= i < |procs| ==> LayoutOk(procs[i].mappings)
    modifies set p | p in procs
    ensures |released| == |removed| == |procs|
    ensures forall i :: 0 <= i < |procs| ==>
              CutDone(old(procs[i].mappings), procs[i].mappings, old(procs[i].ptes), procs[i].ptes, inode, size,
                removed[i], released[i])
  {
    hide LayoutOk, CutSlots, CutSomewhere, Released;
    released, removed := [], [];
    for n := 0 to |procs|
      invariant |released| == |removed| == n
      invariant forall i :: 0 <= i < n ==>
                  CutDone(old(procs[i].mappings), procs[i].mappings, old(procs[i].ptes), procs[i].ptes, inode, size,
                    removed[i], released[i])
      invariant forall i :: n <= i < |procs| ==>
                  procs[i].mappings == old(procs[i].mappings) && procs[i].ptes == old(procs[i].ptes)
    {
      var more, gone := procs[n].Cut(inode, size);
      released, removed := released + [more], removed + [gone];
    }
  }

  ghost predicate CutSomewhere(mappings: seq<Mapping>, n: nat, inode: nat, size: nat, v: nat) {
    exists i {:trigger mappings[i]} :: 0 <= i < n && i < |mappings| && mappings[i].inode == Some(inode)
      && CutPage(mappings[i], size, v)
  }

  lemma CutNext(mappings: seq<Mapping>, n: nat, inode: nat, size: nat)
    requires n < |mappings|
    ensures forall v {:trigger CutSomewhere(mappings, n, inode, size, v)}
                     {:trigger CutSomewhere(mappings, n + 1, inode, size, v)} ::
              CutSomewhere(mappings, n + 1, inode, size, v) <==>
                CutSomewhere(mappings, n, inode, size, v)
                || (mappings[n].inode == Some(inode) && CutPage(mappings[n], size, v))
  {
    hide CutPage;
  }

  lemma LayoutOne(mappings: seq<Mapping>, i: nat)
    requires LayoutOk(mappings) && i < |mappings|
    ensures mappings[i].start <= mappings[i].end
  {
  }

  lemma CutLayout(mappings: seq<Mapping>, mappings': seq<Mapping>, inode: nat, size: nat)
    requires LayoutOk(mappings) && |mappings'| == |mappings|
    requires forall i {:trigger mappings'[i]} :: 0 <= i < |mappings| ==>
               if mappings[i].inode == Some(inode) then CutSlots(mappings[i], mappings'[i], size)
               else mappings'[i] == mappings[i]
    ensures LayoutOk(mappings')
  {
    assert forall i {:trigger mappings'[i]} :: 0 <= i < |mappings| ==>
        mappings'[i].start == mappings[i].start && mappings'[i].end == mappings[i].end;
  }

  lemma ReleasedNone(ptes: map<nat, Frame>)
    ensures Released(ptes, ptes, [], [])
  {
  }

  /** After the cut, a page of the file is mapped by a process exactly if it was before and lies below
      the cut, whatever offset the mapping starts at and wherever the size falls in it. */
  lemma NothingMappedPastCut(mappings: seq<Mapping>, ptes: map<nat, Frame>, ptes': map<nat, Frame>, inode: nat,
                             size: nat, i: nat, slot: nat)
    requires LayoutOk(mappings) && i < |mappings| && mappings[i].inode == Some(inode) && slot < mappings[i].NumSlots()
    requires forall v :: v in ptes' <==> v in ptes && !CutSomewhere(mappings, |mappings|, inode, size, v)
    ensures mappings[i].Vpn(slot) in ptes' <==>
              mappings[i].Vpn(slot) in ptes && mappings[i].fileOffset + slot * PAGE < size
    ensures mappings[i].fileOffset % PAGE == 0 ==>
              (mappings[i].Vpn(slot) in ptes' <==>
              mappings[i].Vpn(slot) in ptes && mappings[i].fileOffset / PAGE + slot < CeilPages(size))
  {
    var m := mappings[i];
    SameCut(m, size, slot);
    if CutSomewhere(mappings, |mappings|, inode, size, m.Vpn(slot)) {
      var j :| 0 <= j < |mappings| && mappings[j].inode == Some(inode) && CutPage(mappings[j], size, m.Vpn(slot));
      OneMappingPerPage(mappings, i, j, slot, size);
    }
  }

  lemma OneMappingPerPage(mappings: seq<Mapping>, i: nat, j: nat, slot: nat, size: nat)
    requires LayoutOk(mappings) && i < |mappings| && j < |mappings| && slot < mappings[i].NumSlots()
               && CutPage(mappings[j], size, mappings[i].Vpn(slot))
    ensures i == j
  {
    var a, b := mappings[i], mappings[j];
    assert a.end == a.start + a.NumSlots() * PAGE && b.end == b.start + b.NumSlots() * PAGE;
    assert (i < j ==> a.end <= b.start) && (j < i ==> b.end <= a.start);
  }

  /** A process that is not mapping the inode at a page keeps its entry. */
  lemma OtherPagesKept(mappings: seq<Mapping>, ptes: map<nat, Frame>, ptes': map<nat, Frame>, inode: nat, size: nat,
                       v: nat)
    requires LayoutOk(mappings) && v in ptes
    requires forall w :: w in ptes' <==> w in ptes && !CutSomewhere(mappings, |mappings|, inode, size, w)
    requires forall i {:trigger mappings[i]} :: 0 <= i < |mappings| && mappings[i].inode == Some(inode) ==>
               v < mappings[i].start / PAGE || v >= mappings[i].end / PAGE
    ensures v in ptes'
  {
    forall j | 0 <= j < |mappings| && mappings[j].inode == Some(inode) ensures !CutPage(mappings[j], size, v) {
      CutInside(mappings[j], size, v);
    }
  }

  lemma CutInside(m: Mapping, size: nat, v: nat)
    requires m.start % PAGE == 0 && m.end % PAGE == 0 && m.start <= m.end
    ensures CutPage(m, size, v) ==> m.start / PAGE <= v < m.end / PAGE
  {
    assert m.Vpn(m.NumSlots()) == m.end / PAGE;
  }
}
