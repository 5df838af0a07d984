/** Giving back a half-built child: which tables have been freed and which leaves dropped, and
    what that has done to the counts. */
module UndoSpec {
  import opened Collections
  import opened Vmas
  import opened PageTree
  import opened ForkSpec

  /** The memory when the undo began. Nothing but counts and the set of live tables changes after. */
  datatype Snapshot = Snapshot(tables: Tables, at: map<Pos, Frame>, pos: map<Frame, Pos>, flat: map<Pos, Entry>,
    count: map<Frame, nat>)

  /** A consistent memory in which every frame is counted at least once per child leaf naming it. */
  ghost predicate SnapshotOk(managed: set<Frame>, s: Snapshot, child: Frame) {
    && TreeOk(s.tables, s.at, s.pos) && FlatOk(s.tables, s.at, s.flat) && FramesOk(managed, s.tables, s.flat, s.count)
    && (forall g {:trigger s.count[g]} :: g in s.count ==> RefsIn(s.flat, child, g) <= s.count[g])
  }

  ghost function DroppedOf(flat: map<Pos, Entry>, dropped: set<Pos>, g: Frame): set<Pos> {
    set q | q in dropped && q in flat && flat[q].frame == g
  }

  /** `f` held one of the child's tables and has been freed. */
  ghost predicate Gone(s: Snapshot, freed: set<Pos>, f: Frame) {
    f in s.tables && f in s.pos && s.pos[f] in freed
  }

  ghost predicate Undoing(s: Snapshot, child: Frame, tables: Tables, count: map<Frame, nat>, freed: set<Pos>,
                          dropped: set<Pos>) {
    && freed <= s.at.Keys && dropped <= s.flat.Keys
    && (forall q :: q in freed ==> q.root == child) && (forall q :: q in dropped ==> q.root == child)
    && (forall f {:trigger f in tables} :: f in tables <==> f in s.tables && !Gone(s, freed, f))
    && (forall f {:trigger tables[f]} :: f in tables ==> f in s.tables && tables[f] == s.tables[f])
    && (forall f {:trigger f in count} :: f in count <==> f in s.count && !Gone(s, freed, f))
    && (forall g {:trigger count[g]} :: g in count ==>
        g in s.count && count[g] + |DroppedOf(s.flat, dropped, g)| == s.count[g])
  }

  lemma DroppedOneMore(flat: map<Pos, Entry>, dropped: set<Pos>, q: Pos, h: Frame)
    requires q in flat && q !in dropped
    ensures |DroppedOf(flat, dropped + {q}, h)| == |DroppedOf(flat, dropped, h)| + if h == flat[q].frame then 1 else 0
  {
    if h == flat[q].frame {
      assert DroppedOf(flat, dropped + {q}, h) == DroppedOf(flat, dropped, h) + {q};
    } else {
      assert DroppedOf(flat, dropped + {q}, h) == DroppedOf(flat, dropped, h);
    }
  }

  /** A child leaf not yet dropped still has a reference to give up. */
  lemma CanDrop(managed: set<Frame>, s: Snapshot, child: Frame, tables: Tables, count: map<Frame, nat>,
                freed: set<Pos>, dropped: set<Pos>, q: Pos)
    requires SnapshotOk(managed, s, child) && Undoing(s, child, tables, count, freed, dropped)
    requires q in s.flat && q.root == child && q !in dropped
    ensures var g := s.flat[q].frame; g in managed ==> g in count && count[g] > 0
  {
    var g := s.flat[q].frame;
    if g in managed {
      assert g in s.count && g !in s.tables;
      assert g in count;
      DroppedOneMore(s.flat, dropped, q, g);
      DroppedAreRefs(s, child, dropped + {q}, g);
      assert RefsIn(s.flat, child, g) <= s.count[g];
    }
  }

  function Unbump(managed: set<Frame>, count: map<Frame, nat>, g: Frame): map<Frame, nat>
    requires g in managed ==> g in count && count[g] > 0
  {
    if g in managed then count[g := count[g] - 1] else count
  }

  /** Dropping one more leaf. */
  lemma DropLeaf(managed: set<Frame>, s: Snapshot, child: Frame, tables: Tables, count: map<Frame, nat>,
                 freed: set<Pos>, dropped: set<Pos>, q: Pos)
    requires SnapshotOk(managed, s, child) && Undoing(s, child, tables, count, freed, dropped)
    requires q in s.flat && q.root == child && q !in dropped
    requires var g := s.flat[q].frame; g in managed ==> g in count && count[g] > 0
    ensures Undoing(s, child, tables, Unbump(managed, count, s.flat[q].frame), freed, dropped + {q})
  {
    var g := s.flat[q].frame;
    var count' := Unbump(managed, count, g);
    assert count'.Keys == count.Keys;
    assert s.count.Keys <= managed;
    hide DroppedOf;
    forall h | h in count' ensures h in s.count && count'[h] + |DroppedOf(s.flat, dropped + {q}, h)| == s.count[h] {
      DroppedOneMore(s.flat, dropped, q, h);
      assert count[h] + |DroppedOf(s.flat, dropped, h)| == s.count[h];
    }
  }

  lemma DroppedAreRefs(s: Snapshot, child: Frame, dropped: set<Pos>, g: Frame)
    requires forall q :: q in dropped ==> q.root == child
    ensures |DroppedOf(s.flat, dropped, g)| <= RefsIn(s.flat, child, g)
  {
    SubsetSize(DroppedOf(s.flat, dropped, g), Named(s.flat, child, g));
  }

  /** Freeing one more of the child's tables. */
  lemma FreeTable(managed: set<Frame>, s: Snapshot, child: Frame, tables: Tables, count: map<Frame, nat>,
                  freed: set<Pos>, dropped: set<Pos>, c: Pos)
    requires SnapshotOk(managed, s, child) && Undoing(s, child, tables, count, freed, dropped)
    requires c in s.at && c.root == child && c !in freed
    ensures var f := s.at[c];
            f in count && count[f] == 1 && Undoing(s, child, tables - {f}, count - {f}, freed + {c}, dropped)
  {
    var f := s.at[c];
    assert f in s.tables && s.pos[f] == c;
    assert DroppedOf(s.flat, dropped, f) == {};
    assert f in count;
  }

  /** What has been freed and dropped, beyond the first pair, is what lies below `p` through its first `i` entries. */
  ghost predicate TookBelow(s: Snapshot, p: Pos, i: nat, freed0: set<Pos>, dropped0: set<Pos>, freed: set<Pos>,
                            dropped: set<Pos>) {
    && (forall q {:trigger q in freed} {:trigger q in s.at} :: q in s.at ==>
        (q in freed <==> q in freed0 || Below(p, i, q)))
    && (forall q {:trigger q in dropped} {:trigger q in s.flat} :: q in s.flat ==>
        (q in dropped <==> q in dropped0 || Below(p, i, q)))
  }

  /** ... is what lies at or below `c`. */
  ghost predicate TookUnder(s: Snapshot, c: Pos, freed0: set<Pos>, dropped0: set<Pos>, freed: set<Pos>,
                            dropped: set<Pos>) {
    && (forall q {:trigger q in freed} {:trigger q in s.at} :: q in s.at ==>
        (q in freed <==> q in freed0 || Under(c, q)))
    && (forall q {:trigger q in dropped} {:trigger q in s.flat} :: q in s.flat ==>
        (q in dropped <==> q in dropped0 || Under(c, q)))
  }

  ghost predicate Untouched(s: Snapshot, c: Pos, freed: set<Pos>, dropped: set<Pos>) {
    && (forall q {:trigger q in freed} :: q in s.at && Under(c, q) ==> q !in freed)
    && (forall q {:trigger q in dropped} :: q in s.flat && Under(c, q) ==> q !in dropped)
  }

  lemma TookNothing(s: Snapshot, p: Pos, freed: set<Pos>, dropped: set<Pos>)
    requires p.level >= 1
    ensures TookBelow(s, p, 0, freed, dropped, freed, dropped)
  {
    forall q ensures !Below(p, 0, q) { BelowAll(p, q); }
  }

  lemma TookNext(s: Snapshot, p: Pos, i: nat, freed0: set<Pos>, dropped0: set<Pos>,
                 freed1: set<Pos>, dropped1: set<Pos>, freed2: set<Pos>, dropped2: set<Pos>)
    requires p.level >= 1 && i < 512
    requires TookBelow(s, p, i, freed0, dropped0, freed1, dropped1)
               && TookUnder(s, p.Child(i), freed1, dropped1, freed2, dropped2)
    ensures TookBelow(s, p, i + 1, freed0, dropped0, freed2, dropped2)
  {
    forall q ensures Below(p, i + 1, q) <==> Below(p, i, q) || Under(p.Child(i), q) { BelowNext(p, i, q); }
  }

  lemma NextUntouched(s: Snapshot, p: Pos, i: nat, freed0: set<Pos>, dropped0: set<Pos>, freed: set<Pos>,
                      dropped: set<Pos>)
    requires p.level >= 1 && i < 512
    requires Untouched(s, p, freed0, dropped0) && TookBelow(s, p, i, freed0, dropped0, freed, dropped)
    ensures Untouched(s, p.Child(i), freed, dropped)
  {
    forall q | Under(p.Child(i), q) ensures Under(p, q) && !Below(p, i, q) {
      BelowNext(p, i, q);
      UnderChildUnder(p, i, q);
    }
  }

  /** An entry the child does not have leaves nothing to take below it. */
  lemma NothingUnder(s: Snapshot, p: Pos, i: nat, q: Pos)
    requires TreeOk(s.tables, s.at, s.pos) && FlatOk(s.tables, s.at, s.flat)
    requires p in s.at && i < 512
    requires p.level > 1 ==> p.Child(i) !in s.at
    requires p.level == 1 ==> p.Child(i) !in s.flat
    requires q in s.at || q in s.flat
    ensures !Under(p.Child(i), q)
  {
    if Under(p.Child(i), q) && p.level > 1 { OccupiedAbove(s.tables, s.at, s.pos, s.flat, p.Child(i), q); }
  }

  lemma TookAbsent(s: Snapshot, p: Pos, i: nat, freed: set<Pos>, dropped: set<Pos>)
    requires TreeOk(s.tables, s.at, s.pos) && FlatOk(s.tables, s.at, s.flat)
    requires p in s.at && i < 512
    requires p.level > 1 ==> p.Child(i) !in s.at
    requires p.level == 1 ==> p.Child(i) !in s.flat
    ensures TookUnder(s, p.Child(i), freed, dropped, freed, dropped)
  {
    forall q | q in s.at || q in s.flat ensures !Under(p.Child(i), q) { NothingUnder(s, p, i, q); }
  }

  /** Entries outside the user half of a root lead nowhere. */
  lemma {:induction false} TookRest(s: Snapshot, p: Pos, i: nat, freed0: set<Pos>, dropped0: set<Pos>, freed: set<Pos>,
                                    dropped: set<Pos>)
    requires TreeOk(s.tables, s.at, s.pos) && FlatOk(s.tables, s.at, s.flat)
    requires p in s.at && Span(p.level) <= i <= 512
    requires TookBelow(s, p, i, freed0, dropped0, freed, dropped)
    ensures TookBelow(s, p, 512, freed0, dropped0, freed, dropped)
    decreases 512 - i
  {
    if i < 512 {
      assert p.Child(i) in s.at ==> HasParent(s.at, p.Child(i));
      TookAbsent(s, p, i, freed, dropped);
      TookNext(s, p, i, freed0, dropped0, freed, dropped, freed, dropped);
      TookRest(s, p, i + 1, freed0, dropped0, freed, dropped);
    }
  }

  /** Taking everything strictly below a table and then the table itself. */
  lemma TookTable(s: Snapshot, c: Pos, freed0: set<Pos>, dropped0: set<Pos>, freed: set<Pos>, dropped: set<Pos>)
    requires c in s.at && c.level >= 1 && c !in s.flat
    requires TookBelow(s, c, 512, freed0, dropped0, freed, dropped)
    ensures TookUnder(s, c, freed0, dropped0, freed + {c}, dropped)
  {
    forall q ensures Below(c, 512, q) <==> Under(c, q) && q != c { BelowAll(c, q); }
    assert Under(c, c);
  }

  lemma TookLeaf(s: Snapshot, c: Pos, freed: set<Pos>, dropped: set<Pos>)
    requires TreeOk(s.tables, s.at, s.pos) && FlatOk(s.tables, s.at, s.flat) && c.level == 0
    ensures TookUnder(s, c, freed, dropped, freed, dropped + {c})
  {
  }

  lemma StillLive(s: Snapshot, p: Pos, i: nat, freed0: set<Pos>, dropped0: set<Pos>, freed: set<Pos>, dropped: set<Pos>)
    requires p in s.at && Untouched(s, p, freed0, dropped0) && TookBelow(s, p, i, freed0, dropped0, freed, dropped)
    ensures p !in freed
  {
    assert Under(p, p);
  }

  lemma NotFreed(s: Snapshot, c: Pos, freed0: set<Pos>, dropped0: set<Pos>, freed: set<Pos>, dropped: set<Pos>)
    requires c in s.at && c !in freed0 && TookBelow(s, c, 512, freed0, dropped0, freed, dropped)
    ensures c !in freed
  {
  }

  /** Reading an entry of a table of the child's that is still live. */
  lemma LiveEntry(managed: set<Frame>, s: Snapshot, child: Frame, tables: Tables, count: map<Frame, nat>,
                  freed: set<Pos>, dropped: set<Pos>, p: Pos, i: nat)
    requires SnapshotOk(managed, s, child) && Undoing(s, child, tables, count, freed, dropped)
    requires p in s.at && p.root == child && p !in freed && i < Span(p.level)
               && Untouched(s, p.Child(i), freed, dropped)
    ensures s.at[p] in tables && |tables[s.at[p]]| == 512
    ensures var e := tables[s.at[p]][i]; var c := p.Child(i);
            if p.level == 1 then
              (e.flags.present <==> c in s.flat) && (e.flags.present ==> s.flat[c] == e && c !in dropped)
            else
              (e.flags.present <==> c in s.at)
                && (e.flags.present ==> s.at[c] == e.frame && c !in freed && c !in s.flat)
  {
    var f := s.at[p];
    assert f in s.tables && s.pos[f] == p;
    assert f in tables && tables[f] == s.tables[f];
    assert Under(p.Child(i), p.Child(i));
    if p.level == 1 {
      assert LeafOk(s.tables, s.at, s.flat, p, i);
    } else {
      assert LinkOk(s.tables, s.at, p, i);
    }
  }

  /** With the whole child taken, the counts are those from before it existed. */
  lemma CountsRestored(managed: set<Frame>, start: map<Frame, nat>, s: Snapshot, child: Frame, tables: Tables,
                       count: map<Frame, nat>,
                       freed: set<Pos>, dropped: set<Pos>)
    requires SnapshotOk(managed, s, child) && Undoing(s, child, tables, count, freed, dropped)
    requires Accounted(start, s.count, s.flat, s.pos, s.tables, child)
    requires forall q :: q in s.at && q.root == child ==> q in freed
    requires forall q :: q in s.flat && q.root == child ==> q in dropped
    ensures count == start
  {
    forall f ensures f in count <==> f in start {
      assert f in s.tables ==> s.pos[f] in s.at;
      assert f in start ==> f in s.count;
    }
    forall g | g in start ensures count[g] == start[g] {
      assert DroppedOf(s.flat, dropped, g) == Named(s.flat, child, g);
      assert s.count[g] == start[g] + RefsIn(s.flat, child, g);
    }
  }

  lemma UndoStart(managed: set<Frame>, start: map<Frame, nat>, s: Snapshot, child: Frame)
    requires TreeOk(s.tables, s.at, s.pos) && FlatOk(s.tables, s.at, s.flat)
               && FramesOk(managed, s.tables, s.flat, s.count)
    requires Accounted(start, s.count, s.flat, s.pos, s.tables, child)
    ensures SnapshotOk(managed, s, child)
    ensures Undoing(s, child, s.tables, s.count, {}, {})
    ensures Untouched(s, Pos(child, 4, 0), {}, {})
  {
    forall g | g in s.count ensures RefsIn(s.flat, child, g) <= s.count[g] {
      if g !in start { assert g in s.tables; assert Named(s.flat, child, g) == {}; }
    }
    forall g ensures DroppedOf(s.flat, {}, g) == {} {}
  }

  /** `at` is `at0`, which has no table of the child's, with some of the child's added. */
  ghost predicate ChildTables(at0: map<Pos, Frame>, at: map<Pos, Frame>, child: Frame) {
    && (forall q {:trigger q in at0} :: q in at0 ==> q in at && at[q] == at0[q] && q.root != child)
    && (forall q {:trigger q in at} :: q in at && q !in at0 ==> q.root == child)
  }

  /** With the child's root taken too, the trees that remain are those from before the fork. */
  lemma ChildGone(managed: set<Frame>, start: map<Frame, nat>, s: Snapshot, child: Frame, at0: map<Pos, Frame>,
                  tables: Tables, count: map<Frame, nat>, freed: set<Pos>, dropped: set<Pos>)
    requires SnapshotOk(managed, s, child) && Undoing(s, child, tables, count, freed, dropped)
    requires Accounted(start, s.count, s.flat, s.pos, s.tables, child)
    requires TookUnder(s, Pos(child, 4, 0), {}, {}, freed, dropped)
    requires ChildTables(at0, s.at, child)
    ensures count == start
    ensures TreeOk(tables, at0, s.pos) && FlatOk(tables, at0, Without(s.flat, child))
  {
    forall q | (q in s.at || q in s.flat) && q.root == child ensures Under(Pos(child, 4, 0), q) {
      UnderRoot(s.tables, s.at, s.pos, s.flat, q);
    }
    CountsRestored(managed, start, s, child, tables, count, freed, dropped);
    forall f ensures f in tables <==> f in s.tables && f in s.pos && s.pos[f].root != child {
      assert f in s.tables ==> s.pos[f] in s.at;
    }
    RemoveRoot(s.tables, s.at, s.pos, s.flat, tables, at0, child);
  }

  lemma RemainingFrames(managed: set<Frame>, start: map<Frame, nat>, s: Snapshot, child: Frame, at0: map<Pos, Frame>,
                        tables: Tables,
                        freed: set<Pos>, dropped: set<Pos>, kernelRoot: seq<Entry>)
    requires SnapshotOk(managed, s, child) && Undoing(s, child, tables, start, freed, dropped)
    requires KernelHalf(s.tables, s.at, kernelRoot) && ChildTables(at0, s.at, child)
    ensures FramesOk(managed, tables, Without(s.flat, child), start) && KernelHalf(tables, at0, kernelRoot)
  {
    forall f | f in tables ensures f in start && start[f] == 1 {
      assert DroppedOf(s.flat, dropped, f) == {};
    }
    forall p | p in at0 && p.level == 4 ensures at0[p] in tables && tables[at0[p]] == s.tables[at0[p]] {
      assert s.pos[s.at[p]] == p;
    }
  }
}
