/** What a fork does to the flat page map and to frame counts, part way through and at the end. */
module ForkSpec {
  import opened Vmas
  import opened PageTree

  /** The entry both sides carry after a fork: copy-on-write, unless the mapping is special. */
  function AfterFork(e: Entry, vpn: nat, vmas: VmaSet): (r: Entry)
    ensures r.frame == e.frame && r.flags.present == e.flags.present
  {
    if IsSpecialMapping(vpn * PAGE, vmas) then e
    else Entry(e.frame, e.flags.(writable := false, cow := true))
  }

  /** `now` is `start` with some of the parent's pages given to the child. A page the child has
      carries the forked entry on both sides; the parent's other pages are as they were. */
  ghost predicate Forking(start: map<Pos, Entry>, now: map<Pos, Entry>, parent: Frame, child: Frame, vmas: VmaSet) {
    && (forall q {:trigger q in start} {:trigger now[q]} :: q in start ==> q in now && q.root != child)
    && (forall q {:trigger q in start} {:trigger now[q]} :: q in start ==>
          now[q] == if q.root == parent && q.In(child) in now then AfterFork(start[q], q.n, vmas) else start[q])
    && (forall q {:trigger now[q]} {:trigger q in now} :: q in now && q !in start ==>
          q.root == child && q.In(parent) in start && now[q] == AfterFork(start[q.In(parent)], q.n, vmas))
  }

  /** Every parent page at or below `p` has been given to the child. */
  ghost predicate Shared(start: map<Pos, Entry>, now: map<Pos, Entry>, child: Frame, p: Pos) {
    forall q {:trigger q.In(child)} :: q in start && Under(p, q) ==> q.In(child) in now
  }

  /** Handing one more page to the child. */
  lemma ForkOne(start: map<Pos, Entry>, now: map<Pos, Entry>, parent: Frame, child: Frame, vmas: VmaSet, q: Pos)
    requires Forking(start, now, parent, child, vmas) && parent != child
    requires q in now && q.root == parent && q.In(child) !in now
    ensures q in start && now[q] == start[q]
    ensures var e := AfterFork(now[q], q.n, vmas);
            Forking(start, now[q := e][q.In(child) := e], parent, child, vmas)
  {
    assert q in start;
    var e := AfterFork(now[q], q.n, vmas);
    var later := now[q := e][q.In(child) := e];
    assert q.In(child).In(parent) == q;
    forall r | r in start
      ensures r in later && r.root != child
      ensures later[r] == if r.root == parent && r.In(child) in later then AfterFork(start[r], r.n, vmas) else start[r]
    {
      assert r in now;
      if r.root == parent && r != q { assert r.In(child) != q.In(child); }
    }
  }

  lemma ParentKeepsPages(start: map<Pos, Entry>, now: map<Pos, Entry>, parent: Frame, child: Frame, vmas: VmaSet,
                         q: Pos)
    requires Forking(start, now, parent, child, vmas) && parent != child && q.root == parent
    ensures q in start <==> q in now
  {
  }

  /** A leaf table is done once each of its present entries is. */
  lemma LeavesShared(tables: Tables, at: map<Pos, Frame>, start: map<Pos, Entry>, now: map<Pos, Entry>,
                     parent: Frame, child: Frame, vmas: VmaSet, n: nat)
    requires FlatOk(tables, at, now) && Forking(start, now, parent, child, vmas)
    requires forall j: nat :: j < 512 && Pos(parent, 1, n).Child(j) in start ==> Pos(child, 1, n).Child(j) in now
    ensures Shared(start, now, child, Pos(parent, 1, n))
  {
    var p := Pos(parent, 1, n);
    forall q | q in start && Under(p, q) ensures q.In(child) in now {
      assert q in now;
      var j := q.n % 512;
      assert Under(p, q.Parent());
      assert q == p.Child(j);
    }
  }

  /** An interior table is done once each of its children is. */
  lemma ChildrenShared(start: map<Pos, Entry>, now: map<Pos, Entry>, child: Frame, p: Pos)
    requires p.level > 1
    requires forall q :: q in start ==> q.level == 0
    requires forall j: nat :: j < 512 ==> Shared(start, now, child, p.Child(j))
    ensures Shared(start, now, child, p)
  {
    forall q | q in start && Under(p, q) ensures q.In(child) in now {
      var j := UnderSomeChild(p, q);
      assert Shared(start, now, child, p.Child(j));
    }
  }

  lemma SharedGrows(start: map<Pos, Entry>, now: map<Pos, Entry>, now': map<Pos, Entry>, at: map<Pos, Frame>,
                    at': map<Pos, Frame>,
                    child: Frame, p: Pos, c: Pos)
    requires Shared(start, now, child, p) && GrewUnder(at, at', now, now', c)
    ensures Shared(start, now', child, p)
  {
  }

  /** Nothing is owed below an entry the parent does not have. */
  lemma AbsentShared(tables: Tables, at: map<Pos, Frame>, pos: map<Frame, Pos>, start: map<Pos, Entry>,
                     now: map<Pos, Entry>,
                     parent: Frame, child: Frame, vmas: VmaSet, p: Pos, i: nat)
    requires TreeOk(tables, at, pos) && FlatOk(tables, at, now) && Forking(start, now, parent, child, vmas)
    requires p.root == parent && 1 < p.level <= 4 && i < 512
    requires i >= Span(p.level) || p.Child(i) !in at
    ensures Shared(start, now, child, p.Child(i))
  {
    assert p.Child(i) in at ==> HasParent(at, p.Child(i));
    forall q | q in start ensures !Under(p.Child(i), q) {
      assert q in now;
      if Under(p.Child(i), q) { OccupiedAbove(tables, at, pos, now, p.Child(i), q); }
    }
  }

  // ---- Counting references ----

  ghost function Named(flat: map<Pos, Entry>, root: Frame, g: Frame): set<Pos> {
    set q | q in flat && q.root == root && flat[q].frame == g
  }

  /** Leaves below `root` that name frame `g`. */
  ghost function RefsIn(flat: map<Pos, Entry>, root: Frame, g: Frame): nat {
    |Named(flat, root, g)|
  }

  lemma RefsAdded(flat: map<Pos, Entry>, q: Pos, e: Entry, root: Frame, g: Frame)
    requires q !in flat
    ensures RefsIn(flat[q := e], root, g) == RefsIn(flat, root, g) + if q.root == root && e.frame == g then 1 else 0
  {
    var after := Named(flat[q := e], root, g);
    if q.root == root && e.frame == g {
      assert after == Named(flat, root, g) + {q};
    } else {
      assert after == Named(flat, root, g);
    }
  }

  lemma RefsReflagged(flat: map<Pos, Entry>, q: Pos, e: Entry, root: Frame, g: Frame)
    requires q in flat && e.frame == flat[q].frame
    ensures RefsIn(flat[q := e], root, g) == RefsIn(flat, root, g)
  {
    assert Named(flat[q := e], root, g) == Named(flat, root, g);
  }

  /** Counts after the walk: each frame has gained one per page of the child naming it, and the
      only new frames are the child's tables. */
  ghost predicate Accounted(start: map<Frame, nat>, now: map<Frame, nat>, flat: map<Pos, Entry>,
                            pos: map<Frame, Pos>, tables: Tables, child: Frame) {
    && (forall g {:trigger now[g]} {:trigger start[g]} :: g in start ==>
        g in now && now[g] == start[g] + RefsIn(flat, child, g))
    && (forall g {:trigger g in now} :: g in now && g !in start ==> g in tables && g in pos && pos[g].root == child)
    && (forall g {:trigger g in tables} :: g in tables && g in start ==> g in pos && pos[g].root != child)
  }

  function Bump(managed: set<Frame>, count: map<Frame, nat>, f: Frame): map<Frame, nat>
    requires f in managed ==> f in count
  {
    if f in managed then count[f := count[f] + 1] else count
  }

  lemma RefsShared(flat: map<Pos, Entry>, child: Frame, q: Pos, e: Entry, g: Frame)
    requires q in flat && q.root != child && q.In(child) !in flat && e.frame == flat[q].frame
    ensures RefsIn(flat[q := e][q.In(child) := e], child, g) == RefsIn(flat, child, g) + if g == e.frame then 1 else 0
  {
    RefsReflagged(flat, q, e, child, g);
    RefsAdded(flat[q := e], q.In(child), e, child, g);
  }

  /** Handing one more page to the child keeps the accounts, given the frame's count is bumped. */
  lemma AccountOne(managed: set<Frame>, start: map<Frame, nat>, now: map<Frame, nat>, flat: map<Pos, Entry>,
                   pos: map<Frame, Pos>, tables: Tables, tables': Tables, child: Frame, q: Pos, e: Entry)
    requires Accounted(start, now, flat, pos, tables, child) && FramesOk(managed, tables, flat, now)
    requires tables'.Keys == tables.Keys
    requires q in flat && q.root != child && q.In(child) !in flat && e.frame == flat[q].frame
    ensures Accounted(start, Bump(managed, now, e.frame), flat[q := e][q.In(child) := e], pos, tables', child)
  {
    var flat' := flat[q := e][q.In(child) := e];
    var now' := Bump(managed, now, e.frame);
    assert now'.Keys == now.Keys;
    assert e.frame !in tables;
    hide RefsIn;
    forall g | g in start ensures g in now' && now'[g] == start[g] + RefsIn(flat', child, g) {
      RefsShared(flat, child, q, e, g);
      assert now[g] == start[g] + RefsIn(flat, child, g);
    }
  }

  /** A fresh frame used as one of the child's tables keeps the accounts. */
  lemma AccountTable(start: map<Frame, nat>, now: map<Frame, nat>, flat: map<Pos, Entry>,
                     pos: map<Frame, Pos>, tables: Tables, tables': Tables, child: Frame, a: Frame, c: Pos)
    requires Accounted(start, now, flat, pos, tables, child)
    requires a !in now && tables'.Keys == tables.Keys + {a} && c.root == child
    ensures Accounted(start, now[a := 1], flat, pos[a := c], tables', child)
  {
    hide RefsIn;
    assert forall g :: g in start ==> g in now && now[g] == start[g] + RefsIn(flat, child, g);
  }

  lemma FramesOne(managed: set<Frame>, now: map<Frame, nat>, flat: map<Pos, Entry>, tables: Tables, tables': Tables,
                  q: Pos, r: Pos, e: Entry)
    requires FramesOk(managed, tables, flat, now) && tables'.Keys == tables.Keys
    requires q in flat && e.frame == flat[q].frame
    ensures FramesOk(managed, tables', flat[q := e][r := e], Bump(managed, now, e.frame))
  {
  }
}
