/** Four-level page tables held in physical frames: the tree they form, the flat page map they
    refine, and the effect of each single-entry update on both. */
module PageTree {
  import opened Vmas

  type Frame = nat
  type Page = seq<bv8>

  datatype Flags = Flags(present: bool, writable: bool, user: bool, noExec: bool, cow: bool, rest: nat) {
    function Union(other: Flags): Flags {
      Flags(present || other.present, writable || other.writable, user || other.user,
            noExec || other.noExec, cow || other.cow, rest)
    }
  }

  datatype Entry = Entry(frame: Frame, flags: Flags)

  const NO_FLAGS := Flags(false, false, false, false, false, 0)
  const NO_ENTRY := Entry(0, NO_FLAGS)
  const TABLE_FLAGS := Flags(true, true, true, false, false, 0)

  /** The `n`-th table of `level` (4 is the root, 1 holds leaves) below `root`; level 0 is the
      `n`-th page itself. */
  datatype Pos = Pos(root: Frame, level: nat, n: nat) {
    function Child(i: nat): Pos requires 1 <= level { Pos(root, level - 1, n * 512 + i) }
    function Parent(): Pos { Pos(root, level + 1, n / 512) }
    function In(other: Frame): Pos { Pos(other, level, n) }
  }

  /** Entries of a table that belong to the user half. */
  function Span(level: nat): nat { if level == 4 then 256 else 512 }

  type Tables = map<Frame, seq<Entry>>

  /** The `i`-th entry of the interior table at `p` is present exactly when the child
      position is occupied, and then it points at the frame there. */
  ghost predicate LinkOk(tables: Tables, at: map<Pos, Frame>, p: Pos, i: nat) {
    && p.level >= 1 && p in at && at[p] in tables && i < |tables[at[p]]|
    && var e := tables[at[p]][i];
    && (e.flags.present <==> p.Child(i) in at)
    && (e.flags.present ==> e.frame == at[p.Child(i)])
  }

  ghost predicate LeafOk(tables: Tables, at: map<Pos, Frame>, flat: map<Pos, Entry>, p: Pos, i: nat) {
    && p.level >= 1 && p in at && at[p] in tables && i < |tables[at[p]]|
    && var e := tables[at[p]][i];
    && (e.flags.present <==> p.Child(i) in flat)
    && (e.flags.present ==> e == flat[p.Child(i)])
    && (e.flags.cow ==> e.flags.present)
  }

  ghost predicate TableAt(tables: Tables, at: map<Pos, Frame>, pos: map<Frame, Pos>, p: Pos) {
    && p in at && 1 <= p.level <= 4
    && at[p] in tables && |tables[at[p]]| == 512
    && at[p] in pos && pos[at[p]] == p
    && (p.level == 4 ==> p.n == 0 && at[p] == p.root)
  }

  ghost predicate HasParent(at: map<Pos, Frame>, p: Pos) {
    p.level < 4 ==> p.Parent() in at && p.n % 512 < Span(p.level + 1)
  }

  /** The tables form a tree without sharing: `at` gives the one frame at each position, `pos`
      is its inverse, and interior entries link exactly the occupied positions. */
  ghost predicate TreeOk(tables: Tables, at: map<Pos, Frame>, pos: map<Frame, Pos>) {
    && (forall p {:trigger at[p]} {:trigger p in at} :: p in at ==> TableAt(tables, at, pos, p))
    && (forall p {:trigger HasParent(at, p)} :: p in at ==> HasParent(at, p))
    && (forall p, i: nat {:trigger LinkOk(tables, at, p, i)} :: p in at && p.level > 1 && i < Span(p.level) ==>
        LinkOk(tables, at, p, i))
    && (forall f {:trigger pos[f]} {:trigger f in tables} :: f in tables ==>
        f in pos && pos[f] in at && at[pos[f]] == f)
  }

  /** The flat page map: the present leaf entries. */
  ghost predicate FlatOk(tables: Tables, at: map<Pos, Frame>, flat: map<Pos, Entry>) {
    && (forall p {:trigger flat[p]} {:trigger p in flat} :: p in flat ==> p.level == 0 && flat[p].flags.present)
    && (forall p {:trigger HasParent(at, p)} :: p in flat ==> HasParent(at, p))
    && (forall p, i: nat {:trigger LeafOk(tables, at, flat, p, i)} :: p in at && p.level == 1 && i < 512 ==>
        LeafOk(tables, at, flat, p, i))
  }

  /** Table frames are allocated once, and no leaf names a table or a free frame. */
  ghost predicate FramesOk(managed: set<Frame>, tables: Tables, flat: map<Pos, Entry>, count: map<Frame, nat>) {
    && count.Keys <= managed
    && (forall f {:trigger f in tables} :: f in tables ==> f in count && count[f] == 1)
    && (forall p {:trigger flat[p]} :: p in flat ==>
        flat[p].frame !in tables && (flat[p].frame in managed ==> flat[p].frame in count))
  }

  // ---- Virtual addresses ----

  /** The four table indices of an address, as the fault path extracts them. */
  function SplitAddress(a: bv64): (bv64, bv64, bv64, bv64) {
    ((a >> 39) & 0x1FF, (a >> 30) & 0x1FF, (a >> 21) & 0x1FF, (a >> 12) & 0x1FF)
  }

  /** The address of a page, as the fork walk rebuilds it from the indices it descended through. */
  function JoinIndices(i4: bv64, i3: bv64, i2: bv64, i1: bv64): bv64 {
    (i4 << 39) | (i3 << 30) | (i2 << 21) | (i1 << 12)
  }

  lemma JoinInvertsSplit(a: bv64)
    requires a < 0x8000_0000_0000
    ensures var (i4, i3, i2, i1) := SplitAddress(a); JoinIndices(i4, i3, i2, i1) == a & 0xFFFF_FFFF_FFFF_F000
    ensures SplitAddress(a).0 < 256
  {
  }

  lemma SplitInvertsJoin(i4: bv64, i3: bv64, i2: bv64, i1: bv64)
    requires i4 < 256 && i3 < 512 && i2 < 512 && i1 < 512
    ensures SplitAddress(JoinIndices(i4, i3, i2, i1)) == (i4, i3, i2, i1)
    ensures JoinIndices(i4, i3, i2, i1) < 0x8000_0000_0000
    ensures JoinIndices(i4, i3, i2, i1) == (((i4 * 512 + i3) * 512 + i2) * 512 + i1) * 4096
  {
  }

  // ---- The hardware walk ----

  function Unit(level: nat): (r: nat)
    requires level <= 4
    ensures r > 0
  {
    if level == 0 then 1 else if level == 1 then 512 else if level == 2 then 0x4_0000
    else if level == 3 then 0x800_0000 else 0x10_0000_0000
  }

  /** The index the page number selects in a table of `level`. */
  function Index(vpn: nat, level: nat): (r: nat)
    requires 1 <= level <= 4
    ensures r < 512
  {
    vpn / Unit(level - 1) % 512
  }

  /** Translate a page number from the table in `f`: the present leaf entry, if any. */
  function Walk(tables: Tables, f: Frame, level: nat, vpn: nat): Option<Entry>
    requires 1 <= level <= 4
    decreases level
  {
    if f !in tables || |tables[f]| != 512 then None
    else
      var e := tables[f][Index(vpn, level)];
      if !e.flags.present then None
      else if level == 1 then Some(e)
      else Walk(tables, e.frame, level - 1, vpn)
  }

  const USER_PAGES: nat := 0x8_0000_0000

  lemma SplitStep(vpn: nat, level: nat)
    requires 1 <= level <= 4 && vpn < USER_PAGES
    ensures vpn / Unit(level - 1) == vpn / Unit(level) * 512 + Index(vpn, level)
    ensures level == 4 ==> Index(vpn, level) < 256 && vpn / Unit(level) == 0
  {
  }

  /** The hardware walk from any occupied position agrees with the flat map. */
  lemma {:induction false} WalkIsFlat(tables: Tables, at: map<Pos, Frame>, pos: map<Frame, Pos>, flat: map<Pos, Entry>,
                                      root: Frame, level: nat, vpn: nat)
    requires TreeOk(tables, at, pos) && FlatOk(tables, at, flat)
    requires 1 <= level <= 4 && vpn < USER_PAGES
    requires Pos(root, level, vpn / Unit(level)) in at
    ensures Walk(tables, at[Pos(root, level, vpn / Unit(level))], level, vpn)
         == if Pos(root, 0, vpn) in flat then Some(flat[Pos(root, 0, vpn)]) else None
  {
    var p := Pos(root, level, vpn / Unit(level));
    var i := Index(vpn, level);
    SplitStep(vpn, level);
    var c := Pos(root, level - 1, vpn / Unit(level - 1));
    assert c == p.Child(i);
    if level == 1 {
      assert LeafOk(tables, at, flat, p, i);
    } else {
      assert LinkOk(tables, at, p, i);
      if c in at {
        WalkIsFlat(tables, at, pos, flat, root, level - 1, vpn);
      } else {
        AncestorsOccupied(tables, at, pos, flat, root, level - 1, vpn);
      }
    }
  }

  /** Every table above a present leaf is occupied. */
  lemma {:induction false} AncestorsOccupied(tables: Tables, at: map<Pos, Frame>, pos: map<Frame, Pos>,
                                             flat: map<Pos, Entry>,
                                             root: Frame, level: nat, vpn: nat)
    requires TreeOk(tables, at, pos) && FlatOk(tables, at, flat)
    requires 1 <= level <= 4 && vpn < USER_PAGES
    ensures Pos(root, 0, vpn) in flat ==> Pos(root, level, vpn / Unit(level)) in at
  {
    SplitStep(vpn, level);
    if level > 1 { AncestorsOccupied(tables, at, pos, flat, root, level - 1, vpn); }
    assert HasParent(at, Pos(root, level - 1, vpn / Unit(level - 1))) || Pos(root, 0, vpn) !in flat;
  }

  // ---- Effect of one entry update on the tree and the flat map ----

  const EMPTY_TABLE: seq<Entry> := seq(512, i => NO_ENTRY)

  function SetEntry(tables: Tables, f: Frame, i: nat, e: Entry): Tables
    requires f in tables && i < |tables[f]|
  {
    tables[f := tables[f][i := e]]
  }

  /** Installing an empty table under an absent entry extends the tree by that one position. */
  lemma InstallTable(tables: Tables, at: map<Pos, Frame>, pos: map<Frame, Pos>, flat: map<Pos, Entry>,
                     p: Pos, i: nat, f: Frame, flags: Flags)
    requires TreeOk(tables, at, pos) && FlatOk(tables, at, flat)
    requires p in at && p.level > 1 && i < Span(p.level) && p.Child(i) !in at
    requires f !in tables && flags.present
    ensures at[p] in tables && |tables[at[p]]| == 512
    ensures var t := SetEntry(tables, at[p], i, Entry(f, flags))[f := EMPTY_TABLE];
            var c := p.Child(i);
            TreeOk(t, at[c := f], pos[f := c])
  {
    var c := p.Child(i);
    var t := SetEntry(tables, at[p], i, Entry(f, flags))[f := EMPTY_TABLE];
    var at' := at[c := f];
    assert c.Parent() == p;
    forall q, j: nat | q in at' && q.level > 1 && j < Span(q.level) ensures LinkOk(t, at', q, j) {
      assert q in at ==> LinkOk(tables, at, q, j);
      assert c.level > 1 && c.Child(j) in at ==> HasParent(at, c.Child(j));
    }
    forall q | q in at' ensures HasParent(at', q) { assert q in at ==> HasParent(at, q); }
  }

  /** ... and leaves the flat map as it was. */
  lemma InstallTableFlat(tables: Tables, at: map<Pos, Frame>, pos: map<Frame, Pos>, flat: map<Pos, Entry>,
                         p: Pos, i: nat, f: Frame, flags: Flags)
    requires TreeOk(tables, at, pos) && FlatOk(tables, at, flat)
    requires p in at && p.level > 1 && i < Span(p.level) && p.Child(i) !in at
    requires f !in tables && flags.present
    ensures at[p] in tables && |tables[at[p]]| == 512
    ensures FlatOk(SetEntry(tables, at[p], i, Entry(f, flags))[f := EMPTY_TABLE], at[p.Child(i) := f], flat)
  {
    var c := p.Child(i);
    var t := SetEntry(tables, at[p], i, Entry(f, flags))[f := EMPTY_TABLE];
    var at' := at[c := f];
    forall q, j: nat | q in at' && q.level == 1 && j < 512 ensures LeafOk(t, at', flat, q, j) {
      assert q in at ==> LeafOk(tables, at, flat, q, j);
      assert c.Child(j) in flat ==> HasParent(at, c.Child(j));
    }
    forall q | q in flat ensures HasParent(at', q) { assert HasParent(at, q); }
  }

  /** Writing a present leaf entry changes the flat map at that page alone. */
  lemma WriteLeaf(tables: Tables, at: map<Pos, Frame>, pos: map<Frame, Pos>, flat: map<Pos, Entry>, p: Pos, i: nat,
                  e: Entry)
    requires TreeOk(tables, at, pos) && FlatOk(tables, at, flat)
    requires p in at && p.level == 1 && i < 512 && e.flags.present
    ensures at[p] in tables && |tables[at[p]]| == 512
    ensures var t := SetEntry(tables, at[p], i, e);
            TreeOk(t, at, pos) && FlatOk(t, at, flat[p.Child(i) := e])
  {
    var t := SetEntry(tables, at[p], i, e);
    var flat' := flat[p.Child(i) := e];
    forall q, j: nat | q in at && q.level > 1 && j < Span(q.level) ensures LinkOk(t, at, q, j) {
      assert LinkOk(tables, at, q, j);
    }
    forall q, j: nat | q in at && q.level == 1 && j < 512 ensures LeafOk(t, at, flat', q, j) {
      assert LeafOk(tables, at, flat, q, j);
    }
    forall q | q in flat' ensures HasParent(at, q) {
      if q in flat { assert HasParent(at, q); } else { assert q.Parent() == p; }
    }
  }

  /** Widening the flags of a present interior entry changes neither tree nor flat map. */
  lemma WidenLink(tables: Tables, at: map<Pos, Frame>, pos: map<Frame, Pos>, flat: map<Pos, Entry>, p: Pos, i: nat,
                  flags: Flags)
    requires TreeOk(tables, at, pos) && FlatOk(tables, at, flat)
    requires p in at && p.level > 1 && i < Span(p.level) && p.Child(i) in at && flags.present
    ensures var t := SetEntry(tables, at[p], i, Entry(tables[at[p]][i].frame, flags));
            TreeOk(t, at, pos) && FlatOk(t, at, flat)
  {
    var t := SetEntry(tables, at[p], i, Entry(tables[at[p]][i].frame, flags));
    forall q, j: nat | q in at && q.level > 1 && j < Span(q.level) ensures LinkOk(t, at, q, j) {
      assert LinkOk(tables, at, q, j);
    }
    forall q, j: nat | q in at && q.level == 1 && j < 512 ensures LeafOk(t, at, flat, q, j) {
      assert LeafOk(tables, at, flat, q, j);
    }
  }

  /** Tables were added, all below `root` and all in frames that were free. */
  ghost predicate Extended(managed: set<Frame>, root: Frame, at: map<Pos, Frame>, at': map<Pos, Frame>,
                           tables: Tables, tables': Tables, count: map<Frame, nat>, count': map<Frame, nat>) {
    && (forall q {:trigger q in at} {:trigger at'[q]} :: q in at ==> q in at' && at'[q] == at[q])
    && (forall q {:trigger q in at'} :: q in at' && q !in at ==> q.root == root && q.level < 4)
    && (forall g {:trigger g in count} {:trigger count'[g]} :: g in count ==> g in count' && count'[g] == count[g])
    && (forall g {:trigger g in tables'} :: g in tables' && g !in tables ==> g !in count && g in managed)
    && (forall g {:trigger g in tables} :: g in tables ==> g in tables')
    && (forall g {:trigger g in count'} :: g in count' && g !in count ==> g in tables' && g !in tables)
  }

  lemma ExtendedTwice(managed: set<Frame>, root: Frame, at0: map<Pos, Frame>, at1: map<Pos, Frame>,
                      at2: map<Pos, Frame>,
                      tables0: Tables, tables1: Tables, tables2: Tables, count0: map<Frame, nat>,
                        count1: map<Frame, nat>, count2: map<Frame, nat>)
    requires Extended(managed, root, at0, at1, tables0, tables1, count0, count1)
    requires Extended(managed, root, at1, at2, tables1, tables2, count1, count2)
    ensures Extended(managed, root, at0, at2, tables0, tables2, count0, count2)
  {
  }

  // ---- Subtrees ----

  /** `q` lies at or below `p`. */
  ghost predicate Under(p: Pos, q: Pos)
    decreases p.level - q.level
  {
    q.level <= p.level && (if q.level == p.level then q == p else Under(p, q.Parent()))
  }

  lemma {:induction false} UnderChildUnder(p: Pos, i: nat, q: Pos)
    requires p.level >= 1 && i < 512 && Under(p.Child(i), q)
    ensures Under(p, q)
    decreases p.level - q.level
  {
    if q.level < p.level - 1 { UnderChildUnder(p, i, q.Parent()); }
    assert p.Child(i).Parent() == p;
  }

  /** What lies strictly below `p` lies below one of its children. */
  lemma {:induction false} UnderSomeChild(p: Pos, q: Pos) returns (i: nat)
    requires Under(p, q) && q.level < p.level
    ensures i < 512 && Under(p.Child(i), q)
    decreases p.level - q.level
  {
    if q.level == p.level - 1 {
      i := q.n % 512;
      assert q == p.Child(i);
    } else {
      i := UnderSomeChild(p, q.Parent());
    }
  }

  lemma {:induction false} UnderMoved(p: Pos, q: Pos, root: Frame)
    requires Under(p, q)
    ensures Under(p.In(root), q.In(root)) && p.root == q.root
    decreases p.level - q.level
  {
    if q.level < p.level {
      UnderMoved(p, q.Parent(), root);
      assert q.In(root).Parent() == q.Parent().In(root);
    }
  }

  /** Every table above a present leaf is occupied. */
  lemma {:induction false} OccupiedAbove(tables: Tables, at: map<Pos, Frame>, pos: map<Frame, Pos>,
                                         flat: map<Pos, Entry>, p: Pos, q: Pos)
    requires TreeOk(tables, at, pos) && FlatOk(tables, at, flat)
    requires (q in flat || q in at) && Under(p, q) && 1 <= p.level <= 4
    ensures p in at
    decreases p.level - q.level
  {
    if q.level < p.level {
      assert HasParent(at, q);
      OccupiedAbove(tables, at, pos, flat, p, q.Parent());
    }
  }

  /** Everything below a root is under it. */
  lemma {:induction false} UnderRoot(tables: Tables, at: map<Pos, Frame>, pos: map<Frame, Pos>, flat: map<Pos, Entry>,
                                     q: Pos)
    requires TreeOk(tables, at, pos) && FlatOk(tables, at, flat)
    requires q in flat || q in at
    ensures q.level <= 4 && Under(Pos(q.root, 4, 0), q)
    decreases 4 - q.level
  {
    if q.level < 4 {
      assert HasParent(at, q);
      UnderRoot(tables, at, pos, flat, q.Parent());
    }
  }

  lemma {:induction false} UnderOneChild(p: Pos, i: nat, j: nat, q: Pos)
    requires p.level >= 1 && i < 512 && j < 512
    requires Under(p.Child(i), q) && Under(p.Child(j), q)
    ensures i == j
    decreases p.level - q.level
  {
    if q.level < p.level - 1 { UnderOneChild(p, i, j, q.Parent()); }
  }

  /** Nothing lies at or below `p`. */
  ghost predicate Bare(at: map<Pos, Frame>, flat: map<Pos, Entry>, p: Pos) {
    && (forall q {:trigger Under(p, q)} :: q in at ==> !Under(p, q))
    && (forall q {:trigger Under(p, q)} :: q in flat ==> !Under(p, q))
  }

  /** The tables and leaves that appeared are all at or below `p`. */
  ghost predicate GrewUnder(at: map<Pos, Frame>, at': map<Pos, Frame>, flat: map<Pos, Entry>, flat': map<Pos, Entry>,
                            p: Pos) {
    && (forall q {:trigger q in at} {:trigger at'[q]} :: q in at ==> q in at' && at'[q] == at[q])
    && (forall q {:trigger q in at'} :: q in at' && q !in at ==> Under(p, q))
    && (forall q {:trigger q in flat} {:trigger q in flat'} :: q in flat ==> q in flat')
    && (forall q {:trigger q in flat'} :: q in flat' && q !in flat ==> Under(p, q))
  }

  lemma BareSibling(at: map<Pos, Frame>, at': map<Pos, Frame>, flat: map<Pos, Entry>, flat': map<Pos, Entry>, p: Pos,
                    i: nat, j: nat)
    requires p.level >= 1 && i < 512 && j < 512 && i != j
    requires GrewUnder(at, at', flat, flat', p.Child(i)) && Bare(at, flat, p.Child(j))
    ensures Bare(at', flat', p.Child(j))
  {
    forall q | q in at' ensures !Under(p.Child(j), q) {
      if Under(p.Child(j), q) && q !in at { UnderOneChild(p, i, j, q); }
    }
    forall q | q in flat' ensures !Under(p.Child(j), q) {
      if Under(p.Child(j), q) && q !in flat { UnderOneChild(p, i, j, q); }
    }
  }

  lemma GrewThrough(at: map<Pos, Frame>, at1: map<Pos, Frame>, at2: map<Pos, Frame>,
                    flat: map<Pos, Entry>, flat1: map<Pos, Entry>, flat2: map<Pos, Entry>, p: Pos, i: nat)
    requires p.level >= 1 && i < 512
    requires GrewUnder(at, at1, flat, flat1, p) && GrewUnder(at1, at2, flat1, flat2, p.Child(i))
    ensures GrewUnder(at, at2, flat, flat2, p)
  {
    forall q | (q in at2 || q in flat2) && Under(p.Child(i), q) ensures Under(p, q) { UnderChildUnder(p, i, q); }
  }

  /** A table linked at a bare position has bare entries. */
  lemma BareBelowNew(at: map<Pos, Frame>, flat: map<Pos, Entry>, p: Pos, f: Frame, j: nat)
    requires p.level >= 1 && j < 512 && Bare(at, flat, p)
    ensures Bare(at[p := f], flat, p.Child(j))
  {
    forall q | q in at[p := f] || q in flat ensures !Under(p.Child(j), q) {
      if Under(p.Child(j), q) { UnderChildUnder(p, j, q); }
    }
  }

  lemma GrewByOne(at: map<Pos, Frame>, at': map<Pos, Frame>, flat: map<Pos, Entry>, flat': map<Pos, Entry>, p: Pos,
                  f: Frame)
    requires p !in at && GrewUnder(at[p := f], at', flat, flat', p)
    ensures GrewUnder(at, at', flat, flat', p)
  {
    assert Under(p, p);
    assert forall q :: q in at ==> q in at[p := f] && at[p := f][q] == at[q];
  }

  /** One entry of an interior table cloned: growth stays below the table, later entries stay bare. */
  lemma EntryCloned(at: map<Pos, Frame>, at1: map<Pos, Frame>, at2: map<Pos, Frame>,
                    flat: map<Pos, Entry>, flat1: map<Pos, Entry>, flat2: map<Pos, Entry>, p: Pos, i: nat, f: Frame)
    requires p.level >= 1 && i < 512 && p.Child(i) !in at1
    requires GrewUnder(at, at1, flat, flat1, p) && GrewUnder(at1[p.Child(i) := f], at2, flat1, flat2, p.Child(i))
    requires forall j: nat :: i <= j < 512 ==> Bare(at1, flat1, p.Child(j))
    ensures GrewUnder(at, at2, flat, flat2, p)
    ensures forall j: nat :: i < j < 512 ==> Bare(at2, flat2, p.Child(j))
  {
    GrewByOne(at1, at2, flat1, flat2, p.Child(i), f);
    GrewThrough(at, at1, at2, flat, flat1, flat2, p, i);
    hide GrewUnder, Bare;
    forall j: nat | i < j < 512 ensures Bare(at2, flat2, p.Child(j)) {
      assert Bare(at1, flat1, p.Child(j));
      BareSibling(at1, at2, flat1, flat2, p, i, j);
    }
  }

  lemma GrewSelf(at: map<Pos, Frame>, flat: map<Pos, Entry>, p: Pos)
    ensures GrewUnder(at, at, flat, flat, p)
  {
  }

  lemma BareHead(at: map<Pos, Frame>, flat: map<Pos, Entry>, p: Pos)
    requires Bare(at, flat, p)
    ensures p !in at && p !in flat
  {
    assert Under(p, p);
  }

  lemma GrewKeeps(at: map<Pos, Frame>, at': map<Pos, Frame>, flat: map<Pos, Entry>, flat': map<Pos, Entry>, p: Pos)
    requires GrewUnder(at, at', flat, flat', p)
    ensures forall q {:trigger q in at} {:trigger at'[q]} :: q in at ==> q in at' && at'[q] == at[q]
  {
  }

  lemma LeavesGrew(at: map<Pos, Frame>, flat: map<Pos, Entry>, flat': map<Pos, Entry>, root: Frame, n: nat)
    requires flat.Keys <= flat'.Keys
    requires forall q :: q in flat' && q !in flat ==> q.level == 0 && q.Parent() == Pos(root, 1, n)
    ensures GrewUnder(at, at, flat, flat', Pos(root, 1, n))
  {
    forall q | q in flat' && q !in flat ensures Under(Pos(root, 1, n), q) { assert Under(Pos(root, 1, n), q.Parent()); }
  }

  // ---- Subtrees entry by entry ----

  /** The entry of `p` through which `q` is reached. */
  ghost function Slot(p: Pos, q: Pos): nat
    decreases p.level - q.level
  {
    if q.level + 1 >= p.level then q.n % 512 else Slot(p, q.Parent())
  }

  lemma {:induction false} SlotIsTheChild(p: Pos, q: Pos, i: nat)
    requires Under(p, q) && q.level < p.level && i < 512
    ensures Slot(p, q) < 512
    ensures Under(p.Child(i), q) <==> i == Slot(p, q)
    decreases p.level - q.level
  {
    if q.level + 1 < p.level { SlotIsTheChild(p, q.Parent(), i); }
  }

  /** `q` lies strictly below `p`, through one of its first `i` entries. */
  ghost predicate Below(p: Pos, i: nat, q: Pos) {
    Under(p, q) && q.level < p.level && Slot(p, q) < i
  }

  lemma BelowNext(p: Pos, i: nat, q: Pos)
    requires p.level >= 1 && i < 512
    ensures Below(p, i + 1, q) <==> Below(p, i, q) || Under(p.Child(i), q)
    ensures !(Below(p, i, q) && Under(p.Child(i), q))
  {
    if Under(p, q) && q.level < p.level { SlotIsTheChild(p, q, i); }
    if Under(p.Child(i), q) { UnderChildUnder(p, i, q); SlotIsTheChild(p, q, i); }
  }

  lemma BelowAll(p: Pos, q: Pos)
    requires p.level >= 1
    ensures Below(p, 512, q) <==> Under(p, q) && q != p
    ensures !Below(p, 0, q)
  {
    if Under(p, q) && q.level < p.level { SlotIsTheChild(p, q, 0); }
  }

  // ---- Roots ----

  /** Every root's upper half is the kernel's. */
  ghost predicate KernelHalf(tables: Tables, at: map<Pos, Frame>, kernelRoot: seq<Entry>) {
    && |kernelRoot| == 512
    && forall p {:trigger at[p]} :: p in at && p.level == 4 ==>
        at[p] in tables && |tables[at[p]]| == 512 && tables[at[p]][256..] == kernelRoot[256..]
  }

  lemma KernelHalfKept(tables: Tables, at: map<Pos, Frame>, pos: map<Frame, Pos>, kernelRoot: seq<Entry>, p: Pos,
                       i: nat, e: Entry)
    requires TreeOk(tables, at, pos) && KernelHalf(tables, at, kernelRoot)
    requires p in at && i < Span(p.level)
    ensures at[p] in tables && i < |tables[at[p]]| && p.level <= 4
    ensures KernelHalf(SetEntry(tables, at[p], i, e), at, kernelRoot)
  {
    var t := SetEntry(tables, at[p], i, e);
    forall q | q in at && q.level == 4
      ensures at[q] in t && |t[at[q]]| == 512 && t[at[q]][256..] == kernelRoot[256..]
    {
      assert at[q] == at[p] ==> q == p;
    }
  }

  lemma KernelHalfGrown(tables: Tables, at: map<Pos, Frame>, kernelRoot: seq<Entry>, c: Pos, f: Frame,
                        table: seq<Entry>)
    requires KernelHalf(tables, at, kernelRoot) && f !in tables
    requires c.level == 4 ==> |table| == 512 && table[256..] == kernelRoot[256..]
    ensures KernelHalf(tables[f := table], at[c := f], kernelRoot)
  {
  }

  /** No position hangs below a frame that is not itself a table. */
  lemma RootIsTable(tables: Tables, at: map<Pos, Frame>, pos: map<Frame, Pos>, flat: map<Pos, Entry>, q: Pos)
    requires TreeOk(tables, at, pos) && FlatOk(tables, at, flat)
    requires q in at || q in flat
    ensures q.root in tables && Pos(q.root, 4, 0) in at
  {
    UnderRoot(tables, at, pos, flat, q);
    OccupiedAbove(tables, at, pos, flat, Pos(q.root, 4, 0), q);
  }

  /** A fresh frame with an empty user half is a new tree. */
  lemma InstallRoot(tables: Tables, at: map<Pos, Frame>, pos: map<Frame, Pos>, flat: map<Pos, Entry>, f: Frame,
                    table: seq<Entry>)
    requires TreeOk(tables, at, pos) && FlatOk(tables, at, flat) && f !in tables
    requires |table| == 512 && forall i :: 0 <= i < 256 ==> table[i] == NO_ENTRY
    ensures TreeOk(tables[f := table], at[Pos(f, 4, 0) := f], pos[f := Pos(f, 4, 0)])
    ensures FlatOk(tables[f := table], at[Pos(f, 4, 0) := f], flat)
    ensures forall q :: q in at || q in flat ==> q.root != f
  {
    var r := Pos(f, 4, 0);
    var t, at', pos' := tables[f := table], at[r := f], pos[f := r];
    forall q | q in at || q in flat ensures q.root != f { RootIsTable(tables, at, pos, flat, q); }
    forall q, j: nat | q in at' && q.level > 1 && j < Span(q.level) ensures LinkOk(t, at', q, j) {
      if q != r { assert LinkOk(tables, at, q, j); }
    }
    forall q, j: nat | q in at' && q.level == 1 && j < 512 ensures LeafOk(t, at', flat, q, j) {
      assert LeafOk(tables, at, flat, q, j);
    }
    forall q | q in at' || q in flat ensures HasParent(at', q) { assert q in at || q in flat ==> HasParent(at, q); }
  }

  function Without(flat: map<Pos, Entry>, root: Frame): map<Pos, Entry> {
    map q | q in flat && q.root != root :: flat[q]
  }

  /** Taking one root's tables and leaves away leaves the other trees as they were. */
  lemma RemoveRoot(tables: Tables, at: map<Pos, Frame>, pos: map<Frame, Pos>, flat: map<Pos, Entry>,
                   tables': Tables, at': map<Pos, Frame>, root: Frame)
    requires TreeOk(tables, at, pos) && FlatOk(tables, at, flat)
    requires forall q :: q in at' <==> q in at && q.root != root
    requires forall q :: q in at' ==> at'[q] == at[q]
    requires forall f :: f in tables' <==> f in tables && f in pos && pos[f].root != root
    requires forall f :: f in tables' ==> tables'[f] == tables[f]
    ensures TreeOk(tables', at', pos) && FlatOk(tables', at', Without(flat, root))
  {
    var flat' := Without(flat, root);
    forall q | q in at' ensures TableAt(tables', at', pos, q) && HasParent(at', q) {
      assert TableAt(tables, at, pos, q) && HasParent(at, q);
    }
    forall q | q in flat' ensures HasParent(at', q) { assert HasParent(at, q); }
    forall q, j: nat | q in at' && q.level > 1 && j < Span(q.level) ensures LinkOk(tables', at', q, j) {
      assert TableAt(tables, at, pos, q);
      assert LinkOk(tables, at, q, j);
    }
    forall q, j: nat | q in at' && q.level == 1 && j < 512 ensures LeafOk(tables', at', flat', q, j) {
      assert TableAt(tables, at, pos, q);
      assert LeafOk(tables, at, flat, q, j);
    }
  }
}
