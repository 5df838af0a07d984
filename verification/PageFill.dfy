/** The in-flight fill registry of one inode, as steps taken by any number of threads. Each step is
    one lock section or one atomic operation. */
module PageFill {
  import opened Vmas

  type Tid = nat
  type Hid = nat

  datatype Status = Pending | Success | Failed

  /** A fill handle over the pages [first, first + len). The last six fields only record what has
      happened to it; no step consults them. */
  datatype Handle = Handle(first: nat, len: nat, prefetch: bool, state: Status, finalized: bool,
                           issuer: Tid, driver: Option<Tid>, inserted: bool, removed: bool, added: bool, subbed: bool) {
    predicate Covers(i: nat) { first <= i < first + len }
  }

  /** Where a thread is. A thread holds a handle from the lock section that gave it one until it
      has done what it owes that handle. */
  datatype Pc =
    | Idle
    | Joined(h: Hid)
    | Parked(h: Hid)
    | Installed(h: Hid)
    | Counted(h: Hid)
    | Filling(h: Hid)
    | Filled(h: Hid)
    | Inserted(h: Hid)
    | Failing(h: Hid)
    | Published(h: Hid)
    | Removed(h: Hid)
    | Issued(h: Hid)
    | Cancelling(h: Hid)
    | Cancelled(h: Hid, won: bool)
    | CancelRemoved(h: Hid, won: bool)
    | Dead(owned: Option<Hid>)

  datatype State = State(inFlight: map<nat, Hid>, handles: seq<Handle>, pages: map<nat, nat>, current: int,
    threads: map<Tid, Pc>) {
    function Pc(t: Tid): Pc { if t in threads then threads[t] else Idle }
    function At(t: Tid, pc: Pc): State { this.(threads := threads[t := pc]) }
    function With(h: Hid, x: Handle): State requires h < |handles| { this.(handles := handles[h := x]) }
  }

  predicate Init(s: State) {
    s.inFlight == map[] && s.handles == [] && s.pages == map[] && s.current == 0 && s.threads == map[]
  }

  // ---- Registry operations ----

  predicate Free(inFlight: map<nat, Hid>, first: nat, len: nat) {
    forall i :: first <= i < first + len ==> i !in inFlight
  }

  function InstallAt(inFlight: map<nat, Hid>, first: nat, len: nat, h: Hid): (r: map<nat, Hid>)
    ensures forall i :: i in r <==> i in inFlight || first <= i < first + len
    ensures forall i :: i in r ==> r[i] == if first <= i < first + len then h else inFlight[i]
  {
    if len == 0 then inFlight else InstallAt(inFlight, first, len - 1, h)[first + len - 1 := h]
  }

  /** Entries of the range that are this very handle go; everything else stays. */
  function RemoveAll(inFlight: map<nat, Hid>, first: nat, len: nat, h: Hid): map<nat, Hid> {
    map i | i in inFlight && !(first <= i < first + len && inFlight[i] == h) :: inFlight[i]
  }

  /** Pages already cached are kept; the others get the new contents. */
  function InsertPages(pages: map<nat, nat>, first: nat, len: nat, contents: nat -> nat): (r: map<nat, nat>)
    ensures forall i :: i in r <==> i in pages || first <= i < first + len
    ensures forall i :: i in r ==> r[i] == if i in pages then pages[i] else contents(i)
  {
    if len == 0 then pages
    else
      var rest := InsertPages(pages, first, len - 1, contents);
      if first + len - 1 in rest then rest else rest[first + len - 1 := contents(first + len - 1)]
  }

  // ---- Steps ----

  datatype Step =
    | Join(t: Tid, i: nat)
    | Install(t: Tid, first: nat, len: nat)
    | InstallPrefetch(t: Tid, first: nat, len: nat)
    | CountUp(t: Tid)
    | CountUpPrefetch(t: Tid)
    | Register(t: Tid, ok: bool)
    | Fill(t: Tid, ok: bool)
    | Die(t: Tid)
    | Insert(t: Tid, contents: nat -> nat)
    | PublishSuccess(t: Tid)
    | PublishFailed(t: Tid)
    | Remove(t: Tid)
    | CountDown(t: Tid)
    | Finalize(t: Tid, ok: bool)
    | Wake(t: Tid)
    | Reap(t: Tid, dead: Tid)
    | CancelState(t: Tid)
    | CancelRemove(t: Tid)
    | CancelCountDown(t: Tid)
    | InlineInsert(t: Tid, i: nat, content: nat)
    | Evict(i: nat)

  function NewHandle(t: Tid, first: nat, len: nat, prefetch: bool): Handle {
    Handle(first, len, prefetch, Pending, false, t, if prefetch then None else Some(t), false, false, false, false)
  }

  ghost predicate Next(s: State, s': State, step: Step) {
    match step
    case Join(t, i) => s.Pc(t).Idle? && i in s.inFlight && s' == s.At(t, Joined(s.inFlight[i]))
    case Install(t, first, len) => s.Pc(t).Idle? && len > 0 && Free(s.inFlight, first, len)
      && s' == AfterInstall(s, t, first, len, false)
    case InstallPrefetch(t, first, len) => s.Pc(t).Idle? && len > 0 && Free(s.inFlight, first, len)
      && s' == AfterInstall(s, t, first, len, true)
    case CountUp(t) => s.Pc(t).Installed? && s.Pc(t).h < |s.handles|
      && s' == AfterCountUp(s, t, s.Pc(t).h, Counted(s.Pc(t).h))
    case CountUpPrefetch(t) => s.Pc(t).Issued? && s.Pc(t).h < |s.handles| && s' == AfterCountUp(s, t, s.Pc(t).h, Idle)
    case Register(t, ok) => s.Pc(t).Counted? && s' == s.At(t, if ok then Filling(s.Pc(t).h) else Failing(s.Pc(t).h))
    case Fill(t, ok) => s.Pc(t).Filling? && s' == s.At(t, if ok then Filled(s.Pc(t).h) else Failing(s.Pc(t).h))
    case Die(t) =>
      && (s.Pc(t).Filling? || s.Pc(t).Idle? || s.Pc(t).Joined? || s.Pc(t).Parked?)
      && s' == s.At(t, Dead(if s.Pc(t).Filling? then Some(s.Pc(t).h) else None))
    case Insert(t, contents) => s.Pc(t).Filled? && s.Pc(t).h < |s.handles|
      && s' == AfterInsert(s, t, s.Pc(t).h, contents)
    case PublishSuccess(t) => s.Pc(t).Inserted? && s.Pc(t).h < |s.handles|
      && s' == AfterPublish(s, t, s.Pc(t).h, Success)
    case PublishFailed(t) => s.Pc(t).Failing? && s.Pc(t).h < |s.handles| && s' == AfterPublish(s, t, s.Pc(t).h, Failed)
    case Remove(t) => s.Pc(t).Published? && s.Pc(t).h < |s.handles|
      && s' == AfterRemove(s, t, s.Pc(t).h, Removed(s.Pc(t).h))
    case CountDown(t) =>
      && s.Pc(t).Removed? && s.Pc(t).h < |s.handles|
      && s' == AfterCountDown(s, t, s.Pc(t).h, if s.handles[s.Pc(t).h].prefetch then Parked(s.Pc(t).h) else Idle)
    case Finalize(t, ok) => s.Pc(t).Joined? && s.Pc(t).h < |s.handles| && s' == AfterFinalize(s, t, s.Pc(t).h, ok)
    case Wake(t) => s.Pc(t).Parked? && s.Pc(t).h < |s.handles| && !s.handles[s.Pc(t).h].state.Pending?
      && s' == s.At(t, Idle)
    case Reap(t, dead) =>
      && s.Pc(t).Idle? && s.Pc(dead).Dead? && s.Pc(dead).owned.Some? && s.Pc(dead).owned.value < |s.handles|
      && s' == AfterReap(s, t, dead, s.Pc(dead).owned.value)
    case CancelState(t) => s.Pc(t).Cancelling? && s.Pc(t).h < |s.handles| && s' == AfterCancelState(s, t, s.Pc(t).h)
    case CancelRemove(t) => s.Pc(t).Cancelled? && s.Pc(t).h < |s.handles|
      && s' == AfterRemove(s, t, s.Pc(t).h, CancelRemoved(s.Pc(t).h, s.Pc(t).won))
    case CancelCountDown(t) =>
      && s.Pc(t).CancelRemoved? && s.Pc(t).h < |s.handles|
      && s' == if s.Pc(t).won then AfterCountDown(s, t, s.Pc(t).h, Idle) else s.At(t, Idle)
    case InlineInsert(t, i, content) => s.Pc(t).Idle?
      && s' == s.(pages := if i in s.pages then s.pages else s.pages[i := content])
    case Evict(i) => s' == s.(pages := s.pages - {i})
  }

  function AfterInstall(s: State, t: Tid, first: nat, len: nat, prefetch: bool): State {
    var h := |s.handles|;
    s.(inFlight := InstallAt(s.inFlight, first, len, h),
      handles := s.handles + [NewHandle(t, first, len, prefetch)]).At(t, if prefetch then Issued(h) else Installed(h))
  }

  function AfterCountUp(s: State, t: Tid, h: Hid, pc: Pc): State
    requires h < |s.handles|
  {
    s.(current := s.current + 1).With(h, s.handles[h].(added := true)).At(t, pc)
  }

  function AfterInsert(s: State, t: Tid, h: Hid, contents: nat -> nat): State
    requires h < |s.handles|
  {
    var x := s.handles[h];
    s.(pages := InsertPages(s.pages, x.first, x.len, contents)).With(h, x.(inserted := true)).At(t, Inserted(h))
  }

  function AfterPublish(s: State, t: Tid, h: Hid, state: Status): State
    requires h < |s.handles|
  {
    s.With(h, s.handles[h].(state := state)).At(t, Published(h))
  }

  function AfterRemove(s: State, t: Tid, h: Hid, pc: Pc): State
    requires h < |s.handles|
  {
    var x := s.handles[h];
    s.(inFlight := RemoveAll(s.inFlight, x.first, x.len, h)).With(h, x.(removed := true)).At(t, pc)
  }

  function AfterCountDown(s: State, t: Tid, h: Hid, pc: Pc): State
    requires h < |s.handles|
  {
    s.(current := s.current - 1).With(h, s.handles[h].(subbed := true, driver := None)).At(t, pc)
  }

  /** Only a prefetch is finalised, and only by whoever swaps its flag; others go on to wait. */
  function AfterFinalize(s: State, t: Tid, h: Hid, ok: bool): State
    requires h < |s.handles|
  {
    var x := s.handles[h];
    if x.prefetch && !x.finalized
    then s.With(h, x.(finalized := true, driver := Some(t))).At(t, if ok then Filled(h) else Failing(h))
    else s.At(t, Parked(h))
  }

  /** The reaper takes the operation a dead thread still owned. */
  function AfterReap(s: State, t: Tid, dead: Tid, h: Hid): State
    requires h < |s.handles|
  {
    s.With(h, s.handles[h].(driver := Some(t))).At(dead, Dead(None)).At(t, Cancelling(h))
  }

  /** The swap from pending to failed, which loses to whatever finished first. */
  function AfterCancelState(s: State, t: Tid, h: Hid): State
    requires h < |s.handles|
  {
    var x := s.handles[h];
    (if x.state.Pending? then s.With(h, x.(state := Failed)) else s).At(t, Cancelled(h, x.state.Pending?))
  }

  // ---- Invariant ----

  /** The thread that must still publish, remove or release `h`. */
  predicate Drives(pc: Pc, h: Hid) {
    match pc
    case Installed(g) => g == h
    case Counted(g) => g == h
    case Filling(g) => g == h
    case Filled(g) => g == h
    case Inserted(g) => g == h
    case Failing(g) => g == h
    case Published(g) => g == h
    case Removed(g) => g == h
    case Cancelling(g) => g == h
    case Cancelled(g, won) => won && g == h
    case CancelRemoved(g, won) => won && g == h
    case Dead(owned) => owned == Some(h)
    case _ => false
  }

  /** A live fill: pending, and driven by an issuer that has counted it or by the finaliser. */
  predicate Underway(x: Handle) {
    x.state.Pending? && !x.subbed && !x.removed && if x.prefetch then x.finalized else x.added
  }

  predicate Settled(x: Handle) { !x.state.Pending? && !x.subbed && if x.prefetch then x.finalized else x.added }

  predicate PcOk(s: State, t: Tid) {
    match s.Pc(t)
    case Idle => true
    case Joined(h) => h < |s.handles|
    case Parked(h) => h < |s.handles| && (s.handles[h].prefetch ==> s.handles[h].finalized)
    case Installed(h) =>
      && h < |s.handles|
      && var x := s.handles[h];
      !x.prefetch && x.state.Pending? && !x.subbed && !x.removed && !x.added && x.issuer == t
    case Issued(h) => h < |s.handles| && s.handles[h].prefetch && !s.handles[h].added && s.handles[h].issuer == t
    case Counted(h) => h < |s.handles| && Underway(s.handles[h]) && !s.handles[h].prefetch
    case Filling(h) => h < |s.handles| && Underway(s.handles[h]) && !s.handles[h].prefetch
    case Filled(h) => h < |s.handles| && Underway(s.handles[h])
    case Inserted(h) => h < |s.handles| && Underway(s.handles[h]) && s.handles[h].inserted
    case Failing(h) => h < |s.handles| && Underway(s.handles[h])
    case Published(h) => h < |s.handles| && Settled(s.handles[h]) && !s.handles[h].removed
    case Removed(h) => h < |s.handles| && Settled(s.handles[h]) && s.handles[h].removed
    case Cancelling(h) => h < |s.handles| && Underway(s.handles[h]) && !s.handles[h].prefetch
    case Cancelled(h, won) => h < |s.handles| && Settled(s.handles[h]) && !s.handles[h].removed && won
      && !s.handles[h].prefetch
    case CancelRemoved(h, won) => h < |s.handles| && Settled(s.handles[h]) && s.handles[h].removed && won
      && !s.handles[h].prefetch
    case Dead(owned) => owned.Some? ==>
      owned.value < |s.handles| && Underway(s.handles[owned.value]) && !s.handles[owned.value].prefetch
  }

  ghost predicate HandleOk(s: State, h: Hid)
    requires h < |s.handles|
  {
    var x := s.handles[h];
    && x.len > 0
    && (x.state.Pending? ==> !x.subbed && !x.removed)
    && (x.state.Pending? ==> forall i :: x.Covers(i) ==> i in s.inFlight && s.inFlight[i] == h)
    && (x.state.Success? ==> x.inserted)
    && (x.driver.None? <==> x.subbed || (x.prefetch && !x.finalized))
    && (x.prefetch && !x.finalized ==> x.state.Pending?)
    && (!x.added ==> s.Pc(x.issuer) == if x.prefetch then Issued(h) else Installed(h))
    && (x.subbed ==> x.removed)
  }

  /** An entry names a handle that covers it and has not been taken out. */
  ghost predicate EntryOk(s: State, i: nat)
    requires i in s.inFlight
  {
    s.inFlight[i] < |s.handles| && s.handles[s.inFlight[i]].Covers(i) && !s.handles[s.inFlight[i]].removed
  }

  ghost predicate DriverOk(s: State, t: Tid, h: Hid)
    requires h < |s.handles|
  {
    Drives(s.Pc(t), h) <==> s.handles[h].driver == Some(t)
  }

  ghost predicate Inv(s: State) {
    && (forall t {:trigger s.Pc(t)} :: PcOk(s, t))
    && (forall h {:trigger s.handles[h]} :: 0 <= h < |s.handles| ==> HandleOk(s, h))
    && (forall i {:trigger s.inFlight[i]} :: i in s.inFlight ==> EntryOk(s, i))
    && (forall t, h {:trigger DriverOk(s, t, h)} :: 0 <= h < |s.handles| ==> DriverOk(s, t, h))
    && s.current == Outstanding(s.handles)
  }

  /** Counted up and not yet counted down, over all handles there ever were. */
  function Outstanding(handles: seq<Handle>): int {
    if handles == [] then 0
    else Outstanding(handles[..|handles| - 1]) + Share(handles[|handles| - 1])
  }

  function Share(x: Handle): int { (if x.added then 1 else 0) - (if x.subbed then 1 else 0) }

  lemma {:induction false} OutstandingUpdate(handles: seq<Handle>, h: Hid, x: Handle)
    requires h < |handles|
    ensures Outstanding(handles[h := x]) == Outstanding(handles) - Share(handles[h]) + Share(x)
  {
    var n := |handles| - 1;
    if h < n {
      OutstandingUpdate(handles[..n], h, x);
      assert handles[h := x][..n] == handles[..n][h := x];
    } else {
      assert handles[h := x][..n] == handles[..n];
    }
  }

  lemma OutstandingAppend(handles: seq<Handle>, x: Handle)
    ensures Outstanding(handles + [x]) == Outstanding(handles) + Share(x)
  {
    assert (handles + [x])[..|handles|] == handles;
  }

  // ---- Every step keeps it ----

  /** `s'` differs from `s` in thread `t`, in handle `h` and in entries that name `h`; nobody but
      `t` drives `h` on either side. */
  ghost predicate Local(s: State, s': State, t: Tid, h: Hid) {
    && h < |s.handles| && |s'.handles| == |s.handles| && s'.handles == s.handles[h := s'.handles[h]]
    && t in s'.threads && s'.threads == s.threads[t := s'.threads[t]]
    && (forall g :: g != h ==> !Drives(s.Pc(t), g) && !Drives(s'.Pc(t), g) && s.Pc(t) != Issued(g))
    && (s.handles[h].driver.Some? ==> s.handles[h].driver == Some(t))
    && (s'.handles[h].driver.Some? ==> s'.handles[h].driver == Some(t))
    && (s.handles[h].added || s.handles[h].issuer == t || !s'.handles[h].added)
    && (s.handles[h].finalized ==> s'.handles[h].finalized)
    && s'.handles[h].issuer == s.handles[h].issuer && s'.handles[h].prefetch == s.handles[h].prefetch
    && (forall i :: i in s'.inFlight ==> i in s.inFlight && s'.inFlight[i] == s.inFlight[i])
    && (forall i :: i in s.inFlight && s.inFlight[i] != h ==> i in s'.inFlight)
  }

  lemma OtherThread(s: State, s': State, t: Tid, h: Hid, u: Tid)
    requires Inv(s) && Local(s, s', t, h) && u != t
    ensures PcOk(s', u)
  {
    assert s'.Pc(u) == s.Pc(u) && PcOk(s, u) && DriverOk(s, u, h);
  }

  lemma OtherHandle(s: State, s': State, t: Tid, h: Hid, g: Hid)
    requires Inv(s) && Local(s, s', t, h) && g != h && g < |s.handles|
    ensures HandleOk(s', g)
  {
    assert s'.handles[g] == s.handles[g] && HandleOk(s, g);
    assert !s.handles[g].added ==>
        s.Pc(s.handles[g].issuer) == if s.handles[g].prefetch then Issued(g) else Installed(g);
    assert s.handles[g].issuer != t ==> s'.Pc(s.handles[g].issuer) == s.Pc(s.handles[g].issuer);
    assert s.Pc(t) == Installed(g) ==> Drives(s.Pc(t), g);
    hide HandleOk;
    forall i | s.handles[g].state.Pending? && s.handles[g].Covers(i) ensures i in s'.inFlight && s'.inFlight[i] == g {
      PendingEntry(s, g, i);
    }
  }

  lemma PendingEntry(s: State, h: Hid, i: nat)
    requires Inv(s) && h < |s.handles| && s.handles[h].state.Pending? && s.handles[h].Covers(i)
    ensures i in s.inFlight && s.inFlight[i] == h
  {
    assert HandleOk(s, h);
  }

  lemma LocalKeeps(s: State, s': State, t: Tid, h: Hid)
    requires Inv(s) && Local(s, s', t, h)
    requires PcOk(s', t) && HandleOk(s', h) && DriverOk(s', t, h)
    requires forall i :: i in s'.inFlight && s'.inFlight[i] == h ==> EntryOk(s', i)
    requires s'.current - s.current == Share(s'.handles[h]) - Share(s.handles[h])
    ensures Inv(s')
  {
    forall u ensures PcOk(s', u) { if u != t { OtherThread(s, s', t, h, u); } }
    forall g | 0 <= g < |s'.handles| ensures HandleOk(s', g) { if g != h { OtherHandle(s, s', t, h, g); } }
    forall i | i in s'.inFlight ensures EntryOk(s', i) { assert EntryOk(s, i); }
    forall u, g: nat | g < |s'.handles| ensures DriverOk(s', u, g) {
      assert DriverOk(s, u, g);
      assert u != t ==> s'.Pc(u) == s.Pc(u);
    }
    OutstandingUpdate(s.handles, h, s'.handles[h]);
  }

  /** A move of a thread that drives nothing before or after. */
  lemma BystanderKeeps(s: State, s': State, t: Tid, pc: Pc)
    requires Inv(s) && s' == s.At(t, pc) && PcOk(s', t)
    requires forall h :: !Drives(s.Pc(t), h) && !Drives(pc, h) && s.Pc(t) != Issued(h)
    ensures Inv(s')
  {
    forall u ensures PcOk(s', u) { assert PcOk(s, u); assert u != t ==> s'.Pc(u) == s.Pc(u); }
    forall h | 0 <= h < |s'.handles| ensures HandleOk(s', h) {
      var x := s.handles[h];
      assert HandleOk(s, h);
      assert !x.added ==> x.issuer != t by { assert Drives(Installed(h), h); }
      assert x.issuer != t ==> s'.Pc(x.issuer) == s.Pc(x.issuer);
    }
    forall i | i in s'.inFlight ensures EntryOk(s', i) { assert EntryOk(s, i); }
    forall u, h: nat | h < |s'.handles| ensures DriverOk(s', u, h) {
      assert DriverOk(s, u, h);
      assert u != t ==> s'.Pc(u) == s.Pc(u);
    }
  }

  lemma Driven(s: State, t: Tid, h: Hid)
    requires Inv(s) && h < |s.handles| && Drives(s.Pc(t), h)
    ensures s.handles[h].driver == Some(t) && HandleOk(s, h) && PcOk(s, t)
  {
    assert DriverOk(s, t, h) && PcOk(s, t);
  }

  lemma DriverMoves(s: State, s': State, t: Tid, h: Hid, pc: Pc)
    requires Inv(s) && h < |s.handles| && Drives(s.Pc(t), h) && Drives(pc, h) && !s.Pc(t).Installed?
               && s' == s.At(t, pc) && PcOk(s', t)
    ensures Inv(s')
  {
    Driven(s, t, h);
    var x := s.handles[h];
    assert s'.handles == s.handles[h := x];
    assert x.added || x.issuer != t by {
      assert !x.added && x.issuer == t ==> s.Pc(t) == if x.prefetch then Issued(h) else Installed(h);
    }
    assert x.issuer != t ==> s'.Pc(x.issuer) == s.Pc(x.issuer);
    forall i | i in s'.inFlight && s'.inFlight[i] == h ensures EntryOk(s', i) { assert EntryOk(s, i); }
    LocalKeeps(s, s', t, h);
  }

  lemma CountUpKeeps(s: State, s': State, t: Tid, h: Hid)
    requires Inv(s) && h < |s.handles| && s' == AfterCountUp(s, t, h, Counted(h)) && s.Pc(t) == Installed(h)
    ensures Inv(s')
  {
    assert DriverOk(s, t, h) && PcOk(s, t) && HandleOk(s, h);
    forall i | i in s'.inFlight && s'.inFlight[i] == h ensures EntryOk(s', i) { assert EntryOk(s, i); }
    LocalKeeps(s, s', t, h);
  }

  /** The issuer of a prefetch counts it whether or not somebody is already finalising it. */
  lemma CountUpPrefetchKeeps(s: State, s': State, t: Tid, h: Hid)
    requires Inv(s) && h < |s.handles| && s' == AfterCountUp(s, t, h, Idle) && s.Pc(t) == Issued(h)
    ensures Inv(s')
  {
    var x := s.handles[h];
    assert PcOk(s, t) && HandleOk(s, h);
    forall u ensures PcOk(s', u) { assert PcOk(s, u); assert u != t ==> s'.Pc(u) == s.Pc(u); }
    forall g | 0 <= g < |s'.handles| ensures HandleOk(s', g) {
      assert HandleOk(s, g);
      assert s.handles[g].issuer != t ==> s'.Pc(s.handles[g].issuer) == s.Pc(s.handles[g].issuer);
    }
    forall i | i in s'.inFlight ensures EntryOk(s', i) { assert EntryOk(s, i); }
    forall u, g: nat | g < |s'.handles| ensures DriverOk(s', u, g) {
      assert DriverOk(s, u, g);
      assert u != t ==> s'.Pc(u) == s.Pc(u);
    }
    OutstandingUpdate(s.handles, h, s'.handles[h]);
  }

  lemma InsertKeeps(s: State, s': State, t: Tid, h: Hid, contents: nat -> nat)
    requires Inv(s) && h < |s.handles| && s.Pc(t) == Filled(h) && s' == AfterInsert(s, t, h, contents)
    ensures Inv(s')
  {
    Driven(s, t, h);
    NotIssuing(s, s', t, h);
    forall i | i in s'.inFlight && s'.inFlight[i] == h ensures EntryOk(s', i) { assert EntryOk(s, i); }
    LocalKeeps(s, s', t, h);
  }

  /** A driver past its first step is not still issuing the handle. */
  lemma NotIssuing(s: State, s': State, t: Tid, h: Hid)
    requires Inv(s) && h < |s.handles| && Drives(s.Pc(t), h) && !s.Pc(t).Installed? && t in s'.threads
               && s'.threads == s.threads[t := s'.threads[t]]
    ensures s.handles[h].added || (s.handles[h].issuer != t && s'.Pc(s.handles[h].issuer) == s.Pc(s.handles[h].issuer))
  {
    assert HandleOk(s, h);
  }

  lemma PublishKeeps(s: State, s': State, t: Tid, h: Hid, state: Status)
    requires Inv(s) && h < |s.handles| && s' == AfterPublish(s, t, h, state)
    requires (s.Pc(t) == Inserted(h) && state == Success) || (s.Pc(t) == Failing(h) && state == Failed)
    ensures Inv(s')
  {
    Driven(s, t, h);
    NotIssuing(s, s', t, h);
    forall i | i in s'.inFlight && s'.inFlight[i] == h ensures EntryOk(s', i) { assert EntryOk(s, i); }
    LocalKeeps(s, s', t, h);
  }

  lemma RemoveKeeps(s: State, s': State, t: Tid, h: Hid, pc: Pc)
    requires Inv(s) && h < |s.handles| && s' == AfterRemove(s, t, h, pc)
    requires (s.Pc(t) == Published(h) && pc == Removed(h))
               || (s.Pc(t).Cancelled? && s.Pc(t).h == h && pc == CancelRemoved(h, s.Pc(t).won))
    ensures Inv(s')
  {
    assert PcOk(s, t);
    Driven(s, t, h);
    NotIssuing(s, s', t, h);
    forall i | i in s.inFlight && s.inFlight[i] == h ensures i !in s'.inFlight { assert EntryOk(s, i); }
    LocalKeeps(s, s', t, h);
  }

  lemma CountDownKeeps(s: State, s': State, t: Tid, h: Hid, pc: Pc)
    requires Inv(s) && h < |s.handles| && s' == AfterCountDown(s, t, h, pc) && (pc == Idle || pc == Parked(h))
    requires s.Pc(t) == Removed(h) || s.Pc(t) == CancelRemoved(h, true)
    ensures Inv(s')
  {
    Driven(s, t, h);
    NotIssuing(s, s', t, h);
    forall i ensures !(i in s'.inFlight && s'.inFlight[i] == h) { assert i in s.inFlight ==> EntryOk(s, i); }
    LocalKeeps(s, s', t, h);
  }

  lemma FinalizeKeeps(s: State, s': State, t: Tid, h: Hid, ok: bool)
    requires Inv(s) && h < |s.handles| && s.Pc(t) == Joined(h) && s' == AfterFinalize(s, t, h, ok)
    ensures Inv(s')
  {
    var x := s.handles[h];
    assert PcOk(s, t) && HandleOk(s, h);
    if x.prefetch && !x.finalized {
      assert x.issuer != t ==> s'.Pc(x.issuer) == s.Pc(x.issuer);
      forall i | i in s'.inFlight && s'.inFlight[i] == h ensures EntryOk(s', i) { assert EntryOk(s, i); }
      LocalKeeps(s, s', t, h);
    } else {
      BystanderKeeps(s, s', t, Parked(h));
    }
  }

  lemma CancelStateKeeps(s: State, s': State, t: Tid, h: Hid)
    requires Inv(s) && h < |s.handles| && s.Pc(t) == Cancelling(h) && s' == AfterCancelState(s, t, h)
    ensures Inv(s')
  {
    Driven(s, t, h);
    NotIssuing(s, s', t, h);
    forall i | i in s'.inFlight && s'.inFlight[i] == h ensures EntryOk(s', i) { assert EntryOk(s, i); }
    LocalKeeps(s, s', t, h);
  }

  lemma ReapKeeps(s: State, s': State, t: Tid, dead: Tid, h: Hid)
    requires Inv(s) && h < |s.handles| && s.Pc(t).Idle? && s.Pc(dead) == Dead(Some(h)) && s' == AfterReap(s, t, dead, h)
    ensures Inv(s')
  {
    Driven(s, dead, h);
    forall u ensures PcOk(s', u) { assert PcOk(s, u); assert u != t && u != dead ==> s'.Pc(u) == s.Pc(u); }
    forall g | 0 <= g < |s'.handles| ensures HandleOk(s', g) {
      var x := s.handles[g];
      assert HandleOk(s, g);
      assert !x.added ==> x.issuer != t && x.issuer != dead;
      assert x.issuer != t && x.issuer != dead ==> s'.Pc(x.issuer) == s.Pc(x.issuer);
    }
    forall i | i in s'.inFlight ensures EntryOk(s', i) { assert EntryOk(s, i); }
    forall u, g: nat | g < |s'.handles| ensures DriverOk(s', u, g) {
      assert DriverOk(s, u, g);
      assert u != t && u != dead ==> s'.Pc(u) == s.Pc(u);
    }
    OutstandingUpdate(s.handles, h, s'.handles[h]);
  }

  lemma InstallDriver(s: State, s': State, t: Tid, first: nat, len: nat, prefetch: bool, u: Tid, h: Hid)
    requires Inv(s) && s.Pc(t).Idle? && s' == AfterInstall(s, t, first, len, prefetch) && h < |s'.handles|
    ensures DriverOk(s', u, h)
  {
    if h < |s.handles| { assert DriverOk(s, u, h); } else { assert PcOk(s, u); }
    assert u != t ==> s'.Pc(u) == s.Pc(u);
  }

  lemma InstallKeeps(s: State, s': State, t: Tid, first: nat, len: nat, prefetch: bool)
    requires Inv(s) && s.Pc(t).Idle? && len > 0 && Free(s.inFlight, first, len)
               && s' == AfterInstall(s, t, first, len, prefetch)
    ensures Inv(s')
  {
    var n := |s.handles|;
    forall u ensures PcOk(s', u) { assert PcOk(s, u); assert u != t ==> s'.Pc(u) == s.Pc(u); }
    forall h | 0 <= h < |s'.handles| ensures HandleOk(s', h) {
      if h < n {
        assert HandleOk(s, h) && s'.handles[h] == s.handles[h];
        assert !s.handles[h].added ==> s.handles[h].issuer != t;
        assert s.handles[h].issuer != t ==> s'.Pc(s.handles[h].issuer) == s.Pc(s.handles[h].issuer);
      }
    }
    forall i | i in s'.inFlight ensures EntryOk(s', i) { if i in s.inFlight { assert EntryOk(s, i); } }
    forall u, h: nat | h < |s'.handles| ensures DriverOk(s', u, h) {
      InstallDriver(s, s', t, first, len, prefetch, u, h);
    }
    OutstandingAppend(s.handles, s'.handles[n]);
  }

  lemma PagesOnlyKeeps(s: State, s': State)
    requires Inv(s) && s' == s.(pages := s'.pages)
    ensures Inv(s')
  {
    forall t ensures PcOk(s', t) { assert s'.Pc(t) == s.Pc(t) && PcOk(s, t); }
    forall h | 0 <= h < |s'.handles| ensures HandleOk(s', h) {
      assert HandleOk(s, h);
      assert s'.Pc(s.handles[h].issuer) == s.Pc(s.handles[h].issuer);
    }
    forall i | i in s'.inFlight ensures EntryOk(s', i) { assert EntryOk(s, i); }
    forall t, h: nat | h < |s'.handles| ensures DriverOk(s', t, h) { assert DriverOk(s, t, h) && s'.Pc(t) == s.Pc(t); }
  }

  lemma NextKeeps(s: State, s': State, step: Step)
    requires Inv(s) && Next(s, s', step)
    ensures Inv(s')
  {
    hide Inv, PcOk, Drives, AfterInstall, AfterCountUp, AfterInsert, AfterPublish, AfterRemove, AfterCountDown,
      AfterFinalize, AfterReap, AfterCancelState;
    match step
    case Join(t, i) => JoinKeeps(s, s', t, i);
    case Install(t, first, len) => InstallKeeps(s, s', t, first, len, false);
    case InstallPrefetch(t, first, len) => InstallKeeps(s, s', t, first, len, true);
    case CountUp(t) => CountUpKeeps(s, s', t, s.Pc(t).h);
    case CountUpPrefetch(t) => CountUpPrefetchKeeps(s, s', t, s.Pc(t).h);
    case Register(t, ok) => FillKeeps(s, s', t, if ok then Filling(s.Pc(t).h) else Failing(s.Pc(t).h));
    case Fill(t, ok) => FillKeeps(s, s', t, if ok then Filled(s.Pc(t).h) else Failing(s.Pc(t).h));
    case Die(t) => DieKeeps(s, s', t);
    case Insert(t, contents) => InsertKeeps(s, s', t, s.Pc(t).h, contents);
    case PublishSuccess(t) => PublishKeeps(s, s', t, s.Pc(t).h, Success);
    case PublishFailed(t) => PublishKeeps(s, s', t, s.Pc(t).h, Failed);
    case Remove(t) => RemoveKeeps(s, s', t, s.Pc(t).h, Removed(s.Pc(t).h));
    case CountDown(t) => CountedDownKeeps(s, s', t);
    case Finalize(t, ok) => FinalizeKeeps(s, s', t, s.Pc(t).h, ok);
    case Wake(t) => WakeKeeps(s, s', t);
    case Reap(t, dead) => ReapKeeps(s, s', t, dead, s.Pc(dead).owned.value);
    case CancelState(t) => CancelStateKeeps(s, s', t, s.Pc(t).h);
    case CancelRemove(t) => RemoveKeeps(s, s', t, s.Pc(t).h, CancelRemoved(s.Pc(t).h, s.Pc(t).won));
    case CancelCountDown(t) => CancelledKeeps(s, s', t);
    case InlineInsert(t, i, content) => PagesOnlyKeeps(s, s');
    case Evict(i) => PagesOnlyKeeps(s, s');
  }

  lemma JoinKeeps(s: State, s': State, t: Tid, i: nat)
    requires Inv(s) && s.Pc(t).Idle? && i in s.inFlight && s' == s.At(t, Joined(s.inFlight[i]))
    ensures Inv(s')
  {
    assert EntryOk(s, i);
    BystanderKeeps(s, s', t, Joined(s.inFlight[i]));
  }

  lemma FillKeeps(s: State, s': State, t: Tid, pc: Pc)
    requires Inv(s) && (s.Pc(t).Counted? || s.Pc(t).Filling?) && s' == s.At(t, pc)
    requires pc == Filling(s.Pc(t).h) || pc == Filled(s.Pc(t).h) || pc == Failing(s.Pc(t).h)
    ensures Inv(s')
  {
    assert PcOk(s, t);
    DriverMoves(s, s', t, s.Pc(t).h, pc);
  }

  lemma DieKeeps(s: State, s': State, t: Tid)
    requires Inv(s) && Next(s, s', Die(t))
    ensures Inv(s')
  {
    assert PcOk(s, t);
    if s.Pc(t).Filling? {
      DriverMoves(s, s', t, s.Pc(t).h, Dead(Some(s.Pc(t).h)));
    } else {
      BystanderKeeps(s, s', t, Dead(None));
    }
  }

  lemma CountedDownKeeps(s: State, s': State, t: Tid)
    requires Inv(s) && Next(s, s', CountDown(t))
    ensures Inv(s')
  {
    assert PcOk(s, t);
    CountDownKeeps(s, s', t, s.Pc(t).h, if s.handles[s.Pc(t).h].prefetch then Parked(s.Pc(t).h) else Idle);
  }

  lemma CancelledKeeps(s: State, s': State, t: Tid)
    requires Inv(s) && Next(s, s', CancelCountDown(t))
    ensures Inv(s')
  {
    assert PcOk(s, t);
    CountDownKeeps(s, s', t, s.Pc(t).h, Idle);
  }

  lemma WakeKeeps(s: State, s': State, t: Tid)
    requires Inv(s) && Next(s, s', Wake(t))
    ensures Inv(s')
  {
    BystanderKeeps(s, s', t, Idle);
  }

  // ---- What it gives ----

  /** A handle missing from any page of its range has been published; two pending handles never
      share a page; and a parked reader's pending handle has a thread, or a dead thread awaiting
      the reaper, that will publish it. */
  lemma RegistryIsSafe(s: State)
    requires Inv(s)
    ensures forall h, i ::
              0 <= h < |s.handles| && s.handles[h].Covers(i) && !(i in s.inFlight && s.inFlight[i] == h) ==>
                !s.handles[h].state.Pending?
    ensures forall g, h, i ::
              (&& 0 <= g < |s.handles| && s.handles[g].state.Pending? && s.handles[g].Covers(i)
               && 0 <= h < |s.handles| && s.handles[h].state.Pending? && s.handles[h].Covers(i)) ==> g == h
    ensures forall t :: s.Pc(t).Parked? && s.handles[s.Pc(t).h].state.Pending? ==>
              s.handles[s.Pc(t).h].driver.Some? && Drives(s.Pc(s.handles[s.Pc(t).h].driver.value), s.Pc(t).h)
  {
    forall h, i | 0 <= h < |s.handles| && s.handles[h].Covers(i) && s.handles[h].state.Pending?
        ensures i in s.inFlight && s.inFlight[i] == h {
      PendingEntry(s, h, i);
    }
    forall g, h, i | 0 <= g < |s.handles| && 0 <= h < |s.handles| && s.handles[g].state.Pending?
        && s.handles[h].state.Pending? && s.handles[g].Covers(i) && s.handles[h].Covers(i)
      ensures g == h
    {
      PendingEntry(s, g, i);
      PendingEntry(s, h, i);
    }
    forall t | s.Pc(t).Parked? && s.handles[s.Pc(t).h].state.Pending?
      ensures s.handles[s.Pc(t).h].driver.Some? && Drives(s.Pc(s.handles[s.Pc(t).h].driver.value), s.Pc(t).h)
    {
      var h := s.Pc(t).h;
      assert PcOk(s, t) && HandleOk(s, h);
      assert DriverOk(s, s.handles[h].driver.value, h);
    }
  }

  /** Who acts in a step that can take entries out. */
  function Remover(step: Step): Option<Tid> {
    match step
    case Remove(t) => Some(t)
    case CancelRemove(t) => Some(t)
    case _ => None
  }

  /** An entry leaves only when the thread acting holds that very handle and it has been published;
      no entry is ever overwritten. */
  lemma RemovalSparesSuccessors(s: State, s': State, step: Step, i: nat)
    requires Inv(s) && Next(s, s', step) && i in s.inFlight
    ensures i !in s'.inFlight ==>
              && Remover(step).Some? && Drives(s.Pc(Remover(step).value), s.inFlight[i])
              && s.inFlight[i] < |s.handles| && !s.handles[s.inFlight[i]].state.Pending?
    ensures i in s'.inFlight ==> s'.inFlight[i] == s.inFlight[i]
  {
    if Remover(step).Some? { assert PcOk(s, Remover(step).value); }
    assert EntryOk(s, i);
  }

  /** No fill replaces a page that is already cached; only eviction removes one. */
  lemma FillsKeepCachedPages(s: State, s': State, step: Step, i: nat)
    requires Next(s, s', step) && i in s.pages && step != Evict(i)
    ensures i in s'.pages && s'.pages[i] == s.pages[i]
  {
  }

  ghost predicate Run(states: seq<State>, steps: seq<Step>) {
    && |states| == |steps| + 1 && Init(states[0])
    && forall k {:trigger steps[k]} :: 0 <= k < |steps| ==> Next(states[k], states[k + 1], steps[k])
  }

  lemma InitOk(s: State)
    requires Init(s)
    ensures Inv(s)
  {
    forall t ensures PcOk(s, t) { assert s.Pc(t) == Idle; }
    assert Outstanding(s.handles) == 0;
  }

  lemma {:induction false} RunKeeps(states: seq<State>, steps: seq<Step>, k: nat)
    requires Run(states, steps) && k < |states|
    ensures Inv(states[k])
  {
    hide Next, Inv;
    if k == 0 {
      InitOk(states[0]);
    } else {
      RunKeeps(states, steps, k - 1);
      assert Next(states[k - 1], states[k], steps[k - 1]);
      NextKeeps(states[k - 1], states[k], steps[k - 1]);
    }
  }

  ghost predicate AllCached(s: State, first: nat, len: nat) { forall i :: first <= i < first + len ==> i in s.pages }

  /** A handle keeps its range; once published it keeps its verdict; and it is marked as inserted
      only by the step that leaves all its pages cached. */
  lemma HandleHistory(s: State, s': State, step: Step, h: Hid)
    requires Inv(s) && Next(s, s', step) && h < |s'.handles|
    ensures h < |s.handles| ==> s'.handles[h].first == s.handles[h].first && s'.handles[h].len == s.handles[h].len
    ensures h < |s.handles| && !s.handles[h].state.Pending? ==> s'.handles[h].state == s.handles[h].state
    ensures (h < |s.handles| && s.handles[h].inserted) || !s'.handles[h].inserted
              || AllCached(s', s'.handles[h].first, s'.handles[h].len)
  {
    hide Inv, Next;
    if h < |s.handles| { VerdictStays(s, s', step, h); }
    InsertedWhenCached(s, s', step, h);
  }

  lemma VerdictStays(s: State, s': State, step: Step, h: Hid)
    requires Inv(s) && Next(s, s', step) && h < |s.handles| && h < |s'.handles|
    ensures s'.handles[h].first == s.handles[h].first && s'.handles[h].len == s.handles[h].len
    ensures !s.handles[h].state.Pending? ==> s'.handles[h].state == s.handles[h].state
  {
    if step.PublishSuccess? || step.PublishFailed? { assert PcOk(s, step.t); }
    hide Inv;
  }

  lemma InsertedWhenCached(s: State, s': State, step: Step, h: Hid)
    requires Next(s, s', step) && h < |s'.handles|
    ensures (h < |s.handles| && s.handles[h].inserted) || !s'.handles[h].inserted
              || AllCached(s', s'.handles[h].first, s'.handles[h].len)
  {
  }

  /** Success is published only after its pages: at some earlier moment all of them were cached. */
  lemma {:induction false} SuccessAfterPages(states: seq<State>, steps: seq<Step>, k: nat, h: Hid)
    requires Run(states, steps) && k < |states| && h < |states[k].handles| && states[k].handles[h].inserted
    ensures exists j :: 0 <= j <= k && AllCached(states[j], states[k].handles[h].first, states[k].handles[h].len)
  {
    hide Next, Inv, AllCached;
    if k > 0 {
      RunKeeps(states, steps, k - 1);
      assert Next(states[k - 1], states[k], steps[k - 1]);
      HandleHistory(states[k - 1], states[k], steps[k - 1], h);
      if h < |states[k - 1].handles| && states[k - 1].handles[h].inserted {
        SuccessAfterPages(states, steps, k - 1, h);
      }
    }
  }

  /** In every run: the registry is safe, and a handle published as a success had its pages cached. */
  lemma RunIsSafe(states: seq<State>, steps: seq<Step>, k: nat)
    requires Run(states, steps) && k < |states|
    ensures Inv(states[k])
    ensures states[k].current == Live(states[k].handles) - Uncounted(states[k].handles)
    ensures forall h :: 0 <= h < |states[k].handles| && states[k].handles[h].state.Success? ==>
              exists j :: 0 <= j <= k && AllCached(states[j], states[k].handles[h].first, states[k].handles[h].len)
  {
    RunKeeps(states, steps, k);
    CountIsLive(states[k].handles);
    forall h | 0 <= h < |states[k].handles| && states[k].handles[h].state.Success?
      ensures exists j :: 0 <= j <= k && AllCached(states[j], states[k].handles[h].first, states[k].handles[h].len)
    {
      assert HandleOk(states[k], h);
      hide Inv, HandleOk, AllCached;
      SuccessAfterPages(states, steps, k, h);
    }
  }

  // ---- Accounting ----

  /** Handles not yet released, and handles whose issuer has yet to count them. */
  function Live(handles: seq<Handle>): nat {
    if handles == [] then 0
    else Live(handles[..|handles| - 1]) + if handles[|handles| - 1].subbed then 0 else 1
  }

  function Uncounted(handles: seq<Handle>): nat {
    if handles == [] then 0
    else Uncounted(handles[..|handles| - 1]) + if handles[|handles| - 1].added then 0 else 1
  }

  function PendingCount(handles: seq<Handle>): nat {
    if handles == [] then 0
    else PendingCount(handles[..|handles| - 1]) + if handles[|handles| - 1].state.Pending? then 1 else 0
  }

  lemma {:induction false} CountIsLive(handles: seq<Handle>)
    ensures Outstanding(handles) == Live(handles) - Uncounted(handles)
  {
    if handles != [] { CountIsLive(handles[..|handles| - 1]); }
  }

  lemma {:induction false} AllCounted(handles: seq<Handle>)
    requires forall h :: 0 <= h < |handles| ==> handles[h].added && (handles[h].subbed <==> !handles[h].state.Pending?)
    ensures Uncounted(handles) == 0 && Live(handles) == PendingCount(handles)
  {
    if handles != [] { AllCounted(handles[..|handles| - 1]); }
  }

  /** No thread is part way through a fill. */
  ghost predicate Quiet(s: State) {
    forall t :: s.Pc(t).Idle? || s.Pc(t).Joined? || s.Pc(t).Parked? || s.Pc(t) == Dead(None)
  }

  /** Each install is released exactly once: at rest the counter is the number of pending fills. */
  lemma CounterAtRest(states: seq<State>, steps: seq<Step>, k: nat)
    requires Run(states, steps) && k < |states| && Quiet(states[k])
    ensures states[k].current == PendingCount(states[k].handles)
  {
    RunKeeps(states, steps, k);
    var s := states[k];
    forall h | 0 <= h < |s.handles|
        ensures s.handles[h].added && (s.handles[h].subbed <==> !s.handles[h].state.Pending?) {
      assert HandleOk(s, h);
      assert s.handles[h].driver.Some? ==> DriverOk(s, s.handles[h].driver.value, h);
      assert s.Pc(s.handles[h].issuer) != Issued(h) && s.Pc(s.handles[h].issuer) != Installed(h);
    }
    CountIsLive(s.handles);
    AllCounted(s.handles);
  }

  /** Between those moments it can dip below zero: a prefetch can be finalised and released before
      its issuer has counted it. */
  lemma CounterCanBeNegative()
    ensures exists states: seq<State>, steps: seq<Step>, k: nat :: Run(states, steps) && k < |states|
              && states[k].current == -1
  {
    var s0 := State(map[], [], map[], 0, map[]);
    var s1 := AfterInstall(s0, 0, 0, 1, true);
    assert Next(s0, s1, InstallPrefetch(0, 0, 1));
    assert s1.handles == [NewHandle(0, 0, 1, true)] && s1.inFlight[0] == 0 && s1.Pc(1) == Idle && s1.current == 0;
    var s2 := s1.At(1, Joined(0));
    assert Next(s1, s2, Join(1, 0));
    var rest, steps := ReleaseEarly(s2);
    var states := [s0, s1] + rest;
    var all := [InstallPrefetch(0, 0, 1), Join(1, 0)] + steps;
    hide Next;
    forall k | 0 <= k < |all| ensures Next(states[k], states[k + 1], all[k]) {
      if k >= 2 { assert Next(rest[k - 2], rest[k - 1], steps[k - 2]); }
    }
    assert Run(states, all) && states[6].current == -1;
  }

  /** The joiner's half of that run. */
  lemma ReleaseEarly(s: State) returns (rest: seq<State>, steps: seq<Step>)
    requires |s.handles| == 1 && s.handles[0].prefetch && !s.handles[0].finalized && s.Pc(1) == Joined(0)
               && s.current == 0
    ensures |rest| == 5 && |steps| == 4 && rest[0] == s && rest[4].current == -1
    ensures forall k :: 0 <= k < 4 ==> Next(rest[k], rest[k + 1], steps[k])
  {
    hide Next;
    var s3, s4 := FinaliseAndFail(s);
    var s5, s6 := RemoveAndRelease(s4);
    rest, steps := [s, s3, s4, s5, s6], [Finalize(1, false), PublishFailed(1), Remove(1), CountDown(1)];
  }

  lemma FinaliseAndFail(s: State) returns (s3: State, s4: State)
    requires |s.handles| == 1 && s.handles[0].prefetch && !s.handles[0].finalized && s.Pc(1) == Joined(0)
               && s.current == 0
    ensures Next(s, s3, Finalize(1, false)) && Next(s3, s4, PublishFailed(1))
    ensures s4.Pc(1) == Published(0) && |s4.handles| == 1 && s4.handles[0].prefetch && s4.current == 0
  {
    s3 := AfterFinalize(s, 1, 0, false);
    assert s3.Pc(1) == Failing(0) && |s3.handles| == 1;
    s4 := AfterPublish(s3, 1, 0, Failed);
  }

  lemma RemoveAndRelease(s: State) returns (s5: State, s6: State)
    requires s.Pc(1) == Published(0) && |s.handles| == 1 && s.handles[0].prefetch && s.current == 0
    ensures Next(s, s5, Remove(1)) && Next(s5, s6, CountDown(1)) && s6.current == -1
  {
    s5 := AfterRemove(s, 1, 0, Removed(0));
    assert s5.Pc(1) == Removed(0) && |s5.handles| == 1 && s5.handles[0].prefetch;
    s6 := AfterCountDown(s5, 1, 0, Parked(0));
  }

  // ---- The map behind those lock sections ----

  class InFlight {
    var entries: map<nat, Hid>

    constructor ()
      ensures entries == map[]
    {
      entries := map[];
    }

    /** Installs at every index of the range, or at none: then the handle in the way that comes
        first is returned. */
    method TryInstall(first: nat, len: nat, h: Hid) returns (conflict: Option<Hid>)
      modifies this
      ensures conflict.None? <==> Free(old(entries), first, len)
      ensures conflict.None? ==> entries == InstallAt(old(entries), first, len, h)
      ensures conflict.Some? ==> entries == old(entries)
      ensures conflict.Some? ==>
                exists i ::
                  && first <= i < first + len && i in entries && entries[i] == conflict.value
                  && Free(entries, first, i - first)
    {
      for i := first to first + len
        invariant entries == old(entries) && Free(entries, first, i - first)
      {
        if i in entries {
          return Some(entries[i]);
        }
      }
      for i := first to first + len
        invariant entries == InstallAt(old(entries), first, i - first, h)
      {
        entries := entries[i := h];
      }
      conflict := None;
    }

    method RemoveOwn(first: nat, len: nat, h: Hid)
      modifies this
      ensures entries == RemoveAll(old(entries), first, len, h)
    {
      assert entries == RemoveAll(entries, first, 0, h);
      for i := first to first + len
        invariant entries == RemoveAll(old(entries), first, i - first, h)
      {
        if i in entries && entries[i] == h {
          entries := entries - {i};
        }
        assert entries == RemoveAll(old(entries), first, i + 1 - first, h);
      }
    }
  }

  predicate FreeTo(inFlight: map<nat, Hid>, first: nat, last: nat) { forall i :: first <= i <= last ==> i !in inFlight }

  /** The highest busy page of [start, end], searched from the top as the ordered map does. */
  function LastBusy(inFlight: map<nat, Hid>, start: nat, end: nat): (r: Option<nat>)
    requires start <= end
    ensures r.Some? ==> start <= r.value <= end && r.value in inFlight && Free(inFlight, r.value + 1, end - r.value)
    ensures r.None? ==> Free(inFlight, start, end + 1 - start)
    decreases end
  {
    if end in inFlight then Some(end)
    else if start == end then None
    else LastBusy(inFlight, start, end - 1)
  }

  function NarrowPrefetchWindow(inFlight: map<nat, Hid>, start: nat, end: nat): Option<nat>
    requires start <= end
  {
    match LastBusy(inFlight, start, end)
    case Some(i) => if i >= end then None else Some(i + 1)
    case None => Some(start)
  }

  /** The window left is the longest free tail; there is none exactly when the last page is busy. */
  lemma NarrowedWindowIsLongestFreeTail(inFlight: map<nat, Hid>, start: nat, end: nat)
    requires start <= end
    ensures var r := NarrowPrefetchWindow(inFlight, start, end);
            && (r.None? <==> end in inFlight)
            && (r.Some? ==> start <= r.value <= end && FreeTo(inFlight, r.value, end))
            && (r.Some? ==> forall n :: start <= n < r.value ==> !FreeTo(inFlight, n, end))
  {
    var b := LastBusy(inFlight, start, end);
    if b.Some? && b.value < end {
      forall n | start <= n < b.value + 1 ensures !FreeTo(inFlight, n, end) { assert b.value in inFlight; }
    }
    assert b.None? ==> end !in inFlight;
  }
}
