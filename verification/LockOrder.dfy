/** Lock ranks: what the per-thread rank stack checks, and why no set of threads that passes the
    checks and keys equal-rank locks in order can deadlock. */
module LockOrder {
  import opened Vmas

  const LOCK_RANK_DEPTH: nat := 16
  const RANK_INODE: nat := 30
  const RANK_PAGE_WRITE_LOCK: nat := 140

  /** The order callers keep among locks of one rank. */
  datatype Key = Key(major: nat, minor: nat)

  predicate KeyLess(a: Key, b: Key) { a.major < b.major || (a.major == b.major && a.minor < b.minor) }

  /** One lock object. Two objects may share rank and key. */
  datatype Lock = Lock(rank: nat, key: Key, id: nat)

  predicate LockLess(a: Lock, b: Lock) { a.rank < b.rank || (a.rank == b.rank && KeyLess(a.key, b.key)) }

  type Tag = (nat, string)

  // ---- The rank stack ----

  function TopRank(stack: seq<Tag>): nat { if stack == [] then 0 else stack[|stack| - 1].0 }

  datatype Verdict = Pushed | Inversion | Overflow

  /** `same` relaxes the check from strictly above the top to not below it. */
  function CheckEnter(stack: seq<Tag>, rank: nat, same: bool): Verdict {
    if (if same then rank < TopRank(stack) else rank <= TopRank(stack)) then Inversion
    else if |stack| >= LOCK_RANK_DEPTH then Overflow
    else Pushed
  }

  ghost predicate SortedStack(stack: seq<Tag>) { forall i, j :: 0 <= i < j < |stack| ==> stack[i].0 <= stack[j].0 }

  class RankStack {
    var stack: seq<Tag>
    var inversions: nat

    constructor ()
      ensures stack == [] && inversions == 0
    {
      stack, inversions := [], 0;
    }

    /** Anything but `Pushed` is a panic, before which only a strict inversion is counted. */
    method Enter(rank: nat, site: string) returns (v: Verdict)
      modifies this
      ensures v == CheckEnter(old(stack), rank, false)
      ensures stack == if v.Pushed? then old(stack) + [(rank, site)] else old(stack)
      ensures inversions == old(inversions) + if v.Inversion? then 1 else 0
      ensures old(SortedStack(stack)) ==> SortedStack(stack)
      ensures old(SortedStack(stack)) && v.Pushed? ==> forall i :: 0 <= i < |old(stack)| ==> old(stack)[i].0 < rank
    {
      if rank <= TopRank(stack) {
        inversions := inversions + 1;
        return Inversion;
      }
      if |stack| >= LOCK_RANK_DEPTH {
        return Overflow;
      }
      stack := stack + [(rank, site)];
      v := Pushed;
    }

    method EnterSame(rank: nat, site: string) returns (v: Verdict)
      modifies this`stack
      ensures v == CheckEnter(old(stack), rank, true)
      ensures stack == if v.Pushed? then old(stack) + [(rank, site)] else old(stack)
      ensures old(SortedStack(stack)) ==> SortedStack(stack)
      ensures old(SortedStack(stack)) && v.Pushed? ==> forall i :: 0 <= i < |old(stack)| ==> old(stack)[i].0 <= rank
    {
      if rank < TopRank(stack) {
        return Inversion;
      }
      if |stack| >= LOCK_RANK_DEPTH {
        return Overflow;
      }
      stack := stack + [(rank, site)];
      v := Pushed;
    }

    /** False for an underflow or a guard dropped out of order; both panic. */
    method Exit(rank: nat, site: string) returns (ok: bool)
      modifies this`stack
      ensures ok <==> old(stack) != [] && old(stack)[|old(stack)| - 1] == (rank, site)
      ensures old(stack) != [] ==> stack == old(stack)[..|old(stack)| - 1]
      ensures old(stack) == [] ==> stack == []
      ensures old(SortedStack(stack)) ==> SortedStack(stack)
    {
      if stack == [] {
        return false;
      }
      ok := stack[|stack| - 1] == (rank, site);
      stack := stack[..|stack| - 1];
    }
  }

  // ---- Threads ----

  datatype Hold = Hold(lock: Lock, site: string, shared: bool) {
    function Tag(): Tag { (lock.rank, site) }
  }

  /** A thread pushes a lock's rank before it waits for the lock, and pops it after dropping it. */
  datatype Thread = Thread(stack: seq<Tag>, held: seq<Hold>, waiting: Option<(Hold, nat)>, exiting: Option<Tag>) {
    predicate Running() { waiting.None? && exiting.None? }
  }

  const FRESH := Thread([], [], None, None)

  datatype State = State(threads: map<nat, Thread>, clock: nat) {
    function At(t: nat): Thread { if t in threads then threads[t] else FRESH }
    function With(t: nat, x: Thread): State { this.(threads := threads[t := x]) }
  }

  datatype Step =
    | Enter(t: nat, want: Hold)
    | EnterSame(t: nat, want: Hold)
    | Acquire(t: nat)
    | Release(t: nat, i: nat)
    | Exit(t: nat)

  predicate Compatible(x: Thread, want: Hold) {
    forall i :: 0 <= i < |x.held| && x.held[i].lock == want.lock ==> x.held[i].shared && want.shared
  }

  ghost predicate Next(s: State, s': State, step: Step) {
    match step
    case Enter(t, want) =>
      && s.At(t).Running() && CheckEnter(s.At(t).stack, want.lock.rank, false).Pushed?
      && s' == s.With(t, s.At(t).(stack := s.At(t).stack + [want.Tag()],
          waiting := Some((want, s.clock)))).(clock := s.clock + 1)
    case EnterSame(t, want) =>
      && s.At(t).Running() && CheckEnter(s.At(t).stack, want.lock.rank, true).Pushed?
      && s' == s.With(t, s.At(t).(stack := s.At(t).stack + [want.Tag()],
          waiting := Some((want, s.clock)))).(clock := s.clock + 1)
    case Acquire(t) =>
      && s.At(t).waiting.Some? && (forall u :: Compatible(s.At(u), s.At(t).waiting.value.0))
      && s' == s.With(t, s.At(t).(held := s.At(t).held + [s.At(t).waiting.value.0], waiting := None))
    case Release(t, i) =>
      && s.At(t).Running() && i < |s.At(t).held|
      && s' == s.With(t, s.At(t).(held := s.At(t).held[..i] + s.At(t).held[i + 1..],
          exiting := Some(s.At(t).held[i].Tag())))
    case Exit(t) =>
      && s.At(t).exiting.Some? && s.At(t).stack != [] && s.At(t).stack[|s.At(t).stack| - 1] == s.At(t).exiting.value
      && s' == s.With(t, s.At(t).(stack := s.At(t).stack[..|s.At(t).stack| - 1], exiting := None))
  }

  /** The caller's part of `EnterSame`: strictly above every lock of that rank it holds. */
  ghost predicate Disciplined(s: State, step: Step) {
    step.EnterSame? ==>
      forall i :: 0 <= i < |s.At(step.t).held| && s.At(step.t).held[i].lock.rank == step.want.lock.rank ==>
        KeyLess(s.At(step.t).held[i].lock.key, step.want.lock.key)
  }

  // ---- Invariant ----

  function Tags(held: seq<Hold>): (r: seq<Tag>)
    ensures |r| == |held| && forall i :: 0 <= i < |r| ==> r[i] == held[i].Tag()
  {
    seq(|held|, i requires 0 <= i < |held| => held[i].Tag())
  }

  /** Tags pushed but not, or no longer, backed by a lock. */
  function InTransit(x: Thread): multiset<Tag> {
    (if x.waiting.Some? then multiset{x.waiting.value.0.Tag()} else multiset{})
      + (if x.exiting.Some? then multiset{x.exiting.value} else multiset{})
  }

  ghost predicate ThreadInv(x: Thread) {
    && SortedStack(x.stack)
    && multiset(x.stack) == multiset(Tags(x.held)) + InTransit(x)
    && (x.waiting.Some? ==> x.exiting.None?)
    && (x.waiting.Some? ==> forall i :: 0 <= i < |x.held| ==> LockLess(x.held[i].lock, x.waiting.value.0.lock))
  }

  ghost predicate Inv(s: State) { forall t :: ThreadInv(s.At(t)) }

  lemma TopIsHighest(stack: seq<Tag>, tag: Tag)
    requires SortedStack(stack) && tag in multiset(stack)
    ensures tag.0 <= TopRank(stack)
  {
    assert tag in stack;
    var i :| 0 <= i < |stack| && stack[i] == tag;
  }

  /** Every held lock's rank is on the stack, hence not above its top. */
  lemma HeldBelowTop(x: Thread, i: nat)
    requires ThreadInv(x) && i < |x.held|
    ensures x.held[i].lock.rank <= TopRank(x.stack)
  {
    assert Tags(x.held)[i] == x.held[i].Tag();
    assert x.held[i].Tag() in multiset(Tags(x.held));
    TopIsHighest(x.stack, x.held[i].Tag());
  }

  lemma EnterKeeps(x: Thread, x': Thread, want: Hold, ticket: nat, same: bool)
    requires ThreadInv(x) && x.Running() && CheckEnter(x.stack, want.lock.rank, same).Pushed?
    requires same ==> forall i :: 0 <= i < |x.held| && x.held[i].lock.rank == want.lock.rank ==>
               KeyLess(x.held[i].lock.key, want.lock.key)
    requires x' == x.(stack := x.stack + [want.Tag()], waiting := Some((want, ticket)))
    ensures ThreadInv(x')
  {
    forall i | 0 <= i < |x.held| ensures LockLess(x.held[i].lock, want.lock) { HeldBelowTop(x, i); }
  }

  lemma AcquireKeeps(x: Thread, x': Thread)
    requires ThreadInv(x) && x.waiting.Some? && x' == x.(held := x.held + [x.waiting.value.0], waiting := None)
    ensures ThreadInv(x')
  {
    assert Tags(x'.held) == Tags(x.held) + [x.waiting.value.0.Tag()];
  }

  lemma ReleaseKeeps(x: Thread, x': Thread, i: nat)
    requires ThreadInv(x) && x.Running() && i < |x.held|
    requires x' == x.(held := x.held[..i] + x.held[i + 1..], exiting := Some(x.held[i].Tag()))
    ensures ThreadInv(x')
  {
    var tags := Tags(x.held);
    assert Tags(x'.held) == tags[..i] + tags[i + 1..];
    assert tags == tags[..i] + [tags[i]] + tags[i + 1..];
  }

  lemma ExitKeeps(x: Thread, x': Thread)
    requires ThreadInv(x) && x.exiting.Some? && x.stack != [] && x.stack[|x.stack| - 1] == x.exiting.value
    requires x' == x.(stack := x.stack[..|x.stack| - 1], exiting := None)
    ensures ThreadInv(x')
  {
    var n, e := |x.stack| - 1, x.exiting.value;
    assert x.stack == x.stack[..n] + [e];
    CancelTag(multiset(x.stack[..n]), multiset(Tags(x.held)), e);
  }

  lemma CancelTag(a: multiset<Tag>, b: multiset<Tag>, e: Tag)
    requires a + multiset{e} == b + multiset{e}
    ensures a == b
  {
    forall tag ensures a[tag] == b[tag] { assert (a + multiset{e})[tag] == (b + multiset{e})[tag]; }
  }

  lemma NextKeeps(s: State, s': State, step: Step)
    requires Inv(s) && Next(s, s', step) && Disciplined(s, step)
    ensures Inv(s')
  {
    hide ThreadInv;
    var t := step.t;
    assert ThreadInv(s.At(t));
    match step {
      case Enter(_, want) => EnterKeeps(s.At(t), s'.At(t), want, s.clock, false);
      case EnterSame(_, want) => EnterKeeps(s.At(t), s'.At(t), want, s.clock, true);
      case Acquire(_) => AcquireKeeps(s.At(t), s'.At(t));
      case Release(_, i) => ReleaseKeeps(s.At(t), s'.At(t), i);
      case Exit(_) => ExitKeeps(s.At(t), s'.At(t));
    }
    forall u ensures ThreadInv(s'.At(u)) { assert u != t ==> s'.At(u) == s.At(u); assert ThreadInv(s.At(u)); }
  }

  // ---- No deadlock ----

  /** `t` cannot go on before `u` does: `u` holds the lock `t` wants, or asked for it earlier. */
  ghost predicate WaitsFor(s: State, t: nat, u: nat) {
    && s.At(t).waiting.Some?
    && var (want, ticket) := s.At(t).waiting.value;
    || (exists i :: 0 <= i < |s.At(u).held| && s.At(u).held[i].lock == want.lock)
    || (s.At(u).waiting.Some? && s.At(u).waiting.value.0.lock == want.lock && s.At(u).waiting.value.1 < ticket)
  }

  predicate Later(a: (Hold, nat), b: (Hold, nat)) {
    LockLess(a.0.lock, b.0.lock) || (a.0.lock == b.0.lock && b.1 < a.1)
  }

  lemma EdgeIncreases(s: State, t: nat, u: nat)
    requires Inv(s) && WaitsFor(s, t, u) && s.At(u).waiting.Some?
    ensures s.At(t).waiting.Some? && Later(s.At(t).waiting.value, s.At(u).waiting.value)
  {
    assert ThreadInv(s.At(u));
  }

  /** A chain of threads each waiting for the next. */
  ghost predicate Chain(s: State, c: seq<nat>) {
    |c| >= 2 && forall i :: 0 <= i < |c| - 1 ==> WaitsFor(s, c[i], c[i + 1])
  }

  lemma {:induction false} ChainIncreases(s: State, c: seq<nat>)
    requires Inv(s) && Chain(s, c) && s.At(c[|c| - 1]).waiting.Some?
    ensures s.At(c[0]).waiting.Some? && Later(s.At(c[0]).waiting.value, s.At(c[|c| - 1]).waiting.value)
  {
    hide WaitsFor, Inv;
    var n := |c| - 1;
    assert WaitsFor(s, c[n - 1], c[n]);
    EdgeIncreases(s, c[n - 1], c[n]);
    if n > 1 {
      assert Chain(s, c[..n]) by {
        forall i | 0 <= i < n - 1 ensures WaitsFor(s, c[..n][i], c[..n][i + 1]) { assert WaitsFor(s, c[i], c[i + 1]); }
      }
      ChainIncreases(s, c[..n]);
    }
  }

  /** Starting from no locks, with every step passing the rank check and every caller of
      `EnterSame` keeping to key order, no thread ever waits on itself through others. */
  ghost predicate Run(states: seq<State>, steps: seq<Step>) {
    && |states| == |steps| + 1 && states[0].threads == map[]
    && forall k {:trigger steps[k]} :: 0 <= k < |steps| ==> Next(states[k], states[k + 1], steps[k])
  }

  ghost predicate AllDisciplined(states: seq<State>, steps: seq<Step>)
    requires |states| == |steps| + 1
  {
    forall k {:trigger steps[k]} :: 0 <= k < |steps| ==> Disciplined(states[k], steps[k])
  }

  lemma {:induction false} RunKeeps(states: seq<State>, steps: seq<Step>, k: nat)
    requires Run(states, steps) && AllDisciplined(states, steps) && k < |states|
    ensures Inv(states[k])
  {
    hide Next, Disciplined;
    if k == 0 {
      forall t ensures ThreadInv(states[0].At(t)) { assert states[0].At(t) == FRESH; assert Tags([]) == []; }
    } else {
      RunKeeps(states, steps, k - 1);
      hide Inv;
      assert Next(states[k - 1], states[k], steps[k - 1]) && Disciplined(states[k - 1], steps[k - 1]);
      NextKeeps(states[k - 1], states[k], steps[k - 1]);
    }
  }

  lemma NoDeadlock(states: seq<State>, steps: seq<Step>, k: nat, c: seq<nat>)
    requires Run(states, steps) && AllDisciplined(states, steps) && k < |states| && Chain(states[k], c)
    ensures c[0] != c[|c| - 1]
  {
    RunKeeps(states, steps, k);
    hide Inv, Run, AllDisciplined;
    assert WaitsFor(states[k], c[0], c[1]);
    if c[0] == c[|c| - 1] { ChainIncreases(states[k], c); }
  }

  // ---- Callers that take several locks of one rank ----

  ghost predicate StrictlySorted(keys: seq<Key>) { forall i, j :: 0 <= i < j < |keys| ==> KeyLess(keys[i], keys[j]) }

  /** The write batch, sorted by key: whichever of the earlier pages' locks it still holds, the next
      one passes the rank check and the key order. */
  lemma WriteBatchDisciplined(s: State, t: nat, keys: seq<Key>, k: nat, want: Hold)
    requires StrictlySorted(keys) && k < |keys| && want.lock.rank == RANK_PAGE_WRITE_LOCK && want.lock.key == keys[k]
    requires TopRank(s.At(t).stack) <= RANK_PAGE_WRITE_LOCK && |s.At(t).stack| < LOCK_RANK_DEPTH
    requires forall i :: 0 <= i < |s.At(t).held| && s.At(t).held[i].lock.rank == RANK_PAGE_WRITE_LOCK ==>
               s.At(t).held[i].lock.key in keys[..k]
    ensures Disciplined(s, EnterSame(t, want)) && CheckEnter(s.At(t).stack, want.lock.rank, true).Pushed?
  {
    forall i | 0 <= i < |s.At(t).held| && s.At(t).held[i].lock.rank == RANK_PAGE_WRITE_LOCK
      ensures KeyLess(s.At(t).held[i].lock.key, want.lock.key)
    {
      var j :| 0 <= j < k && keys[j] == s.At(t).held[i].lock.key;
    }
  }

  datatype Inode = Inode(ino: nat, id: nat) {
    function OwnLock(): Lock { Lock(RANK_INODE, Key(ino, 0), id) }
  }

  /** The parent locks a rename takes, in order: the first strictly, the second as the same class. */
  function RenameLocks(a: Option<Inode>, b: Option<Inode>): seq<Lock> {
    match (a, b)
    case (Some(x), Some(y)) =>
      if x.id == y.id then [x.OwnLock()]
      else if x.ino <= y.ino then [x.OwnLock(), y.OwnLock()]
      else [y.OwnLock(), x.OwnLock()]
    case (Some(x), None) => [x.OwnLock()]
    case (None, Some(y)) => [y.OwnLock()]
    case (None, None) => []
  }

  /** Two distinct parents are taken in strict key order, and in the same order whichever way round
      they are named, exactly when their inode numbers differ. */
  lemma RenameOrder(x: Inode, y: Inode)
    requires x.id != y.id
    ensures var l := RenameLocks(Some(x), Some(y));
            && multiset(l) == multiset{x.OwnLock(), y.OwnLock()}
            && (KeyLess(l[0].key, l[1].key) <==> x.ino != y.ino)
            && (l == RenameLocks(Some(y), Some(x)) <==> x.ino != y.ino)
  {
    assert x.OwnLock() != y.OwnLock();
    assert [x.OwnLock(), y.OwnLock()][0] != [y.OwnLock(), x.OwnLock()][0];
  }

  /** A rename that comes with locks of lower rank only, and room on its stack, passes both rank checks
      and takes the second parent in key order when the numbers differ. */
  lemma RenameDisciplined(s: State, s': State, t: nat, x: Inode, y: Inode, site: string)
    requires x.id != y.id && x.ino != y.ino
    requires TopRank(s.At(t).stack) < RANK_INODE && |s.At(t).stack| + 1 < LOCK_RANK_DEPTH
    requires forall i :: 0 <= i < |s.At(t).held| ==> s.At(t).held[i].lock.rank < RANK_INODE
    requires s'.At(t).stack == s.At(t).stack + [(RANK_INODE, site)]
    requires s'.At(t).held == s.At(t).held + [Hold(RenameLocks(Some(x), Some(y))[0], site, false)]
    ensures CheckEnter(s.At(t).stack, RANK_INODE, false).Pushed? && CheckEnter(s'.At(t).stack, RANK_INODE, true).Pushed?
    ensures Disciplined(s', EnterSame(t, Hold(RenameLocks(Some(x), Some(y))[1], site, false)))
  {
    RenameOrder(x, y);
  }

  /** Two renames over distinct parents with equal numbers, named in opposite order, can deadlock
      though every rank check passes. */
  lemma EqualNumbersCanDeadlock(x: Inode, y: Inode) returns (states: seq<State>, steps: seq<Step>)
    requires x.id != y.id && x.ino == y.ino
    ensures var xy, yx := RenameLocks(Some(x), Some(y)), RenameLocks(Some(y), Some(x));
            steps == [Enter(0, Hold(xy[0], "", false)), Acquire(0), Enter(1, Hold(yx[0], "", false)), Acquire(1),
                      EnterSame(0, Hold(xy[1], "", false)), EnterSame(1, Hold(yx[1], "", false))]
    ensures Run(states, steps) && Chain(states[6], [0, 1, 0])
  {
    hide Next, Chain, Run;
    var a, b := Hold(x.OwnLock(), "", false), Hold(y.OwnLock(), "", false);
    var s0 := State(map[], 0);
    var s1, s2, s3, s4 := TakeOneEach(s0, a, b);
    var s5 := WantSecond(s4, 0, a, b);
    var s6 := WantSecond(s5, 1, b, a);
    CrossedWaits(s6, a, b);
    states, steps := [s0, s1, s2, s3, s4, s5, s6],
      [Enter(0, a), Acquire(0), Enter(1, b), Acquire(1), EnterSame(0, b), EnterSame(1, a)];
    SixSteps(states, steps);
  }

  lemma SixSteps(states: seq<State>, steps: seq<Step>)
    requires |states| == 7 && |steps| == 6 && states[0].threads == map[]
    requires Next(states[0], states[1], steps[0]) && Next(states[1], states[2], steps[1])
               && Next(states[2], states[3], steps[2])
    requires Next(states[3], states[4], steps[3]) && Next(states[4], states[5], steps[4])
               && Next(states[5], states[6], steps[5])
    ensures Run(states, steps) && |states| == |steps| + 1
  {
    hide Next;
  }

  lemma TakeOneEach(s0: State, a: Hold, b: Hold) returns (s1: State, s2: State, s3: State, s4: State)
    requires s0.threads == map[] && a.lock != b.lock && a.lock.rank > 0 && b.lock.rank > 0
    ensures Next(s0, s1, Enter(0, a)) && Next(s1, s2, Acquire(0)) && Next(s2, s3, Enter(1, b))
              && Next(s3, s4, Acquire(1))
    ensures s4.At(0) == Thread([a.Tag()], [a], None, None) && s4.At(1) == Thread([b.Tag()], [b], None, None)
  {
    hide Next, Compatible;
    OthersCompatible(s0, 0, b, a);
    s1, s2 := TakeFirst(s0, 0, a);
    OthersCompatible(s2, 0, a, b);
    s3, s4 := TakeFirst(s2, 1, b);
  }

  /** A lock nobody holds. */
  lemma OthersCompatible(s: State, t: nat, held: Hold, want: Hold)
    requires (s.At(t).held == [held] || s.At(t).held == []) && held.lock != want.lock
    requires forall u :: u != t ==> s.At(u) == FRESH
    ensures forall u :: Compatible(s.At(u), want)
  {
  }

  lemma CrossedWaits(s: State, a: Hold, b: Hold)
    requires s.At(0).held == [a] && s.At(0).waiting.Some? && s.At(0).waiting.value.0 == b
    requires s.At(1).held == [b] && s.At(1).waiting.Some? && s.At(1).waiting.value.0 == a
    ensures Chain(s, [0, 1, 0])
  {
    assert s.At(0).held[0].lock == a.lock && s.At(1).held[0].lock == b.lock;
    assert WaitsFor(s, 0, 1) && WaitsFor(s, 1, 0);
  }

  lemma TakeFirst(s: State, t: nat, want: Hold) returns (s1: State, s2: State)
    requires s.At(t) == FRESH && want.lock.rank > 0 && (forall u :: Compatible(s.At(u), want))
    ensures Next(s, s1, Enter(t, want)) && Next(s1, s2, Acquire(t))
    ensures s2 == s.With(t, Thread([want.Tag()], [want], None, None)).(clock := s.clock + 1)
  {
    s1 := s.With(t, FRESH.(stack := [want.Tag()], waiting := Some((want, s.clock)))).(clock := s.clock + 1);
    s2 := s.With(t, Thread([want.Tag()], [want], None, None)).(clock := s.clock + 1);
    assert FRESH.stack + [want.Tag()] == [want.Tag()] && FRESH.held + [want] == [want];
    forall u ensures Compatible(s1.At(u), want) {
      assert u != t ==> s1.At(u) == s.At(u);
      assert Compatible(s.At(u), want);
    }
  }

  lemma WantSecond(s: State, t: nat, first: Hold, want: Hold) returns (s': State)
    requires s.At(t) == Thread([first.Tag()], [first], None, None) && want.lock.rank == first.lock.rank
    ensures Next(s, s', EnterSame(t, want))
    ensures s' == s.With(t, Thread([first.Tag(), want.Tag()], [first], Some((want, s.clock)), None)).(clock := s.clock
              + 1)
  {
    s' := s.With(t, Thread([first.Tag(), want.Tag()], [first], Some((want, s.clock)), None)).(clock := s.clock + 1);
    assert [first.Tag()] + [want.Tag()] == [first.Tag(), want.Tag()];
  }
}
