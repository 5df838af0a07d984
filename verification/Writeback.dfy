/** The request and completion counters that `sync` callers share with the writeback thread, as
    steps of any number of callers and that one thread. */
module Writeback {

  /** A flush pass: whether it wrote everything it was to write, and the times it began and ended. */
  datatype Pass = Pass(forced: bool, ok: bool, begin: nat, end: nat)

  /** The writeback thread, between its atomic operations. */
  datatype Pc =
    | Top
    | LoadedReq(req: nat)
    | Loaded(req: nat, done: nat)
    | Sleeping(done: nat)
    | Unforced(begin: nat)
    | Forced(req: nat, begin: nat)
    | Publishing(req: nat)

  datatype Caller = Idle | Waiting(req: nat, since: nat) | Released(req: nat, since: nat, at: nat)

  /** `clock`, `issued` (when each request number was handed out) and `passes` only record the run. */
  datatype State = State(requested: nat, completed: nat, pc: Pc, callers: map<nat, Caller>,
                         clock: nat, issued: seq<nat>, passes: seq<Pass>) {
    function Caller(c: nat): Caller { if c in callers then callers[c] else Idle }
    function Tick(): State { this.(clock := clock + 1) }
    function Numbered(): State { this.(requested := requested + 1, issued := issued + [clock]) }
  }

  datatype Step =
    | Request(c: nat)
    | Kick
    | Release(c: nat)
    | LoadRequested
    | LoadCompleted
    | Decide
    | Wake
    | EndUnforced(ok: bool)
    | EndForced(ok: bool)
    | Publish

  ghost predicate Init(s: State) { s == State(0, 0, Top, map[], 0, [], []) }

  ghost predicate Next(s: State, s': State, step: Step) {
    match step
    case Request(c) => !s.Caller(c).Waiting?
      && s' == s.Numbered().(callers := s.callers[c := Waiting(s.requested + 1, s.clock)]).Tick()
    case Kick => s' == s.Numbered().Tick()
    case Release(c) =>
      && s.Caller(c).Waiting? && s.completed >= s.Caller(c).req
      && s' == s.(callers := s.callers[c := Released(s.Caller(c).req, s.Caller(c).since, s.clock)]).Tick()
    case LoadRequested => s.pc.Top? && s' == s.(pc := LoadedReq(s.requested)).Tick()
    case LoadCompleted => s.pc.LoadedReq? && s' == s.(pc := Loaded(s.pc.req, s.completed)).Tick()
    case Decide => s.pc.Loaded?
      && s' == s.(pc := if s.pc.req == s.pc.done then Sleeping(s.pc.done) else Forced(s.pc.req, s.clock)).Tick()
    case Wake => s.pc.Sleeping? && s' == s.(pc := if s.requested != s.pc.done then Top else Unforced(s.clock)).Tick()
    case EndUnforced(ok) => s.pc.Unforced?
      && s' == s.(pc := Top, passes := s.passes + [Pass(false, ok, s.pc.begin, s.clock)]).Tick()
    // The request is published whether or not the pass wrote everything: a caller must not wait for ever.
    case EndForced(ok) => s.pc.Forced?
      && s' == s.(pc := Publishing(s.pc.req), passes := s.passes + [Pass(true, ok, s.pc.begin, s.clock)]).Tick()
    case Publish => s.pc.Publishing? && s' == s.(pc := Top, completed := s.pc.req).Tick()
  }

  /** A forced pass wholly inside (from, to). */
  ghost predicate PassBetween(passes: seq<Pass>, from: nat, to: nat) {
    exists i :: 0 <= i < |passes| && passes[i].forced && from < passes[i].begin < passes[i].end < to
  }

  lemma PassBetweenGrows(passes: seq<Pass>, p: Pass, from: nat, to: nat, to': nat)
    requires PassBetween(passes, from, to) && to <= to'
    ensures PassBetween(passes + [p], from, to') && PassBetween(passes, from, to')
  {
    var i :| 0 <= i < |passes| && passes[i].forced && from < passes[i].begin < passes[i].end < to;
    assert (passes + [p])[i] == passes[i];
  }

  /** Every request up to `n` had been made before `time`. */
  ghost predicate IssuedBefore(s: State, n: nat, time: nat) {
    n <= |s.issued| && forall r :: 0 <= r < n ==> s.issued[r] < time
  }

  /** Every request up to `n` is answered by a forced pass that began after it and has ended. */
  ghost predicate Answered(s: State, n: nat) {
    n <= |s.issued| && forall r :: 0 <= r < n ==> PassBetween(s.passes, s.issued[r], s.clock)
  }

  ghost predicate PcInv(s: State) {
    match s.pc
    case Top => true
    case LoadedReq(req) => s.completed <= req && IssuedBefore(s, req, s.clock)
    case Loaded(req, done) => done == s.completed <= req && IssuedBefore(s, req, s.clock)
    case Sleeping(done) => done == s.completed
    case Unforced(begin) => begin < s.clock
    case Forced(req, begin) => s.completed < req && begin < s.clock && IssuedBefore(s, req, begin)
    case Publishing(req) => s.completed < req && Answered(s, req)
  }

  ghost predicate CallerInv(s: State, c: nat) {
    match s.Caller(c)
    case Idle => true
    case Waiting(req, since) => 0 < req <= |s.issued| && s.issued[req - 1] == since
    case Released(req, since, at) => at < s.clock && PassBetween(s.passes, since, at)
  }

  ghost predicate Inv(s: State) {
    && s.requested == |s.issued| && s.completed <= s.requested
    && (forall r {:trigger s.issued[r]} :: 0 <= r < |s.issued| ==> s.issued[r] < s.clock)
    && Answered(s, s.completed)
    && PcInv(s)
    && (forall c {:trigger CallerInv(s, c)} :: CallerInv(s, c))
  }

  lemma AnsweredLater(s: State, s': State, n: nat)
    requires Answered(s, n) && s.clock <= s'.clock && n <= |s'.issued|
    requires forall r :: 0 <= r < n ==> s'.issued[r] == s.issued[r]
    requires s'.passes == s.passes || (|s'.passes| == |s.passes| + 1 && s'.passes == s.passes + [s'.passes[|s.passes|]])
    ensures Answered(s', n)
  {
    forall r | 0 <= r < n ensures PassBetween(s'.passes, s'.issued[r], s'.clock) {
      assert PassBetween(s.passes, s.issued[r], s.clock);
      PassBetweenGrows(s.passes, Pass(true, true, 0, 0), s.issued[r], s.clock, s'.clock);
      if s'.passes != s.passes { PassBetweenGrows(s.passes, s'.passes[|s.passes|], s.issued[r], s.clock, s'.clock); }
    }
  }

  lemma CallersLater(s: State, s': State, c: nat)
    requires CallerInv(s, c) && s'.Caller(c) == s.Caller(c) && s.clock <= s'.clock && |s.issued| <= |s'.issued|
    requires forall r :: 0 <= r < |s.issued| ==> s'.issued[r] == s.issued[r]
    requires s'.passes == s.passes || (|s'.passes| == |s.passes| + 1 && s'.passes == s.passes + [s'.passes[|s.passes|]])
    ensures CallerInv(s', c)
  {
    if s.Caller(c).Released? && s'.passes != s.passes {
      PassBetweenGrows(s.passes, s'.passes[|s.passes|], s.Caller(c).since, s.Caller(c).at, s.Caller(c).at);
    }
  }

  /** The pass that just ended answers every request the thread had loaded before it began. */
  lemma ForcedPassAnswers(s: State, s': State, ok: bool)
    requires Inv(s) && Next(s, s', EndForced(ok))
    ensures Answered(s', s.pc.req)
  {
    var n := |s.passes|;
    assert s'.passes[n] == Pass(true, ok, s.pc.begin, s.clock);
    forall r | 0 <= r < s.pc.req ensures PassBetween(s'.passes, s'.issued[r], s'.clock) {
      assert s.issued[r] < s.pc.begin;
    }
  }

  lemma NextKeeps(s: State, s': State, step: Step)
    requires Inv(s) && Next(s, s', step)
    ensures Inv(s')
  {
    ThreadKeeps(s, s', step);
    forall c ensures CallerInv(s', c) { CallerKeeps(s, s', step, c); }
    hide PcInv, CallerInv, Answered;
  }

  lemma ThreadKeeps(s: State, s': State, step: Step)
    requires Inv(s) && Next(s, s', step)
    ensures Answered(s', s'.completed) && PcInv(s')
  {
    hide PassBetween, CallerInv;
    assert forall r :: 0 <= r < |s.issued| ==> s'.issued[r] == s.issued[r];
    if step.EndForced? { ForcedPassAnswers(s, s', step.ok); }
    assert Answered(s', s'.completed) by { AnsweredLater(s, s', if step.Publish? then s.pc.req else s.completed); }
    if s.pc.Publishing? && !step.Publish? { AnsweredLater(s, s', s.pc.req); }
    hide Answered;
  }

  lemma CallerKeeps(s: State, s': State, step: Step, c: nat)
    requires Inv(s) && Next(s, s', step)
    ensures CallerInv(s', c)
  {
    hide PassBetween, Answered, PcInv;
    if (step.Request? || step.Release?) && step.c == c {
      CallerMoves(s, s', step);
    } else {
      assert CallerInv(s, c);
      CallersLater(s, s', c);
    }
  }

  lemma CallerMoves(s: State, s': State, step: Step)
    requires Inv(s) && Next(s, s', step) && (step.Request? || step.Release?)
    ensures CallerInv(s', step.c)
  {
    if step.Release? {
      var req := s.Caller(step.c).req;
      assert CallerInv(s, step.c);
      assert PassBetween(s.passes, s.issued[req - 1], s.clock);
    }
  }

  ghost predicate Run(states: seq<State>, steps: seq<Step>) {
    && |states| == |steps| + 1 && Init(states[0])
    && forall k {:trigger steps[k]} :: 0 <= k < |steps| ==> Next(states[k], states[k + 1], steps[k])
  }

  lemma {:induction false} RunKeeps(states: seq<State>, steps: seq<Step>, k: nat)
    requires Run(states, steps) && k < |states|
    ensures Inv(states[k])
  {
    hide Next;
    if k == 0 {
      forall c ensures CallerInv(states[0], c) { assert states[0].Caller(c) == Idle; }
    } else {
      RunKeeps(states, steps, k - 1);
      hide Inv;
      assert Next(states[k - 1], states[k], steps[k - 1]);
      NextKeeps(states[k - 1], states[k], steps[k - 1]);
    }
  }

  /** A caller stops waiting only after a forced pass that began after its request and ended before
      it was released; and no request is completed that was not made. */
  lemma SyncWaitsForItsPass(states: seq<State>, steps: seq<Step>, k: nat, c: nat)
    requires Run(states, steps) && k < |states|
    ensures states[k].completed <= states[k].requested
    ensures states[k].Caller(c).Released? ==>
              PassBetween(states[k].passes, states[k].Caller(c).since, states[k].Caller(c).at)
  {
    RunKeeps(states, steps, k);
    assert CallerInv(states[k], c);
  }

  /** Completion only ever moves up, and only by publishing after a forced pass: an unforced pass
      satisfies nobody. */
  lemma OnlyForcedPassesComplete(s: State, s': State, step: Step)
    requires Inv(s) && Next(s, s', step)
    ensures s.completed <= s'.completed && s.requested <= s'.requested
    ensures s'.completed != s.completed ==> step.Publish? && Answered(s, s'.completed)
    ensures step.EndUnforced? ==>
              forall c ::
                && s'.Caller(c) == s.Caller(c)
                && (s'.Caller(c).Waiting? ==> (s'.completed >= s'.Caller(c).req <==> s.completed >= s.Caller(c).req))
  {
  }

  // ---- What a released caller may count on ----

  const FAILED_SYNC: seq<Step> := [Request(0), LoadRequested, LoadCompleted, Decide, EndForced(false), Publish,
    Release(0)]

  function FailedSyncStates(): seq<State> {
    var c := map[0 := Waiting(1, 0)];
    [State(0, 0, Top, map[], 0, [], []),
     State(1, 0, Top, c, 1, [0], []),
     State(1, 0, LoadedReq(1), c, 2, [0], []),
     State(1, 0, Loaded(1, 0), c, 3, [0], []),
     State(1, 0, Forced(1, 3), c, 4, [0], []),
     State(1, 0, Publishing(1), c, 5, [0], [Pass(true, false, 3, 4)]),
     State(1, 1, Top, c, 6, [0], [Pass(true, false, 3, 4)]),
     State(1, 1, Top, map[0 := Released(1, 0, 6)], 7, [0], [Pass(true, false, 3, 4)])]
  }

  /** A caller is released although the only pass since its request failed. */
  lemma FailedPassReleases()
    ensures Run(FailedSyncStates(), FAILED_SYNC)
    ensures FailedSyncStates()[7].Caller(0).Released? && forall p :: p in FailedSyncStates()[7].passes ==> !p.ok
  {
    var states, steps := FailedSyncStates(), FAILED_SYNC;
    forall k {:trigger steps[k]} | 0 <= k < |steps| ensures Next(states[k], states[k + 1], steps[k]) {
      FailedSyncStep(k);
    }
  }

  lemma FailedSyncStep(k: nat)
    requires k < 7
    ensures Next(FailedSyncStates()[k], FailedSyncStates()[k + 1], FAILED_SYNC[k])
  {
    var states := FailedSyncStates();
    assert k == 0 || k == 1 || k == 2 || k == 3 || k == 4 || k == 5 || k == 6;
  }
}
