/** The concurrent release runtime (source_release_runtime.go): callers of
    current, at most one refresh behind them, and the fields they share under
    one mutex. Every critical section is one step. */
module ReleaseRuntime {
  import opened Base
  import opened Lifecycle
  import opened ReleaseFacts

  const RETRY_INTERVAL: Time := 5_000_000_000

  datatype Err =
    | NoActiveRelease
    | RegistryFailed(message: string)
    | LifecycleRefused
    | ReleaseChanged
    | ReleaseRefused
    | ContextDone

  /** The channel refreshDone of one refresh. */
  type Chan = nat

  /** The mutex-guarded fields. */
  datatype Fields = Fields(
    snapshot: Option<Snapshot>, checkAfter: Time, refreshing: bool, refreshDone: Option<Chan>, lastErr: Option<Err>)

  /** What a caller of current gets. */
  datatype Answer = Answer(snapshot: Option<Snapshot>, err: Option<Err>)

  /** How the critical section of current ends: with an answer, with a channel
      to wait on, and with a refresh started behind it or not. */
  datatype Entered = Entered(fields: Fields, answer: Option<Answer>, wait: Option<Chan>, starts: bool)

  // ---- The critical sections ----

  function Enter(f: Fields, now: Time, channel: Chan): Entered {
    if f.snapshot.Some? && now < f.checkAfter then
      Entered(f, Some(Answer(f.snapshot, None)), None, false)
    else if f.snapshot.None? && f.lastErr.Some? && now < f.checkAfter then
      Entered(f, Some(Answer(None, f.lastErr)), None, false)
    else if f.refreshing then
      if f.snapshot.Some? then Entered(f, Some(Answer(f.snapshot, None)), None, false)
      else Entered(f, None, f.refreshDone, false)
    else
      var g := f.(refreshing := true, refreshDone := Some(channel));
      if f.snapshot.Some? then Entered(g, Some(Answer(f.snapshot, None)), None, true)
      else Entered(g, None, Some(channel), true)
  }

  function Woken(f: Fields): Answer {
    if f.snapshot.Some? then Answer(f.snapshot, None) else Answer(None, f.lastErr)
  }

  function Finished(f: Fields, now: Time, interval: Time, next: Option<Snapshot>, err: Option<Err>): Fields {
    Fields(if next.Some? then next else f.snapshot,
           if err.Some? then now + RETRY_INTERVAL else now + interval,
           false, None, err)
  }

  // ---- What a refresh may come back with ----

  /** The registry's answers to one refresh. */
  datatype Registry = Registry(
    stateErr: Option<Err>, state: Option<ReleaseState>, releaseErr: Option<Err>, release: Release)

  predicate StateLoads(reg: Registry) { reg.stateErr.None? && reg.state.Some? }

  /** The active release is the one that is running. */
  predicate IsRunning(current: Option<Snapshot>, reg: Registry)
    requires StateLoads(reg)
  {
    current.Some? && current.value.releaseId == reg.state.value.releaseId
  }

  predicate ReleaseLoads(reg: Registry)
    requires StateLoads(reg)
  {
    reg.releaseErr.None? && reg.release.id == reg.state.value.releaseId
  }

  /** A refresh succeeds with the running release, its lifetimes renewed, or
      with the active one, built. */
  ghost predicate Succeeds(basis: string, current: Option<Snapshot>, reg: Registry, next: Snapshot) {
    StateLoads(reg) &&
    if IsRunning(current, reg) then
      var lives := LifeOf(reg.state.value.sources);
      && Refreshable(current.value, reg.state.value)
      && next == current.value.(bindings := RenewedBindings(current.value, lives), staleUntil := next.staleUntil)
      && (ZERO_TIME !in StaleTimes(lives) ==> IsMinimum(next.staleUntil, StaleTimes(lives)))
    else
      && ReleaseLoads(reg) && Buildable(reg.release)
      && IsBuilt(basis, reg.release, next) && Build(basis, reg.release) == Some(next)
  }

  /** A refresh fails with the registry's own error, or because there is no
      active release, the lifetimes are not those of the running release, the
      release changed meanwhile, or it cannot be built. */
  ghost predicate Fails(current: Option<Snapshot>, reg: Registry, err: Err) {
    if reg.stateErr.Some? then err == reg.stateErr.value
    else if reg.state.None? then err == NoActiveRelease
    else if IsRunning(current, reg) then !Refreshable(current.value, reg.state.value) && err == LifecycleRefused
    else if reg.releaseErr.Some? then err == reg.releaseErr.value
    else if reg.release.id != reg.state.value.releaseId then err == ReleaseChanged
    else !Buildable(reg.release) && err == ReleaseRefused
  }

  /** refresh, between its two critical sections. */
  ghost predicate Outcome(basis: string, current: Option<Snapshot>, reg: Registry, next: Option<Snapshot>, err: Option<Err>) {
    if err.Some? then next.None? && Fails(current, reg, err.value)
    else next.Some? && Succeeds(basis, current, reg, next.value)
  }

  class Runtime {
    var snapshot: Option<Snapshot>
    var checkAfter: Time
    var refreshing: bool
    var refreshDone: Option<Chan>
    var lastErr: Option<Err>
    const basis: string
    const refreshInterval: Time

    constructor (basis: string, refreshInterval: Time)
      ensures Shared() == Fields(None, 0, false, None, None)
      ensures this.basis == basis && this.refreshInterval == refreshInterval
    {
      this.basis, this.refreshInterval := basis, refreshInterval;
      snapshot, checkAfter, refreshing, refreshDone, lastErr := None, 0, false, None, None;
    }

    function Shared(): Fields
      reads this
    {
      Fields(snapshot, checkAfter, refreshing, refreshDone, lastErr)
    }

    /** current, up to the point where it unlocks. channel is what make
        would return. A published snapshot is the answer, also while it is
        checked; without one the last error is, until it is time to check again;
        else the caller waits for the refresh that runs or starts. A refresh
        starts when none runs and it is time, or when there is neither. */
    method EnterCurrent(now: Time, channel: Chan) returns (answer: Option<Answer>, wait: Option<Chan>, starts: bool)
      modifies this
      ensures Entered(Shared(), answer, wait, starts) == Enter(old(Shared()), now, channel)
      ensures snapshot.Some? ==> answer == Some(Answer(snapshot, None))
      ensures snapshot.None? ==> answer == if lastErr.Some? && now < checkAfter then Some(Answer(None, lastErr)) else None
      ensures answer.None? ==> wait == refreshDone
      ensures starts <==> !old(refreshing) && (checkAfter <= now || (snapshot.None? && lastErr.None?))
      ensures refreshing == (old(refreshing) || starts) && refreshDone == (if starts then Some(channel) else old(refreshDone))
      ensures unchanged(`snapshot) && unchanged(`checkAfter) && unchanged(`lastErr)
    {
      if snapshot.Some? && now < checkAfter { return Some(Answer(snapshot, None)), None, false; }
      if snapshot.None? && lastErr.Some? && now < checkAfter { return Some(Answer(None, lastErr)), None, false; }
      if refreshing {
        if snapshot.Some? { return Some(Answer(snapshot, None)), None, false; }
        return None, refreshDone, false;
      }
      refreshing := true;
      refreshDone := Some(channel);
      if snapshot.Some? { return Some(Answer(snapshot, None)), None, true; }
      return None, refreshDone, true;
    }

    /** waitForInitialRefresh, once its channel is closed. */
    method Wake() returns (answer: Answer)
      ensures answer == Woken(Shared())
      ensures if snapshot.Some? then answer == Answer(snapshot, None) else answer == Answer(None, lastErr)
    {
      if snapshot.Some? { return Answer(snapshot, None); }
      return Answer(None, lastErr);
    }

    /** refresh, up to finish: it reads the running snapshot and decides. */
    method Refresh(reg: Registry) returns (next: Option<Snapshot>, err: Option<Err>)
      ensures Outcome(basis, snapshot, reg, next, err)
      ensures err.None? <==>
        && reg.stateErr.None? && reg.state.Some?
        && (if snapshot.Some? && snapshot.value.releaseId == reg.state.value.releaseId then Refreshable(snapshot.value, reg.state.value)
            else reg.releaseErr.None? && reg.release.id == reg.state.value.releaseId && Buildable(reg.release))
    {
      hide Buildable, Refreshable, IsBuilt, RenewedBindings, LifeOf, StaleTimes, Build;
      if reg.stateErr.Some? { return None, reg.stateErr; }
      if reg.state.None? { return None, Some(NoActiveRelease); }
      var state := reg.state.value;
      var current := snapshot;
      if current.Some? && current.value.releaseId == state.releaseId {
        next := RefreshReleaseRuntimeLifecycle(current.value, state);
        if next.None? { return None, Some(LifecycleRefused); }
        return next, None;
      }
      if reg.releaseErr.Some? { return None, reg.releaseErr; }
      if reg.release.id != state.releaseId { return None, Some(ReleaseChanged); }
      next := BuildReleaseRuntimeSnapshot(basis, reg.release);
      BuildExact(basis, reg.release);
      if next.None? { return None, Some(ReleaseRefused); }
      return next, None;
    }

    /** finishRefresh. closes is the channel it closes. */
    method FinishRefresh(now: Time, next: Option<Snapshot>, err: Option<Err>) returns (closes: Option<Chan>)
      modifies this
      ensures closes == old(refreshDone)
      ensures Shared() == Finished(old(Shared()), now, refreshInterval, next, err)
      ensures snapshot == (if next.Some? then next else old(snapshot)) && lastErr == err
      ensures checkAfter - now == (if err.Some? then 5 * 1_000_000_000 else refreshInterval)
      ensures !refreshing && refreshDone.None?
    {
      if next.Some? { snapshot := next; }
      lastErr := err;
      if err.Some? { checkAfter := now + RETRY_INTERVAL; } else { checkAfter := now + refreshInterval; }
      refreshing := false;
      closes := refreshDone;
      refreshDone := None;
    }
  }

  // ---- All interleavings ----

  /** A refresh before it has decided, and after. */
  datatype Worker = Loading | Decided(next: Option<Snapshot>, err: Option<Err>)

  datatype Caller = Waiting(chan: Chan) | Done(answer: Answer)

  /** made counts the channels made; closed lists those closed, in order. */
  datatype System = System(fields: Fields, workers: seq<Worker>, made: nat, closed: seq<Chan>, callers: map<nat, Caller>)

  ghost predicate Init(s: System) {
    s == System(Fields(None, 0, false, None, None), [], 0, [], map[])
  }

  ghost predicate CallStep(s: System, s': System, id: nat, now: Time) {
    && id !in s.callers
    && var e := Enter(s.fields, now, s.made);
       && (e.answer.Some? || e.wait.Some?)
       && s' == s.(fields := e.fields,
                   workers := if e.starts then s.workers + [Loading] else s.workers,
                   made := if e.starts then s.made + 1 else s.made,
                   callers := s.callers[id := if e.answer.Some? then Done(e.answer.value) else Waiting(e.wait.value)])
  }

  ghost predicate WakeStep(s: System, s': System, id: nat) {
    && id in s.callers && s.callers[id].Waiting? && s.callers[id].chan in s.closed
    && s' == s.(callers := s.callers[id := Done(Woken(s.fields))])
  }

  ghost predicate CancelStep(s: System, s': System, id: nat) {
    && id in s.callers && s.callers[id].Waiting?
    && s' == s.(callers := s.callers[id := Done(Answer(None, Some(ContextDone)))])
  }

  ghost predicate DecideStep(basis: string, s: System, s': System, w: nat, reg: Registry, next: Option<Snapshot>, err: Option<Err>) {
    && w < |s.workers| && s.workers[w].Loading?
    && Outcome(basis, s.fields.snapshot, reg, next, err)
    && s' == s.(workers := s.workers[w := Decided(next, err)])
  }

  /** finishRefresh closes refreshDone: a closed or missing one would panic. */
  ghost predicate FinishStep(s: System, s': System, w: nat, now: Time, interval: Time) {
    && w < |s.workers| && s.workers[w].Decided?
    && s' == s.(fields := Finished(s.fields, now, interval, s.workers[w].next, s.workers[w].err),
                workers := s.workers[..w] + s.workers[w + 1..],
                closed := if s.fields.refreshDone.Some? then s.closed + [s.fields.refreshDone.value] else s.closed)
  }

  ghost predicate Next(basis: string, s: System, s': System) {
    || (exists id, now :: CallStep(s, s', id, now))
    || (exists id :: WakeStep(s, s', id))
    || (exists id :: CancelStep(s, s', id))
    || (exists w, reg, next, err :: DecideStep(basis, s, s', w, reg, next, err))
    || (exists w, now, interval :: FinishStep(s, s', w, now, interval))
  }

  // ---- What every interleaving keeps ----

  /** A binding without its freshness times. */
  function Timeless(b: Binding): Binding {
    Binding(b.config.(freshUntil := 0, staleUntil := 0),
            Lifecycle.Runtime(b.runtime.config.(freshUntil := 0, staleUntil := 0), b.runtime.metadata, 0, 0))
  }

  /** Bindings, type metadata and offers are those of one release; only the
      freshness times may be later ones. */
  ghost predicate OfRelease(basis: string, s: Snapshot, r: Release) {
    && Build(basis, r).Some?
    && var b := Build(basis, r).value;
       && s.releaseId == b.releaseId && s.typeMetadata == b.typeMetadata && s.offers == b.offers
       && s.bindings.Keys == b.bindings.Keys
       && forall key :: key in b.bindings ==> Timeless(s.bindings[key]) == Timeless(b.bindings[key])
  }

  ghost predicate OfOneRelease(basis: string, s: Snapshot) {
    exists r :: OfRelease(basis, s, r)
  }

  /** At most one refresh runs, exactly while refreshing; its channel is open
      exactly as long, was made last, and no channel is closed twice. */
  ghost predicate SingleFlight(s: System) {
    && |s.workers| == (if s.fields.refreshing then 1 else 0)
    && (s.fields.refreshing <==> s.fields.refreshDone.Some?)
    && (s.fields.refreshing ==> s.made > 0 && s.fields.refreshDone == Some(s.made - 1) && (s.made - 1) !in s.closed)
    && (forall c :: c in s.closed ==> c < s.made)
    && (forall i, j :: 0 <= i < j < |s.closed| ==> s.closed[i] != s.closed[j])
  }

  ghost predicate Answered(a: Answer) { a.snapshot.Some? <==> a.err.None? }

  /** Whoever waits, waits on the running refresh or on one that has ended;
      whoever is done has a snapshot or an error, and not both. */
  ghost predicate Callers(s: System) {
    && (forall id :: id in s.callers && s.callers[id].Waiting? ==>
          s.callers[id].chan in s.closed || s.fields.refreshDone == Some(s.callers[id].chan))
    && (forall id :: id in s.callers && s.callers[id].Done? ==> Answered(s.callers[id].answer))
    && (s.closed != [] ==> s.fields.snapshot.Some? || s.fields.lastErr.Some?)
  }

  /** Everything published, in hand or about to be, comes from one release. */
  ghost predicate Pure(basis: string, s: System) {
    && (s.fields.snapshot.Some? ==> OfOneRelease(basis, s.fields.snapshot.value))
    && (forall w :: 0 <= w < |s.workers| && s.workers[w].Decided? ==>
          && (s.workers[w].next.Some? <==> s.workers[w].err.None?)
          && (s.workers[w].next.Some? ==> OfOneRelease(basis, s.workers[w].next.value)))
    && (forall id :: id in s.callers && s.callers[id].Done? && s.callers[id].answer.snapshot.Some? ==>
          OfOneRelease(basis, s.callers[id].answer.snapshot.value))
  }

  ghost predicate Inv(basis: string, s: System) {
    SingleFlight(s) && Callers(s) && Pure(basis, s)
  }

  lemma RenewedKeepsRelease(basis: string, s: Snapshot, lives: map<string, Life>, staleUntil: Time)
    requires OfOneRelease(basis, s) && BoundSources(s) <= lives.Keys
    ensures OfOneRelease(basis, s.(bindings := RenewedBindings(s, lives), staleUntil := staleUntil))
  {
    hide Build, Timeless, Renewed;
    var r :| OfRelease(basis, s, r);
    var t := s.(bindings := RenewedBindings(s, lives), staleUntil := staleUntil);
    forall key | key in s.bindings ensures Timeless(t.bindings[key]) == Timeless(s.bindings[key]) {
      assert s.bindings[key].config.sourceId in BoundSources(s);
      TimelessRenewed(s.bindings[key], lives[s.bindings[key].config.sourceId]);
    }
    assert OfRelease(basis, t, r);
  }

  lemma TimelessRenewed(b: Binding, l: Life)
    ensures Timeless(Renewed(b, l)) == Timeless(b)
  {}

  lemma BuiltIsOfRelease(basis: string, r: Release)
    requires Build(basis, r).Some?
    ensures OfOneRelease(basis, Build(basis, r).value)
  {
    assert OfRelease(basis, Build(basis, r).value, r);
  }

  lemma OutcomeIsOfOneRelease(basis: string, current: Option<Snapshot>, reg: Registry, next: Option<Snapshot>, err: Option<Err>)
    requires Outcome(basis, current, reg, next, err) && next.Some?
    requires current.Some? ==> OfOneRelease(basis, current.value)
    ensures OfOneRelease(basis, next.value)
  {
    hide OfOneRelease, LifeOf, ValidLives;
    var state := reg.state.value;
    if current.Some? && current.value.releaseId == state.releaseId {
      RenewedKeepsRelease(basis, current.value, LifeOf(state.sources), next.value.staleUntil);
    } else {
      BuiltIsOfRelease(basis, reg.release);
    }
  }

  /** The guard of a call step excludes nothing: current always answers or
      waits on a channel that was made. */
  lemma EnterNeverStuck(basis: string, s: System, now: Time)
    requires Inv(basis, s)
    ensures var e := Enter(s.fields, now, s.made);
      && (e.answer.Some? || e.wait.Some?)
      && (e.starts ==> !s.fields.refreshing)
  {
    hide OfOneRelease;
  }

  lemma CallKeepsInv(basis: string, s: System, s': System, id: nat, now: Time)
    requires Inv(basis, s) && CallStep(s, s', id, now)
    ensures Inv(basis, s') && s'.fields.snapshot == s.fields.snapshot
  {
    hide OfOneRelease;
  }

  /** A finishing refresh is the only one, and closes an open channel. */
  lemma FinishKeepsInv(basis: string, s: System, s': System, w: nat, now: Time, interval: Time)
    requires Inv(basis, s) && FinishStep(s, s', w, now, interval)
    ensures Inv(basis, s') && (s.fields.snapshot.Some? ==> s'.fields.snapshot.Some?)
    ensures s.fields.refreshDone.Some? && s.fields.refreshDone.value !in s.closed
  {
    hide OfOneRelease;
    assert s'.workers == [];
  }

  /** Every step keeps all of it, and no step takes a published snapshot away. */
  lemma NextKeepsInv(basis: string, s: System, s': System)
    requires Inv(basis, s) && Next(basis, s, s')
    ensures Inv(basis, s')
    ensures s.fields.snapshot.Some? ==> s'.fields.snapshot.Some?
    ensures s.closed <= s'.closed
  {
    hide OfOneRelease, Outcome, Enter, Finished;
    if exists id, now :: CallStep(s, s', id, now) {
      var id, now :| CallStep(s, s', id, now);
      CallKeepsInv(basis, s, s', id, now);
    } else if exists w, now, interval :: FinishStep(s, s', w, now, interval) {
      var w, now, interval :| FinishStep(s, s', w, now, interval);
      FinishKeepsInv(basis, s, s', w, now, interval);
    } else if exists w, reg, next, err :: DecideStep(basis, s, s', w, reg, next, err) {
      var w, reg, next, err :| DecideStep(basis, s, s', w, reg, next, err);
      DecideKeepsInv(basis, s, s', w, reg, next, err);
    }
  }

  lemma DecideKeepsInv(basis: string, s: System, s': System, w: nat, reg: Registry, next: Option<Snapshot>, err: Option<Err>)
    requires Inv(basis, s) && DecideStep(basis, s, s', w, reg, next, err)
    ensures Inv(basis, s')
  {
    hide OfOneRelease;
    if next.Some? { OutcomeIsOfOneRelease(basis, s.fields.snapshot, reg, next, err); }
  }

  ghost predicate Run(basis: string, states: seq<System>) {
    && states != [] && Init(states[0])
    && forall i :: 0 < i < |states| ==> Next(basis, states[i - 1], states[i])
  }

  lemma {:induction false} RunKeepsInv(basis: string, states: seq<System>, k: nat)
    requires Run(basis, states) && k < |states|
    ensures Inv(basis, states[k])
  {
    hide Inv, Next;
    if k == 0 {
      InitInv(basis, states[0]);
    } else {
      RunKeepsInv(basis, states, k - 1);
      NextKeepsInv(basis, states[k - 1], states[k]);
    }
  }

  lemma InitInv(basis: string, s: System)
    requires Init(s)
    ensures Inv(basis, s)
  {}

  /** A snapshot once published stays published, and channels stay closed. */
  lemma {:induction false} PublishedStays(basis: string, states: seq<System>, i: nat, j: nat)
    requires Run(basis, states) && i <= j < |states|
    ensures states[i].fields.snapshot.Some? ==> states[j].fields.snapshot.Some?
    ensures states[i].closed <= states[j].closed
    decreases j
  {
    hide Inv, Next;
    if i < j {
      PublishedStays(basis, states, i, j - 1);
      RunKeepsInv(basis, states, j - 1);
      NextKeepsInv(basis, states[j - 1], states[j]);
    }
  }

  /** In every interleaving: one refresh at most, its channel open while it
      runs and closed once; every caller that is done holds a snapshot or an
      error and not both; and whatever snapshot is published or was returned
      is one release's bindings, type metadata and offers. */
  lemma SingleFlightAlways(basis: string, states: seq<System>, k: nat)
    requires Run(basis, states) && k < |states|
    ensures var s := states[k];
      && |s.workers| <= 1 && (|s.workers| == 1 <==> s.fields.refreshing)
      && (s.fields.refreshing <==> s.fields.refreshDone.Some?)
      && (s.fields.refreshing ==> s.fields.refreshDone.value !in s.closed)
      && (forall i, j :: 0 <= i < j < |s.closed| ==> s.closed[i] != s.closed[j])
      && (forall id :: id in s.callers && s.callers[id].Done? ==>
            (s.callers[id].answer.snapshot.Some? <==> s.callers[id].answer.err.None?))
      && (s.fields.snapshot.Some? ==> OfOneRelease(basis, s.fields.snapshot.value))
      && (forall id :: id in s.callers && s.callers[id].Done? && s.callers[id].answer.snapshot.Some? ==>
            OfOneRelease(basis, s.callers[id].answer.snapshot.value))
  {
    hide OfOneRelease, Next;
    RunKeepsInv(basis, states, k);
  }

  /** No caller is stuck: one that waits can wake, or the refresh it waits on
      is still running. */
  lemma WaitersCanWake(basis: string, states: seq<System>, k: nat, id: nat)
    requires Run(basis, states) && k < |states|
    requires id in states[k].callers && states[k].callers[id].Waiting?
    ensures var s := states[k];
      s.callers[id].chan in s.closed || (|s.workers| == 1 && s.fields.refreshDone == Some(s.callers[id].chan))
  {
    hide OfOneRelease, Next;
    RunKeepsInv(basis, states, k);
  }
}
