/** Snapshots of a source release (source_release_runtime.go): building one
    from a release, and refreshing only its freshness times. The incremental
    refresh has to agree with a rebuild. */
module Lifecycle {
  import opened Base

  type Time = int

  /** Go's zero time, which both loops read as "no minimum yet". */
  const ZERO_TIME: Time := 0

  /** A source's lifetime, as the registry's rows give it. */
  datatype Life = Life(freshUntil: Time, staleUntil: Time, expiresAt: Time)

  datatype TypeEntry = TypeEntry(typeId: string, definition: string, vct: string, vctIntegrity: string)

  /** How a source's data is reached. */
  datatype Access = Access(transport: string, serviceReference: string, grantHash: string)

  /** A stored activation snapshot, decoded. It holds freshness times of its
      own, beside those of the row it is stored in. */
  datatype Activation = Activation(
    sourceId: string, oin: string, version: string,
    freshUntil: Time, staleUntil: Time, access: Access, types: seq<TypeEntry>)

  datatype Publication = Publication(path: string, body: string)

  /** One source of a release: its rows, its snapshot (None when it does not
      decode) and its type metadata (None where a document is invalid). */
  datatype Source = Source(
    sourceId: string, life: Life, snapshot: Option<Activation>, typeMetadata: seq<Option<Publication>>)

  datatype Release = Release(id: string, sources: seq<Source>, offers: string)

  datatype Config = Config(
    basis: string, sourceId: string, oin: string, typeId: string, version: string, definition: string,
    vct: string, vctIntegrity: string, freshUntil: Time, staleUntil: Time, access: Access)

  datatype Metadata = Metadata(
    version: string, sourceId: string, oin: string, typeId: string, definition: string, vct: string, vctIntegrity: string)

  /** releaseSourceRuntime: a copy of the configuration with its own times, and
      what it tells of its type. */
  datatype Runtime = Runtime(config: Config, metadata: Metadata, freshUntil: Time, staleUntil: Time)

  datatype Binding = Binding(config: Config, runtime: Runtime)

  type BindingKey = (string, string)

  datatype Snapshot = Snapshot(
    releaseId: string, bindings: map<BindingKey, Binding>, typeMetadata: map<string, Publication>,
    offers: string, staleUntil: Time)

  // ---- buildReleaseRuntimeSnapshot ----

  function Earlier(current: Time, t: Time): Time {
    if current == ZERO_TIME || t < current then t else current
  }

  function BindingOf(basis: string, a: Activation, t: TypeEntry): Binding {
    var cfg := Config(basis, a.sourceId, a.oin, t.typeId, a.version, t.definition,
                      t.vct, t.vctIntegrity, a.freshUntil, a.staleUntil, a.access);
    var metadata := Metadata(cfg.version, cfg.sourceId, cfg.oin, cfg.typeId, cfg.definition, cfg.vct, cfg.vctIntegrity);
    Binding(cfg, Runtime(cfg, metadata, a.freshUntil, a.staleUntil))
  }

  /** activationFromRegistryCandidate, as far as a release source needs it. */
  function Decoded(s: Source): Option<Activation> {
    if s.snapshot.Some? && s.snapshot.value.sourceId == s.sourceId then s.snapshot else None
  }

  function AddTypes(basis: string, a: Activation, types: seq<TypeEntry>, bindings: map<BindingKey, Binding>)
    : Option<map<BindingKey, Binding>>
  {
    if types == [] then Some(bindings)
    else
      var key := (a.sourceId, types[0].typeId);
      if key in bindings then None
      else AddTypes(basis, a, types[1..], bindings[key := BindingOf(basis, a, types[0])])
  }

  function AddPublications(pubs: seq<Option<Publication>>, published: map<string, Publication>)
    : Option<map<string, Publication>>
  {
    if pubs == [] then Some(published)
    else if pubs[0].None? || pubs[0].value.path in published then None
    else AddPublications(pubs[1..], published[pubs[0].value.path := pubs[0].value])
  }

  /** One round of the loop over the release's sources. */
  function AddSource(basis: string, s: Source, acc: Snapshot): Option<Snapshot> {
    match Decoded(s)
    case None => None
    case Some(a) =>
      var bindings := AddTypes(basis, a, a.types, acc.bindings);
      var published := AddPublications(s.typeMetadata, acc.typeMetadata);
      if bindings.None? || published.None? then None
      else Some(acc.(bindings := bindings.value, typeMetadata := published.value,
                     staleUntil := Earlier(acc.staleUntil, s.life.staleUntil)))
  }

  function AddSources(basis: string, sources: seq<Source>, acc: Snapshot): Option<Snapshot> {
    if sources == [] then Some(acc)
    else match AddSource(basis, sources[0], acc)
      case None => None
      case Some(next) => AddSources(basis, sources[1..], next)
  }

  /** None where the code reports an error. */
  function Build(basis: string, r: Release): Option<Snapshot> {
    if r.id == "" || r.sources == [] then None
    else AddSources(basis, r.sources, Snapshot(r.id, map[], map[], r.offers, ZERO_TIME))
  }

  method BuildReleaseRuntimeSnapshot(basis: string, release: Release) returns (r: Option<Snapshot>)
    ensures r == Build(basis, release)
  {
    if release.id == "" || release.sources == [] { return None; }
    var snapshot := Snapshot(release.id, map[], map[], release.offers, ZERO_TIME);
    for n := 0 to |release.sources|
      invariant Build(basis, release) == AddSources(basis, release.sources[n..], snapshot)
    {
      var source := release.sources[n];
      assert release.sources[n..][1..] == release.sources[n + 1..];
      var activation := Decoded(source);
      if activation.None? { return None; }
      var bindings := BindTypes(basis, activation.value, snapshot.bindings);
      if bindings.None? { return None; }
      var published := Publish(source.typeMetadata, snapshot.typeMetadata);
      if published.None? { return None; }
      snapshot := snapshot.(
        bindings := bindings.value, typeMetadata := published.value,
        staleUntil := if snapshot.staleUntil == ZERO_TIME || source.life.staleUntil < snapshot.staleUntil
                      then source.life.staleUntil else snapshot.staleUntil);
    }
    return Some(snapshot);
  }

  method BindTypes(basis: string, a: Activation, bindings0: map<BindingKey, Binding>)
    returns (r: Option<map<BindingKey, Binding>>)
    ensures r == AddTypes(basis, a, a.types, bindings0)
  {
    var bindings := bindings0;
    for n := 0 to |a.types|
      invariant AddTypes(basis, a, a.types, bindings0) == AddTypes(basis, a, a.types[n..], bindings)
    {
      assert a.types[n..][1..] == a.types[n + 1..];
      var key := (a.sourceId, a.types[n].typeId);
      if key in bindings { return None; }
      bindings := bindings[key := BindingOf(basis, a, a.types[n])];
    }
    return Some(bindings);
  }

  method Publish(pubs: seq<Option<Publication>>, published0: map<string, Publication>)
    returns (r: Option<map<string, Publication>>)
    ensures r == AddPublications(pubs, published0)
  {
    var published := published0;
    for n := 0 to |pubs|
      invariant AddPublications(pubs, published0) == AddPublications(pubs[n..], published)
    {
      assert pubs[n..][1..] == pubs[n + 1..];
      if pubs[n].None? { return None; }
      if pubs[n].value.path in published { return None; }
      published := published[pubs[n].value.path := pubs[n].value];
    }
    return Some(published);
  }

  // ---- refreshReleaseRuntimeLifecycle ----

  datatype SourceLife = SourceLife(sourceId: string, life: Life)

  /** ActiveReleaseState: which release is active, and its sources' lifetimes. */
  datatype ReleaseState = ReleaseState(releaseId: string, sources: seq<SourceLife>)

  predicate ValidLife(l: SourceLife) {
    l.sourceId != "" && l.life.freshUntil <= l.life.staleUntil <= l.life.expiresAt
  }

  ghost predicate ValidLives(sources: seq<SourceLife>) {
    && (forall i :: 0 <= i < |sources| ==> ValidLife(sources[i]))
    && (forall i, j :: 0 <= i < j < |sources| ==> sources[i].sourceId != sources[j].sourceId)
  }

  /** lifecycleBySource. */
  ghost function LifeOf(sources: seq<SourceLife>): map<string, Life> {
    if sources == [] then map[]
    else LifeOf(sources[..|sources| - 1])[sources[|sources| - 1].sourceId := sources[|sources| - 1].life]
  }

  lemma {:induction false} LifeOfEach(sources: seq<SourceLife>)
    requires ValidLives(sources)
    ensures forall i :: 0 <= i < |sources| ==>
      sources[i].sourceId in LifeOf(sources) && LifeOf(sources)[sources[i].sourceId] == sources[i].life
    ensures forall id :: id in LifeOf(sources) ==> exists i :: 0 <= i < |sources| && sources[i].sourceId == id
  {
    if sources != [] {
      var init := sources[..|sources| - 1];
      LifeOfEach(init);
      forall id | id in LifeOf(sources) ensures exists i :: 0 <= i < |sources| && sources[i].sourceId == id {
        if id == sources[|sources| - 1].sourceId {
        } else {
          var i :| 0 <= i < |init| && init[i].sourceId == id;
          assert sources[i].sourceId == id;
        }
      }
    }
  }

  function Renewed(b: Binding, l: Life): Binding {
    Binding(b.config.(freshUntil := l.freshUntil, staleUntil := l.staleUntil),
            Runtime(b.runtime.config.(freshUntil := l.freshUntil, staleUntil := l.staleUntil),
                    b.runtime.metadata, l.freshUntil, l.staleUntil))
  }

  /** The sources the bindings belong to. */
  ghost function BoundSources(s: Snapshot): set<string> {
    set key | key in s.bindings :: s.bindings[key].config.sourceId
  }

  /** The state names exactly the bound sources, with valid lifetimes. */
  ghost predicate Refreshable(current: Snapshot, state: ReleaseState) {
    && current.releaseId == state.releaseId && state.sources != []
    && ValidLives(state.sources)
    && LifeOf(state.sources).Keys == BoundSources(current)
  }

  /** That is: it is the same release, and there is one source in the state for
      each that has a binding and no other, with a name and a lifetime in
      order. */
  lemma {:induction false} RefreshableExact(current: Snapshot, state: ReleaseState)
    ensures Refreshable(current, state) <==>
      && state.releaseId == current.releaseId && state.sources != []
      && (forall i :: 0 <= i < |state.sources| ==>
            var l := state.sources[i];
            && l.sourceId != "" && l.life.freshUntil <= l.life.staleUntil <= l.life.expiresAt
            && exists key :: key in current.bindings && current.bindings[key].config.sourceId == l.sourceId)
      && (forall i, j :: 0 <= i < j < |state.sources| ==> state.sources[i].sourceId != state.sources[j].sourceId)
      && (forall key :: key in current.bindings ==>
            exists i :: 0 <= i < |state.sources| && state.sources[i].sourceId == current.bindings[key].config.sourceId)
  {
    hide LifeOf, BoundSources;
    if ValidLives(state.sources) {
      LifeOfEach(state.sources);
      BoundTo(current);
    }
  }

  lemma {:induction false} BoundTo(current: Snapshot)
    ensures forall key :: key in current.bindings ==> current.bindings[key].config.sourceId in BoundSources(current)
    ensures forall id :: id in BoundSources(current) ==>
      exists key :: key in current.bindings && current.bindings[key].config.sourceId == id
  {}

  ghost function RenewedBindings(current: Snapshot, lives: map<string, Life>): map<BindingKey, Binding>
    requires BoundSources(current) <= lives.Keys
  {
    map key | key in current.bindings ::
      assert current.bindings[key].config.sourceId in BoundSources(current);
      Renewed(current.bindings[key], lives[current.bindings[key].config.sourceId])
  }

  ghost predicate IsMinimum(t: Time, times: set<Time>) {
    t in times && forall x :: x in times ==> t <= x
  }

  ghost function StaleTimes(lives: map<string, Life>): set<Time> {
    set id | id in lives :: lives[id].staleUntil
  }

  /** The map of lifetimes, or an error for an invalid or repeated one. */
  method CollectLives(sources: seq<SourceLife>) returns (ok: bool, lives: map<string, Life>)
    ensures ok <==> ValidLives(sources)
    ensures ok ==> lives == LifeOf(sources)
  {
    lives := map[];
    for n := 0 to |sources|
      invariant ValidLives(sources[..n]) && lives == LifeOf(sources[..n])
    {
      var l := sources[n];
      assert sources[..n + 1][..n] == sources[..n];
      LifeOfEach(sources[..n]);
      if !ValidLife(l) {
        return false, lives;
      }
      if l.sourceId in lives {
        var i :| 0 <= i < n && sources[..n][i].sourceId == l.sourceId;
        assert sources[i].sourceId == l.sourceId;
        return false, lives;
      }
      lives := lives[l.sourceId := l.life];
    }
    assert sources[..|sources|] == sources;
    return true, lives;
  }

  /** refreshReleaseRuntimeLifecycle. The loop over the bindings runs in any
      order; with no zero time among them the result is the same for all. */
  method RefreshReleaseRuntimeLifecycle(current: Snapshot, state: ReleaseState) returns (r: Option<Snapshot>)
    ensures r.Some? <==> Refreshable(current, state)
    ensures r.Some? ==>
      && r.value == current.(bindings := RenewedBindings(current, LifeOf(state.sources)), staleUntil := r.value.staleUntil)
      && (ZERO_TIME !in StaleTimes(LifeOf(state.sources)) ==>
            IsMinimum(r.value.staleUntil, StaleTimes(LifeOf(state.sources))))
  {
    if current.releaseId != state.releaseId || |state.sources| == 0 { return None; }
    var ok, lives := CollectLives(state.sources);
    if !ok { return None; }
    var bindings: map<BindingKey, Binding> := map[];
    var seen: set<string> := {};
    var staleUntil := ZERO_TIME;
    var todo := current.bindings.Keys;
    while todo != {}
      invariant RenewedSoFar(current, lives, todo, bindings, seen)
      invariant ZERO_TIME !in StaleTimes(lives) ==> SeenMinimum(staleUntil, seen, lives)
      decreases |todo|
    {
      hide RenewedSoFar, SeenMinimum, StaleTimes, LifeOf, ValidLives;
      var key :| key in todo;
      TodoIsBound(current, lives, todo, bindings, seen, key);
      var binding := current.bindings[key];
      var id := binding.config.sourceId;
      if id !in lives { return None; }
      SeenStep(staleUntil, seen, lives, id);
      RenewStep(current, lives, todo, bindings, seen, key);
      bindings := bindings[key := Renewed(binding, lives[id])];
      seen := seen + {id};
      if staleUntil == ZERO_TIME || lives[id].staleUntil < staleUntil {
        staleUntil := lives[id].staleUntil;
      }
      todo := todo - {key};
    }
    hide LifeOf, ValidLives, StaleTimes, RenewedBindings;
    RenewDone(current, lives, bindings, seen);
    SubsetOfSize(seen, lives.Keys);
    if |seen| != |lives| { return None; }
    LifeOfSome(state.sources);
    MinimumDone(staleUntil, lives);
    return Some(Snapshot(current.releaseId, bindings, current.typeMetadata, current.offers, staleUntil));
  }

  /** What the loop over the bindings has done: all but todo are renewed, and
      seen are their sources. */
  ghost predicate RenewedSoFar(current: Snapshot, lives: map<string, Life>, todo: set<BindingKey>,
                               bindings: map<BindingKey, Binding>, seen: set<string>) {
    && todo <= current.bindings.Keys
    && bindings.Keys == current.bindings.Keys - todo
    && (forall key :: key in bindings ==>
          && current.bindings[key].config.sourceId in lives
          && bindings[key] == Renewed(current.bindings[key], lives[current.bindings[key].config.sourceId]))
    && seen == (set key | key in bindings :: current.bindings[key].config.sourceId)
  }

  lemma TodoIsBound(current: Snapshot, lives: map<string, Life>, todo: set<BindingKey>,
                    bindings: map<BindingKey, Binding>, seen: set<string>, key: BindingKey)
    requires RenewedSoFar(current, lives, todo, bindings, seen) && key in todo
    ensures key in current.bindings && current.bindings[key].config.sourceId in BoundSources(current)
  {}

  lemma RenewStep(current: Snapshot, lives: map<string, Life>, todo: set<BindingKey>,
                  bindings: map<BindingKey, Binding>, seen: set<string>, key: BindingKey)
    requires RenewedSoFar(current, lives, todo, bindings, seen) && key in todo
    requires key in current.bindings && current.bindings[key].config.sourceId in lives
    ensures var id := current.bindings[key].config.sourceId;
      RenewedSoFar(current, lives, todo - {key},
                   bindings[key := Renewed(current.bindings[key], lives[id])], seen + {id})
  {
    hide Renewed;
    var id := current.bindings[key].config.sourceId;
    var more := bindings[key := Renewed(current.bindings[key], lives[id])];
    assert more.Keys == bindings.Keys + {key};
    var ids := set k | k in more :: current.bindings[k].config.sourceId;
    forall x | x in seen + {id} ensures x in ids {
      if x == id { assert key in more; } else {
        var k :| k in bindings && current.bindings[k].config.sourceId == x;
        assert k in more;
      }
    }
  }

  lemma RenewDone(current: Snapshot, lives: map<string, Life>, bindings: map<BindingKey, Binding>, seen: set<string>)
    requires RenewedSoFar(current, lives, {}, bindings, seen)
    ensures seen == BoundSources(current) && seen <= lives.Keys
    ensures bindings == RenewedBindings(current, lives)
  {
    hide Renewed;
  }

  /** The running minimum of the loop: zero before the first source. */
  ghost predicate SeenMinimum(t: Time, seen: set<string>, lives: map<string, Life>) {
    && seen <= lives.Keys
    && (seen == {} ==> t == ZERO_TIME)
    && (seen != {} ==> t != ZERO_TIME && exists id :: id in seen && lives[id].staleUntil == t)
    && (forall id :: id in seen ==> t <= lives[id].staleUntil)
  }

  lemma SeenStep(t: Time, seen: set<string>, lives: map<string, Life>, id: string)
    requires id in lives
    requires ZERO_TIME !in StaleTimes(lives) ==> SeenMinimum(t, seen, lives)
    ensures ZERO_TIME !in StaleTimes(lives) ==> SeenMinimum(Earlier(t, lives[id].staleUntil), seen + {id}, lives)
  {
    if ZERO_TIME !in StaleTimes(lives) {
      assert lives[id].staleUntil in StaleTimes(lives);
    }
  }

  lemma SubsetOfSize(a: set<string>, b: set<string>)
    requires a <= b
    ensures |a| == |b| <==> a == b
  {
    assert |b - a| == |b| - |a|;
  }

  lemma {:induction false} LifeOfSome(sources: seq<SourceLife>)
    requires sources != []
    ensures LifeOf(sources) != map[]
  {
    assert sources[|sources| - 1].sourceId in LifeOf(sources);
  }

  lemma MinimumDone(t: Time, lives: map<string, Life>)
    requires lives != map[]
    requires ZERO_TIME !in StaleTimes(lives) ==> SeenMinimum(t, lives.Keys, lives)
    ensures ZERO_TIME !in StaleTimes(lives) ==> IsMinimum(t, StaleTimes(lives))
  {
    if ZERO_TIME !in StaleTimes(lives) {
      assert lives.Keys != {};
      var id :| id in lives && lives[id].staleUntil == t;
      assert lives[id].staleUntil in StaleTimes(lives);
    }
  }

  // ---- Rebuilding with the new times ----

  /** The source with its rows' times replaced. This is all the registry does
      when it refreshes a release it already holds. */
  function WithRows(s: Source, l: Life): Source { s.(life := l) }

  /** The source with the times replaced in its snapshot as well. */
  function WithTimes(s: Source, l: Life): Source {
    WithRows(s, l).(snapshot :=
      if s.snapshot.None? then None
      else Some(s.snapshot.value.(freshUntil := l.freshUntil, staleUntil := l.staleUntil)))
  }

  ghost function SourceIds(sources: seq<Source>): set<string> {
    set i | 0 <= i < |sources| :: sources[i].sourceId
  }

  ghost function Retimed(sources: seq<Source>, lives: map<string, Life>): seq<Source>
    requires SourceIds(sources) <= lives.Keys
  {
    if sources == [] then []
    else
      assert sources[0].sourceId in SourceIds(sources);
      IdsOfTail(sources);
      [WithTimes(sources[0], lives[sources[0].sourceId])] + Retimed(sources[1..], lives)
  }

  ghost function Rerowed(sources: seq<Source>, lives: map<string, Life>): seq<Source>
    requires SourceIds(sources) <= lives.Keys
  {
    if sources == [] then []
    else
      assert sources[0].sourceId in SourceIds(sources);
      IdsOfTail(sources);
      [WithRows(sources[0], lives[sources[0].sourceId])] + Rerowed(sources[1..], lives)
  }

  lemma IdsOfTail(sources: seq<Source>)
    requires sources != []
    ensures SourceIds(sources) == {sources[0].sourceId} + SourceIds(sources[1..])
  {
    assert forall i :: 1 <= i < |sources| ==> sources[i] == sources[1..][i - 1];
    forall id | id in {sources[0].sourceId} + SourceIds(sources[1..]) ensures id in SourceIds(sources) {
      if id != sources[0].sourceId {
        var i :| 0 <= i < |sources[1..]| && sources[1..][i].sourceId == id;
        assert sources[i + 1].sourceId == id;
      }
    }
  }

  /** Two builds side by side differ in nothing but the renewed times. */
  ghost predicate Alike(a: Snapshot, b: Snapshot, lives: map<string, Life>) {
    && BoundSources(a) <= lives.Keys
    && b == a.(bindings := RenewedBindings(a, lives), staleUntil := b.staleUntil)
  }

  lemma {:induction false} AddTypesAlike(basis: string, a: Activation, types: seq<TypeEntry>, x: Snapshot, y: Snapshot,
                                         lives: map<string, Life>)
    requires Alike(x, y, lives) && a.sourceId in lives
    ensures var l := lives[a.sourceId];
      var a' := a.(freshUntil := l.freshUntil, staleUntil := l.staleUntil);
      var p, q := AddTypes(basis, a, types, x.bindings), AddTypes(basis, a', types, y.bindings);
      && (p.Some? <==> q.Some?)
      && (p.Some? ==> Alike(x.(bindings := p.value), y.(bindings := q.value), lives))
    decreases types
  {
    if types != [] {
      var l := lives[a.sourceId];
      var a' := a.(freshUntil := l.freshUntil, staleUntil := l.staleUntil);
      var key := (a.sourceId, types[0].typeId);
      if key !in x.bindings {
        var x' := x.(bindings := x.bindings[key := BindingOf(basis, a, types[0])]);
        var y' := y.(bindings := y.bindings[key := BindingOf(basis, a', types[0])]);
        OneMoreAlike(x, y, lives, key, BindingOf(basis, a, types[0]));
        AddTypesAlike(basis, a, types[1..], x', y', lives);
      }
    }
  }

  lemma OneMoreAlike(x: Snapshot, y: Snapshot, lives: map<string, Life>, key: BindingKey, b: Binding)
    requires Alike(x, y, lives) && b.config.sourceId in lives
    ensures Alike(x.(bindings := x.bindings[key := b]),
                  y.(bindings := y.bindings[key := Renewed(b, lives[b.config.sourceId])]), lives)
  {
    hide Renewed;
    var x' := x.(bindings := x.bindings[key := b]);
    assert x'.bindings[key] == b;
    forall id | id in BoundSources(x') ensures id in lives {
      var k :| k in x'.bindings && x'.bindings[k].config.sourceId == id;
      if k != key { assert x.bindings[k].config.sourceId in BoundSources(x); }
    }
    forall k | k in x.bindings && k != key
      ensures k in y.bindings && y.bindings[k] == Renewed(x.bindings[k], lives[x.bindings[k].config.sourceId])
    {
      assert x.bindings[k].config.sourceId in BoundSources(x);
    }
    assert y.bindings[key := Renewed(b, lives[b.config.sourceId])] == RenewedBindings(x', lives);
  }

  lemma AddSourceAlike(basis: string, s: Source, x: Snapshot, y: Snapshot, lives: map<string, Life>)
    requires Alike(x, y, lives) && s.sourceId in lives
    ensures var p, q := AddSource(basis, s, x), AddSource(basis, WithTimes(s, lives[s.sourceId]), y);
      && (p.Some? <==> q.Some?)
      && (p.Some? ==> Alike(p.value, q.value, lives) && q.value.staleUntil == Earlier(y.staleUntil, lives[s.sourceId].staleUntil))
  {
    hide Alike, AddTypes, AddPublications;
    AlikeMetadata(x, y, lives);
    if Decoded(s).Some? {
      var a := Decoded(s).value;
      AddTypesAlike(basis, a, a.types, x, y, lives);
      var p, q := AddSource(basis, s, x), AddSource(basis, WithTimes(s, lives[s.sourceId]), y);
      if p.Some? {
        AlikeRest(x.(bindings := p.value.bindings), y.(bindings := q.value.bindings), p.value, q.value, lives);
      }
    }
  }

  lemma AlikeMetadata(x: Snapshot, y: Snapshot, lives: map<string, Life>)
    requires Alike(x, y, lives)
    ensures x.typeMetadata == y.typeMetadata
  {}

  lemma AlikeRest(x: Snapshot, y: Snapshot, p: Snapshot, q: Snapshot, lives: map<string, Life>)
    requires Alike(x, y, lives)
    requires p == x.(typeMetadata := p.typeMetadata, staleUntil := p.staleUntil)
    requires q == y.(typeMetadata := p.typeMetadata, staleUntil := q.staleUntil)
    ensures Alike(p, q, lives)
  {}

  ghost function StaleFold(t: Time, sources: seq<Source>, lives: map<string, Life>): Time
    requires SourceIds(sources) <= lives.Keys
    decreases |sources|
  {
    if sources == [] then t
    else
      assert sources[0].sourceId in SourceIds(sources);
      IdsOfTail(sources);
      StaleFold(Earlier(t, lives[sources[0].sourceId].staleUntil), sources[1..], lives)
  }

  lemma {:induction false} AddSourcesAlike(basis: string, sources: seq<Source>, x: Snapshot, y: Snapshot, lives: map<string, Life>)
    requires Alike(x, y, lives) && SourceIds(sources) <= lives.Keys
    ensures var p, q := AddSources(basis, sources, x), AddSources(basis, Retimed(sources, lives), y);
      && (p.Some? <==> q.Some?)
      && (p.Some? ==> Alike(p.value, q.value, lives) && q.value.staleUntil == StaleFold(y.staleUntil, sources, lives))
    decreases sources
  {
    hide Alike, AddSource;
    if sources != [] {
      IdsOfTail(sources);
      assert sources[0].sourceId in SourceIds(sources);
      AddSourceAlike(basis, sources[0], x, y, lives);
      assert Retimed(sources, lives)[1..] == Retimed(sources[1..], lives);
      var p := AddSource(basis, sources[0], x);
      if p.Some? {
        AddSourcesAlike(basis, sources[1..], p.value, AddSource(basis, Retimed(sources, lives)[0], y).value, lives);
      }
    }
  }

  /** The running minimum over the sources is their minimum. */
  lemma {:induction false} StaleFoldIsMinimum(t: Time, seen: set<string>, sources: seq<Source>, lives: map<string, Life>)
    requires SourceIds(sources) <= lives.Keys && ZERO_TIME !in StaleTimes(lives)
    requires SeenMinimum(t, seen, lives)
    ensures SeenMinimum(StaleFold(t, sources, lives), seen + SourceIds(sources), lives)
    decreases sources
  {
    if sources == [] {
      assert seen + SourceIds(sources) == seen;
    } else {
      IdsOfTail(sources);
      var id := sources[0].sourceId;
      assert id in SourceIds(sources);
      SeenStep(t, seen, lives, id);
      StaleFoldIsMinimum(Earlier(t, lives[id].staleUntil), seen + {id}, sources[1..], lives);
      assert seen + {id} + SourceIds(sources[1..]) == seen + SourceIds(sources);
    }
  }

  // ---- Which bindings a build makes ----

  ghost predicate Made(basis: string, sources: seq<Source>, key: BindingKey, b: Binding) {
    exists i, j :: MadeAt(basis, sources, key, b, i, j)
  }

  ghost predicate MadeAt(basis: string, sources: seq<Source>, key: BindingKey, b: Binding, i: int, j: int) {
    && 0 <= i < |sources| && Decoded(sources[i]).Some?
    && var a := Decoded(sources[i]).value;
       0 <= j < |a.types| && key == (a.sourceId, a.types[j].typeId) && b == BindingOf(basis, a, a.types[j])
  }

  lemma {:induction false} AddTypesMakes(basis: string, a: Activation, types: seq<TypeEntry>, bindings: map<BindingKey, Binding>)
    requires AddTypes(basis, a, types, bindings).Some?
    ensures var r := AddTypes(basis, a, types, bindings).value;
      && (forall key :: key in bindings ==> key in r && r[key] == bindings[key])
      && (forall j :: 0 <= j < |types| ==>
            (a.sourceId, types[j].typeId) in r && r[(a.sourceId, types[j].typeId)] == BindingOf(basis, a, types[j]))
      && (forall key :: key in r && key !in bindings ==>
            exists j :: 0 <= j < |types| && key == (a.sourceId, types[j].typeId) && r[key] == BindingOf(basis, a, types[j]))
    decreases types
  {
    hide BindingOf;
    if types != [] {
      var key := (a.sourceId, types[0].typeId);
      var next := bindings[key := BindingOf(basis, a, types[0])];
      AddTypesMakes(basis, a, types[1..], next);
      var r := AddTypes(basis, a, types, bindings).value;
      assert key in next;
      forall j | 0 <= j < |types|
        ensures (a.sourceId, types[j].typeId) in r && r[(a.sourceId, types[j].typeId)] == BindingOf(basis, a, types[j])
      {
        if j > 0 { assert types[j] == types[1..][j - 1]; }
      }
      forall k | k in r && k !in bindings
        ensures exists j :: 0 <= j < |types| && k == (a.sourceId, types[j].typeId) && r[k] == BindingOf(basis, a, types[j])
      {
        if k != key {
          var j :| 0 <= j < |types[1..]| && k == (a.sourceId, types[1..][j].typeId) && r[k] == BindingOf(basis, a, types[1..][j]);
          assert types[j + 1] == types[1..][j];
        }
      }
    }
  }

  lemma {:induction false} AddSourcesMakes(basis: string, sources: seq<Source>, acc: Snapshot)
    requires AddSources(basis, sources, acc).Some?
    ensures var r := AddSources(basis, sources, acc).value;
      && (forall i :: 0 <= i < |sources| ==> Decoded(sources[i]).Some?)
      && (forall key :: key in acc.bindings ==> key in r.bindings && r.bindings[key] == acc.bindings[key])
      && (forall key, b, i, j :: MadeAt(basis, sources, key, b, i, j) ==> key in r.bindings && r.bindings[key] == b)
      && (forall key :: key in r.bindings && key !in acc.bindings ==> Made(basis, sources, key, r.bindings[key]))
    decreases sources
  {
    hide AddTypes, AddPublications, BindingOf;
    if sources != [] {
      var a := Decoded(sources[0]).value;
      var next := AddSource(basis, sources[0], acc).value;
      AddTypesMakes(basis, a, a.types, acc.bindings);
      AddSourcesMakes(basis, sources[1..], next);
      var r := AddSources(basis, sources, acc).value;
      forall i | 0 <= i < |sources| ensures Decoded(sources[i]).Some? {
        if i > 0 { assert sources[i] == sources[1..][i - 1]; }
      }
      forall key, b, i, j | MadeAt(basis, sources, key, b, i, j) ensures key in r.bindings && r.bindings[key] == b {
        if i > 0 { assert MadeAt(basis, sources[1..], key, b, i - 1, j); }
      }
      forall key | key in r.bindings && key !in acc.bindings ensures Made(basis, sources, key, r.bindings[key]) {
        if key in next.bindings {
          var j :| 0 <= j < |a.types| && key == (a.sourceId, a.types[j].typeId) && r.bindings[key] == BindingOf(basis, a, a.types[j]);
          assert MadeAt(basis, sources, key, r.bindings[key], 0, j);
        } else {
          var i, j :| MadeAt(basis, sources[1..], key, r.bindings[key], i, j);
          assert MadeAt(basis, sources, key, r.bindings[key], i + 1, j);
        }
      }
    }
  }

  lemma BoundSourcesOfBuild(basis: string, r: Release, s: Snapshot)
    requires Build(basis, r) == Some(s)
    ensures BoundSources(s) <= SourceIds(r.sources)
    ensures forall i :: 0 <= i < |r.sources| ==> Decoded(r.sources[i]).Some?
    ensures forall i :: 0 <= i < |r.sources| && Decoded(r.sources[i]).value.types != [] ==>
      r.sources[i].sourceId in BoundSources(s)
    ensures forall id :: id in BoundSources(s) ==>
      exists i :: 0 <= i < |r.sources| && r.sources[i].sourceId == id && Decoded(r.sources[i]).value.types != []
  {
    AddSourcesMakes(basis, r.sources, Snapshot(r.id, map[], map[], r.offers, ZERO_TIME));
    forall i | 0 <= i < |r.sources| && Decoded(r.sources[i]).value.types != []
      ensures r.sources[i].sourceId in BoundSources(s)
    {
      var a := Decoded(r.sources[i]).value;
      assert MadeAt(basis, r.sources, (a.sourceId, a.types[0].typeId), BindingOf(basis, a, a.types[0]), i, 0);
    }
    forall id | id in BoundSources(s)
      ensures exists i :: 0 <= i < |r.sources| && r.sources[i].sourceId == id && Decoded(r.sources[i]).value.types != []
      ensures id in SourceIds(r.sources)
    {
      var key :| key in s.bindings && s.bindings[key].config.sourceId == id;
      var i, j :| MadeAt(basis, r.sources, key, s.bindings[key], i, j);
      assert r.sources[i].sourceId == id;
    }
  }

  /** The release's own rule: no source twice (checked when it is stored). */
  ghost predicate DistinctSources(r: Release) {
    forall i, j :: 0 <= i < j < |r.sources| ==> r.sources[i].sourceId != r.sources[j].sourceId
  }

  ghost predicate EverySourceHasTypes(r: Release) {
    forall i :: 0 <= i < |r.sources| ==> Decoded(r.sources[i]).Some? && Decoded(r.sources[i]).value.types != []
  }

  /** With a state that names exactly the release's sources, the incremental
      refresh of a built snapshot succeeds exactly when every source offers a
      type: a source without one is built, but then refused as unknown. */
  lemma RefreshSucceeds(basis: string, r: Release, s: Snapshot, state: ReleaseState)
    requires Build(basis, r) == Some(s) && DistinctSources(r)
    requires state.releaseId == r.id && ValidLives(state.sources)
    requires LifeOf(state.sources).Keys == SourceIds(r.sources)
    ensures Refreshable(s, state) <==> EverySourceHasTypes(r)
  {
    hide ValidLives;
    BoundSourcesOfBuild(basis, r, s);
    BuildKeepsId(basis, r.sources, Snapshot(r.id, map[], map[], r.offers, ZERO_TIME));
    assert r.sources[0].sourceId in SourceIds(r.sources);
    if EverySourceHasTypes(r) {
      forall id | id in SourceIds(r.sources) ensures id in BoundSources(s) {
        var i :| 0 <= i < |r.sources| && r.sources[i].sourceId == id;
      }
    }
    if Refreshable(s, state) {
      forall i | 0 <= i < |r.sources| ensures Decoded(r.sources[i]).value.types != [] {
        assert r.sources[i].sourceId in SourceIds(r.sources);
      }
    }
  }

  lemma {:induction false} BuildKeepsId(basis: string, sources: seq<Source>, acc: Snapshot)
    requires AddSources(basis, sources, acc).Some?
    ensures AddSources(basis, sources, acc).value.releaseId == acc.releaseId
    decreases sources
  {
    if sources != [] { BuildKeepsId(basis, sources[1..], AddSource(basis, sources[0], acc).value); }
  }

  lemma {:induction false} RetimedIds(sources: seq<Source>, lives: map<string, Life>)
    requires SourceIds(sources) <= lives.Keys
    ensures |Retimed(sources, lives)| == |sources|
    decreases |sources|
  {
    if sources != [] { IdsOfTail(sources); RetimedIds(sources[1..], lives); }
  }

  lemma MinimumUnique(t: Time, u: Time, times: set<Time>)
    requires IsMinimum(t, times) && IsMinimum(u, times)
    ensures t == u
  {}

  /** Incremental equals rebuild: what refreshReleaseRuntimeLifecycle returns
      for a built snapshot (its bindings renewed, its staleUntil the minimum
      over the sources) is what building the release with those times in its
      rows and snapshots returns. */
  lemma {:induction false} IncrementalIsRebuild(basis: string, r: Release, s: Snapshot, lives: map<string, Life>, staleUntil: Time)
    requires Build(basis, r) == Some(s) && lives.Keys == SourceIds(r.sources)
    requires ZERO_TIME !in StaleTimes(lives) && IsMinimum(staleUntil, StaleTimes(lives))
    ensures BoundSources(s) <= lives.Keys
    ensures Build(basis, r.(sources := Retimed(r.sources, lives)))
      == Some(s.(bindings := RenewedBindings(s, lives), staleUntil := staleUntil))
  {
    hide AddSource;
    var start := Snapshot(r.id, map[], map[], r.offers, ZERO_TIME);
    assert RenewedBindings(start, lives) == map[];
    assert Alike(start, start, lives);
    AddSourcesAlike(basis, r.sources, start, start, lives);
    RetimedIds(r.sources, lives);
    StaleFoldIsMinimum(ZERO_TIME, {}, r.sources, lives);
    assert {} + SourceIds(r.sources) == lives.Keys;
    assert r.sources[0].sourceId in SourceIds(r.sources);
    MinimumDone(StaleFold(ZERO_TIME, r.sources, lives), lives);
    MinimumUnique(staleUntil, StaleFold(ZERO_TIME, r.sources, lives), StaleTimes(lives));
  }

  /** The times a source's bindings run on are those of its snapshot. */
  ghost predicate SnapshotHasTimes(s: Source, l: Life) {
    Decoded(s).Some? && Decoded(s).value.freshUntil == l.freshUntil && Decoded(s).value.staleUntil == l.staleUntil
  }

  ghost predicate SnapshotsHaveTimes(r: Release, lives: map<string, Life>) {
    forall i :: 0 <= i < |r.sources| ==>
      r.sources[i].sourceId in lives && SnapshotHasTimes(r.sources[i], lives[r.sources[i].sourceId])
  }

  /** Renewing changes nothing exactly when the snapshots carry the times. */
  lemma RenewalIsIdle(basis: string, r: Release, s: Snapshot, lives: map<string, Life>)
    requires Build(basis, r) == Some(s) && lives.Keys == SourceIds(r.sources)
    requires EverySourceHasTypes(r) && BoundSources(s) <= lives.Keys
    ensures s.bindings == RenewedBindings(s, lives) <==> SnapshotsHaveTimes(r, lives)
  {
    hide AddSources, SourceIds;
    var renewed := RenewedBindings(s, lives);
    BuildMakes(basis, r, s);
    if SnapshotsHaveTimes(r, lives) {
      forall key | key in s.bindings ensures renewed[key] == s.bindings[key] {
        var i, j :| MadeAt(basis, r.sources, key, s.bindings[key], i, j);
        assert SnapshotHasTimes(r.sources[i], lives[r.sources[i].sourceId]);
      }
      assert renewed == s.bindings;
    }
    if s.bindings == renewed {
      forall i | 0 <= i < |r.sources|
        ensures r.sources[i].sourceId in lives && SnapshotHasTimes(r.sources[i], lives[r.sources[i].sourceId])
      {
        IdOfSource(r.sources, i);
        var a := Decoded(r.sources[i]).value;
        var key := (a.sourceId, a.types[0].typeId);
        assert MadeAt(basis, r.sources, key, BindingOf(basis, a, a.types[0]), i, 0);
        assert renewed[key] == s.bindings[key];
      }
    }
  }

  lemma IdOfSource(sources: seq<Source>, i: nat)
    requires i < |sources|
    ensures sources[i].sourceId in SourceIds(sources)
  {}

  lemma BuildMakes(basis: string, r: Release, s: Snapshot)
    requires Build(basis, r) == Some(s)
    ensures forall key, b, i, j :: MadeAt(basis, r.sources, key, b, i, j) ==> key in s.bindings && s.bindings[key] == b
    ensures forall key :: key in s.bindings ==> Made(basis, r.sources, key, s.bindings[key])
  {
    hide MadeAt, Made, AddSource;
    AddSourcesMakes(basis, r.sources, Snapshot(r.id, map[], map[], r.offers, ZERO_TIME));
  }

  /** Where only the rows are replaced, which is what the registry does for a
      release it already holds, a rebuild gives the refreshed bindings exactly
      when the stored snapshots already carry the new times. */
  lemma {:induction false} RowsAreNotEnough(basis: string, r: Release, s: Snapshot, lives: map<string, Life>)
    requires Build(basis, r) == Some(s) && lives.Keys == SourceIds(r.sources)
    requires EverySourceHasTypes(r)
    ensures BoundSources(s) <= lives.Keys
    ensures Build(basis, r.(sources := Rerowed(r.sources, lives))).Some?
    ensures Build(basis, r.(sources := Rerowed(r.sources, lives))).value.bindings == RenewedBindings(s, lives)
      <==> SnapshotsHaveTimes(r, lives)
  {
    hide AddSource, SourceIds, SnapshotsHaveTimes, EverySourceHasTypes, RenewedBindings;
    var start := Snapshot(r.id, map[], map[], r.offers, ZERO_TIME);
    BoundSourcesOfBuild(basis, r, s);
    RerowedBuild(basis, r.sources, start, start, lives);
    RenewalIsIdle(basis, r, s, lives);
  }

  lemma {:induction false} RerowedBuild(basis: string, sources: seq<Source>, x: Snapshot, y: Snapshot, lives: map<string, Life>)
    requires SourceIds(sources) <= lives.Keys
    requires y == x.(staleUntil := y.staleUntil)
    ensures |Rerowed(sources, lives)| == |sources|
    ensures var p, q := AddSources(basis, sources, x), AddSources(basis, Rerowed(sources, lives), y);
      (p.Some? <==> q.Some?) && (p.Some? ==> q.value == p.value.(staleUntil := q.value.staleUntil))
    decreases sources
  {
    hide AddTypes, AddPublications;
    if sources != [] {
      IdsOfTail(sources);
      assert sources[0].sourceId in SourceIds(sources);
      assert Rerowed(sources, lives)[1..] == Rerowed(sources[1..], lives);
      var p, q := AddSource(basis, sources[0], x), AddSource(basis, Rerowed(sources, lives)[0], y);
      if p.Some? {
        RerowedBuild(basis, sources[1..], p.value, q.value, lives);
      } else {
        RerowedBuild(basis, sources[1..], x, y, lives);
      }
    }
  }
}
