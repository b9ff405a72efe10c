/** What building a snapshot of a release makes, and when it fails
    (source_release_runtime.go), said of the release alone. */
module ReleaseFacts {
  import opened Base
  import opened Lifecycle

  predicate TypeAt(r: Release, i: int, j: int) {
    0 <= i < |r.sources| && r.sources[i].snapshot.Some? && 0 <= j < |r.sources[i].snapshot.value.types|
  }

  /** Under which key the j-th type of the i-th source is bound. */
  function KeyAt(r: Release, i: int, j: int): BindingKey
    requires TypeAt(r, i, j)
  {
    (r.sources[i].sourceId, r.sources[i].snapshot.value.types[j].typeId)
  }

  predicate PublicationAt(r: Release, i: int, j: int) {
    0 <= i < |r.sources| && 0 <= j < |r.sources[i].typeMetadata|
  }

  predicate PublishesAt(r: Release, i: int, j: int, p: Publication) {
    PublicationAt(r, i, j) && r.sources[i].typeMetadata[j] == Some(p)
  }

  /** Every field of a binding comes from its own place: the base
      configuration, the activation, or the type. */
  predicate Binds(basis: string, a: Activation, t: TypeEntry, b: Binding) {
    var c, m := b.config, b.runtime.metadata;
    && c.basis == basis
    && c.sourceId == a.sourceId && c.oin == a.oin && c.version == a.version && c.access == a.access
    && c.typeId == t.typeId && c.definition == t.definition && c.vct == t.vct && c.vctIntegrity == t.vctIntegrity
    && c.freshUntil == b.runtime.freshUntil == a.freshUntil && c.staleUntil == b.runtime.staleUntil == a.staleUntil
    && b.runtime.config == c
    && m.version == a.version && m.sourceId == a.sourceId && m.oin == a.oin
    && m.typeId == t.typeId && m.definition == t.definition && m.vct == t.vct && m.vctIntegrity == t.vctIntegrity
  }

  // ---- When a release can be built ----

  /** Its snapshot decodes and is its own. */
  predicate Readable(s: Source) { s.snapshot.Some? && s.snapshot.value.sourceId == s.sourceId }

  ghost predicate DistinctTypes(r: Release) {
    forall i, j, m, n :: TypeAt(r, i, j) && TypeAt(r, m, n) && KeyAt(r, i, j) == KeyAt(r, m, n) ==> i == m && j == n
  }

  /** All type metadata is valid, and no two documents share a path. */
  ghost predicate DistinctPaths(r: Release) {
    && (forall i, j :: PublicationAt(r, i, j) ==> r.sources[i].typeMetadata[j].Some?)
    && (forall i, j, m, n, p, q ::
          PublishesAt(r, i, j, p) && PublishesAt(r, m, n, q) && p.path == q.path ==> i == m && j == n)
  }

  ghost predicate Buildable(r: Release) {
    && r.id != "" && r.sources != [] && (forall i :: 0 <= i < |r.sources| ==> Readable(r.sources[i]))
    && DistinctTypes(r) && DistinctPaths(r)
  }

  // ---- What is built ----

  /** Position (i, j) comes before source k, or before its n-th entry. */
  predicate Before(i: int, j: int, k: int, n: int) { i < k || (i == k && j < n) }

  predicate TypeBefore(r: Release, i: int, j: int, k: int, n: int) { TypeAt(r, i, j) && Before(i, j, k, n) }

  predicate PublishedBefore(r: Release, i: int, j: int, p: Publication, k: int, n: int) {
    PublishesAt(r, i, j, p) && Before(i, j, k, n)
  }

  /** No two types before that position have one key. */
  ghost predicate DistinctBefore(r: Release, k: int, n: int) {
    forall i, j, x, y :: TypeBefore(r, i, j, k, n) && TypeBefore(r, x, y, k, n) && KeyAt(r, i, j) == KeyAt(r, x, y) ==> i == x && j == y
  }

  ghost predicate DistinctPathsBefore(r: Release, k: int, n: int) {
    && (forall i, j :: PublicationAt(r, i, j) && Before(i, j, k, n) ==> r.sources[i].typeMetadata[j].Some?)
    && (forall i, j, x, y, p, q ::
          PublishedBefore(r, i, j, p, k, n) && PublishedBefore(r, x, y, q, k, n) && p.path == q.path ==> i == x && j == y)
  }

  /** The bindings of the types before that position, and no others. */
  ghost predicate BindsBefore(basis: string, r: Release, bindings: map<BindingKey, Binding>, k: int, n: int) {
    && (forall i, j :: TypeBefore(r, i, j, k, n) ==>
          && KeyAt(r, i, j) in bindings
          && Binds(basis, r.sources[i].snapshot.value, r.sources[i].snapshot.value.types[j], bindings[KeyAt(r, i, j)]))
    && (forall key :: key in bindings ==> exists i, j :: TypeBefore(r, i, j, k, n) && KeyAt(r, i, j) == key)
  }

  ghost predicate PublishesBefore(r: Release, published: map<string, Publication>, k: int, n: int) {
    && (forall i, j, p :: PublishedBefore(r, i, j, p, k, n) ==> p.path in published && published[p.path] == p)
    && (forall path :: path in published ==> exists i, j, p :: PublishedBefore(r, i, j, p, k, n) && p.path == path)
  }

  /** The release's own offers and type metadata, one binding for each type of
      each source, and the first time one of its rows goes stale. */
  ghost predicate IsBuilt(basis: string, r: Release, s: Snapshot) {
    && s.releaseId == r.id && s.offers == r.offers
    && BindsBefore(basis, r, s.bindings, |r.sources|, 0)
    && PublishesBefore(r, s.typeMetadata, |r.sources|, 0)
    && (ZERO_TIME !in RowTimes(r) ==> IsMinimum(s.staleUntil, RowTimes(r)))
  }

  ghost function RowTimes(r: Release): set<Time> { set i | 0 <= i < |r.sources| :: r.sources[i].life.staleUntil }

  // ---- One source at a time ----

  lemma {:induction false} TypesFrom(basis: string, r: Release, k: nat, n: nat, bindings: map<BindingKey, Binding>)
    requires k < |r.sources| && Readable(r.sources[k]) && n <= |r.sources[k].snapshot.value.types|
    requires BindsBefore(basis, r, bindings, k, n) && DistinctBefore(r, k, n)
    ensures var a := r.sources[k].snapshot.value;
      match AddTypes(basis, a, a.types[n..], bindings)
      case Some(next) => BindsBefore(basis, r, next, k, |a.types|) && DistinctBefore(r, k, |a.types|)
      case None => !DistinctTypes(r)
    decreases |r.sources[k].snapshot.value.types| - n
  {
    hide BindsBefore, DistinctTypes, DistinctBefore;
    var a := r.sources[k].snapshot.value;
    if n < |a.types| {
      assert a.types[n..][0] == a.types[n] && a.types[n..][1..] == a.types[n + 1..];
      OneType(basis, r, k, n, bindings);
      var key := (a.sourceId, a.types[n].typeId);
      if key !in bindings { TypesFrom(basis, r, k, n + 1, bindings[key := BindingOf(basis, a, a.types[n])]); }
    }
  }

  /** The types before a position, and the one there. */
  lemma OneTypeMore(r: Release, i: int, j: int, k: int, n: int)
    ensures TypeBefore(r, i, j, k, n + 1) <==> TypeBefore(r, i, j, k, n) || (TypeAt(r, i, j) && i == k && j == n)
  {}

  lemma {:induction false} OneType(basis: string, r: Release, k: nat, n: nat, bindings: map<BindingKey, Binding>)
    requires k < |r.sources| && Readable(r.sources[k]) && n < |r.sources[k].snapshot.value.types|
    requires BindsBefore(basis, r, bindings, k, n) && DistinctBefore(r, k, n)
    ensures var a := r.sources[k].snapshot.value;
      var key := (a.sourceId, a.types[n].typeId);
      if key in bindings then !DistinctTypes(r)
      else BindsBefore(basis, r, bindings[key := BindingOf(basis, a, a.types[n])], k, n + 1) && DistinctBefore(r, k, n + 1)
  {
    hide Binds, BindingOf;
    var a := r.sources[k].snapshot.value;
    var key := (a.sourceId, a.types[n].typeId);
    assert TypeAt(r, k, n) && KeyAt(r, k, n) == key;
    if key in bindings {
      var i, j :| TypeBefore(r, i, j, k, n) && KeyAt(r, i, j) == key;
      assert !(i == k && j == n);
    } else {
      BindsIt(basis, a, a.types[n]);
      forall i, j ensures TypeBefore(r, i, j, k, n + 1) <==> TypeBefore(r, i, j, k, n) || (TypeAt(r, i, j) && i == k && j == n) {
        OneTypeMore(r, i, j, k, n);
      }
      hide TypeBefore;
      var next := bindings[key := BindingOf(basis, a, a.types[n])];
      assert TypeBefore(r, k, n, k, n + 1);
    }
  }

  lemma BindsIt(basis: string, a: Activation, t: TypeEntry)
    ensures Binds(basis, a, t, BindingOf(basis, a, t))
  {}

  lemma {:induction false} PublicationsFrom(r: Release, k: nat, n: nat, published: map<string, Publication>)
    requires k < |r.sources| && n <= |r.sources[k].typeMetadata|
    requires PublishesBefore(r, published, k, n) && DistinctPathsBefore(r, k, n)
    ensures match AddPublications(r.sources[k].typeMetadata[n..], published)
      case Some(next) =>
        PublishesBefore(r, next, k, |r.sources[k].typeMetadata|) && DistinctPathsBefore(r, k, |r.sources[k].typeMetadata|)
      case None => !DistinctPaths(r)
    decreases |r.sources[k].typeMetadata| - n
  {
    hide PublishesBefore, DistinctPaths, DistinctPathsBefore;
    var pubs := r.sources[k].typeMetadata;
    if n < |pubs| {
      assert pubs[n..][0] == pubs[n] && pubs[n..][1..] == pubs[n + 1..];
      OnePublication(r, k, n, published);
      if pubs[n].Some? && pubs[n].value.path !in published {
        PublicationsFrom(r, k, n + 1, published[pubs[n].value.path := pubs[n].value]);
      }
    }
  }

  lemma OnePublicationMore(r: Release, i: int, j: int, p: Publication, k: int, n: int)
    ensures PublishedBefore(r, i, j, p, k, n + 1) <==>
      PublishedBefore(r, i, j, p, k, n) || (PublishesAt(r, i, j, p) && i == k && j == n)
  {}

  lemma {:induction false} OnePublication(r: Release, k: nat, n: nat, published: map<string, Publication>)
    requires k < |r.sources| && n < |r.sources[k].typeMetadata|
    requires PublishesBefore(r, published, k, n) && DistinctPathsBefore(r, k, n)
    ensures var pub := r.sources[k].typeMetadata[n];
      if pub.None? || pub.value.path in published then !DistinctPaths(r)
      else PublishesBefore(r, published[pub.value.path := pub.value], k, n + 1) && DistinctPathsBefore(r, k, n + 1)
  {
    var pub := r.sources[k].typeMetadata[n];
    assert PublicationAt(r, k, n);
    if pub.Some? {
      assert PublishesAt(r, k, n, pub.value);
      if pub.value.path in published {
        var i, j, p :| PublishedBefore(r, i, j, p, k, n) && p.path == pub.value.path;
        assert !(i == k && j == n);
      } else {
        forall i, j, p
          ensures PublishedBefore(r, i, j, p, k, n + 1) <==>
            PublishedBefore(r, i, j, p, k, n) || (PublishesAt(r, i, j, p) && i == k && j == n)
          ensures PublishesAt(r, i, j, p) && i == k && j == n ==> p == pub.value
        {
          OnePublicationMore(r, i, j, p, k, n);
        }
        OneValid(r, k, n);
        hide PublishedBefore, PublishesAt, PublicationAt;
        assert PublishedBefore(r, k, n, pub.value, k, n + 1);
        OnePathMore(r, k, n, n + 1, published, pub.value);
      }
    }
  }

  lemma OneValid(r: Release, k: nat, n: nat)
    requires k < |r.sources| && n < |r.sources[k].typeMetadata| && r.sources[k].typeMetadata[n].Some?
    requires forall i, j :: PublicationAt(r, i, j) && Before(i, j, k, n) ==> r.sources[i].typeMetadata[j].Some?
    ensures forall i, j :: PublicationAt(r, i, j) && Before(i, j, k, n + 1) ==> r.sources[i].typeMetadata[j].Some?
  {}

  lemma {:induction false} OnePathMore(r: Release, k: nat, n: nat, m: nat, published: map<string, Publication>, pub: Publication)
    requires PublishesBefore(r, published, k, n) && DistinctPathsBefore(r, k, n) && pub.path !in published
    requires forall i, j :: PublicationAt(r, i, j) && Before(i, j, k, m) ==> r.sources[i].typeMetadata[j].Some?
    requires forall i, j, p :: PublishedBefore(r, i, j, p, k, m) ==> PublishedBefore(r, i, j, p, k, n) || (i == k && j == n && p == pub)
    requires forall i, j, p :: PublishedBefore(r, i, j, p, k, n) ==> PublishedBefore(r, i, j, p, k, m)
    requires PublishedBefore(r, k, n, pub, k, m)
    ensures PublishesBefore(r, published[pub.path := pub], k, m) && DistinctPathsBefore(r, k, m)
  {
    hide PublishedBefore, PublicationAt, Before;
    var next := published[pub.path := pub];
    forall path | path in next ensures exists i, j, p :: PublishedBefore(r, i, j, p, k, m) && p.path == path {
      if path in published {
        var i, j, p :| PublishedBefore(r, i, j, p, k, n) && p.path == path;
        assert PublishedBefore(r, i, j, p, k, m);
      }
    }
  }

  // ---- All sources ----

  /** Before the k-th source, and behind the last entry of the one before it,
      is the same. */
  lemma {:induction false} NextTypes(basis: string, r: Release, k: nat, bindings: map<BindingKey, Binding>)
    requires k < |r.sources| && r.sources[k].snapshot.Some?
    requires BindsBefore(basis, r, bindings, k, |r.sources[k].snapshot.value.types|)
    requires DistinctBefore(r, k, |r.sources[k].snapshot.value.types|)
    ensures BindsBefore(basis, r, bindings, k + 1, 0) && DistinctBefore(r, k + 1, 0)
  {
    hide Binds;
    var types := |r.sources[k].snapshot.value.types|;
    var next := k + 1;
    forall i, j ensures TypeBefore(r, i, j, next, 0) <==> TypeBefore(r, i, j, k, types) {}
    hide TypeBefore;
    assert BindsBefore(basis, r, bindings, next, 0) && DistinctBefore(r, next, 0);
  }

  lemma {:induction false} NextPublications(r: Release, k: nat, published: map<string, Publication>)
    requires k < |r.sources|
    requires PublishesBefore(r, published, k, |r.sources[k].typeMetadata|)
    requires DistinctPathsBefore(r, k, |r.sources[k].typeMetadata|)
    ensures PublishesBefore(r, published, k + 1, 0) && DistinctPathsBefore(r, k + 1, 0)
  {
    var pubs := |r.sources[k].typeMetadata|;
    var next := k + 1;
    forall i, j, p ensures PublishedBefore(r, i, j, p, next, 0) <==> PublishedBefore(r, i, j, p, k, pubs) {}
    forall i, j | PublicationAt(r, i, j) ensures Before(i, j, next, 0) <==> Before(i, j, k, pubs) {}
    hide PublishedBefore, PublicationAt, Before;
    assert PublishesBefore(r, published, next, 0) && DistinctPathsBefore(r, next, 0);
  }

  /** What the rounds before the k-th leave behind. */
  ghost predicate BuiltBefore(basis: string, r: Release, k: nat, acc: Snapshot) {
    && k <= |r.sources| && acc.releaseId == r.id && acc.offers == r.offers
    && BindsBefore(basis, r, acc.bindings, k, 0) && PublishesBefore(r, acc.typeMetadata, k, 0)
    && (forall i :: 0 <= i < k ==> Readable(r.sources[i])) && DistinctBefore(r, k, 0) && DistinctPathsBefore(r, k, 0)
    && (ZERO_TIME !in RowTimes(r) ==> EarliestBefore(r, k, acc.staleUntil))
  }

  ghost predicate EarliestBefore(r: Release, k: nat, t: Time) {
    && k <= |r.sources| && (k == 0 <==> t == ZERO_TIME)
    && (k > 0 ==> exists i :: 0 <= i < k && r.sources[i].life.staleUntil == t)
    && (forall i :: 0 <= i < k ==> t <= r.sources[i].life.staleUntil)
  }

  lemma {:induction false} EarlierBefore(r: Release, k: nat, t: Time)
    requires ZERO_TIME !in RowTimes(r) && EarliestBefore(r, k, t) && k < |r.sources|
    ensures EarliestBefore(r, k + 1, Earlier(t, r.sources[k].life.staleUntil))
  {
    assert r.sources[k].life.staleUntil in RowTimes(r);
  }

  lemma {:induction false} OneSource(basis: string, r: Release, k: nat, acc: Snapshot)
    requires k < |r.sources| && BuiltBefore(basis, r, k, acc)
    ensures match AddSource(basis, r.sources[k], acc)
      case Some(next) => BuiltBefore(basis, r, k + 1, next)
      case None => !Readable(r.sources[k]) || !DistinctTypes(r) || !DistinctPaths(r)
  {
    hide BindsBefore, PublishesBefore, DistinctBefore, DistinctPathsBefore, DistinctTypes, DistinctPaths, AddTypes, AddPublications, EarliestBefore, Earlier, RowTimes;
    var s := r.sources[k];
    if Readable(s) {
      var a := s.snapshot.value;
      assert a.types[0..] == a.types && s.typeMetadata[0..] == s.typeMetadata;
      TypesFrom(basis, r, k, 0, acc.bindings);
      PublicationsFrom(r, k, 0, acc.typeMetadata);
      var next := AddSource(basis, s, acc);
      if next.Some? {
        NextTypes(basis, r, k, next.value.bindings);
        NextPublications(r, k, next.value.typeMetadata);
        if ZERO_TIME !in RowTimes(r) { EarlierBefore(r, k, acc.staleUntil); }
      }
    }
  }

  lemma {:induction false} SourcesFrom(basis: string, r: Release, k: nat, acc: Snapshot)
    requires BuiltBefore(basis, r, k, acc)
    ensures match AddSources(basis, r.sources[k..], acc)
      case Some(s) => BuiltBefore(basis, r, |r.sources|, s)
      case None => (exists i :: 0 <= i < |r.sources| && !Readable(r.sources[i])) || !DistinctTypes(r) || !DistinctPaths(r)
    decreases |r.sources| - k
  {
    hide BuiltBefore, AddSource, DistinctTypes, DistinctPaths;
    BeforeEnd(basis, r, k, acc);
    if k < |r.sources| {
      assert r.sources[k..][0] == r.sources[k] && r.sources[k..][1..] == r.sources[k + 1..];
      OneSource(basis, r, k, acc);
      var next := AddSource(basis, r.sources[k], acc);
      if next.Some? { SourcesFrom(basis, r, k + 1, next.value); }
    }
  }

  lemma BeforeEnd(basis: string, r: Release, k: nat, acc: Snapshot)
    requires BuiltBefore(basis, r, k, acc)
    ensures k <= |r.sources|
  {}

  lemma {:induction false} AllBefore(r: Release)
    ensures DistinctBefore(r, |r.sources|, 0) <==> DistinctTypes(r)
    ensures DistinctPathsBefore(r, |r.sources|, 0) <==> DistinctPaths(r)
  {
    forall i, j | TypeAt(r, i, j) || PublicationAt(r, i, j) ensures Before(i, j, |r.sources|, 0) {}
    forall i, j ensures TypeBefore(r, i, j, |r.sources|, 0) <==> TypeAt(r, i, j) {}
    forall i, j, p ensures PublishedBefore(r, i, j, p, |r.sources|, 0) <==> PublishesAt(r, i, j, p) {}
    hide TypeBefore, PublishedBefore, PublishesAt, TypeAt, PublicationAt, Before;
  }

  /** A release is built exactly when it has an id and sources, all of them
      readable, and no type or type metadata path twice; and what is built is
      its own. */
  lemma {:induction false} BuildExact(basis: string, r: Release)
    ensures Build(basis, r).Some? <==> Buildable(r)
    ensures Build(basis, r).Some? ==> IsBuilt(basis, r, Build(basis, r).value)
  {
    hide AddSource, DistinctTypes, DistinctPaths, DistinctBefore, DistinctPathsBefore, TypeAt, PublishesAt, Binds;
    var start := Snapshot(r.id, map[], map[], r.offers, ZERO_TIME);
    NothingBuilt(basis, r, start);
    AllBefore(r);
    assert r.sources[0..] == r.sources;
    if r.id != "" && r.sources != [] {
      SourcesFrom(basis, r, 0, start);
      var built := AddSources(basis, r.sources, start);
      if built.Some? && ZERO_TIME !in RowTimes(r) { EarliestIsMinimum(r, built.value.staleUntil); }
    }
  }

  lemma NothingBuilt(basis: string, r: Release, start: Snapshot)
    requires start == Snapshot(r.id, map[], map[], r.offers, ZERO_TIME)
    ensures BuiltBefore(basis, r, 0, start)
  {
    forall i, j | TypeAt(r, i, j) || PublicationAt(r, i, j) ensures !Before(i, j, 0, 0) {}
  }

  lemma EarliestIsMinimum(r: Release, t: Time)
    requires r.sources != [] && EarliestBefore(r, |r.sources|, t)
    ensures IsMinimum(t, RowTimes(r))
  {}
}
