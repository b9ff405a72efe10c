/** Candidate activation and refresh in the Source Registry
    (source_registry_backend.go), with the version order and cache policy of
    source_metadata_cache.go: what holds over every run of both operations. */
module Registry {
  import opened Base
  import Decimal

  // ---- compareNumericVersion ----

  function TrimPrefixV(s: string): string {
    if s != "" && s[0] == 'v' then s[1..] else s
  }

  /** strconv.Atoi of one part, refused below zero. */
  function PartValue(part: string): Option<nat> {
    match Decimal.ParseInt(part)
    case Some(n) => if n >= 0 then Some(n) else None
    case None => None
  }

  function ParseParts(parts: seq<string>): (r: Option<seq<nat>>)
    ensures r.Some? ==> |r.value| == |parts|
  {
    if parts == [] then Some([])
    else match (PartValue(parts[0]), ParseParts(parts[1..]))
      case (Some(n), Some(rest)) => Some([n] + rest)
      case _ => None
  }

  function ParseVersion(value: string): Option<seq<nat>> {
    ParseParts(Split(TrimPrefixV(value), '.'))
  }

  function Head(a: seq<nat>): nat { if a == [] then 0 else a[0] }

  function Tail(a: seq<nat>): seq<nat> { if a == [] then [] else a[1..] }

  /** Part by part, a missing part counting as 0. */
  function Compare(a: seq<nat>, b: seq<nat>): (c: int)
    ensures -1 <= c <= 1
    decreases |a| + |b|
  {
    if a == [] && b == [] then 0
    else if Head(a) < Head(b) then -1
    else if Head(a) > Head(b) then 1
    else Compare(Tail(a), Tail(b))
  }

  lemma {:induction false} CompareSelf(a: seq<nat>)
    ensures Compare(a, a) == 0
  {
    if a != [] { CompareSelf(Tail(a)); }
  }

  lemma {:induction false} CompareFlips(a: seq<nat>, b: seq<nat>)
    ensures Compare(a, b) == -Compare(b, a)
    decreases |a| + |b|
  {
    if !(a == [] && b == []) { CompareFlips(Tail(a), Tail(b)); }
  }

  /** The order is transitive, and equality with the far end forces equality
      in between. */
  lemma {:induction false} CompareTransitive(a: seq<nat>, b: seq<nat>, c: seq<nat>)
    requires Compare(a, b) <= 0 && Compare(b, c) <= 0
    ensures Compare(a, c) <= 0
    ensures Compare(a, c) == 0 ==> Compare(a, b) == 0 && Compare(b, c) == 0
    decreases |a| + |b| + |c|
  {
    if a == [] && b == [] && c == [] {
    } else if Head(a) == Head(b) == Head(c) {
      TailStep(a, b);
      TailStep(b, c);
      TailStep(a, c);
      CompareTransitive(Tail(a), Tail(b), Tail(c));
    }
  }

  lemma {:induction false} TailStep(a: seq<nat>, b: seq<nat>)
    requires Head(a) == Head(b)
    ensures Compare(a, b) == Compare(Tail(a), Tail(b))
  {}

  // ---- Versions by their numbers ----

  /** Part i of a version, 0 where it has none. */
  function Part(a: seq<nat>, i: nat): nat { if i < |a| then a[i] else 0 }

  /** At some part the first is lower, and all parts before it are equal. */
  ghost predicate Older(a: seq<nat>, b: seq<nat>) {
    exists i: nat :: Part(a, i) < Part(b, i) && forall j: nat :: j < i ==> Part(a, j) == Part(b, j)
  }

  ghost predicate SameParts(a: seq<nat>, b: seq<nat>) { forall i: nat :: Part(a, i) == Part(b, i) }

  lemma PartBehind(a: seq<nat>, i: nat)
    ensures Part(Tail(a), i) == Part(a, i + 1) && Part(a, 0) == Head(a)
  {}

  lemma {:induction false} OlderBehind(a: seq<nat>, b: seq<nat>)
    requires Head(a) == Head(b)
    ensures Older(a, b) <==> Older(Tail(a), Tail(b))
    ensures SameParts(a, b) <==> SameParts(Tail(a), Tail(b))
  {
    hide Part, Head, Tail;
    var x, y := Tail(a), Tail(b);
    forall i: nat ensures Part(x, i) == Part(a, i + 1) && Part(y, i) == Part(b, i + 1) {
      PartBehind(a, i);
      PartBehind(b, i);
    }
    PartBehind(a, 0);
    PartBehind(b, 0);
    if i: nat :| Part(a, i) < Part(b, i) && forall j: nat :: j < i ==> Part(a, j) == Part(b, j) {
      assert Part(x, i - 1) < Part(y, i - 1);
    }
    if i: nat :| Part(x, i) < Part(y, i) && forall j: nat :: j < i ==> Part(x, j) == Part(y, j) {
      forall j: nat | j < i + 1 ensures Part(a, j) == Part(b, j) {
        if j > 0 { assert Part(x, j - 1) == Part(y, j - 1); }
      }
      assert Part(a, i + 1) < Part(b, i + 1);
    }
    if SameParts(x, y) {
      forall i: nat ensures Part(a, i) == Part(b, i) {
        if i > 0 { assert Part(x, i - 1) == Part(y, i - 1); }
      }
    }
  }

  /** The comparison is the order of the parts, read from the left. */
  lemma {:induction false} CompareExact(a: seq<nat>, b: seq<nat>)
    ensures Compare(a, b) < 0 <==> Older(a, b)
    ensures Compare(a, b) > 0 <==> Older(b, a)
    ensures Compare(a, b) == 0 <==> SameParts(a, b)
    decreases |a| + |b|
  {
    if a == [] && b == [] {
    } else if Head(a) == Head(b) {
      OlderBehind(a, b);
      OlderBehind(b, a);
      CompareExact(Tail(a), Tail(b));
    } else {
      assert Part(a, 0) == Head(a) && Part(b, 0) == Head(b);
    }
  }

  /** The version is these numbers with points between them, behind an optional
      v. */
  ghost predicate IsVersion(text: string, parts: seq<nat>) {
    exists numerals :: Spells(text, numerals) && AreNumerals(numerals, parts)
  }

  ghost predicate Spells(text: string, numerals: seq<string>) {
    && numerals != [] && (forall i :: 0 <= i < |numerals| ==> '.' !in numerals[i])
    && (text == "v" + Join(numerals, ".") || (text == Join(numerals, ".") && !("v" <= text)))
  }

  /** A decimal int, not below zero, with or without a sign. */
  ghost predicate IsNumeral(text: string, n: nat) { Decimal.ReadsAs(text, n) && n <= Decimal.MAX_INT64 }

  ghost predicate AreNumerals(numerals: seq<string>, parts: seq<nat>) {
    |numerals| == |parts| && forall i :: 0 <= i < |parts| ==> IsNumeral(numerals[i], parts[i])
  }

  lemma {:induction false} PartsAre(numerals: seq<string>, parts: seq<nat>)
    ensures ParseParts(numerals) == Some(parts) <==> AreNumerals(numerals, parts)
  {
    hide Decimal.ParseInt, Decimal.ReadsAs;
    if numerals != [] && parts != [] {
      Decimal.ParseIntExact(numerals[0], parts[0]);
      PartsAre(numerals[1..], parts[1..]);
      assert parts == [parts[0]] + parts[1..];
      if AreNumerals(numerals[1..], parts[1..]) && IsNumeral(numerals[0], parts[0]) {
        forall i | 0 <= i < |parts| ensures IsNumeral(numerals[i], parts[i]) {
          if i > 0 { assert IsNumeral(numerals[1..][i - 1], parts[1..][i - 1]); }
        }
      }
    }
  }

  lemma {:induction false} SplitJoined(numerals: seq<string>)
    requires numerals != [] && forall i :: 0 <= i < |numerals| ==> '.' !in numerals[i]
    ensures Split(Join(numerals, "."), '.') == numerals
  {
    var first, rest := numerals[0], numerals[1..];
    if rest == [] {
      CutWithout(first, '.');
      assert numerals == [first];
    } else {
      SplitJoined(rest);
      CutAtFirst(first, '.', Join(rest, "."));
      assert numerals == [first] + rest;
    }
  }

  /** A version parses exactly to the numbers it spells. */
  lemma {:induction false} VersionIs(text: string, parts: seq<nat>)
    ensures ParseVersion(text) == Some(parts) <==> IsVersion(text, parts)
  {
    hide Join, Split, AreNumerals, ParseParts;
    var body := TrimPrefixV(text);
    if ParseVersion(text) == Some(parts) {
      SplitSpells(body, '.');
      PartsAre(Split(body, '.'), parts);
      if body != text { assert text == "v" + body; }
      assert Spells(text, Split(body, '.'));
    }
    if numerals :| Spells(text, numerals) && AreNumerals(numerals, parts) {
      SplitJoined(numerals);
      if text == "v" + Join(numerals, ".") { assert text[1..] == Join(numerals, "."); }
      PartsAre(numerals, parts);
    }
  }

  /** compareNumericVersion: None when either side is not numeric dotted
      notation. */
  function CompareVersions(left: string, right: string): Option<int> {
    match (ParseVersion(left), ParseVersion(right))
    case (Some(a), Some(b)) => Some(Compare(a, b))
    case _ => None
  }

  lemma {:induction false} ComparedByParts(left: string, right: string)
    ensures CompareVersions(left, right).Some? <==> (exists a :: IsVersion(left, a)) && (exists b :: IsVersion(right, b))
    ensures forall a, b :: IsVersion(left, a) && IsVersion(right, b) ==>
      CompareVersions(left, right) == Some(if Older(a, b) then -1 else if Older(b, a) then 1 else 0)
      && (SameParts(a, b) <==> !Older(a, b) && !Older(b, a))
  {
    hide IsVersion, Older, SameParts, ParseVersion;
    forall text, parts ensures ParseVersion(text) == Some(parts) <==> IsVersion(text, parts) { VersionIs(text, parts); }
    forall a, b | IsVersion(left, a) && IsVersion(right, b)
      ensures CompareVersions(left, right) == Some(if Older(a, b) then -1 else if Older(b, a) then 1 else 0)
      ensures SameParts(a, b) <==> !Older(a, b) && !Older(b, a)
    {
      CompareExact(a, b);
    }
    if ParseVersion(left).Some? { assert IsVersion(left, ParseVersion(left).value); }
    if ParseVersion(right).Some? { assert IsVersion(right, ParseVersion(right).value); }
  }

  /** The first i parts are read, and the others decide what comes of it. */
  ghost predicate ReadUpTo(parts: seq<string>, i: nat, done: seq<nat>) {
    && i <= |parts|
    && (ParseParts(parts).None? <==> ParseParts(parts[i..]).None?)
    && (ParseParts(parts).Some? ==> ParseParts(parts).value == done + ParseParts(parts[i..]).value)
  }

  lemma {:induction false} ReadNext(parts: seq<string>, i: nat, done: seq<nat>)
    requires ReadUpTo(parts, i, done) && i < |parts|
    ensures var parsed := Decimal.ParseInt(parts[i]);
      if parsed.None? || parsed.value < 0 then ParseParts(parts).None? else ReadUpTo(parts, i + 1, done + [parsed.value])
  {
    assert parts[i..][1..] == parts[i + 1..] && parts[i..][0] == parts[i];
  }

  lemma {:induction false} ReadEnds(parts: seq<string>, done: seq<nat>)
    ensures ReadUpTo(parts, 0, [])
    ensures ReadUpTo(parts, |parts|, done) ==> ParseParts(parts) == Some(done)
  {
    assert parts[0..] == parts && parts[|parts|..] == [] && done + [] == done;
    assert ParseParts(parts).Some? ==> [] + ParseParts(parts).value == ParseParts(parts).value;
  }

  method ParseNumeric(value: string) returns (r: Option<array<nat>>)
    ensures r.None? <==> ParseVersion(value).None?
    ensures r.Some? ==> fresh(r.value) && r.value[..] == ParseVersion(value).value
  {
    hide ReadUpTo, ParseParts;
    var parts := Split(TrimPrefixV(value), '.');
    var result := new nat[|parts|];
    ReadEnds(parts, []);
    for i := 0 to |parts|
      invariant ReadUpTo(parts, i, result[..i])
    {
      ReadNext(parts, i, result[..i]);
      var parsed := Decimal.ParseInt(parts[i]);
      if parsed.None? || parsed.value < 0 { return None; }
      result[i] := parsed.value;
      assert result[..i + 1] == result[..i] + [result[i]];
    }
    assert result[..] == result[..|parts|];
    ReadEnds(parts, result[..]);
    return Some(result);
  }

  /** The sign says which version is lower, at the first part that differs. */
  method CompareNumericVersion(left: string, right: string) returns (r: Option<int>)
    ensures r == CompareVersions(left, right)
    ensures r.Some? <==> (exists a :: IsVersion(left, a)) && (exists b :: IsVersion(right, b))
    ensures forall a, b :: IsVersion(left, a) && IsVersion(right, b) ==>
      r == Some(if Older(a, b) then -1 else if Older(b, a) then 1 else 0)
  {
    hide IsVersion, Older, ParseVersion;
    ComparedByParts(left, right);
    var a := ParseNumeric(left);
    if a.None? { return None; }
    var b := ParseNumeric(right);
    if b.None? { return None; }
    var c := CompareParts(a.value, b.value);
    return Some(c);
  }

  method CompareParts(a: array<nat>, b: array<nat>) returns (c: int)
    ensures c == Compare(a[..], b[..])
  {
    ghost var x, y := a[..], b[..];
    var length := if a.Length > b.Length then a.Length else b.Length;
    for i := 0 to length
      invariant Compare(x, y) == Compare(Drop(x, i), Drop(y, i))
    {
      hide Drop;
      var av, bv := 0, 0;
      if i < a.Length { av := a[i]; }
      if i < b.Length { bv := b[i]; }
      DropTail(x, i);
      DropTail(y, i);
      if av < bv { return -1; }
      if av > bv { return 1; }
      assert Drop(x, i) != [] || Drop(y, i) != [];
    }
    assert Drop(x, length) == [] && Drop(y, length) == [];
    return 0;
  }

  ghost function Drop(a: seq<nat>, i: nat): seq<nat> {
    if i <= |a| then a[i..] else []
  }

  lemma DropTail(a: seq<nat>, i: nat)
    ensures Drop(a, i + 1) == Tail(Drop(a, i))
    ensures Head(Drop(a, i)) == if i < |a| then a[i] else 0
    ensures i < |a| ==> Drop(a, i) != []
  {}

  // ---- Candidates ----

  /** An instant, in nanoseconds. */
  type Time = int

  const MINUTE := 60_000_000_000
  const MINIMUM_VALIDITY := 60 * MINUTE
  const MAXIMUM_FRESHNESS := 15 * MINUTE
  const STALE_GRACE := 60 * MINUTE

  function MinTime(left: Time, right: Time): Time { if left < right then left else right }

  datatype Lifecycle = Lifecycle(freshUntil: Time, staleUntil: Time, expires: Time)

  predicate Ordered(l: Lifecycle) { l.freshUntil <= l.staleUntil <= l.expires }

  /** What the snapshot of a candidate holds, and what stands beside it. The
      rest of both is one opaque value. */
  datatype Snapshot = Snapshot(compatible: bool, sourceId: string, version: string, digest: string, life: Lifecycle, rest: string)

  datatype Candidate = Candidate(sourceId: string, version: string, digest: string, life: Lifecycle, snapshot: Snapshot)

  /** An activation, as decoded from a snapshot or made of fetched metadata. */
  datatype Activation = Activation(sourceId: string, version: string, digest: string, life: Lifecycle, rest: string)

  /** A fetched and validated source document. */
  datatype Validated = Validated(sourceId: string, version: string, digest: string, expires: Time, at: Time, rest: string)

  /** activationFromValidatedSource: the lifetime Activate gives. */
  function ActivateLife(at: Time, expires: Time): Lifecycle {
    Lifecycle(MinTime(at + MAXIMUM_FRESHNESS, expires),
              MinTime(at + (MAXIMUM_FRESHNESS + STALE_GRACE), expires),
              expires)
  }

  /** RefreshCandidate: the lifetime a not-modified answer gives. */
  function RefreshLife(now: Time, expires: Time): Lifecycle {
    var freshUntil := MinTime(now + MAXIMUM_FRESHNESS, expires);
    Lifecycle(freshUntil, MinTime(freshUntil + STALE_GRACE, expires), expires)
  }

  /** Fresh for 15 minutes and usable for 75, but never beyond the expiry. */
  predicate LivesFrom(l: Lifecycle, now: Time, expires: Time) {
    && l.expires == expires
    && l.freshUntil <= expires && l.freshUntil - now <= 15 * 60 * 1_000_000_000
    && (l.freshUntil == expires || l.freshUntil - now == 15 * 60 * 1_000_000_000)
    && l.staleUntil <= expires && l.staleUntil - now <= 75 * 60 * 1_000_000_000
    && (l.staleUntil == expires || l.staleUntil - now == 75 * 60 * 1_000_000_000)
  }

  /** Both operations compute the same lifetime, that one, and it is always in
      order. */
  lemma SameLifecycle(now: Time, expires: Time)
    ensures ActivateLife(now, expires) == RefreshLife(now, expires)
    ensures forall l :: l == ActivateLife(now, expires) <==> LivesFrom(l, now, expires)
    ensures Ordered(ActivateLife(now, expires))
  {}

  /** registryCandidateFromActivation. */
  function CandidateFrom(a: Activation): Candidate {
    Candidate(a.sourceId, a.version, a.digest, a.life,
              Snapshot(true, a.sourceId, a.version, a.digest, a.life, a.rest))
  }

  /** activationFromRegistryCandidate: reads the snapshot, not the columns. */
  function ActivationFrom(c: Candidate): Option<Activation> {
    var s := c.snapshot;
    if !s.compatible || s.sourceId != c.sourceId then None
    else Some(Activation(s.sourceId, s.version, s.digest, s.life, s.rest))
  }

  type Store = map<string, Candidate>

  /** One call and what its environment decides: whether the certificates and
      the registration are valid and the registry takes the write. */
  datatype Call =
    | Activate(validated: Validated, accepted: bool)
    | Refresh(sourceId: string, registered: string, rest: string, now: Time, accepted: bool)

  /** May the candidate replace what is stored? */
  predicate Admissible(store: Store, c: Candidate) {
    c.sourceId in store ==>
      var order := CompareVersions(c.version, store[c.sourceId].version);
      && order.Some? && order.value >= 0
      && (order.value == 0 ==> store[c.sourceId].digest == c.digest)
  }

  function Put(store: Store, c: Candidate, accepted: bool): Store {
    if accepted && Ordered(c.life) then store[c.sourceId := c] else store
  }

  /** The candidate Refresh would store, None when it refuses. */
  function Refreshed(store: Store, sourceId: string, registered: string, rest: string, now: Time): Option<Candidate> {
    if sourceId !in store then None
    else match ActivationFrom(store[sourceId])
      case None => None
      case Some(a) =>
        if registered != sourceId || a.life.expires - now < MINIMUM_VALIDITY then None
        else Some(CandidateFrom(a.(sourceId := registered, rest := rest, life := RefreshLife(now, a.life.expires))))
  }

  function Activated(v: Validated): Candidate {
    CandidateFrom(Activation(v.sourceId, v.version, v.digest, ActivateLife(v.at, v.expires), v.rest))
  }

  /** The activation may replace what is stored: there is nothing, or both
      versions are numeric and the new one is not below the stored one, nor the
      same one with another payload. */
  ghost predicate MayReplace(store: Store, v: Validated) {
    v.sourceId in store ==>
      var stored := store[v.sourceId];
      exists a, b ::
        IsVersion(v.version, a) && IsVersion(stored.version, b) && !Older(a, b) && (SameParts(a, b) ==> v.digest == stored.digest)
  }

  lemma {:induction false} AdmissibleIff(store: Store, v: Validated)
    ensures Admissible(store, Activated(v)) <==> MayReplace(store, v)
  {
    hide IsVersion, Older, SameParts, CompareVersions;
    if v.sourceId in store {
      var stored := store[v.sourceId];
      ComparedByParts(v.version, stored.version);
      forall a, b | IsVersion(v.version, a) && IsVersion(stored.version, b) ensures !(Older(a, b) && Older(b, a)) {
        CompareExact(a, b);
      }
      if CompareVersions(v.version, stored.version).Some? {
        var a :| IsVersion(v.version, a);
        var b :| IsVersion(stored.version, b);
      }
    }
  }

  /** What is stored can be read and is valid for an hour more. */
  predicate Renewable(store: Store, id: string, now: Time) {
    && id in store && store[id].snapshot.compatible && store[id].snapshot.sourceId == store[id].sourceId
    && store[id].snapshot.life.expires - now >= 60 * 60 * 1_000_000_000
  }

  /** The columns and the snapshot both say this. */
  ghost predicate Says(c: Candidate, sourceId: string, version: string, digest: string, rest: string) {
    && c.sourceId == c.snapshot.sourceId == sourceId && c.version == c.snapshot.version == version
    && c.digest == c.snapshot.digest == digest && c.life == c.snapshot.life && c.snapshot.rest == rest && c.snapshot.compatible
  }

  ghost predicate OnlyAt(before: Store, after: Store, id: string) {
    id in after && forall other :: other != id ==> (other in before <==> other in after) && (other in before ==> before[other] == after[other])
  }

  function After(store: Store, call: Call): Store {
    match call
    case Activate(v, accepted) =>
      if Admissible(store, Activated(v)) then Put(store, Activated(v), accepted) else store
    case Refresh(id, registered, rest, now, accepted) =>
      match Refreshed(store, id, registered, rest, now)
      case None => store
      case Some(c) => Put(store, c, accepted)
  }

  class Backend {
    var registry: Store

    /** Activate: stores the fetched metadata unless that would roll back the
        version or change the payload under one version. */
    method Activate(v: Validated, certificatesOk: bool, accepted: bool) returns (ok: bool)
      modifies this
      ensures registry == After(old(registry), Call.Activate(v, certificatesOk && accepted))
      ensures ok <==> certificatesOk && accepted && MayReplace(old(registry), v)
      ensures !ok ==> registry == old(registry)
      ensures ok ==> OnlyAt(old(registry), registry, v.sourceId)
      ensures ok ==> Says(registry[v.sourceId], v.sourceId, v.version, v.digest, v.rest)
      ensures ok ==> LivesFrom(registry[v.sourceId].life, v.at, v.expires)
    {
      hide CompareVersions, IsVersion, MayReplace, LivesFrom;
      AdmissibleIff(registry, v);
      SameLifecycle(v.at, v.expires);
      var life := Lifecycle(
        MinTime(v.at + MAXIMUM_FRESHNESS, v.expires),
        MinTime(v.at + (MAXIMUM_FRESHNESS + STALE_GRACE), v.expires), v.expires);
      var candidate := CandidateFrom(Activation(v.sourceId, v.version, v.digest, life, v.rest));
      if !certificatesOk { return false; }
      if candidate.sourceId in registry {
        var existing := registry[candidate.sourceId];
        var comparison := CompareNumericVersion(candidate.version, existing.version);
        if comparison.None? { return false; }
        if comparison.value < 0 { return false; }
        if comparison.value == 0 && existing.digest != candidate.digest { return false; }
      }
      ok := PutCandidate(candidate, accepted);
    }

    /** RefreshCandidate: the stored metadata again, with a new lifetime. */
    method RefreshCandidate(id: string, registered: string, rest: string, sourceOk: bool, accepted: bool, now: Time)
      returns (ok: bool)
      modifies this
      ensures registry == After(old(registry), Call.Refresh(id, registered, rest, now, sourceOk && accepted))
      ensures ok <==> sourceOk && accepted && id == registered && Renewable(old(registry), id, now)
      ensures !ok ==> registry == old(registry)
      ensures ok ==> OnlyAt(old(registry), registry, id)
      ensures ok ==> Says(registry[id], id, old(registry)[id].snapshot.version, old(registry)[id].snapshot.digest, rest)
      ensures ok ==> LivesFrom(registry[id].life, now, old(registry)[id].snapshot.life.expires)
    {
      hide LivesFrom;
      if id in registry { SameLifecycle(now, registry[id].snapshot.life.expires); }
      if id !in registry { return false; }
      var loaded := ActivationFrom(registry[id]);
      if loaded.None? { return false; }
      var activation := loaded.value;
      if registered != id { return false; }
      if !sourceOk { return false; }
      if activation.life.expires - now < MINIMUM_VALIDITY { return false; }
      var freshUntil := MinTime(now + MAXIMUM_FRESHNESS, activation.life.expires);
      var staleUntil := MinTime(freshUntil + STALE_GRACE, activation.life.expires);
      activation := activation.(
        sourceId := registered, rest := rest,
        life := activation.life.(freshUntil := freshUntil, staleUntil := staleUntil));
      ok := PutCandidate(CandidateFrom(activation), accepted);
    }

    /** PutCandidate, which refuses a lifetime out of order. */
    method PutCandidate(c: Candidate, accepted: bool) returns (ok: bool)
      modifies this
      ensures registry == Put(old(registry), c, accepted)
      ensures ok <==> accepted && c.life.freshUntil <= c.life.staleUntil <= c.life.expires
    {
      if !accepted || !Ordered(c.life) { return false; }
      registry := registry[c.sourceId := c];
      return true;
    }
  }

  // ---- Whole runs ----

  /** Read as numbers, the second version is not below the first. */
  ghost predicate NoOlder(v: string, w: string) {
    v == w || exists a, b :: IsVersion(v, a) && IsVersion(w, b) && !Older(b, a)
  }

  ghost predicate SameVersion(v: string, w: string) {
    v == w || exists a, b :: IsVersion(v, a) && IsVersion(w, b) && SameParts(a, b)
  }

  /** Both, in terms of the comparison. */
  lemma {:induction false} NoOlderCompared(v: string, w: string)
    ensures NoOlder(v, w) <==> v == w || (CompareVersions(v, w).Some? && CompareVersions(v, w).value <= 0)
    ensures SameVersion(v, w) <==> v == w || CompareVersions(v, w) == Some(0)
  {
    hide IsVersion, Older, SameParts, CompareVersions;
    ComparedByParts(v, w);
    forall a, b | IsVersion(v, a) && IsVersion(w, b) ensures !(Older(a, b) && Older(b, a)) { CompareExact(a, b); }
    if CompareVersions(v, w).Some? {
      var a :| IsVersion(v, a);
      var b :| IsVersion(w, b);
    }
  }

  /** A candidate may follow another: the version does not decrease, and the
      same version, however it is written, carries the same payload. */
  ghost predicate Follows(c: Candidate, d: Candidate) {
    NoOlder(c.version, d.version) && (SameVersion(c.version, d.version) ==> c.digest == d.digest)
  }

  /** Every candidate is stored under its own id, lives in order, and says in
      its columns what its snapshot says. */
  ghost predicate Sound(store: Store) {
    forall id :: id in store ==>
      && store[id].sourceId == id && Ordered(store[id].life)
      && store[id].snapshot.version == store[id].version
      && store[id].snapshot.digest == store[id].digest
  }

  lemma FollowsTransitive(c: Candidate, d: Candidate, e: Candidate)
    requires Follows(c, d) && Follows(d, e)
    ensures Follows(c, e)
  {
    hide ParseVersion, NoOlder, SameVersion;
    NoOlderCompared(c.version, d.version);
    NoOlderCompared(d.version, e.version);
    NoOlderCompared(c.version, e.version);
    if c.version != d.version && d.version != e.version {
      CompareTransitive(ParseVersion(c.version).value, ParseVersion(d.version).value, ParseVersion(e.version).value);
      if c.version == e.version { CompareSelf(ParseVersion(c.version).value); }
    }
  }

  lemma FollowsSelf(c: Candidate)
    ensures Follows(c, c)
  {}

  lemma CallFollows(store: Store, call: Call, id: string)
    requires Sound(store) && id in store
    ensures id in After(store, call) && Follows(store[id], After(store, call)[id])
  {
    hide ParseVersion, NoOlder, SameVersion;
    NoOlderCompared(store[id].version, After(store, call)[id].version);
    if call.Activate? && call.validated.sourceId == id && Admissible(store, Activated(call.validated)) {
      var c := Activated(call.validated);
      CompareFlips(ParseVersion(c.version).value, ParseVersion(store[id].version).value);
      if c.version == store[id].version { CompareSelf(ParseVersion(c.version).value); }
    }
  }

  lemma CallKeepsSound(store: Store, call: Call)
    requires Sound(store)
    ensures Sound(After(store, call))
  {
    hide CompareVersions;
  }

  /** The stores of a run: the empty store at first, or another sound one a
      process finds when it starts, and one call between each two. */
  ghost predicate Run(stores: seq<Store>, calls: seq<Call>) {
    && |stores| == |calls| + 1 && Sound(stores[0])
    && forall i :: 0 <= i < |calls| ==> stores[i + 1] == After(stores[i], calls[i])
  }

  lemma {:induction false} RunSound(stores: seq<Store>, calls: seq<Call>, i: nat)
    requires Run(stores, calls) && i < |stores|
    ensures Sound(stores[i])
  {
    hide After, Sound;
    if i > 0 {
      RunSound(stores, calls, i - 1);
      CallKeepsSound(stores[i - 1], calls[i - 1]);
    }
  }

  /** In every run of Activate and RefreshCandidate, a source once stored
      stays stored; its version never decreases; any two of its candidates
      with equal versions, however written, have the same payload digest; and
      every lifetime satisfies fresh <= stale <= expires. */
  lemma {:induction false} VersionDiscipline(stores: seq<Store>, calls: seq<Call>, i: nat, j: nat, id: string)
    requires Run(stores, calls) && i <= j < |stores| && id in stores[i]
    ensures id in stores[j] && Follows(stores[i][id], stores[j][id])
    ensures Ordered(stores[j][id].life)
    decreases j
  {
    hide After, Follows;
    RunSound(stores, calls, j);
    if i == j {
      FollowsSelf(stores[i][id]);
    } else {
      VersionDiscipline(stores, calls, i, j - 1, id);
      RunSound(stores, calls, j - 1);
      CallFollows(stores[j - 1], calls[j - 1], id);
      FollowsTransitive(stores[i][id], stores[j - 1][id], stores[j][id]);
    }
  }
}
