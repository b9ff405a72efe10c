/** The LDV chain reader of dev-portal-backend/ldv.go: which logbooks a reader
    reaches by following dpl.read.nextLogbookId, and how. */
module Chain {
  import opened Base

  datatype Logbook = Logbook(id: string, name: string, start: bool)

  /** A record as far as the reader looks: its pointer, when it has one. */
  datatype Record = Record(next: Option<string>)

  /** One logbook's answer. A logbook that could not be read answers with an
      error and no records; one that could may name itself. */
  datatype Answer = Answer(error: string, records: seq<Record>, selfId: string, selfName: string)

  datatype Via = Start | Pointer | Without

  datatype Result = Result(logbook: Logbook, records: seq<Record>, error: string, via: Via, from: string)

  datatype Hop = Hop(logbook: Logbook, via: Via, from: string)

  const NO_ADDRESS := "no read API configured for this logbook"

  /** The configuration and what every logbook in it answers for the trace. */
  datatype World = World(logbooks: seq<Logbook>, answer: string -> Answer) {
    ghost predicate Valid() {
      forall i, j :: 0 <= i < j < |logbooks| ==> logbooks[i].id != logbooks[j].id
    }

    ghost predicate Configured(id: string) {
      exists i :: 0 <= i < |logbooks| && logbooks[i].id == id
    }

    ghost predicate IsStart(id: string) {
      exists i :: 0 <= i < |logbooks| && logbooks[i].id == id && logbooks[i].start
    }

    ghost function Ids(): set<string> {
      set i | 0 <= i < |logbooks| :: logbooks[i].id
    }

    /** The configured logbook from holds a record pointing at to. */
    ghost predicate Points(from: string, to: string) {
      Configured(from) && to in NextIds(answer(from).records)
    }

    /** A walk from a start logbook along the pointers. */
    ghost predicate Walk(path: seq<string>) {
      && path != [] && IsStart(path[0])
      && forall i :: 0 < i < |path| ==> Points(path[i - 1], path[i])
    }

    ghost predicate Reachable(id: string) {
      exists path :: Walk(path) && path[|path| - 1] == id
    }
  }

  /** unicode.IsSpace */
  predicate Space(c: char) {
    || c in " \t\n\r" || c as int in {0x0b, 0x0c, 0x85, 0xa0, 0x1680, 0x2028, 0x2029, 0x202f, 0x205f, 0x3000}
    || 0x2000 <= c as int <= 0x200a
  }

  function TrimSpace(s: string): string {
    if s != "" && Space(s[0]) then TrimSpace(s[1..])
    else if s != "" && Space(s[|s| - 1]) then TrimSpace(s[..|s| - 1])
    else s
  }

  ghost predicate AllSpace(s: string) { forall i :: 0 <= i < |s| ==> Space(s[i]) }

  /** The text between the spaces at its ends. */
  ghost predicate IsTrimmed(s: string, t: string) {
    && (exists before, after :: AllSpace(before) && AllSpace(after) && Stands(s, before, t, after))
    && (t != "" ==> !Space(t[0]) && !Space(t[|t| - 1]))
  }

  ghost predicate Stands(s: string, before: string, t: string, after: string) { s == before + t + after }

  lemma {:induction false} SpaceBefore(s: string, t: string)
    requires s != "" && Space(s[0]) && IsTrimmed(s[1..], t)
    ensures IsTrimmed(s, t)
  {
    hide Space;
    var before, after :| AllSpace(before) && AllSpace(after) && Stands(s[1..], before, t, after);
    assert s == [s[0]] + s[1..];
    assert Stands(s, [s[0]] + before, t, after);
  }

  lemma {:induction false} SpaceBehind(s: string, t: string)
    requires s != "" && Space(s[|s| - 1]) && IsTrimmed(s[..|s| - 1], t)
    ensures IsTrimmed(s, t)
  {
    hide Space;
    var before, after :| AllSpace(before) && AllSpace(after) && Stands(s[..|s| - 1], before, t, after);
    assert s == s[..|s| - 1] + [s[|s| - 1]];
    assert Stands(s, before, t, after + [s[|s| - 1]]);
  }

  /** TrimSpace takes the spaces at both ends and nothing else. */
  lemma {:induction false} TrimSpaceExact(s: string)
    ensures IsTrimmed(s, TrimSpace(s))
    decreases |s|
  {
    hide Space, IsTrimmed;
    var t := TrimSpace(s);
    if s != "" && Space(s[0]) {
      TrimSpaceExact(s[1..]);
      SpaceBefore(s, t);
    } else if s != "" && Space(s[|s| - 1]) {
      TrimSpaceExact(s[..|s| - 1]);
      SpaceBehind(s, t);
    } else {
      NothingToTrim(s);
    }
  }

  lemma {:induction false} NothingToTrim(s: string)
    requires s != "" ==> !Space(s[0]) && !Space(s[|s| - 1])
    ensures IsTrimmed(s, s)
  {
    assert AllSpace("") && Stands(s, "", s, "");
  }

  function PointerOf(r: Record): string {
    if r.next.Some? then TrimSpace(r.next.value) else ""
  }

  /** What a record points to is its next, trimmed; nothing if there is none. */
  lemma {:induction false} PointerExact(r: Record)
    ensures if r.next.Some? then IsTrimmed(r.next.value, PointerOf(r)) else PointerOf(r) == ""
  {
    if r.next.Some? { TrimSpaceExact(r.next.value); }
  }

  ghost function NextIds(records: seq<Record>): set<string> {
    set i | 0 <= i < |records| && PointerOf(records[i]) != "" :: PointerOf(records[i])
  }

  /** The first record with that pointer. */
  function FirstAt(records: seq<Record>, id: string): (n: nat)
    ensures n <= |records| && (forall i :: 0 <= i < n ==> PointerOf(records[i]) != id)
    ensures n < |records| ==> PointerOf(records[n]) == id
  {
    if records == [] || PointerOf(records[0]) == id then 0
    else
      var n := FirstAt(records[1..], id);
      assert forall i :: 1 <= i < |records| ==> records[i] == records[1..][i - 1];
      n + 1
  }

  /** nextLogbookIDs: every pointer in the records, each once, in order of first
      appearance. */
  method NextLogbookIds(records: seq<Record>) returns (ids: seq<string>)
    ensures (set id | id in ids) == NextIds(records)
    ensures forall i, j :: 0 <= i < j < |ids| ==> FirstAt(records, ids[i]) < FirstAt(records, ids[j])
  {
    hide FirstAt, PointerOf, NextIds;
    NoIds(records);
    var seen: set<string> := {};
    ids := [];
    for n := 0 to |records|
      invariant seen == (set id | id in ids) == NextIds(records[..n])
      invariant forall i :: 0 <= i < |ids| ==> FirstAt(records, ids[i]) < n
      invariant forall i, j :: 0 <= i < j < |ids| ==> FirstAt(records, ids[i]) < FirstAt(records, ids[j])
    {
      var id := PointerOf(records[n]);
      NextIdsStep(records, n);
      if id != "" && id !in seen { NewAt(records, n); }
      if id != "" && id !in seen {
        seen := seen + {id};
        ids := ids + [id];
      }
    }
    assert records[..|records|] == records;
  }

  lemma NoIds(records: seq<Record>)
    ensures NextIds(records[..0]) == {}
  {}

  lemma {:induction false} NewAt(records: seq<Record>, n: nat)
    requires n < |records| && PointerOf(records[n]) != "" && PointerOf(records[n]) !in NextIds(records[..n])
    ensures FirstAt(records, PointerOf(records[n])) == n
  {
    forall i | 0 <= i < n ensures PointerOf(records[i]) != PointerOf(records[n]) { assert records[..n][i] == records[i]; }
  }

  lemma NextIdsStep(records: seq<Record>, n: nat)
    requires n < |records|
    ensures NextIds(records[..n + 1])
      == NextIds(records[..n]) + (if PointerOf(records[n]) != "" then {PointerOf(records[n])} else {})
  {
    var a, b := records[..n + 1], records[..n];
    assert forall i :: 0 <= i < n ==> a[i] == b[i];
    assert a[n] == records[n];
    forall id | id in NextIds(a) ensures id in NextIds(b) || id == PointerOf(records[n]) {
      var i :| 0 <= i < |a| && PointerOf(a[i]) != "" && PointerOf(a[i]) == id;
      if i < n { assert b[i] == a[i]; }
    }
    forall id | id in NextIds(b) ensures id in NextIds(a) {
      var i :| 0 <= i < |b| && PointerOf(b[i]) != "" && PointerOf(b[i]) == id;
      assert a[i] == b[i];
    }
  }

  // ---- What the reader shows ----

  /** fetch: the logbook's answer under its own name, where it gives one. */
  function Fetch(w: World, l: Logbook): Result {
    var a := w.answer(l.id);
    var shown := l.(name := if a.selfName != "" then a.selfName else l.name,
                    id := if a.selfId != "" then a.selfId else l.id);
    Result(shown, a.records, a.error, Without, "")
  }

  /** The k-th result reports the logbook asked, and reports how it was
      reached: at a start, through the record of an earlier result, or not. */
  ghost predicate Explained(w: World, results: seq<Result>, asked: seq<string>, k: nat)
    requires k < |results| == |asked|
  {
    var r := results[k];
    && ShownAs(w, r, asked[k])
    && match r.via
       case Start => w.IsStart(asked[k])
       case Pointer =>
         && !w.IsStart(asked[k])
         && (exists j :: 0 <= j < k && asked[j] == r.from && w.Points(r.from, asked[k]))
       case Without => w.Configured(asked[k])
  }

  /** A configured logbook is shown with its own answer, records and error
      alike, and by the id and name it gives itself, or else is configured
      under; any other is shown without an address, so a reader knows that the
      chain goes on. */
  ghost predicate ShownAs(w: World, r: Result, id: string) {
    if w.Configured(id) then
      var a := w.answer(id);
      && r.records == a.records && r.error == a.error
      && (if a.selfId == "" then r.logbook.id == id else r.logbook.id == a.selfId)
      && (exists i :: 0 <= i < |w.logbooks| && w.logbooks[i].id == id && NamedAs(r.logbook, a, w.logbooks[i]))
    else
      r == Result(Logbook(id, id, false), [], NO_ADDRESS, Pointer, r.from)
  }

  predicate NamedAs(shown: Logbook, a: Answer, l: Logbook) {
    (if a.selfName == "" then shown.name == l.name else shown.name == a.selfName) && shown.start == l.start
  }

  ghost function QueueIds(queue: seq<Hop>): seq<string> {
    seq(|queue|, i requires 0 <= i < |queue| => queue[i].logbook.id)
  }

  ghost function Elems(s: seq<string>): set<string> {
    set x | x in s
  }

  /** What the worklist loop keeps: everything visited has been asked or waits
      in the queue, once, and is reachable; what waits says how it got there. */
  ghost predicate Inv(w: World, visited: set<string>, queue: seq<Hop>, results: seq<Result>, asked: seq<string>) {
    && Once(visited, queue, asked)
    && Reached(w, visited)
    && Told(w, results, asked)
    && Waits(w, queue, asked)
  }

  ghost predicate Once(visited: set<string>, queue: seq<Hop>, asked: seq<string>) {
    && NoRepeats(asked + QueueIds(queue))
    && visited == Elems(asked) + Elems(QueueIds(queue))
  }

  ghost predicate Reached(w: World, visited: set<string>) {
    && (forall id :: id in visited ==> w.Reachable(id))
    && (forall i :: 0 <= i < |w.logbooks| && w.logbooks[i].start ==> w.logbooks[i].id in visited)
  }

  ghost predicate Told(w: World, results: seq<Result>, asked: seq<string>) {
    && |results| == |asked|
    && (forall k :: 0 <= k < |results| ==> !results[k].via.Without? && Explained(w, results, asked, k))
  }

  ghost predicate Waits(w: World, queue: seq<Hop>, asked: seq<string>) {
    forall q :: 0 <= q < |queue| ==> Waiting(w, queue[q], asked)
  }

  ghost predicate Waiting(w: World, hop: Hop, asked: seq<string>) {
    && hop.logbook in w.logbooks
    && match hop.via
       case Start => w.IsStart(hop.logbook.id)
       case Pointer => !w.IsStart(hop.logbook.id) && hop.from in asked && w.Points(hop.from, hop.logbook.id)
       case Without => false
  }

  /** Everything the configured logbooks asked point at has been visited,
      save perhaps what the last one points at beyond done. */
  ghost predicate Followed(w: World, visited: set<string>, asked: seq<string>, current: string, done: set<string>) {
    forall p, to :: p in asked && w.Points(p, to) && (p == current ==> to in done) ==> to in visited
  }

  lemma ReachedStart(w: World, id: string)
    requires w.IsStart(id)
    ensures w.Reachable(id)
  {
    assert w.Walk([id]);
  }

  lemma ReachedByPointer(w: World, from: string, to: string)
    requires w.Reachable(from) && w.Points(from, to)
    ensures w.Reachable(to)
  {
    var path :| w.Walk(path) && path[|path| - 1] == from;
    assert w.Walk(path + [to]);
  }

  /** Once every pointer followed leads to what was visited, every walk from a
      start stays inside it. */
  lemma {:induction false} WalkStaysInside(w: World, visited: set<string>, asked: seq<string>, path: seq<string>)
    requires w.Walk(path) && visited == Elems(asked)
    requires forall i :: 0 <= i < |w.logbooks| && w.logbooks[i].start ==> w.logbooks[i].id in visited
    requires Closed(w, visited, asked)
    ensures path[|path| - 1] in visited
    decreases |path|
  {
    if |path| > 1 {
      var init := path[..|path| - 1];
      assert w.Walk(init);
      WalkStaysInside(w, visited, asked, init);
      assert w.Points(path[|path| - 2], path[|path| - 1]);
    }
  }

  lemma ExplainedLater(w: World, results: seq<Result>, asked: seq<string>, r: Result, id: string)
    requires |results| == |asked|
    requires forall k :: 0 <= k < |results| ==> Explained(w, results, asked, k)
    ensures forall k :: 0 <= k < |results| ==> Explained(w, results + [r], asked + [id], k)
  {
    forall k | 0 <= k < |results| ensures Explained(w, results + [r], asked + [id], k) {
      assert Explained(w, results, asked, k);
      assert (results + [r])[k] == results[k] && (asked + [id])[k] == asked[k];
      if results[k].via.Pointer? {
        var j :| 0 <= j < k && asked[j] == results[k].from && w.Points(results[k].from, asked[k]);
        assert (asked + [id])[j] == asked[j];
      }
    }
  }

  /** One more result leaves the earlier ones explained. */
  lemma ToldLater(w: World, results: seq<Result>, asked: seq<string>, r: Result, id: string)
    requires Told(w, results, asked) && !r.via.Without? && ShownAs(w, r, id)
    requires r.via.Start? ==> w.IsStart(id)
    requires r.via.Pointer? ==> !w.IsStart(id) && r.from in asked && w.Points(r.from, id)
    ensures Told(w, results + [r], asked + [id])
  {
    hide ShownAs, World.IsStart, World.Points;
    ExplainedLater(w, results, asked, r, id);
    if r.via.Pointer? {
      var j :| 0 <= j < |asked| && asked[j] == r.from;
      assert (asked + [id])[j] == r.from;
    }
    assert Explained(w, results + [r], asked + [id], |results|);
  }

  lemma WaitsLater(w: World, queue: seq<Hop>, asked: seq<string>, id: string)
    requires Waits(w, queue, asked)
    ensures Waits(w, queue, asked + [id])
  {
    hide World.IsStart, World.Points;
    forall q | 0 <= q < |queue| ensures Waiting(w, queue[q], asked + [id]) {
      assert Waiting(w, queue[q], asked);
    }
  }

  lemma PopKeepsInv(w: World, visited: set<string>, queue: seq<Hop>, results: seq<Result>, asked: seq<string>)
    requires Inv(w, visited, queue, results, asked) && queue != []
    ensures var c := queue[0];
      var r := Fetch(w, c.logbook).(via := c.via, from := c.from);
      && Inv(w, visited, queue[1..], results + [r], asked + [c.logbook.id])
      && w.Configured(c.logbook.id) && c.logbook.id !in asked
  {
    hide Reached, Told, World.IsStart, World.Points, Explained;
    var c := queue[0];
    var id := c.logbook.id;
    var r := Fetch(w, c.logbook).(via := c.via, from := c.from);
    PopOnce(visited, queue, asked);
    assert Waiting(w, c, asked);
    var i :| 0 <= i < |w.logbooks| && w.logbooks[i] == c.logbook;
    assert w.Configured(id) && ShownAs(w, r, id);
    ToldLater(w, results, asked, r, id);
    assert Waits(w, queue[1..], asked);
    WaitsLater(w, queue[1..], asked, id);
  }

  lemma PopOnce(visited: set<string>, queue: seq<Hop>, asked: seq<string>)
    requires Once(visited, queue, asked) && queue != []
    ensures var id := queue[0].logbook.id; Once(visited, queue[1..], asked + [id]) && id !in asked
  {
    var id := queue[0].logbook.id;
    var ids, tail := QueueIds(queue), QueueIds(queue[1..]);
    assert ids == [id] + tail;
    assert asked + ids == (asked + [id]) + tail;
    ElemsOfAll(asked, id, tail);
    assert (asked + ids)[|asked|] == id;
    assert forall j :: 0 <= j < |asked| ==> (asked + ids)[j] == asked[j];
  }

  lemma ElemsOfAll(a: seq<string>, id: string, b: seq<string>)
    ensures Elems(a + [id]) == Elems(a) + {id}
    ensures Elems([id] + b) == {id} + Elems(b)
    ensures Elems(b + [id]) == Elems(b) + {id}
  {}

  lemma PushKeepsInv(w: World, visited: set<string>, queue: seq<Hop>, results: seq<Result>, asked: seq<string>, hop: Hop)
    requires Inv(w, visited, queue, results, asked)
    requires hop.logbook in w.logbooks && hop.logbook.id !in visited
    requires hop.via.Pointer? && hop.from in asked && w.Points(hop.from, hop.logbook.id)
    ensures Inv(w, visited + {hop.logbook.id}, queue + [hop], results, asked)
  {
    hide Told, World.Points, World.Reachable;
    var id := hop.logbook.id;
    ReachedByPointer(w, hop.from, id);
    NewIsNoStart(w, visited, id);
    PushOnce(visited, queue, asked, hop);
  }

  lemma NewIsNoStart(w: World, visited: set<string>, id: string)
    requires Reached(w, visited) && id !in visited
    ensures !w.IsStart(id)
  {}

  lemma PushOnce(visited: set<string>, queue: seq<Hop>, asked: seq<string>, hop: Hop)
    requires Once(visited, queue, asked) && hop.logbook.id !in visited
    ensures Once(visited + {hop.logbook.id}, queue + [hop], asked)
  {
    var id := hop.logbook.id;
    assert QueueIds(queue + [hop]) == QueueIds(queue) + [id];
    ElemsOfAll(asked, id, QueueIds(queue));
    assert asked + QueueIds(queue + [hop]) == (asked + QueueIds(queue)) + [id];
  }

  lemma UnknownKeepsInv(w: World, visited: set<string>, queue: seq<Hop>, results: seq<Result>, asked: seq<string>,
                        r: Result, id: string)
    requires Inv(w, visited, queue, results, asked)
    requires id !in visited && !w.Configured(id) && r.from in asked && w.Points(r.from, id)
    requires r == Result(Logbook(id, id, false), [], NO_ADDRESS, Pointer, r.from)
    ensures Inv(w, visited + {id}, queue, results + [r], asked + [id])
  {
    hide Told, World.Points, World.Reachable, Waits;
    ReachedByPointer(w, r.from, id);
    NewIsNoStart(w, visited, id);
    ToldLater(w, results, asked, r, id);
    WaitsLater(w, queue, asked, id);
    ElemsOfAll(asked, id, QueueIds(queue));
    DistinctInsert(asked, id, QueueIds(queue));
  }

  lemma DistinctInsert(a: seq<string>, id: string, b: seq<string>)
    requires NoRepeats(a + b) && id !in a && id !in b
    ensures NoRepeats(a + [id] + b)
  {
    var all, big := a + b, a + [id] + b;
    forall i, j | 0 <= i < j < |big| ensures big[i] != big[j] {
      var i', j' := if i <= |a| then i else i - 1, if j <= |a| then j else j - 1;
      if i != |a| && j != |a| { assert all[i'] == big[i] && all[j'] == big[j]; }
    }
  }

  // ---- In which order ----

  /** Where a logbook was first found: as the at-th of the configuration, or at
      a record of the logbook asked in that turn. */
  datatype Place = Place(turn: nat, at: nat)

  predicate Before(a: Place, b: Place) { a.turn < b.turn || (a.turn == b.turn && a.at < b.at) }

  function Turn(asked: seq<string>, id: string): (n: nat)
    ensures n <= |asked| && (id in asked ==> n < |asked| && asked[n] == id)
  {
    if asked == [] || asked[0] == id then 0 else 1 + Turn(asked[1..], id)
  }

  lemma {:induction false} TurnStays(asked: seq<string>, more: string, id: string)
    ensures id in asked ==> Turn(asked + [more], id) == Turn(asked, id)
    ensures id !in asked ==> Turn(asked + [id], id) == |asked|
    decreases |asked|
  {
    if asked != [] {
      assert (asked + [more])[1..] == asked[1..] + [more] && (asked + [id])[1..] == asked[1..] + [id];
      TurnStays(asked[1..], more, id);
    }
  }

  function ConfiguredAt(logbooks: seq<Logbook>, id: string): nat {
    if logbooks == [] || logbooks[0].id == id then 0 else 1 + ConfiguredAt(logbooks[1..], id)
  }

  lemma {:induction false} ConfiguredAtIs(logbooks: seq<Logbook>, i: nat)
    requires i < |logbooks| && forall m, n :: 0 <= m < n < |logbooks| ==> logbooks[m].id != logbooks[n].id
    ensures ConfiguredAt(logbooks, logbooks[i].id) == i
    decreases i
  {
    if i > 0 {
      assert logbooks[1..][i - 1] == logbooks[i];
      ConfiguredAtIs(logbooks[1..], i - 1);
    }
  }

  ghost function PlaceOf(w: World, asked: seq<string>, via: Via, from: string, id: string): Place {
    if via.Start? then Place(0, ConfiguredAt(w.logbooks, id))
    else Place(1 + Turn(asked, from), FirstAt(w.answer(from).records, id))
  }

  ghost predicate Placed(asked: seq<string>, via: Via, from: string) { via.Start? || from in asked }

  /** Configured logbooks have been asked in the order in which they were first
      found, then come those in the queue; all were found before bound. */
  ghost predicate InOrder(w: World, results: seq<Result>, asked: seq<string>, queue: seq<Hop>, bound: Place) {
    && |results| == |asked|
    && (forall k :: 0 <= k < |results| && w.Configured(asked[k]) ==>
          Placed(asked, results[k].via, results[k].from) && Before(ResultPlace(w, results, asked, k), bound))
    && (forall q :: 0 <= q < |queue| ==> Placed(asked, queue[q].via, queue[q].from) && Before(HopPlace(w, asked, queue[q]), bound))
    && AskedInOrder(w, results, asked)
    && (forall k, q :: 0 <= k < |results| && w.Configured(asked[k]) && 0 <= q < |queue| ==>
          Before(ResultPlace(w, results, asked, k), HopPlace(w, asked, queue[q])))
    && (forall p, q :: 0 <= p < q < |queue| ==> Before(HopPlace(w, asked, queue[p]), HopPlace(w, asked, queue[q])))
  }

  ghost predicate AskedInOrder(w: World, results: seq<Result>, asked: seq<string>)
    requires |results| == |asked|
  {
    forall j, k :: 0 <= j < k < |results| && w.Configured(asked[j]) && w.Configured(asked[k]) ==>
      Before(ResultPlace(w, results, asked, j), ResultPlace(w, results, asked, k))
  }

  ghost function ResultPlace(w: World, results: seq<Result>, asked: seq<string>, k: nat): Place
    requires k < |results| == |asked|
  {
    PlaceOf(w, asked, results[k].via, results[k].from, asked[k])
  }

  ghost function HopPlace(w: World, asked: seq<string>, hop: Hop): Place { PlaceOf(w, asked, hop.via, hop.from, hop.logbook.id) }

  lemma PlaceStays(w: World, asked: seq<string>, more: string, via: Via, from: string, id: string)
    requires Placed(asked, via, from)
    ensures Placed(asked + [more], via, from) && PlaceOf(w, asked + [more], via, from, id) == PlaceOf(w, asked, via, from, id)
  {
    TurnStays(asked, more, from);
  }

  /** A result of no configured logbook changes no order. */
  lemma OthersInOrder(w: World, results: seq<Result>, asked: seq<string>, queue: seq<Hop>, bound: Place, r: Result, id: string)
    requires InOrder(w, results, asked, queue, bound) && !w.Configured(id)
    ensures InOrder(w, results + [r], asked + [id], queue, bound)
  {
    hide World.Configured, Placed, PlaceOf, Before;
    forall k | 0 <= k < |results| && w.Configured(asked[k])
      ensures Placed(asked + [id], results[k].via, results[k].from)
      ensures ResultPlace(w, results + [r], asked + [id], k) == ResultPlace(w, results, asked, k)
    {
      PlaceStays(w, asked, id, results[k].via, results[k].from, asked[k]);
    }
    forall q | 0 <= q < |queue|
      ensures Placed(asked + [id], queue[q].via, queue[q].from) && HopPlace(w, asked + [id], queue[q]) == HopPlace(w, asked, queue[q])
    {
      PlaceStays(w, asked, id, queue[q].via, queue[q].from, queue[q].logbook.id);
    }
    hide ResultPlace, HopPlace;
  }

  /** The head of the queue is asked next. */
  lemma PopInOrder(w: World, results: seq<Result>, asked: seq<string>, queue: seq<Hop>, bound: Place, r: Result)
    requires InOrder(w, results, asked, queue, bound) && queue != [] && r.via == queue[0].via && r.from == queue[0].from
    ensures InOrder(w, results + [r], asked + [queue[0].logbook.id], queue[1..], bound)
  {
    hide World.Configured, Placed, PlaceOf, Before;
    var id := queue[0].logbook.id;
    forall k | 0 <= k < |results| && w.Configured(asked[k])
      ensures Placed(asked + [id], results[k].via, results[k].from)
      ensures ResultPlace(w, results + [r], asked + [id], k) == ResultPlace(w, results, asked, k)
    {
      PlaceStays(w, asked, id, results[k].via, results[k].from, asked[k]);
    }
    forall q | 0 <= q < |queue|
      ensures Placed(asked + [id], queue[q].via, queue[q].from) && HopPlace(w, asked + [id], queue[q]) == HopPlace(w, asked, queue[q])
    {
      PlaceStays(w, asked, id, queue[q].via, queue[q].from, queue[q].logbook.id);
    }
    assert ResultPlace(w, results + [r], asked + [id], |results|) == HopPlace(w, asked, queue[0]);
    hide ResultPlace, HopPlace;
  }

  /** What is found at the bound comes last, and before a later bound. */
  lemma PushInOrder(w: World, results: seq<Result>, asked: seq<string>, queue: seq<Hop>, bound: Place, hop: Hop, later: Place)
    requires InOrder(w, results, asked, queue, bound) && HopPlace(w, asked, hop) == bound && Placed(asked, hop.via, hop.from)
    requires Before(bound, later)
    ensures InOrder(w, results, asked, queue + [hop], later)
  {
    hide World.Configured, Placed, PlaceOf, ResultPlace, HopPlace;
    BoundLater(w, results, asked, queue, bound, later);
  }

  lemma BoundLater(w: World, results: seq<Result>, asked: seq<string>, queue: seq<Hop>, bound: Place, later: Place)
    requires InOrder(w, results, asked, queue, bound) && (Before(bound, later) || bound == later)
    ensures InOrder(w, results, asked, queue, later)
  {
    hide World.Configured, Placed, PlaceOf, ResultPlace, HopPlace;
  }

  lemma NoneInOrder(w: World)
    ensures InOrder(w, [], [], [], Place(0, 0))
  {}

  /** The start logbooks, in configuration order. */
  method Starts(w: World) returns (visited: set<string>, queue: seq<Hop>)
    requires w.Valid()
    ensures Inv(w, visited, queue, [], [])
    ensures InOrder(w, [], [], queue, Place(1, 0))
    ensures visited <= w.Ids()
  {
    hide InOrder;
    visited, queue := {}, [];
    NoneInOrder(w);
    for i := 0 to |w.logbooks|
      invariant visited == Elems(QueueIds(queue)) && NoRepeats(QueueIds(queue))
      invariant forall id :: id in visited ==> w.IsStart(id)
      invariant forall id :: id in visited ==> exists n :: 0 <= n < i && w.logbooks[n].id == id
      invariant forall n :: 0 <= n < i && w.logbooks[n].start ==> w.logbooks[n].id in visited
      invariant forall q :: 0 <= q < |queue| ==> Waiting(w, queue[q], [])
      invariant InOrder(w, [], [], queue, Place(0, i))
    {
      var l := w.logbooks[i];
      BoundLater(w, [], [], queue, Place(0, i), Place(0, i + 1));
      if l.start {
        ConfiguredAtIs(w.logbooks, i);
        PushInOrder(w, [], [], queue, Place(0, i), Hop(l, Start, ""), Place(0, i + 1));
        ElemsOfAll([], l.id, QueueIds(queue));
        assert QueueIds(queue + [Hop(l, Start, "")]) == QueueIds(queue) + [l.id];
        visited := visited + {l.id};
        queue := queue + [Hop(l, Start, "")];
      }
    }
    BoundLater(w, [], [], queue, Place(0, |w.logbooks|), Place(1, 0));
    forall id | id in visited ensures w.Reachable(id) { ReachedStart(w, id); }
    assert [] + QueueIds(queue) == QueueIds(queue);
  }

  /** byID, for ids the configuration may not hold. */
  function ById(logbooks: seq<Logbook>, id: string): (r: Option<Logbook>)
    ensures r.Some? <==> exists i :: 0 <= i < |logbooks| && logbooks[i].id == id
    ensures r.Some? ==> r.value in logbooks && r.value.id == id
  {
    if logbooks == [] then None
    else
      var later := ById(logbooks[1..], id);
      assert forall i :: 1 <= i < |logbooks| ==> logbooks[i] == logbooks[1..][i - 1];
      if later.Some? then later else if logbooks[0].id == id then Some(logbooks[0]) else None
  }

  lemma FollowedStep(w: World, visited: set<string>, asked: seq<string>, current: string, done: set<string>,
                     to: string, visited': set<string>, asked': seq<string>)
    requires Followed(w, visited, asked, current, done)
    requires visited' == visited + {to}
    requires asked' == asked || (asked' == asked + [to] && !w.Configured(to))
    ensures Followed(w, visited', asked', current, done + {to})
  {
    hide NextIds, World.Configured;
    forall p, x | p in asked' && w.Points(p, x) && (p == current ==> x in done + {to})
      ensures x in visited'
    {
      assert w.Points(p, x) ==> w.Configured(p);
    }
  }

  lemma PushShrinks(w: World, visited: set<string>, id: string)
    requires w.Configured(id) && id !in visited
    ensures |w.Ids() - (visited + {id})| == |w.Ids() - visited| - 1
  {
    assert id in w.Ids();
    assert w.Ids() - (visited + {id}) == (w.Ids() - visited) - {id};
  }

  lemma SmallerRest(w: World, visited: set<string>, id: string)
    ensures |w.Ids() - (visited + {id})| <= |w.Ids() - visited|
  {
    var a, b := w.Ids() - (visited + {id}), w.Ids() - visited;
    if id in b { assert a == b - {id}; } else { assert a == b; }
  }

  /** The body of the inner loop: one pointer of the current logbook. */
  method FollowOne(w: World, current: string, to: string, visited0: set<string>, queue0: seq<Hop>,
                   results0: seq<Result>, ghost asked0: seq<string>, ghost done: set<string>, ghost later: Place)
    returns (visited: set<string>, queue: seq<Hop>, results: seq<Result>, ghost asked: seq<string>)
    requires InOrder(w, results0, asked0, queue0, PlaceOf(w, asked0, Pointer, current, to))
    requires Before(PlaceOf(w, asked0, Pointer, current, to), later)
    requires Inv(w, visited0, queue0, results0, asked0)
    requires current in asked0 && w.Points(current, to)
    requires Followed(w, visited0, asked0, current, done)
    ensures Inv(w, visited, queue, results, asked) && current in asked && Turn(asked, current) == Turn(asked0, current)
    ensures InOrder(w, results, asked, queue, later)
    ensures Followed(w, visited, asked, current, done + {to})
    ensures |w.Ids() - visited| + |queue| <= |w.Ids() - visited0| + |queue0|
  {
    hide Inv, NextIds, World.Points, World.Ids, Followed, InOrder, PlaceOf;
    ghost var here := PlaceOf(w, asked0, Pointer, current, to);
    BoundLater(w, results0, asked0, queue0, here, later);
    visited, queue, results, asked := visited0, queue0, results0, asked0;
    if to in visited {
      assert visited + {to} == visited;
      FollowedStep(w, visited, asked, current, done, to, visited, asked);
      return;
    }
    visited := visited + {to};
    var known := ById(w.logbooks, to);
    if known.None? {
      // Not configured: reported at once, and not asked.
      var r := Result(Logbook(to, to, false), [], NO_ADDRESS, Pointer, current);
      UnknownKeepsInv(w, visited0, queue, results, asked, r, to);
      FollowedStep(w, visited0, asked, current, done, to, visited, asked + [to]);
      SmallerRest(w, visited0, to);
      OthersInOrder(w, results, asked, queue, later, r, to);
      TurnStays(asked, to, current);
      results, asked := results + [r], asked + [to];
    } else {
      var hop := Hop(known.value, Pointer, current);
      PushKeepsInv(w, visited0, queue, results, asked, hop);
      FollowedStep(w, visited0, asked, current, done, to, visited, asked);
      PushShrinks(w, visited0, to);
      PushInOrder(w, results, asked, queue, here, hop, later);
      queue := queue + [hop];
    }
  }

  /** The inner loop: queue what the current logbook's records point at. */
  method Follow(w: World, current: string, next: seq<string>, visited0: set<string>, queue0: seq<Hop>,
                results0: seq<Result>, ghost asked0: seq<string>)
    returns (visited: set<string>, queue: seq<Hop>, results: seq<Result>, ghost asked: seq<string>)
    requires Inv(w, visited0, queue0, results0, asked0)
    requires current in asked0 && w.Configured(current)
    requires Elems(next) == NextIds(w.answer(current).records)
    requires forall i, j :: 0 <= i < j < |next| ==> FirstAt(w.answer(current).records, next[i]) < FirstAt(w.answer(current).records, next[j])
    requires InOrder(w, results0, asked0, queue0, Place(1 + Turn(asked0, current), 0))
    requires Followed(w, visited0, asked0, current, {})
    ensures Inv(w, visited, queue, results, asked)
    ensures InOrder(w, results, asked, queue, Place(1 + |asked|, 0))
    ensures Followed(w, visited, asked, current, Elems(next))
    ensures |w.Ids() - visited| + |queue| <= |w.Ids() - visited0| + |queue0|
  {
    hide Inv, NextIds, World.Ids, Followed, InOrder;
    visited, queue, results, asked := visited0, queue0, results0, asked0;
    ghost var records, turn := w.answer(current).records, 1 + Turn(asked0, current);
    ghost var bound := Place(turn, 0);
    assert Elems(next[..0]) == {};
    for n := 0 to |next|
      invariant Inv(w, visited, queue, results, asked) && current in asked && 1 + Turn(asked, current) == turn
      invariant InOrder(w, results, asked, queue, bound) && bound.turn == turn
      invariant n < |next| ==> bound.at <= FirstAt(records, next[n])
      invariant Followed(w, visited, asked, current, Elems(next[..n]))
      invariant |w.Ids() - visited| + |queue| <= |w.Ids() - visited0| + |queue0|
    {
      assert next[n] in Elems(next);
      assert next[..n + 1] == next[..n] + [next[n]];
      ElemsOfAll(next[..n], next[n], []);
      ghost var later := Place(turn, FirstAt(records, next[n]) + 1);
      BoundLater(w, results, asked, queue, bound, Place(turn, FirstAt(records, next[n])));
      visited, queue, results, asked :=
        FollowOne(w, current, next[n], visited, queue, results, asked, Elems(next[..n]), later);
      bound := later;
    }
    BoundLater(w, results, asked, queue, bound, Place(1 + |asked|, 0));
    assert next[..|next|] == next;
  }

  /** Every pointer of every logbook asked leads to a visited one. */
  ghost predicate Closed(w: World, visited: set<string>, asked: seq<string>) {
    forall p, to :: p in asked && w.Points(p, to) ==> to in visited
  }

  lemma StillFollowed(w: World, visited: set<string>, asked: seq<string>, current: string)
    requires Closed(w, visited, asked)
    ensures Followed(w, visited, asked + [current], current, {})
  {
    hide World.Points;
    forall p, to | p in asked + [current] && w.Points(p, to) && (p == current ==> to in {})
      ensures to in visited
    {
      assert p in asked;
    }
  }

  lemma NowClosed(w: World, visited: set<string>, asked: seq<string>, current: string)
    requires Followed(w, visited, asked, current, NextIds(w.answer(current).records))
    ensures Closed(w, visited, asked)
  {
    forall p, to | p in asked && w.Points(p, to) ensures to in visited {}
  }

  lemma WorklistDone(w: World, visited: set<string>, results: seq<Result>, asked: seq<string>)
    requires Inv(w, visited, [], results, asked) && Closed(w, visited, asked)
    ensures Told(w, results, asked) && NoRepeats(asked) && visited == Elems(asked)
    ensures forall id :: id in visited <==> w.Reachable(id)
  {
    hide World.Points, World.IsStart;
    assert asked + QueueIds([]) == asked;
    forall id | w.Reachable(id) ensures id in visited {
      var path :| w.Walk(path) && path[|path| - 1] == id;
      WalkStaysInside(w, visited, asked, path);
    }
  }

  /** The worklist loop: every logbook the pointers lead to. */
  method FollowPointers(w: World) returns (visited: set<string>, results: seq<Result>, ghost asked: seq<string>)
    requires w.Valid()
    ensures Told(w, results, asked) && NoRepeats(asked) && visited == Elems(asked)
    ensures forall id :: id in visited <==> w.Reachable(id)
    ensures AskedInOrder(w, results, asked)
  {
    hide Inv, World.Points, World.Ids, Told, NoRepeats, World.Reachable, Closed, Followed, NextIds, InOrder;
    var queue;
    visited, queue := Starts(w);
    results, asked := [], [];
    NothingAsked(w, visited);
    while queue != []
      invariant Inv(w, visited, queue, results, asked)
      invariant Closed(w, visited, asked)
      invariant InOrder(w, results, asked, queue, Place(1 + |asked|, 0))
      decreases |w.Ids() - visited| + |queue|
    {
      var current := queue[0];
      var r := Fetch(w, current.logbook).(via := current.via, from := current.from);
      PopKeepsInv(w, visited, queue, results, asked);
      StillFollowed(w, visited, asked, current.logbook.id);
      PopInOrder(w, results, asked, queue, Place(1 + |asked|, 0), r);
      TurnStays(asked, current.logbook.id, current.logbook.id);
      queue := queue[1..];
      results, asked := results + [r], asked + [current.logbook.id];
      var next := NextLogbookIds(r.records);
      visited, queue, results, asked := Follow(w, current.logbook.id, next, visited, queue, results, asked);
      NowClosed(w, visited, asked, current.logbook.id);
    }
    WorklistDone(w, visited, results, asked);
    OrderKept(w, results, asked, Place(1 + |asked|, 0));
  }

  lemma OrderKept(w: World, results: seq<Result>, asked: seq<string>, bound: Place)
    requires InOrder(w, results, asked, [], bound)
    ensures |results| == |asked| && AskedInOrder(w, results, asked)
  {}

  lemma NothingAsked(w: World, visited: set<string>)
    ensures Closed(w, visited, [])
  {}

  /** The traversal of handleLdvChain. It asks every configured logbook and
      reports every logbook it learns of exactly once; asked[k] is the id
      results[k] is about. A configured logbook is reported as a start or as
      reached by pointer exactly when a walk along the pointers leads to it.
      Those come in the order in which they were first found: the starts as
      configured, then for each logbook asked what its records point at first;
      and behind them the others, as configured. */
  method ReadChain(w: World) returns (results: seq<Result>, ghost asked: seq<string>)
    requires w.Valid()
    ensures |results| == |asked| && NoRepeats(asked)
    ensures forall id :: id in asked <==> w.Configured(id) || w.Reachable(id)
    ensures forall k :: 0 <= k < |results| ==> Explained(w, results, asked, k)
    ensures forall k :: 0 <= k < |results| ==> (results[k].via.Without? <==> !w.Reachable(asked[k]))
    ensures ReachedInOrder(w, results, asked) && OthersBehind(w, results, asked)
  {
    hide World.Reachable, Explained, World.Configured, ResultPlace, Before, NoRepeats;
    var visited;
    visited, results, asked := FollowPointers(w);
    // What is configured and not visited was not reached.
    for i := 0 to |w.logbooks|
      invariant |results| == |asked| && NoRepeats(asked)
      invariant forall id :: id in asked <==> id in visited || exists n :: 0 <= n < i && w.logbooks[n].id == id
      invariant forall k :: 0 <= k < |results| ==> Explained(w, results, asked, k)
      invariant forall k :: 0 <= k < |results| ==> (results[k].via.Without? <==> asked[k] !in visited)
      invariant forall k :: 0 <= k < |results| && results[k].via.Without? ==> ConfiguredAt(w.logbooks, asked[k]) < i
      invariant ReachedInOrder(w, results, asked) && OthersBehind(w, results, asked)
    {
      var l := w.logbooks[i];
      if l.id in visited { continue; }
      var r := Fetch(w, l);
      WithoutExplained(w, results, asked, i);
      ConfiguredAtIs(w.logbooks, i);
      ReachedStay(w, results, asked, r, l.id);
      NewLast(asked, l.id);
      results, asked := results + [r], asked + [l.id];
    }
    forall id ensures w.Configured(id) <==> exists n :: 0 <= n < |w.logbooks| && w.logbooks[n].id == id { ConfiguredIs(w, id); }
  }

  lemma NewLast(s: seq<string>, x: string)
    requires NoRepeats(s) && x !in s
    ensures NoRepeats(s + [x])
  {}

  lemma ConfiguredIs(w: World, id: string)
    ensures w.Configured(id) <==> exists n :: 0 <= n < |w.logbooks| && w.logbooks[n].id == id
  {}

  ghost predicate ReachedInOrder(w: World, results: seq<Result>, asked: seq<string>)
    requires |results| == |asked|
  {
    forall j, k :: 0 <= j < k < |results| && w.Configured(asked[j]) && w.Configured(asked[k]) && !results[k].via.Without? ==>
      Before(ResultPlace(w, results, asked, j), ResultPlace(w, results, asked, k))
  }

  ghost predicate OthersBehind(w: World, results: seq<Result>, asked: seq<string>)
    requires |results| == |asked|
  {
    forall j, k :: 0 <= j < k < |results| && results[j].via.Without? ==>
      results[k].via.Without? && ConfiguredAt(w.logbooks, asked[j]) < ConfiguredAt(w.logbooks, asked[k])
  }

  lemma ReachedStay(w: World, results: seq<Result>, asked: seq<string>, r: Result, id: string)
    requires |results| == |asked| && r.via.Without?
    requires forall k :: 0 <= k < |results| ==> Explained(w, results, asked, k)
    requires ReachedInOrder(w, results, asked) && OthersBehind(w, results, asked)
    ensures ReachedInOrder(w, results + [r], asked + [id])
  {
    hide World.Configured, World.IsStart, World.Points, ShownAs, PlaceOf, Before;
    forall k | 0 <= k < |results| && !results[k].via.Without?
      ensures ResultPlace(w, results + [r], asked + [id], k) == ResultPlace(w, results, asked, k)
    {
      assert Explained(w, results, asked, k);
      if results[k].via.Pointer? {
        var j :| 0 <= j < k && asked[j] == results[k].from && w.Points(results[k].from, asked[k]);
        assert results[k].from in asked;
      }
      PlaceStays(w, asked, id, results[k].via, results[k].from, asked[k]);
    }
    forall j, k | 0 <= j < k < |results + [r]| && w.Configured((asked + [id])[j]) && w.Configured((asked + [id])[k])
                  && !(results + [r])[k].via.Without?
      ensures Before(ResultPlace(w, results + [r], asked + [id], j), ResultPlace(w, results + [r], asked + [id], k))
    {
      assert k < |results| && !results[j].via.Without?;
      assert Before(ResultPlace(w, results, asked, j), ResultPlace(w, results, asked, k));
    }
  }

  lemma WithoutExplained(w: World, results: seq<Result>, asked: seq<string>, i: nat)
    requires i < |w.logbooks| && |results| == |asked|
    requires forall k :: 0 <= k < |results| ==> Explained(w, results, asked, k)
    ensures var r, id := Fetch(w, w.logbooks[i]), w.logbooks[i].id;
      forall k :: 0 <= k <= |results| ==> Explained(w, results + [r], asked + [id], k)
  {
    var r, id := Fetch(w, w.logbooks[i]), w.logbooks[i].id;
    ExplainedLater(w, results, asked, r, id);
    assert Explained(w, results + [r], asked + [id], |results|);
  }

  /** A result reached by pointer names the logbook that pointed by its
      configured id. The earlier result of that logbook shows this id exactly
      when the logbook does not call itself something else. */
  lemma FromIsShown(w: World, results: seq<Result>, asked: seq<string>, k: nat) returns (j: nat)
    requires w.Valid() && |results| == |asked| && k < |results| && results[k].via.Pointer?
    requires forall i :: 0 <= i < |results| ==> Explained(w, results, asked, i)
    ensures j < k && asked[j] == results[k].from && w.Points(asked[j], asked[k])
    ensures results[j].logbook.id == results[k].from
      <==> w.answer(asked[j]).selfId == "" || w.answer(asked[j]).selfId == asked[j]
  {
    hide NextIds;
    assert Explained(w, results, asked, k);
    j :| 0 <= j < k && asked[j] == results[k].from && w.Points(results[k].from, asked[k]);
    assert Explained(w, results, asked, j);
    assert ShownAs(w, results[j], asked[j]);
  }

  /** No earlier result shows the origin of this one. */
  predicate Unshown(results: seq<Result>, k: nat)
    requires k < |results|
  {
    forall i :: 0 <= i < k ==> results[i].logbook.id != results[k].from
  }

  /** A start logbook that calls itself z and points at b: whatever the
      traversal reports of it, no earlier result shows the origin of b. */
  lemma OriginNotShown(w: World, results: seq<Result>, asked: seq<string>)
    requires w.logbooks == [Logbook("a", "a", true), Logbook("b", "b", false)]
    requires w.answer("a") == Answer("", [Record(Some("b"))], "z", "") && w.answer("b").records == []
    requires |results| == |asked| && NoRepeats(asked)
    requires forall id :: id in asked <==> w.Configured(id) || w.Reachable(id)
    requires forall k :: 0 <= k < |results| ==> Explained(w, results, asked, k)
    requires forall k :: 0 <= k < |results| ==> (results[k].via.Without? <==> !w.Reachable(asked[k]))
    ensures exists k :: 0 <= k < |results| && results[k].via.Pointer? && results[k].from == "a" && Unshown(results, k)
  {
    hide World.Points, World.Reachable, NextIds, Explained;
    assert w.logbooks[0].id == "a" && w.logbooks[1].id == "b" && "a" != "b" && "z" != "a";
    OnlyB(w);
    assert w.IsStart("a") && !w.IsStart("b") && w.Configured("b");
    ReachedStart(w, "a");
    ReachedByPointer(w, "a", "b");
    var k :| 0 <= k < |asked| && asked[k] == "b";
    ByPointerFromA(w, results, asked, k);
    forall i | 0 <= i < k ensures results[i].logbook.id != "a" {
      assert asked[i] != "b" && asked[i] in asked;
      if w.Reachable(asked[i]) { OnlyAAndB(w, asked[i]); }
      assert asked[i] == "a";
      ShownAsZ(w, results, asked, i);
    }
  }

  lemma ByPointerFromA(w: World, results: seq<Result>, asked: seq<string>, k: nat)
    requires k < |results| == |asked| && asked[k] == "b" && Explained(w, results, asked, k)
    requires !w.IsStart("b") && !results[k].via.Without? && forall from :: w.Points(from, "b") ==> from == "a"
    ensures results[k].via.Pointer? && results[k].from == "a"
  {
    hide World.Points, World.IsStart, ShownAs;
  }

  lemma ShownAsZ(w: World, results: seq<Result>, asked: seq<string>, i: nat)
    requires w.logbooks == [Logbook("a", "a", true), Logbook("b", "b", false)] && w.answer("a").selfId == "z"
    requires i < |results| == |asked| && asked[i] == "a" && Explained(w, results, asked, i)
    ensures results[i].logbook.id == "z"
  {
    hide World.Points;
    assert w.logbooks[0].id == "a" && w.Configured("a") && "a" != "b" && "z" != "";
    assert ShownAs(w, results[i], "a");
  }

  lemma OnlyB(w: World)
    requires w.logbooks == [Logbook("a", "a", true), Logbook("b", "b", false)]
    requires w.answer("a").records == [Record(Some("b"))] && w.answer("b").records == []
    ensures w.Points("a", "b") && forall from, to :: w.Points(from, to) ==> from == "a" && to == "b"
  {
    assert TrimSpace("b") == "b";
    assert w.logbooks[0].id == "a" && w.logbooks[1].id == "b";
    var records := w.answer("a").records;
    assert PointerOf(records[0]) == "b";
    assert w.Configured("a");
  }

  lemma OnlyAAndB(w: World, id: string)
    requires w.logbooks == [Logbook("a", "a", true), Logbook("b", "b", false)] && w.Reachable(id)
    requires forall from, to :: w.Points(from, to) ==> to == "b"
    ensures id == "a" || id == "b"
  {
    hide World.Points;
    var path :| w.Walk(path) && path[|path| - 1] == id;
    if |path| > 1 { assert w.Points(path[|path| - 2], path[|path| - 1]); }
  }
}
