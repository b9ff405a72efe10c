/** The consent register's outbox: the in-memory store of main.go, which spools
    a record in the step that stores its consent, and the delivery loop of
    ldv_consent.go over it. */
module ConsentOutbox {
  import opened Base
  import opened Fifo
  import Spool

  const BATCH_SIZE: nat := 100

  datatype OutboxEntry = OutboxEntry(id: nat, record: string)

  /** json.Unmarshal of a spooled record; None when it is undeliverable. */
  type Decoder = string -> Option<Record>

  datatype Worker = Resting | Delivering(entries: seq<OutboxEntry>, index: nat, posted: bool)

  datatype State = State(outbox: seq<OutboxEntry>, nextId: nat, logbook: seq<Record>, worker: Worker)

  /** appendLocked: an empty record is none. */
  function Appended(s: State, record: string): State {
    if record == "" then s
    else s.(nextId := s.nextId + 1, outbox := s.outbox + [OutboxEntry(s.nextId + 1, record)])
  }

  function Pending(outbox: seq<OutboxEntry>, limit: nat): seq<OutboxEntry> {
    if limit > |outbox| then outbox else outbox[..limit]
  }

  /** The outbox without the first entry of that id. */
  function Without(outbox: seq<OutboxEntry>, id: nat): seq<OutboxEntry> {
    if outbox == [] then []
    else if outbox[0].id == id then outbox[1..]
    else [outbox[0]] + Without(outbox[1..], id)
  }

  ghost predicate FirstWith(outbox: seq<OutboxEntry>, id: nat, i: nat) {
    i < |outbox| && outbox[i].id == id && forall j :: 0 <= j < i ==> outbox[j].id != id
  }

  /** Only that entry is gone, the others stay in their order. */
  lemma {:induction false} WithoutExact(outbox: seq<OutboxEntry>, id: nat, i: nat)
    ensures FirstWith(outbox, id, i) ==> Without(outbox, id) == outbox[..i] + outbox[i + 1..]
    ensures (forall j :: 0 <= j < |outbox| ==> outbox[j].id != id) ==> Without(outbox, id) == outbox
    decreases |outbox|
  {
    if outbox != [] {
      var rest := outbox[1..];
      assert outbox == [outbox[0]] + rest;
      assert forall j :: 0 <= j < |rest| ==> rest[j] == outbox[j + 1];
      if i > 0 {
        WithoutExact(rest, id, i - 1);
        if i < |outbox| { assert outbox[..i] + outbox[i + 1..] == [outbox[0]] + (rest[..i - 1] + rest[i..]); }
      } else if outbox[0].id != id {
        WithoutExact(rest, id, 0);
      }
    }
  }

  // ---- Steps, with appends between any two of the deliverer's ----

  ghost predicate Fresh(s: State) { s == State([], 0, [], Resting) }

  ghost predicate BeginStep(s: State, s': State) {
    s.worker.Resting? && s' == s.(worker := Delivering(Pending(s.outbox, BATCH_SIZE), 0, false))
  }

  ghost predicate AtEntry(s: State) {
    s.worker.Delivering? && s.worker.index < |s.worker.entries|
  }

  ghost predicate PostStep(d: Decoder, s: State, s': State) {
    && AtEntry(s) && !s.worker.posted
    && var item := d(s.worker.entries[s.worker.index].record);
       && item.Some? && Accepts(s.logbook, item.value)
       && s' == s.(logbook := Stored(s.logbook, item.value), worker := s.worker.(posted := true))
  }

  ghost predicate PostFails(d: Decoder, s: State, s': State) {
    && AtEntry(s) && !s.worker.posted
    && var item := d(s.worker.entries[s.worker.index].record);
       && item.Some?
       && (s'.logbook == s.logbook || (Accepts(s.logbook, item.value) && s'.logbook == Stored(s.logbook, item.value)))
       && s' == s.(logbook := s'.logbook, worker := Resting)
  }

  ghost predicate MarkStep(d: Decoder, s: State, s': State) {
    && AtEntry(s)
    && var e := s.worker.entries[s.worker.index];
       && (d(e.record).None? || s.worker.posted)
       && s' == s.(outbox := Without(s.outbox, e.id),
                   worker := Delivering(s.worker.entries, s.worker.index + 1, false))
  }

  ghost predicate StopStep(s: State, s': State) { s' == s.(worker := Resting) }

  /** What the deliverer or a crash does: nothing is appended. */
  ghost predicate InnerStep(d: Decoder, s: State, s': State) {
    || BeginStep(s, s')
    || PostStep(d, s, s')
    || PostFails(d, s, s')
    || MarkStep(d, s, s')
    || StopStep(s, s')
  }

  /** A step together with the record it is called to append, if any. */
  ghost predicate Step(d: Decoder, s: State, s': State, event: Option<string>) {
    match event
    case Some(record) => s' == Appended(s, record)
    case None => InnerStep(d, s, s')
  }

  // ---- The queue a state stands for ----

  ghost function Items(d: Decoder, records: seq<string>): seq<Item> {
    seq(|records|, i requires 0 <= i < |records| => d(records[i]))
  }

  /** Entries for records[first..first+n], numbered from first + 1. */
  ghost predicate Numbered(entries: seq<OutboxEntry>, records: seq<string>, first: nat) {
    && first + |entries| <= |records|
    && forall i :: 0 <= i < |entries| ==> entries[i] == OutboxEntry(first + i + 1, records[first + i])
  }

  /** With these records spooled, the state stands for the queue q: the outbox
      is what follows the first q.acked of them, in order and numbered, and the
      deliverer works at its head. */
  ghost predicate Refines(d: Decoder, s: State, records: seq<string>, q: Queue) {
    && q == Queue(Items(d, records), q.delivered, q.acked, s.logbook)
    && Fifo.Inv(q)
    && s.nextId == |records|
    && q.acked + |s.outbox| == |records| && Numbered(s.outbox, records, q.acked)
    && (s.worker.Delivering? ==>
          && s.worker.index <= |s.worker.entries|
          && s.worker.index <= q.acked
          && Numbered(s.worker.entries, records, q.acked - s.worker.index)
          && (s.worker.posted ==> s.worker.index < |s.worker.entries| && q.acked < q.delivered))
  }

  lemma FreshRefines(d: Decoder, s: State)
    requires Fresh(s)
    ensures Refines(d, s, [], Queue([], 0, 0, [])) && Fifo.Init(Queue([], 0, 0, []))
  {
    assert Items(d, []) == [];
  }

  /** The records a call to append leaves spooled: an empty one is none. */
  ghost function Added(records: seq<string>, record: string): seq<string> {
    if record == "" then records else records + [record]
  }

  lemma AppendRefines(d: Decoder, s: State, record: string, records: seq<string>, q: Queue) returns (q': Queue)
    requires Refines(d, s, records, q)
    ensures Refines(d, Appended(s, record), Added(records, record), q')
    ensures if record == "" then q' == q else Fifo.Append(q, q', d(record))
  {
    q' := q;
    if record != "" {
      q' := q.(appended := q.appended + [d(record)]);
      assert Items(d, records + [record]) == q'.appended;
      assert Fifo.Append(q, q', d(record));
      Fifo.NextKeepsInv(q, q');
    }
  }

  lemma TakenRefines(d: Decoder, s: State, records: seq<string>, q: Queue) returns (q': Queue)
    requires Refines(d, s, records, q) && AtEntry(s) && !s.worker.posted
    requires var item := d(s.worker.entries[s.worker.index].record); item.Some? && Accepts(s.logbook, item.value)
    ensures var r := d(s.worker.entries[s.worker.index].record).value;
      var s' := s.(logbook := Stored(s.logbook, r), worker := s.worker.(posted := true));
      Refines(d, s', records, q') && Refines(d, s'.(worker := Resting), records, q') && Fifo.Next(q, q')
  {
    var r := d(s.worker.entries[s.worker.index].record).value;
    assert q.appended[q.acked] == Some(r);
    q' := q;
    if q.acked < q.delivered {
      Fifo.ReplayIsHarmless(q, q.acked);
    } else {
      q' := q.(delivered := q.acked + 1, logbook := Stored(q.logbook, r));
      assert Fifo.Deliver(q, q');
      Fifo.NextKeepsInv(q, q');
    }
  }

  lemma MarkRefines(d: Decoder, s: State, s': State, records: seq<string>, q: Queue) returns (qs: seq<Queue>)
    requires Refines(d, s, records, q) && MarkStep(d, s, s')
    ensures |qs| == 2 && Fifo.Next(q, qs[0]) && Fifo.Next(qs[0], qs[1]) && Refines(d, s', records, qs[1])
  {
    var mid := q;
    if q.acked == q.delivered {
      assert q.appended[q.acked] == None;
      mid := q.(delivered := q.acked + 1);
      assert Fifo.Deliver(q, mid);
      Fifo.NextKeepsInv(q, mid);
    }
    var q' := mid.(acked := q.acked + 1);
    assert Fifo.Ack(mid, q');
    Fifo.NextKeepsInv(mid, q');
    qs := [mid, q'];
    // The entry marked is the head of the outbox.
    assert s.worker.entries[s.worker.index] == s.outbox[0];
  }

  lemma InnerRefines(d: Decoder, s: State, s': State, records: seq<string>, q: Queue) returns (qs: seq<Queue>)
    requires Refines(d, s, records, q) && InnerStep(d, s, s')
    ensures |qs| == 2 && Fifo.Next(q, qs[0]) && Fifo.Next(qs[0], qs[1]) && Refines(d, s', records, qs[1])
  {
    hide Fifo.Inv, Accepts;
    qs := [q, q];
    if PostStep(d, s, s') || (PostFails(d, s, s') && s'.logbook != s.logbook) {
      var q' := TakenRefines(d, s, records, q);
      qs := [q, q'];
    } else if MarkStep(d, s, s') {
      qs := MarkRefines(d, s, s', records, q);
    }
  }

  // ---- Whole runs ----

  /** The records the events spool, in order. */
  ghost function Spooled(events: seq<Option<string>>): seq<string> {
    if events == [] then []
    else
      var before, last := Spooled(events[..|events| - 1]), events[|events| - 1];
      if last.Some? then Added(before, last.value) else before
  }

  ghost predicate Steps(d: Decoder, states: seq<State>) {
    && states != []
    && forall i :: 0 < i < |states| ==> InnerStep(d, states[i - 1], states[i])
  }

  /** A run from the empty store; events[i] is what its step i appends. */
  ghost predicate Execution(d: Decoder, states: seq<State>, events: seq<Option<string>>) {
    && |states| == |events| + 1 && Fresh(states[0])
    && forall i :: 0 <= i < |events| ==> Step(d, states[i], states[i + 1], events[i])
  }

  /** Every step of the register's outbox is at most two steps of the queue the
      file outbox refines as well, and only a spooled record makes it grow. */
  lemma StepRefines(d: Decoder, s: State, s': State, events: seq<Option<string>>, q: Queue) returns (qs: seq<Queue>)
    requires events != [] && Step(d, s, s', events[|events| - 1])
    requires Refines(d, s, Spooled(events[..|events| - 1]), q)
    ensures |qs| == 2 && Fifo.Next(q, qs[0]) && Fifo.Next(qs[0], qs[1])
    ensures Refines(d, s', Spooled(events), qs[1])
  {
    hide Refines, InnerStep, Appended, Added, Fifo.Deliver;
    var before, event := Spooled(events[..|events| - 1]), events[|events| - 1];
    if event.Some? {
      var q' := AppendRefines(d, s, event.value, before, q);
      qs := [q, q'];
    } else {
      qs := InnerRefines(d, s, s', before, q);
    }
  }

  /** A run of the outbox is a run of the queue: state k stands for queue 2k,
      to which exactly the records spooled before k were appended. */
  lemma {:induction false} ExecutionRefines(d: Decoder, states: seq<State>, events: seq<Option<string>>)
    returns (queues: seq<Queue>)
    requires Execution(d, states, events)
    ensures Fifo.Run(queues) && |queues| == 2 * |events| + 1
    ensures forall k :: 0 <= k < |states| ==> Refines(d, states[k], Spooled(events[..k]), queues[2 * k])
    decreases |events|
  {
    hide Refines, Step, Fifo.Next, Fifo.Init, Spooled;
    var last := |events|;
    if last == 0 {
      NothingSpooled();
      FreshRefines(d, states[0]);
      queues := [Queue([], 0, 0, [])];
    } else {
      var before := ExecutionRefines(d, states[..last], events[..last - 1]);
      assert events[..last - 1][..last - 1] == events[..last - 1];
      assert Step(d, states[last - 1], states[last], events[last - 1]);
      var more := StepRefines(d, states[last - 1], states[last], events, before[|before| - 1]);
      queues := before + more;
      assert events[..last] == events;
      forall k | 0 <= k < |states| ensures Refines(d, states[k], Spooled(events[..k]), queues[2 * k]) {
        if k < last { assert events[..last - 1][..k] == events[..k]; }
      }
    }
  }

  lemma NothingSpooled()
    ensures Spooled([]) == []
  {}

  /** At every point k of every run: the outbox is exactly the records spooled
      so far and not yet done with, in order and numbered; every deliverable
      record done with is in the logbook; and the logbook is a prefix of the
      spooled records, each identity once, and all of them once the outbox is
      empty. */
  lemma NothingLostOrRepeated(d: Decoder, states: seq<State>, events: seq<Option<string>>, k: nat) returns (acked: nat)
    requires Execution(d, states, events) && k < |states|
    ensures var s, records := states[k], Spooled(events[..k]);
      && s.nextId == |records| && acked + |s.outbox| == |records|
      && (forall i :: 0 <= i < |s.outbox| ==> s.outbox[i] == OutboxEntry(acked + i + 1, records[acked + i]))
      && (forall i :: 0 <= i < acked && d(records[i]).Some? ==> d(records[i]).value in s.logbook)
      && s.logbook <= Logged(Items(d, records))
      && (s.outbox == [] ==> s.logbook == Logged(Items(d, records)))
  {
    hide Step, Fifo.Run, Logged, Spooled;
    var queues := ExecutionRefines(d, states, events);
    Fifo.ExactlyOnce(queues, 2 * k);
    var records, q := Spooled(events[..k]), queues[2 * k];
    acked := q.acked;
    forall i | 0 <= i < acked && d(records[i]).Some? ensures d(records[i]).value in states[k].logbook {
      assert q.appended[i] == d(records[i]);
    }
  }

  // ---- The code ----

  class Store {
    var consents: map<string, string>
    var outbox: seq<OutboxEntry>
    var nextOutboxId: nat

    constructor ()
      ensures consents == map[] && outbox == [] && nextOutboxId == 0
    {
      consents, outbox, nextOutboxId := map[], [], 0;
    }

    /** Create: the consent and its record in one step. */
    method Create(id: string, consent: string, record: string)
      modifies this
      ensures consents == old(consents)[id := consent]
      ensures Spools(old(outbox), old(nextOutboxId), record)
    {
      consents := consents[id := consent];
      AppendLocked(record);
    }

    /** The outbox and its counter are what Appended makes of the old ones. */
    ghost predicate Spools(outbox0: seq<OutboxEntry>, next0: nat, record: string)
      reads this
    {
      forall logbook, worker ::
        State(outbox, nextOutboxId, logbook, worker) == Appended(State(outbox0, next0, logbook, worker), record)
    }

    method AppendLocked(record: string)
      modifies this`outbox, this`nextOutboxId
      ensures Spools(old(outbox), old(nextOutboxId), record)
    {
      if |record| == 0 { return; }
      nextOutboxId := nextOutboxId + 1;
      outbox := outbox + [OutboxEntry(nextOutboxId, record)];
    }

    method AppendRecord(record: string)
      modifies this`outbox, this`nextOutboxId
      ensures Spools(old(outbox), old(nextOutboxId), record)
    {
      AppendLocked(record);
    }

    method PendingRecords(limit: nat) returns (entries: seq<OutboxEntry>)
      ensures entries == Pending(outbox, limit)
    {
      var n := limit;
      if n > |outbox| { n := |outbox|; }
      entries := outbox[..n];
    }

    method MarkDelivered(id: nat)
      modifies this`outbox
      ensures outbox == Without(old(outbox), id)
    {
      for index := 0 to |outbox|
        invariant outbox == old(outbox)
        invariant Without(outbox, id) == outbox[..index] + Without(outbox[index..], id)
      {
        if outbox[index].id == id {
          assert outbox[index..][1..] == outbox[index + 1..];
          outbox := outbox[..index] + outbox[index + 1..];
          return;
        }
        var e := outbox[index];
        assert outbox[index..] == [e] + outbox[index + 1..];
        assert outbox[..index + 1] == outbox[..index] + [e];
      }
      assert outbox[..|outbox|] + [] == outbox;
    }
  }

  ghost function Decoded(decode: Decoder, entries: seq<OutboxEntry>): seq<Item> {
    seq(|entries|, i requires 0 <= i < |entries| => decode(entries[i].record))
  }

  /** deliverOutbox over one batch. Every outcome is a run of the steps above
      that appends nothing. It stops with an error only where a post is not
      confirmed, and what was delivered before has left the outbox. */
  method DeliverOutbox(decode: Decoder, store: Store, logbook: Spool.Logbook)
    returns (ok: bool, ghost trace: seq<State>, ghost k: nat)
    modifies store`outbox, logbook
    ensures Traced(decode, trace, old(State(store.outbox, store.nextOutboxId, logbook.records, Resting)),
                   State(store.outbox, store.nextOutboxId, logbook.records, Resting))
    ensures old(logbook.posts) <= logbook.posts
    ensures Spool.Delivered(Decoded(decode, old(Pending(store.outbox, BATCH_SIZE))), k, ok,
                            logbook.posts[|old(logbook.posts)|..], Spool.Successes(k))
    ensures store.outbox == old(store.outbox)[k..]
    ensures k <= 100 && (ok ==> k == |old(store.outbox)| || k == 100)
  {
    hide Steps, InnerStep, Accepts;
    ghost var first := State(store.outbox, store.nextOutboxId, logbook.records, Resting);
    var entries := store.PendingRecords(BATCH_SIZE);
    ghost var items := Decoded(decode, entries);
    trace := StartTrace(decode, first, entries);
    for index := 0 to |entries|
      invariant store.nextOutboxId == old(store.nextOutboxId)
      invariant store.outbox == old(store.outbox)[index..]
      invariant logbook.posts == old(logbook.posts) + Spool.Confirmed(items[..index])
      invariant Traced(decode, trace, first,
                       State(store.outbox, store.nextOutboxId, logbook.records, Delivering(entries, index, false)))
    {
      ghost var at := State(store.outbox, store.nextOutboxId, logbook.records, Delivering(entries, index, false));
      k := index;
      Spool.ConfirmedNext(items, index);
      hide Spool.Confirmed;
      var record := decode(entries[index].record);
      if record.Some? {
        var posted := logbook.Post(record.value);
        ghost var now := at.(logbook := logbook.records,
                             worker := if posted then Delivering(entries, index, true) else Resting);
        assert if posted then PostStep(decode, at, now) else PostFails(decode, at, now);
        trace := Extend(decode, trace, first, at, now);
        if !posted { return false, trace, k; }
        at := now;
      }
      store.MarkDelivered(entries[index].id);
      ghost var after := at.(outbox := store.outbox, worker := Delivering(entries, index + 1, false));
      assert MarkStep(decode, at, after);
      trace := Extend(decode, trace, first, at, after);
    }
    ghost var last := State(store.outbox, store.nextOutboxId, logbook.records, Delivering(entries, |entries|, false));
    trace := Extend(decode, trace, first, last, last.(worker := Resting));
    assert items[..|entries|] == items;
    return true, trace, |entries|;
  }

  ghost predicate Traced(d: Decoder, trace: seq<State>, first: State, last: State) {
    Steps(d, trace) && trace[0] == first && trace[|trace| - 1] == last
  }

  lemma StartTrace(d: Decoder, s: State, entries: seq<OutboxEntry>) returns (trace: seq<State>)
    requires s.worker.Resting? && entries == Pending(s.outbox, BATCH_SIZE)
    ensures Traced(d, trace, s, s.(worker := Delivering(entries, 0, false)))
  {
    trace := [s, s.(worker := Delivering(entries, 0, false))];
    assert BeginStep(trace[0], trace[1]);
  }

  lemma Extend(d: Decoder, trace: seq<State>, first: State, last: State, s: State) returns (longer: seq<State>)
    requires Traced(d, trace, first, last)
    requires PostStep(d, last, s) || PostFails(d, last, s) || MarkStep(d, last, s) || StopStep(last, s)
    ensures Traced(d, longer, first, s)
  {
    longer := trace + [s];
    assert InnerStep(d, last, s);
  }
}
