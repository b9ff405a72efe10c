/** The queue both LDV outboxes are meant to be: records go to the logbook in
    the order they were appended, each once, whatever is replayed. */
module Fifo {
  import opened Base

  /** One LDV record; (trace, span) is what the logbook keys on. */
  datatype Record = Record(trace: string, span: string, body: string)

  predicate SameIdentity(a: Record, b: Record) { a.trace == b.trace && a.span == b.span }

  /** What was appended: a record, or bytes that can never be delivered. */
  type Item = Option<Record>

  predicate Holds(logbook: seq<Record>, r: Record) {
    exists i :: 0 <= i < |logbook| && SameIdentity(logbook[i], r)
  }

  /** Whether the logbook answers a post with success: its identity is free, or
      held by the very same record. */
  predicate Accepts(logbook: seq<Record>, r: Record) {
    Holds(logbook, r) ==> r in logbook
  }

  function Stored(logbook: seq<Record>, r: Record): seq<Record> {
    if Holds(logbook, r) then logbook else logbook + [r]
  }

  /** The appended records in order, each identity once. */
  function Logged(items: seq<Item>): seq<Record> {
    if items == [] then []
    else
      var before := Logged(items[..|items| - 1]);
      match items[|items| - 1]
      case None => before
      case Some(r) => Stored(before, r)
  }

  /** delivered counts the items the logbook has taken or that cannot be
      delivered, acked the items the outbox considers done with. */
  datatype Queue = Queue(appended: seq<Item>, delivered: nat, acked: nat, logbook: seq<Record>)

  ghost predicate Inv(q: Queue) {
    && q.acked <= q.delivered <= |q.appended|
    && q.logbook == Logged(q.appended[..q.delivered])
    && (forall i :: 0 <= i < q.delivered && q.appended[i].Some? ==> q.appended[i].value in q.logbook)
  }

  ghost predicate Init(q: Queue) { q == Queue([], 0, 0, []) }

  ghost predicate Append(q: Queue, q': Queue, item: Item) {
    q' == q.(appended := q.appended + [item])
  }

  /** The next item reaches the logbook, or is passed over. */
  ghost predicate Deliver(q: Queue, q': Queue) {
    && q.delivered < |q.appended|
    && match q.appended[q.delivered]
       case None => q' == q.(delivered := q.delivered + 1)
       case Some(r) =>
         && Accepts(q.logbook, r)
         && q' == q.(delivered := q.delivered + 1, logbook := Stored(q.logbook, r))
  }

  ghost predicate Ack(q: Queue, q': Queue) {
    q'.acked <= q.delivered && q' == q.(acked := q'.acked)
  }

  ghost predicate Next(q: Queue, q': Queue) {
    || q' == q
    || (exists item :: Append(q, q', item))
    || Deliver(q, q')
    || Ack(q, q')
  }

  lemma AcceptedStays(logbook: seq<Record>, r: Record)
    requires Accepts(logbook, r)
    ensures r in Stored(logbook, r)
    ensures forall x :: x in logbook ==> x in Stored(logbook, r)
  {
    if !Holds(logbook, r) { assert Stored(logbook, r)[|logbook|] == r; }
  }

  lemma DeliverKeepsInv(q: Queue, q': Queue)
    requires Inv(q) && Deliver(q, q')
    ensures Inv(q')
  {
    var n := q.delivered;
    assert q.appended[..n + 1][..n] == q.appended[..n];
    assert q.appended[..n + 1][n] == q.appended[n];
    if q.appended[n].Some? { AcceptedStays(q.logbook, q.appended[n].value); }
  }

  lemma NextKeepsInv(q: Queue, q': Queue)
    requires Inv(q) && Next(q, q')
    ensures Inv(q')
  {
    hide Accepts, Logged;
    if Deliver(q, q') {
      DeliverKeepsInv(q, q');
    } else if exists item :: Append(q, q', item) {
      var item :| Append(q, q', item);
      assert q'.appended[..q.delivered] == q.appended[..q.delivered];
    }
  }

  /** A record the logbook has already taken is taken again without effect. */
  lemma ReplayIsHarmless(q: Queue, i: nat)
    requires Inv(q) && i < q.delivered && q.appended[i].Some?
    ensures var r := q.appended[i].value; Accepts(q.logbook, r) && Stored(q.logbook, r) == q.logbook
  {
    var r := q.appended[i].value;
    var k :| 0 <= k < |q.logbook| && q.logbook[k] == r;
    assert SameIdentity(q.logbook[k], r);
  }

  // ---- Whole runs ----

  ghost predicate Run(states: seq<Queue>) {
    && states != [] && Init(states[0])
    && forall i :: 0 < i < |states| ==> Next(states[i - 1], states[i])
  }

  lemma {:induction false} RunKeepsInv(states: seq<Queue>, k: nat)
    requires Run(states) && k < |states|
    ensures Inv(states[k])
  {
    if k > 0 {
      RunKeepsInv(states, k - 1);
      NextKeepsInv(states[k - 1], states[k]);
    }
  }

  lemma {:induction false} LoggedGrows(items: seq<Item>, n: nat)
    requires n <= |items|
    ensures Logged(items[..n]) <= Logged(items)
    decreases |items| - n
  {
    if n == |items| {
      assert items[..n] == items;
    } else {
      assert items[..n + 1][..n] == items[..n];
      LoggedGrows(items, n + 1);
    }
  }

  /** Each identity once: no two entries share one. */
  lemma {:induction false} LoggedOnce(items: seq<Item>, i: nat, j: nat)
    requires i < j < |Logged(items)|
    ensures var r, s := Logged(items)[i], Logged(items)[j]; !(r.trace == s.trace && r.span == s.span)
    decreases |items|
  {
    var before := Logged(items[..|items| - 1]);
    if j < |before| { LoggedOnce(items[..|items| - 1], i, j); }
  }

  /** Every appended record's identity is in the log, and nothing else is. */
  lemma {:induction false} LoggedComplete(items: seq<Item>, n: nat)
    requires n < |items| && items[n].Some?
    ensures Holds(Logged(items), items[n].value)
    ensures exists r :: r in Logged(items) && r.trace == items[n].value.trace && r.span == items[n].value.span
    decreases |items|
  {
    var last := |items| - 1;
    var before := Logged(items[..last]);
    if n < last {
      LoggedComplete(items[..last], n);
      var i :| 0 <= i < |before| && SameIdentity(before[i], items[n].value);
      assert before <= Logged(items);
      assert SameIdentity(Logged(items)[i], items[n].value);
    } else if !Holds(before, items[n].value) {
      assert SameIdentity(Logged(items)[|before|], items[n].value);
    }
  }

  lemma {:induction false} LoggedSound(items: seq<Item>, r: Record)
    requires r in Logged(items)
    ensures Some(r) in items
    decreases |items|
  {
    var last := |items| - 1;
    var before := Logged(items[..last]);
    if r in before {
      LoggedSound(items[..last], r);
    } else {
      assert items[last] == Some(r);
    }
  }

  /** At every point of every run the logbook is a prefix of what was
      appended, deduplicated; what the outbox is done with is in the logbook
      under its own identity; and once everything is delivered the logbook is
      all of it. */
  lemma ExactlyOnce(states: seq<Queue>, k: nat)
    requires Run(states) && k < |states|
    ensures var q := states[k];
      && q.logbook <= Logged(q.appended)
      && q.acked <= q.delivered <= |q.appended|
      && (forall i :: 0 <= i < q.acked && q.appended[i].Some? ==> q.appended[i].value in q.logbook)
      && (q.delivered == |q.appended| ==> q.logbook == Logged(q.appended))
  {
    RunKeepsInv(states, k);
    var q := states[k];
    LoggedGrows(q.appended, q.delivered);
    if q.delivered == |q.appended| { assert q.appended[..q.delivered] == q.appended; }
  }

  lemma {:induction false} AppendOnly(states: seq<Queue>, i: nat, j: nat)
    requires Run(states) && i <= j < |states|
    ensures states[i].appended <= states[j].appended
    ensures states[i].logbook <= states[j].logbook
    ensures states[i].delivered <= states[j].delivered
    decreases j - i
  {
    if i < j {
      AppendOnly(states, i, j - 1);
      assert Next(states[j - 1], states[j]);
    }
  }
}
