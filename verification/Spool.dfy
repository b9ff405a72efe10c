/** The file outbox of ldv-client/outbox.go: JSON lines behind each other, a
    byte offset kept in a file of its own, and a deliverer that may fail or die
    between any two of its steps. */
module Spool {
  import opened Base
  import opened Fifo

  /** json.Marshal and json.Unmarshal of a record. */
  datatype Codec = Codec(encode: Record -> string, decode: string -> Option<Record>)

  /** Encoded records are one line each and decode to what was encoded. */
  ghost predicate Sound(c: Codec) {
    forall r :: Line(c.encode(r)) && c.decode(c.encode(r)) == Some(r)
  }

  /** A line bufio.Scanner returns unchanged. */
  predicate Line(s: string) { s != "" && '\n' !in s && s[|s| - 1] != '\r' }

  /** bufio.ScanLines drops a trailing carriage return. */
  function DropCr(s: string): string {
    if s != "" && s[|s| - 1] == '\r' then s[..|s| - 1] else s
  }

  /** A line that does not decode, or decodes without a span id, is passed over. */
  function ItemOf(c: Codec, line: string): Item {
    match c.decode(line)
    case Some(r) => if r.span == "" then None else Some(r)
    case None => None
  }

  datatype Entry = Entry(item: Item, offset: nat)

  /** undelivered, from the cursor on: each line with the offset it ends at. */
  function Scan(c: Codec, rest: string, position: nat): seq<Entry>
    decreases |rest|
  {
    if rest == "" then []
    else
      var (raw, after, found) := Cut(rest, '\n');
      var line := DropCr(raw);
      var end := position + |line| + 1;
      [Entry(ItemOf(c, line), end)] + Scan(c, after, end)
  }

  ghost function Text(lines: seq<string>): string {
    if lines == [] then "" else Text(lines[..|lines| - 1]) + lines[|lines| - 1] + "\n"
  }

  /** The byte offset after the first k lines. */
  ghost function Offset(lines: seq<string>, k: nat): nat
    requires k <= |lines|
  {
    |Text(lines[..k])|
  }

  /** The entries for lines[k..], as a scan from their start finds them. */
  ghost function Entries(c: Codec, lines: seq<string>, k: nat): seq<Entry>
    requires k <= |lines|
  {
    seq(|lines| - k, i requires 0 <= i < |lines| - k =>
      Entry(ItemOf(c, lines[k + i]), Offset(lines, k + i + 1)))
  }

  lemma {:induction false} TextSplit(lines: seq<string>, k: nat)
    requires k <= |lines|
    ensures |Text(lines[..k])| <= |Text(lines)|
    ensures Text(lines)[..|Text(lines[..k])|] == Text(lines[..k])
    ensures k < |lines| ==>
      && |Text(lines[..k + 1])| == |Text(lines[..k])| + |lines[k]| + 1 <= |Text(lines)|
      && Text(lines)[|Text(lines[..k])|..] == lines[k] + ['\n'] + Text(lines)[|Text(lines[..k + 1])|..]
    decreases |lines| - k
  {
    if k == |lines| {
      assert lines[..k] == lines;
    } else {
      TextSplit(lines, k + 1);
      var t, a, b := Text(lines), Text(lines[..k]), Text(lines[..k + 1]);
      assert lines[..k + 1][..k] == lines[..k];
      assert b == a + (lines[k] + ['\n']);
      assert t == t[..|b|] + t[|b|..];
      assert t[|a|..] == b[|a|..] + t[|b|..];
    }
  }

  lemma {:induction false} ScanLine(c: Codec, line: string, after: string, position: nat)
    requires Line(line)
    ensures var end := position + |line| + 1;
      Scan(c, line + ['\n'] + after, position) == [Entry(ItemOf(c, line), end)] + Scan(c, after, end)
  {
    hide ItemOf, Cut;
    CutAtFirst(line, '\n', after);
  }

  /** A line that ends with a carriage return loses it, and its end offset
      falls short by the one. */
  lemma {:induction false} ScanCarriageReturn(c: Codec, line: string, after: string, position: nat)
    requires '\n' !in line
    ensures var end := position + |line| + 1;
      Scan(c, line + "\r" + ['\n'] + after, position) == [Entry(ItemOf(c, line), end)] + Scan(c, after, end)
  {
    hide ItemOf, Cut;
    CutAtFirst(line + "\r", '\n', after);
    assert DropCr(line + "\r") == line;
  }

  lemma ScanUnfolds(c: Codec, rest: string, position: nat)
    requires rest != ""
    ensures var (raw, after, found) := Cut(rest, '\n');
      var end := position + |DropCr(raw)| + 1;
      && |after| < |rest|
      && Scan(c, rest, position) == [Entry(ItemOf(c, DropCr(raw)), end)] + Scan(c, after, end)
  {
    hide Cut, ItemOf;
  }

  lemma {:induction false} ScanNothing(c: Codec, rest: string, position: nat)
    requires rest == []
    ensures Scan(c, rest, position) == []
  {}

  /** Reading from a line boundary finds exactly the lines behind it. */
  lemma {:induction false} ScanFindsLines(c: Codec, lines: seq<string>, k: nat)
    requires forall i :: 0 <= i < |lines| ==> Line(lines[i])
    requires k <= |lines|
    ensures Offset(lines, k) <= |Text(lines)|
    ensures Scan(c, Text(lines)[Offset(lines, k)..], Offset(lines, k)) == Entries(c, lines, k)
    decreases |lines| - k
  {
    hide Scan, Text, Line, ItemOf;
    TextSplit(lines, k);
    var rest := Text(lines)[Offset(lines, k)..];
    if k == |lines| {
      assert lines[..k] == lines;
      ScanNothing(c, rest, Offset(lines, k));
    } else {
      ScanLine(c, lines[k], Text(lines)[Offset(lines, k + 1)..], Offset(lines, k));
      ScanFindsLines(c, lines, k + 1);
      assert Entries(c, lines, k) == [Entry(ItemOf(c, lines[k]), Offset(lines, k + 1))] + Entries(c, lines, k + 1);
    }
  }

  // ---- The state on disk, in the logbook and in the deliverer ----

  /** The deliverer between two Deliver calls, or inside one: what it read,
      how far it is, and whether the current record has been posted. */
  datatype Worker = Idle | Busy(entries: seq<Entry>, index: nat, posted: bool)

  /** cursor is None while its file is missing or unreadable. */
  datatype State = State(file: string, cursor: Option<nat>, logbook: seq<Record>, worker: Worker)

  function ReadCursor(s: State): nat {
    if s.cursor.Some? then s.cursor.value else 0
  }

  function Waiting(c: Codec, s: State): seq<Entry> {
    var at := ReadCursor(s);
    Scan(c, if at <= |s.file| then s.file[at..] else "", at)
  }

  ghost predicate Fresh(s: State) { s == State("", None, [], Idle) }

  /** Append, as one step: the line is on disk once it returns. */
  ghost predicate AppendStep(c: Codec, s: State, s': State, r: Record) {
    s' == s.(file := s.file + c.encode(r) + "\n")
  }

  ghost predicate BeginStep(c: Codec, s: State, s': State) {
    s.worker.Idle? && s' == s.(worker := Busy(Waiting(c, s), 0, false))
  }

  ghost predicate AtRecord(s: State) {
    && s.worker.Busy? && s.worker.index < |s.worker.entries|
    && !s.worker.posted && s.worker.entries[s.worker.index].item.Some?
  }

  /** The logbook confirms the record being delivered. */
  ghost predicate PostStep(s: State, s': State) {
    && AtRecord(s)
    && var r := s.worker.entries[s.worker.index].item.value;
       && Accepts(s.logbook, r)
       && s' == s.(logbook := Stored(s.logbook, r), worker := s.worker.(posted := true))
  }

  /** post fails: unreachable, refused, or stored with the answer lost. */
  ghost predicate PostFails(s: State, s': State) {
    && AtRecord(s)
    && var r := s.worker.entries[s.worker.index].item.value;
       && (s'.logbook == s.logbook || (Accepts(s.logbook, r) && s'.logbook == Stored(s.logbook, r)))
       && s' == s.(logbook := s'.logbook, worker := Idle)
  }

  /** writeCursor past the current line: renamed into place, so whole. */
  ghost predicate AdvanceStep(s: State, s': State) {
    && s.worker.Busy? && s.worker.index < |s.worker.entries|
    && var e := s.worker.entries[s.worker.index];
       && (e.item.None? || s.worker.posted)
       && s' == s.(cursor := Some(e.offset), worker := Busy(s.worker.entries, s.worker.index + 1, false))
  }

  /** Deliver returns, with or without an error, or the process dies. */
  ghost predicate StopStep(s: State, s': State) { s' == s.(worker := Idle) }

  /** The cursor file disappears or becomes unreadable. */
  ghost predicate LoseCursorStep(s: State, s': State) { s' == s.(cursor := None) }

  /** What the deliverer, a crash or a lost cursor does: nothing is appended. */
  ghost predicate InnerStep(c: Codec, s: State, s': State) {
    || BeginStep(c, s, s')
    || PostStep(s, s')
    || PostFails(s, s')
    || AdvanceStep(s, s')
    || StopStep(s, s')
    || LoseCursorStep(s, s')
  }

  /** A step together with what it appends: a record, or nothing. */
  ghost predicate Step(c: Codec, s: State, s': State, event: Option<Record>) {
    match event
    case Some(r) => AppendStep(c, s, s', r)
    case None => InnerStep(c, s, s')
  }

  // ---- The queue a state stands for ----

  ghost function Items(c: Codec, lines: seq<string>): seq<Item> {
    seq(|lines|, i requires 0 <= i < |lines| => ItemOf(c, lines[i]))
  }

  /** The number of whole lines before the cursor. */
  ghost predicate CursorAt(s: State, lines: seq<string>, k: nat) {
    k <= |lines| && ReadCursor(s) == Offset(lines, k)
  }

  ghost predicate WorkerOk(c: Codec, worker: Worker, lines: seq<string>, delivered: nat, first: nat) {
    worker.Busy? ==>
      && worker.index <= |worker.entries|
      && first + |worker.entries| <= |lines|
      && first + worker.index + (if worker.posted then 1 else 0) <= delivered
      && (worker.posted ==> worker.index < |worker.entries|)
      && forall i :: 0 <= i < |worker.entries| ==>
           worker.entries[i] == Entry(ItemOf(c, lines[first + i]), Offset(lines, first + i + 1))
  }

  /** With these lines appended, the state stands for the queue q: the file is
      the lines, the cursor a line boundary with q.acked lines before it, and
      the deliverer works on lines of the file, in order, behind what is
      delivered. */
  ghost predicate Refines(c: Codec, s: State, lines: seq<string>, q: Queue) {
    && s.file == Text(lines)
    && (forall i :: 0 <= i < |lines| ==> Line(lines[i]))
    && q == Queue(Items(c, lines), q.delivered, q.acked, s.logbook)
    && Fifo.Inv(q)
    && CursorAt(s, lines, q.acked)
    && (exists first :: WorkerOk(c, s.worker, lines, q.delivered, first))
  }

  lemma OffsetOfPrefix(lines: seq<string>, line: string, k: nat)
    requires k <= |lines|
    ensures Offset(lines + [line], k) == Offset(lines, k)
  {
    assert (lines + [line])[..k] == lines[..k];
  }

  lemma InitRefines(c: Codec, s: State)
    requires Fresh(s)
    ensures Refines(c, s, [], Queue([], 0, 0, [])) && Fifo.Init(Queue([], 0, 0, []))
  {
    assert WorkerOk(c, s.worker, [], 0, 0);
    assert Offset([], 0) == 0;
    assert Items(c, []) == [];
  }

  /** What the deliverer read is still there when a line comes behind it. */
  lemma WorkerKeeps(c: Codec, worker: Worker, lines: seq<string>, line: string, delivered: nat, first: nat)
    requires WorkerOk(c, worker, lines, delivered, first)
    ensures WorkerOk(c, worker, lines + [line], delivered, first)
  {
    hide Offset, ItemOf;
    if worker.Busy? {
      forall i | 0 <= i < |worker.entries|
        ensures worker.entries[i] == Entry(ItemOf(c, (lines + [line])[first + i]), Offset(lines + [line], first + i + 1))
      {
        OffsetOfPrefix(lines, line, first + i + 1);
      }
    }
  }

  lemma AppendRefines(c: Codec, s: State, s': State, r: Record, lines: seq<string>, q: Queue) returns (q': Queue)
    requires Sound(c) && Refines(c, s, lines, q) && AppendStep(c, s, s', r)
    ensures Refines(c, s', lines + [c.encode(r)], q') && Fifo.Append(q, q', ItemOf(c, c.encode(r)))
  {
    hide Line, ItemOf, Logged, WorkerOk;
    var line := c.encode(r);
    var longer := lines + [line];
    q' := q.(appended := q.appended + [ItemOf(c, line)]);
    assert longer[..|lines|] == lines;
    assert Items(c, longer) == q'.appended;
    Fifo.NextKeepsInv(q, q') by { assert Fifo.Append(q, q', ItemOf(c, line)); }
    OffsetOfPrefix(lines, line, q.acked);
    var first: nat :| WorkerOk(c, s.worker, lines, q.delivered, first);
    WorkerKeeps(c, s.worker, lines, line, q.delivered, first);
  }

  lemma BeginRefines(c: Codec, s: State, s': State, lines: seq<string>, q: Queue)
    requires Refines(c, s, lines, q) && BeginStep(c, s, s')
    ensures Refines(c, s', lines, q)
  {
    hide Text, Line, Logged, Items, Scan;
    ScanFindsLines(c, lines, q.acked);
    assert WorkerOk(c, s'.worker, lines, q.delivered, q.acked);
  }

  /** The logbook takes the current record: the next one of the queue, or one
      it had taken before. */
  lemma TakenRefines(c: Codec, s: State, lines: seq<string>, q: Queue, first: nat) returns (q': Queue)
    requires Refines(c, s, lines, q) && WorkerOk(c, s.worker, lines, q.delivered, first) && AtRecord(s)
    requires Accepts(s.logbook, s.worker.entries[s.worker.index].item.value)
    ensures var r := s.worker.entries[s.worker.index].item.value;
      var s' := s.(logbook := Stored(s.logbook, r), worker := s.worker.(posted := true));
      Refines(c, s', lines, q') && Refines(c, s'.(worker := Idle), lines, q') && Fifo.Next(q, q')
  {
    var at := first + s.worker.index;
    var r := s.worker.entries[s.worker.index].item.value;
    assert q.appended[at] == Some(r);
    q' := q;
    if at < q.delivered {
      Fifo.ReplayIsHarmless(q, at);
    } else {
      q' := q.(delivered := at + 1, logbook := Stored(q.logbook, r));
      assert Fifo.Deliver(q, q');
      Fifo.NextKeepsInv(q, q');
    }
    assert WorkerOk(c, s.worker.(posted := true), lines, q'.delivered, first);
    assert WorkerOk(c, Idle, lines, q'.delivered, first);
  }

  lemma AdvanceRefines(c: Codec, s: State, s': State, lines: seq<string>, q: Queue) returns (qs: seq<Queue>)
    requires Refines(c, s, lines, q) && AdvanceStep(s, s')
    ensures |qs| == 2 && Fifo.Next(q, qs[0]) && Fifo.Next(qs[0], qs[1]) && Refines(c, s', lines, qs[1])
  {
    var first: nat :| WorkerOk(c, s.worker, lines, q.delivered, first);
    var at := first + s.worker.index;
    var mid := q;
    if at == q.delivered {
      assert q.appended[at] == None;
      mid := q.(delivered := at + 1);
      assert Fifo.Deliver(q, mid);
      Fifo.NextKeepsInv(q, mid);
    }
    var q' := mid.(acked := at + 1);
    assert Fifo.Ack(mid, q');
    Fifo.NextKeepsInv(mid, q');
    qs := [mid, q'];
    assert WorkerOk(c, s'.worker, lines, q'.delivered, first);
  }

  lemma InnerRefines(c: Codec, s: State, s': State, lines: seq<string>, q: Queue) returns (qs: seq<Queue>)
    requires Refines(c, s, lines, q) && InnerStep(c, s, s')
    ensures |qs| == 2 && Fifo.Next(q, qs[0]) && Fifo.Next(qs[0], qs[1]) && Refines(c, s', lines, qs[1])
  {
    hide Fifo.Inv, Accepts;
    var first: nat :| WorkerOk(c, s.worker, lines, q.delivered, first);
    qs := [q, q];
    if BeginStep(c, s, s') {
      BeginRefines(c, s, s', lines, q);
    } else if PostStep(s, s') || (PostFails(s, s') && s'.logbook != s.logbook) {
      var q' := TakenRefines(c, s, lines, q, first);
      qs := [q, q'];
    } else if AdvanceStep(s, s') {
      qs := AdvanceRefines(c, s, s', lines, q);
    } else if LoseCursorStep(s, s') {
      var q' := q.(acked := 0);
      assert Fifo.Ack(q, q');
      Fifo.NextKeepsInv(q, q');
      qs := [q, q'];
      assert lines[..0] == [];
    } else {
      assert WorkerOk(c, s'.worker, lines, q.delivered, first);
    }
  }

  // ---- Whole runs ----

  /** The records the events append, in order. */
  ghost function Records(events: seq<Option<Record>>): seq<Record> {
    if events == [] then []
    else
      var before, last := Records(events[..|events| - 1]), events[|events| - 1];
      if last.Some? then before + [last.value] else before
  }

  ghost function Encoded(c: Codec, records: seq<Record>): (lines: seq<string>)
    ensures |lines| == |records| && forall i :: 0 <= i < |lines| ==> lines[i] == c.encode(records[i])
  {
    seq(|records|, i requires 0 <= i < |records| => c.encode(records[i]))
  }

  /** What an appended record is to the queue: one without a span id is never
      delivered. */
  function Sent(r: Record): Item { if r.span == "" then None else Some(r) }

  ghost function AllSent(records: seq<Record>): seq<Item> {
    seq(|records|, i requires 0 <= i < |records| => Sent(records[i]))
  }

  ghost predicate Steps(c: Codec, states: seq<State>) {
    && states != []
    && forall i :: 0 < i < |states| ==> InnerStep(c, states[i - 1], states[i])
  }

  /** A run from the empty outbox; events[i] is what its step i appends. */
  ghost predicate Execution(c: Codec, states: seq<State>, events: seq<Option<Record>>) {
    && |states| == |events| + 1 && Fresh(states[0])
    && forall i :: 0 <= i < |events| ==> Step(c, states[i], states[i + 1], events[i])
  }

  /** Every step of the outbox is at most two steps of the queue, and the queue
      grows by the record appended and by nothing else. */
  lemma StepRefines(c: Codec, s: State, s': State, events: seq<Option<Record>>, q: Queue) returns (qs: seq<Queue>)
    requires Sound(c) && events != [] && Step(c, s, s', events[|events| - 1])
    requires Refines(c, s, Encoded(c, Records(events[..|events| - 1])), q)
    ensures |qs| == 2 && Fifo.Next(q, qs[0]) && Fifo.Next(qs[0], qs[1])
    ensures Refines(c, s', Encoded(c, Records(events)), qs[1])
  {
    hide Sound, Refines, InnerStep, AppendStep, ItemOf, Fifo.Deliver;
    var before, event := Records(events[..|events| - 1]), events[|events| - 1];
    if event.Some? {
      var q' := AppendRefines(c, s, s', event.value, Encoded(c, before), q);
      assert Encoded(c, before + [event.value]) == Encoded(c, before) + [c.encode(event.value)];
      qs := [q, q'];
    } else {
      qs := InnerRefines(c, s, s', Encoded(c, before), q);
    }
  }

  /** A run of the outbox is a run of the queue: state k stands for queue 2k,
      to which exactly the records appended before k were appended. */
  lemma {:induction false} RunRefines(c: Codec, states: seq<State>, events: seq<Option<Record>>)
    returns (queues: seq<Queue>)
    requires Sound(c) && Execution(c, states, events)
    ensures Fifo.Run(queues) && |queues| == 2 * |events| + 1
    ensures forall k :: 0 <= k < |states| ==> Refines(c, states[k], Encoded(c, Records(events[..k])), queues[2 * k])
    decreases |events|
  {
    hide Sound, Refines, Step, Fifo.Next, Fifo.Init, Records;
    var last := |events|;
    if last == 0 {
      NoRecords();
      InitRefines(c, states[0]);
      queues := [Queue([], 0, 0, [])];
      assert Encoded(c, []) == [];
    } else {
      var before := RunRefines(c, states[..last], events[..last - 1]);
      assert events[..last - 1][..last - 1] == events[..last - 1];
      assert Step(c, states[last - 1], states[last], events[last - 1]);
      var more := StepRefines(c, states[last - 1], states[last], events, before[|before| - 1]);
      queues := before + more;
      assert events[..last] == events;
      forall k | 0 <= k < |states| ensures Refines(c, states[k], Encoded(c, Records(events[..k])), queues[2 * k]) {
        if k < last { assert events[..last - 1][..k] == events[..k]; }
      }
    }
  }

  lemma NoRecords()
    ensures Records([]) == []
  {}

  lemma SentItems(c: Codec, records: seq<Record>)
    requires Sound(c)
    ensures Items(c, Encoded(c, records)) == AllSent(records)
  {}

  /** At every point k of every run, with the deliverer failing or dying
      anywhere: the file is exactly the records appended so far, one line each;
      the cursor stands on a line boundary, and each record before it is in the
      logbook; reading from the cursor finds each record behind it; and the
      logbook is a prefix of the appended records, each identity once. */
  lemma NothingLostOrRepeated(c: Codec, states: seq<State>, events: seq<Option<Record>>, k: nat) returns (acked: nat)
    requires Sound(c) && Execution(c, states, events) && k < |states|
    ensures var s, records := states[k], Records(events[..k]);
      && s.file == Text(Encoded(c, records))
      && acked <= |records| && ReadCursor(s) == Offset(Encoded(c, records), acked)
      && (forall i :: 0 <= i < acked && records[i].span != "" ==> records[i] in s.logbook)
      && Waiting(c, s) == Entries(c, Encoded(c, records), acked)
      && s.logbook <= Logged(AllSent(records))
  {
    hide Step, Text, Fifo.Run, Logged, Offset, ItemOf;
    var queues := RunRefines(c, states, events);
    Fifo.ExactlyOnce(queues, 2 * k);
    var records, q := Records(events[..k]), queues[2 * k];
    SentItems(c, records);
    ScanFindsLines(c, Encoded(c, records), q.acked);
    acked := q.acked;
    forall i | 0 <= i < acked && records[i].span != "" ensures records[i] in states[k].logbook {
      assert q.appended[i] == Some(records[i]);
    }
  }

  /** An appended record reaches the logbook as itself unless it has no span
      id: such a record is passed over and never delivered. */
  lemma AppendedItem(c: Codec, r: Record)
    requires Sound(c)
    ensures ItemOf(c, c.encode(r)) == Some(r) <==> r.span != ""
  {}

  lemma {:induction false} OffsetsGrow(lines: seq<string>, j: nat, k: nat)
    requires j < k <= |lines|
    ensures Offset(lines, j) < Offset(lines, k)
  {
    TextSplit(lines, k - 1);
    if j < k - 1 { OffsetsGrow(lines, j, k - 1); }
  }

  /** Once the cursor is at the end of the file, everything appended in the run
      so far is in the logbook. */
  lemma Drained(c: Codec, states: seq<State>, events: seq<Option<Record>>, k: nat)
    requires Sound(c) && Execution(c, states, events) && k < |states|
    requires ReadCursor(states[k]) == |states[k].file|
    ensures states[k].logbook == Logged(AllSent(Records(events[..k])))
  {
    hide Step, Text, Fifo.Run, Logged, ItemOf;
    var queues := RunRefines(c, states, events);
    var records, q := Records(events[..k]), queues[2 * k];
    SentItems(c, records);
    var lines := Encoded(c, records);
    assert lines[..|lines|] == lines;
    if q.acked < |lines| { OffsetsGrow(lines, q.acked, |lines|); }
    assert q.appended[..q.delivered] == q.appended;
  }

  // ---- The code ----

  /** A post, and whether the logbook confirmed it. */
  datatype Attempt = Attempt(record: Record, confirmed: bool)

  /** The posts of records that are all confirmed, in order. */
  ghost function Confirmed(items: seq<Item>): seq<Attempt> {
    if items == [] then []
    else
      var last := items[|items| - 1];
      Confirmed(items[..|items| - 1]) + if last.Some? then [Attempt(last.value, true)] else []
  }

  lemma {:induction false} ConfirmedNext(items: seq<Item>, k: nat)
    requires k < |items|
    ensures Confirmed(items[..k + 1]) == Confirmed(items[..k]) + if items[k].Some? then [Attempt(items[k].value, true)] else []
  {
    assert items[..k + 1][..k] == items[..k];
  }

  /** Success, for each of the first k. */
  function Successes(k: nat): seq<bool> { seq(k, i => true) }

  lemma SuccessesNext(k: nat)
    ensures Successes(k + 1) == Successes(k) + [true]
  {}

  lemma NothingYet(items: seq<Item>)
    ensures Confirmed(items[..0]) == [] && Successes(0) == []
  {}

  /** A delivery that got past the first k items: it posts their records in
      order, and after each it does what follows. It succeeds when nothing is
      left; it fails when the next post is not confirmed, or what follows it
      does not succeed. */
  ghost predicate Delivered(items: seq<Item>, k: nat, ok: bool, posts: seq<Attempt>, follows: seq<bool>) {
    && k <= |items|
    && if ok then k == |items| && posts == Confirmed(items) && follows == Successes(k)
       else
         && k < |items|
         && (|| (items[k].Some? && posts == Confirmed(items[..k]) + [Attempt(items[k].value, false)] && follows == Successes(k))
             || (posts == Confirmed(items[..k + 1]) && follows == Successes(k) + [false]))
  }

  /** The logbook behind its API: a post may fail before or after it is stored. */
  class Logbook {
    var records: seq<Record>
    /** Every post so far, in order. */
    ghost var posts: seq<Attempt>

    constructor ()
      ensures records == [] && posts == []
    {
      records, posts := [], [];
    }

    method Post(r: Record) returns (ok: bool)
      modifies this
      ensures posts == old(posts) + [Attempt(r, ok)]
      ensures ok ==> Accepts(old(records), r) && records == Stored(old(records), r)
      ensures records == old(records) || (Accepts(old(records), r) && records == Stored(old(records), r))
    {
      var arrives: bool, answers: bool := *, *;
      ok := arrives && Accepts(records, r) && answers;
      if arrives && Accepts(records, r) { records := Stored(records, r); }
      posts := posts + [Attempt(r, ok)];
    }
  }

  /** The loop over the spool's lines. */
  method ReadLines(c: Codec, text: string, start: nat) returns (entries: seq<Entry>)
    ensures entries == Scan(c, text, start)
  {
    hide Scan, Cut, ItemOf, DropCr;
    var rest, position: nat := text, start;
    entries := [];
    while rest != ""
      invariant Scan(c, text, start) == entries + Scan(c, rest, position)
      decreases |rest|
    {
      ScanUnfolds(c, rest, position);
      var (raw, after, found) := Cut(rest, '\n');
      var line := DropCr(raw);
      position := position + |line| + 1;
      var entry := Entry(ItemOf(c, line), position);
      Regroup(entries, [entry], Scan(c, after, position));
      entries := entries + [entry];
      rest := after;
    }
    ScanNothing(c, rest, position);
  }

  class Outbox {
    const codec: Codec
    const client: Logbook
    var file: string
    var cursor: Option<nat>
    /** Whether each write of the cursor so far succeeded. */
    ghost var writes: seq<bool>

    constructor (codec: Codec, client: Logbook)
      requires client.records == []
      ensures this.codec == codec && this.client == client
      ensures Fresh(Now())
    {
      this.codec, this.client, file, cursor, writes := codec, client, "", None, [];
    }

    function Now(): State
      reads this, client
    {
      State(file, cursor, client.records, Idle)
    }

    method Append(r: Record)
      modifies this
      ensures AppendStep(codec, old(Now()), Now(), r)
    {
      file := file + codec.encode(r) + "\n";
    }

    /** undelivered: the lines after the cursor, with the offset each ends at. */
    method Undelivered() returns (entries: seq<Entry>)
      ensures entries == Waiting(codec, Now())
      ensures cursor.Some? && cursor.value >= |file| ==> entries == []
    {
      var at := ReadCursor(Now());
      entries := ReadLines(codec, if at <= |file| then file[at..] else "", at);
    }

    /** writeCursor: all or nothing, the temporary file is renamed into place. */
    method WriteCursor(offset: nat) returns (ok: bool)
      modifies this`cursor, this`writes
      ensures ok ==> cursor == Some(offset)
      ensures !ok ==> cursor == old(cursor)
      ensures writes == old(writes) + [ok]
    {
      ok := *;
      if ok { cursor := Some(offset); }
      writes := writes + [ok];
    }

    /** Deliver: every waiting record, oldest first, the cursor behind each.
        Whatever happens is a run of the steps above. It stops with an error
        only where a post is not confirmed or the cursor is not written, and the
        cursor stands behind what was delivered before. */
    method Deliver() returns (ok: bool, ghost trace: seq<State>, ghost k: nat)
      modifies this`cursor, this`writes, client
      ensures Steps(codec, trace) && trace[0] == old(Now()) && trace[|trace| - 1] == Now()
      ensures old(client.posts) <= client.posts && old(writes) <= writes
      ensures var entries := old(Waiting(codec, Now()));
        && Delivered(ItemsIn(entries), k, ok, client.posts[|old(client.posts)|..], writes[|old(writes)|..])
        && ReadCursor(Now()) == if k == 0 then old(ReadCursor(Now())) else entries[k - 1].offset
    {
      hide Steps, InnerStep, Waiting, Accepts, Confirmed, Successes;
      var entries := Undelivered();
      ghost var items := ItemsIn(entries);
      NothingYet(items);
      trace := StartTrace(codec, Now(), entries);
      for index := 0 to |entries|
        invariant Traced(codec, trace, old(Now()), Now().(worker := Busy(entries, index, false)))
        invariant file == old(file)
        invariant client.posts == old(client.posts) + Confirmed(items[..index])
        invariant writes == old(writes) + Successes(index)
        invariant ReadCursor(Now()) == if index == 0 then old(ReadCursor(Now())) else entries[index - 1].offset
      {
        ghost var at := Now().(worker := Busy(entries, index, false));
        k := index;
        ConfirmedNext(items, index);
        SuccessesNext(index);
        if entries[index].item.Some? {
          var posted := client.Post(entries[index].item.value);
          if !posted {
            assert PostFails(at, Now());
            trace := Extend(codec, trace, old(Now()), at, Now());
            return false, trace, k;
          }
          ghost var now := Now().(worker := Busy(entries, index, true));
          assert PostStep(at, now);
          trace := Extend(codec, trace, old(Now()), at, now);
          at := now;
        }
        var written := WriteCursor(entries[index].offset);
        ghost var after := if written then Now().(worker := Busy(entries, index + 1, false)) else Now();
        assert if written then AdvanceStep(at, after) else StopStep(at, after);
        trace := Extend(codec, trace, old(Now()), at, after);
        if !written { return false, trace, k; }
      }
      trace := Extend(codec, trace, old(Now()), Now().(worker := Busy(entries, |entries|, false)), Now());
      assert items[..|entries|] == items;
      return true, trace, |entries|;
    }
  }

  ghost function ItemsIn(entries: seq<Entry>): seq<Item> {
    seq(|entries|, i requires 0 <= i < |entries| => entries[i].item)
  }

  ghost predicate Traced(c: Codec, trace: seq<State>, first: State, last: State) {
    Steps(c, trace) && trace[0] == first && trace[|trace| - 1] == last
  }

  lemma StartTrace(c: Codec, s: State, entries: seq<Entry>) returns (trace: seq<State>)
    requires s.worker.Idle? && entries == Waiting(c, s)
    ensures Traced(c, trace, s, s.(worker := Busy(entries, 0, false)))
  {
    trace := [s, s.(worker := Busy(entries, 0, false))];
    assert BeginStep(c, trace[0], trace[1]);
  }

  lemma Extend(c: Codec, trace: seq<State>, first: State, last: State, s: State) returns (longer: seq<State>)
    requires Traced(c, trace, first, last)
    requires PostStep(last, s) || PostFails(last, s) || AdvanceStep(last, s) || StopStep(last, s)
    ensures Traced(c, longer, first, s)
  {
    longer := trace + [s];
    assert InnerStep(c, last, s);
  }
}
