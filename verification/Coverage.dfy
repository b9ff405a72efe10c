/** The field list covers every execution: whatever object types come back and
    whatever @skip and @include decide, a field that execution selects has a
    record with its path and its name (section 6.3 of the GraphQL
    specification). */
module Coverage {
  import opened Base
  import opened Documents
  import opened Walk

  // ---- Execution ----

  /** What is only known at run time: whether a selection's directives keep it,
      and whether a fragment on a type applies to an object type. */
  datatype Execution = Execution(keeps: (seq<string>, Selection) -> bool, applies: (string, string) -> bool)

  /** CollectFields: the fields selected on an object, in order, and the
      fragments visited; each named fragment counts once. */
  function Collect(c: Context, e: Execution, object_: string, path: seq<string>, sels: seq<Selection>,
                   visited: set<string>, n: nat): (seq<Selection>, set<string>)
    decreases n, sels
  {
    if sels == [] then ([], visited)
    else
      var (first, seen) := CollectOne(c, e, object_, path, sels[0], visited, n);
      var (rest, all) := Collect(c, e, object_, path, sels[1..], seen, n);
      (first + rest, all)
  }

  function CollectOne(c: Context, e: Execution, object_: string, path: seq<string>, s: Selection,
                      visited: set<string>, n: nat): (seq<Selection>, set<string>)
    decreases n, s
  {
    if !e.keeps(path, s) then ([], visited)
    else match s
      case Field(_, _, _, _, _, _) => ([s], visited)
      case Inline(on, inner) =>
        if on != "" && !e.applies(object_, on) then ([], visited)
        else Collect(c, e, object_, path, inner, visited, n)
      case Spread(name) =>
        if name in visited then ([], visited)
        else if name !in c.fragments || !e.applies(object_, c.fragments[name].on) then ([], visited + {name})
        else if c.fragments[name].rank >= n then ([], visited + {name})
        else Collect(c, e, object_, path, c.fragments[name].sels, visited + {name}, c.fragments[name].rank)
  }

  /** The collected fields of one response key. */
  function Group(fields: seq<Selection>, key: string): seq<Selection> {
    if fields == [] then []
    else
      var rest := Group(fields[1..], key);
      if fields[0].Field? && fields[0].alias == key then [fields[0]] + rest else rest
  }

  /** MergeSelectionSets */
  function Merged(fields: seq<Selection>): seq<Selection> {
    if fields == [] then []
    else (if fields[0].Field? then fields[0].sels else []) + Merged(fields[1..])
  }

  /** Execution reaches a field: on an object of some type it collects the
      fields of each response key, executes the first of them, and goes on
      below with their merged selection sets, on objects of any type. The
      meta-field __typename is a leaf. */
  ghost predicate Executes(c: Context, e: Execution, object_: string, sels: seq<Selection>, path: seq<string>,
                           target: seq<string>, field: Selection)
    decreases |target|
  {
    target != [] &&
    var group := Group(Collect(c, e, object_, path, sels, {}, c.bound).0, target[0]);
    group != [] &&
    if |target| == 1 then group[0] == field && field.Field?
    else
      && (forall i :: 0 <= i < |group| ==> group[i].Field? && group[i].name != TYPENAME)
      && exists below: string :: Executes(c, e, below, Merged(group), path + [target[0]], target[1..], field)
  }

  // ---- Every collected field is walked ----

  ghost predicate Among(a: seq<Item>, items: seq<Item>) { forall x :: x in a ==> x in items }

  ghost predicate BelowOne(c: Context, s: Selection, n: nat) {
    match s
    case Field(_, _, _, _, _, inner) => SpreadsBelow(c, inner, n)
    case Inline(_, inner) => SpreadsBelow(c, inner, n)
    case Spread(name) => name in c.fragments ==> c.fragments[name].rank < n
  }

  ghost predicate WalkedAs(c: Context, items: seq<Item>, s: Selection, path: seq<string>,
                           parent: Option<string>, on: string, n: nat)
  {
    BelowOne(c, s, n) && Among(Flatten(c, s, parent, path, on, n), items)
  }

  /** The selection is walked at that path. */
  ghost predicate IsWalked(c: Context, items: seq<Item>, s: Selection, path: seq<string>) {
    exists parent, on, n :: WalkedAs(c, items, s, path, parent, on, n)
  }

  ghost predicate AllWalked(c: Context, items: seq<Item>, sels: seq<Selection>, path: seq<string>) {
    forall i :: 0 <= i < |sels| ==> IsWalked(c, items, sels[i], path)
  }

  lemma {:induction false} BelowApart(c: Context, sels: seq<Selection>, n: nat)
    requires SpreadsBelow(c, sels, n)
    ensures forall i :: 0 <= i < |sels| ==> BelowOne(c, sels[i], n)
  {}

  lemma {:induction false} FlattenedIsWalked(c: Context, items: seq<Item>, sels: seq<Selection>, path: seq<string>,
                                             parent: Option<string>, on: string, n: nat)
    requires SpreadsBelow(c, sels, n) && Among(FlattenAll(c, sels, parent, path, on, n), items)
    ensures AllWalked(c, items, sels, path)
    decreases sels
  {
    hide Flatten, SpreadsBelow, BelowOne;
    if sels != [] {
      BelowApart(c, sels, n);
      assert WalkedAs(c, items, sels[0], path, parent, on, n);
      BelowRest(c, sels, n);
      FlattenedIsWalked(c, items, sels[1..], path, parent, on, n);
      forall i | 0 <= i < |sels| ensures IsWalked(c, items, sels[i], path) {
        if i > 0 { assert sels[i] == sels[1..][i - 1]; }
      }
    }
  }

  lemma {:induction false} BelowRest(c: Context, sels: seq<Selection>, n: nat)
    requires sels != [] && SpreadsBelow(c, sels, n)
    ensures SpreadsBelow(c, sels[1..], n)
  {
    assert forall i :: 0 <= i < |sels[1..]| ==> sels[1..][i] == sels[i + 1];
  }

  /** A field that CollectFields finds among walked selections is walked. */
  lemma {:induction false} CollectedIsWalked(c: Context, items: seq<Item>, e: Execution, object_: string,
                                             path: seq<string>, sels: seq<Selection>, visited: set<string>, n: nat)
    requires NoCycles(c) && AllWalked(c, items, sels, path)
    ensures var r := Collect(c, e, object_, path, sels, visited, n).0;
      AllWalked(c, items, r, path) && forall i :: 0 <= i < |r| ==> r[i].Field?
    decreases n, sels
  {
    hide CollectOne, IsWalked;
    if sels != [] {
      var (first, seen) := CollectOne(c, e, object_, path, sels[0], visited, n);
      CollectedOneIsWalked(c, items, e, object_, path, sels[0], visited, n);
      assert forall i :: 0 <= i < |sels[1..]| ==> sels[1..][i] == sels[i + 1];
      CollectedIsWalked(c, items, e, object_, path, sels[1..], seen, n);
    }
  }

  lemma {:induction false} CollectedOneIsWalked(c: Context, items: seq<Item>, e: Execution, object_: string,
                                                path: seq<string>, s: Selection, visited: set<string>, n: nat)
    requires NoCycles(c) && IsWalked(c, items, s, path)
    ensures var r := CollectOne(c, e, object_, path, s, visited, n).0;
      AllWalked(c, items, r, path) && forall i :: 0 <= i < |r| ==> r[i].Field?
    decreases n, s
  {
    hide Collect, FlattenAll, SpreadsBelow;
    var parent, on, m :| WalkedAs(c, items, s, path, parent, on, m);
    match s {
      case Field(_, _, _, _, _, _) =>
      case Inline(cond, inner) =>
        var t := if cond == "" then parent else TypeNamed(c, cond);
        StepApart(FlattenAll(c, inner, t, path, cond, m), items);
        FlattenedIsWalked(c, items, inner, path, t, cond, m);
        CollectedIsWalked(c, items, e, object_, path, inner, visited, n);
      case Spread(name) =>
        if name in c.fragments && c.fragments[name].rank < n {
          var f := c.fragments[name];
          FragmentBelow(c, name);
          StepApart(FlattenAll(c, f.sels, TypeNamed(c, f.on), path, f.on, f.rank), items);
          FlattenedIsWalked(c, items, f.sels, path, TypeNamed(c, f.on), f.on, f.rank);
          CollectedIsWalked(c, items, e, object_, path, f.sels, visited + {name}, f.rank);
        }
    }
  }

  lemma {:induction false} FragmentBelow(c: Context, name: string)
    requires NoCycles(c) && name in c.fragments
    ensures SpreadsBelow(c, c.fragments[name].sels, c.fragments[name].rank)
  {}

  lemma {:induction false} StepApart(below: seq<Item>, items: seq<Item>)
    requires Among([Step] + below, items)
    ensures Among(below, items)
  {
    assert forall x :: x in below ==> x in [Step] + below;
  }

  lemma {:induction false} GroupFrom(fields: seq<Selection>, key: string)
    ensures forall f :: f in Group(fields, key) ==> f in fields && f.Field? && f.alias == key
  {
    if fields != [] { GroupFrom(fields[1..], key); }
  }

  // ---- Records of walked fields ----

  /** What a successful walk leaves no room for. */
  ghost predicate Emits(items: seq<Item>) {
    forall x :: x in items ==> !x.Broken? && (x.Entry? ==> x.outcome.Emit?)
  }

  lemma {:induction false} CleanEmits(limits: Limits, items: seq<Item>)
    requires Run(limits, START, items).Ok?
    ensures Emits(items) && Run(limits, START, items).state.fields == Records(items)
  {
    hide Run;
    RunIsFirstOffence(limits, items);
    forall x | x in items ensures !x.Broken? && (x.Entry? ==> x.outcome.Emit?) {
      var k :| 0 <= k < |items| && items[k] == x;
      assert Offence(limits, items, k) == None;
    }
  }

  lemma {:induction false} RecordIn(items: seq<Item>, x: Item)
    requires x in items && x.Entry? && x.outcome.Emit?
    ensures x.outcome.record in Records(items)
  {
    if items[0] != x { RecordIn(items[1..], x); }
  }

  /** The record of a field at a path: its name, its alias if one was written,
      and on the parent type recorded the arguments its definition resolves from
      what the field was given. */
  ghost predicate IsRecordOf(c: Context, r: Record, path: seq<string>, field: Selection)
    requires field.Field?
  {
    && r.path == path && r.field == field.name && (r.leaf <==> field.sels == [])
    && r.alias == (if field.alias != field.name || field.written then field.alias else "")
    && r.parentType in c.types
    && (field.name == TYPENAME ==> r.args == map[])
    && (field.name != TYPENAME ==>
          && FieldOf(c.types[r.parentType], field.name).Some?
          && ResolveArgs(c, FieldOf(c.types[r.parentType], field.name).value.args, field.args, map[]) == Args(r.args))
  }

  ghost predicate HasRecord(c: Context, fields: seq<Record>, path: seq<string>, field: Selection)
    requires field.Field?
  {
    exists r :: r in fields && IsRecordOf(c, r, path, field)
  }

  /** A walked field has its record, and its selections are walked below it. */
  lemma {:induction false} WalkedField(c: Context, items: seq<Item>, s: Selection, path: seq<string>)
    requires s.Field? && IsWalked(c, items, s, path) && Emits(items)
    ensures HasRecord(c, Records(items), path + [s.alias], s)
    ensures s.name != TYPENAME ==> AllWalked(c, items, s.sels, path + [s.alias])
  {
    hide FlattenAll, SpreadsBelow, Records, FieldEntry, ChildType;
    var parent, on, n :| WalkedAs(c, items, s, path, parent, on, n);
    OrphanBreaks(c, s, parent, path, on, n);
    assert parent.Some? && parent.value in c.types;
    var entry := FieldEntry(c, s, parent.value, path, on);
    assert entry in Flatten(c, s, parent, path, on, n);
    EntryOf(c, s, parent.value, path, on);
    RecordIn(items, entry);
    if Descends(s) {
      var below := FlattenAll(c, s.sels, ChildType(c, s, parent.value), path + [s.alias], "", n);
      assert forall x :: x in below ==> x in [entry] + below;
      FlattenedIsWalked(c, items, s.sels, path + [s.alias], ChildType(c, s, parent.value), "", n);
    }
  }

  lemma {:induction false} OrphanBreaks(c: Context, s: Selection, parent: Option<string>, path: seq<string>, on: string, n: nat)
    ensures s.Field? && (parent.None? || parent.value !in c.types) ==>
      Broken(InvalidQuery) in Flatten(c, s, parent, path, on, n)
  {}

  lemma {:induction false} EntryOf(c: Context, s: Selection, parent: string, path: seq<string>, on: string)
    requires s.Field? && parent in c.types
    ensures var x := FieldEntry(c, s, parent, path, on);
      x.Entry? && (x.outcome.Emit? ==> IsRecordOf(c, x.outcome.record, path + [s.alias], s))
  {
    hide ResolveArgs;
  }

  // ---- Coverage ----

  lemma {:induction false} MergedWalked(c: Context, items: seq<Item>, fields: seq<Selection>, path: seq<string>, key: string)
    requires Emits(items)
    requires forall i :: 0 <= i < |fields| ==>
      fields[i].Field? && fields[i].alias == key && fields[i].name != TYPENAME && IsWalked(c, items, fields[i], path)
    ensures AllWalked(c, items, Merged(fields), path + [key])
  {
    hide IsWalked;
    if fields != [] {
      WalkedField(c, items, fields[0], path);
      MergedWalked(c, items, fields[1..], path, key);
    }
  }

  lemma {:induction false} ExecutedHasRecord(c: Context, items: seq<Item>, e: Execution, object_: string,
                                             sels: seq<Selection>, path: seq<string>, target: seq<string>, field: Selection)
    requires NoCycles(c) && Emits(items) && AllWalked(c, items, sels, path)
    requires Executes(c, e, object_, sels, path, target, field)
    ensures field.Field? && HasRecord(c, Records(items), path + target, field)
    decreases |target|
  {
    hide Collect, IsWalked, Records, NoCycles, Emits, IsRecordOf;
    var fields := Collect(c, e, object_, path, sels, {}, c.bound).0;
    var group := Group(fields, target[0]);
    CollectedIsWalked(c, items, e, object_, path, sels, {}, c.bound);
    GroupFrom(fields, target[0]);
    forall i | 0 <= i < |group| ensures IsWalked(c, items, group[i], path) && group[i].Field? && group[i].alias == target[0] {
      assert group[i] in fields;
    }
    if |target| == 1 {
      WalkedField(c, items, group[0], path);
      assert target == [target[0]];
    } else {
      var below: string :| Executes(c, e, below, Merged(group), path + [target[0]], target[1..], field);
      MergedWalked(c, items, group, path, target[0]);
      ExecutedHasRecord(c, items, e, below, Merged(group), path + [target[0]], target[1..], field);
      assert path + [target[0]] + target[1..] == path + target by { assert target == [target[0]] + target[1..]; }
    }
  }

  /** When the walk of an operation succeeds, every field any execution of it
      can select has a record with its response path, its field name, and its
      arguments as resolved on the parent type recorded. */
  lemma {:induction false} EveryExecutionIsCovered(c: Context, limits: Limits, sels: seq<Selection>, query: string,
                                                   e: Execution, object_: string, target: seq<string>, field: Selection)
    requires NoCycles(c)
    requires Run(limits, START, FlattenAll(c, sels, TypeNamed(c, query), [], "", c.bound)).Ok?
    requires Executes(c, e, object_, sels, [], target, field)
    ensures field.Field?
    ensures HasRecord(c, Run(limits, START, FlattenAll(c, sels, TypeNamed(c, query), [], "", c.bound)).state.fields, target, field)
  {
    hide Run, FlattenAll, Executes, Records, NoCycles, Emits, IsRecordOf;
    var items := FlattenAll(c, sels, TypeNamed(c, query), [], "", c.bound);
    CleanEmits(limits, items);
    BelowBound(c, sels);
    FlattenedIsWalked(c, items, sels, [], TypeNamed(c, query), "", c.bound);
    ExecutedHasRecord(c, items, e, object_, sels, [], target, field);
    assert [] + target == target;
  }

  // ---- Inlining ----

  /** The document without spreads: each replaced by an inline fragment that
      holds its definition. */
  function Inlined(c: Context, sels: seq<Selection>, n: nat): seq<Selection>
    decreases n, sels
  {
    if sels == [] then [] else [InlinedOne(c, sels[0], n)] + Inlined(c, sels[1..], n)
  }

  function InlinedOne(c: Context, s: Selection, n: nat): Selection
    decreases n, s
  {
    match s
    case Field(alias, name, written, args, definition, inner) =>
      Field(alias, name, written, args, definition, Inlined(c, inner, n))
    case Inline(on, inner) => Inline(on, Inlined(c, inner, n))
    case Spread(name) =>
      if name in c.fragments && c.fragments[name].rank < n
      then Inline(c.fragments[name].on, Inlined(c, c.fragments[name].sels, c.fragments[name].rank))
      else s
  }

  /** Walking a document is walking its fully inlined form: a fragment adds
      its type condition and its fields, wherever and however often it is
      spread. */
  lemma {:induction false} InliningKeepsWalk(c: Context, sels: seq<Selection>, parent: Option<string>, path: seq<string>, on: string, n: nat, m: nat)
    requires NoCycles(c) && SpreadsBelow(c, sels, n) && forall f :: f in c.fragments ==> c.fragments[f].on != ""
    ensures FlattenAll(c, Inlined(c, sels, n), parent, path, on, m) == FlattenAll(c, sels, parent, path, on, n)
    decreases n, sels
  {
    hide Flatten, InlinedOne, SpreadsBelow, NoCycles;
    if sels != [] {
      BelowApart(c, sels, n);
      BelowRest(c, sels, n);
      InliningKeepsOne(c, sels[0], parent, path, on, n, m);
      InliningKeepsWalk(c, sels[1..], parent, path, on, n, m);
      assert Inlined(c, sels, n)[1..] == Inlined(c, sels[1..], n);
    }
  }

  lemma {:induction false} InliningKeepsOne(c: Context, s: Selection, parent: Option<string>, path: seq<string>, on: string, n: nat, m: nat)
    requires NoCycles(c) && BelowOne(c, s, n) && forall f :: f in c.fragments ==> c.fragments[f].on != ""
    ensures Flatten(c, InlinedOne(c, s, n), parent, path, on, m) == Flatten(c, s, parent, path, on, n)
    decreases n, s
  {
    hide FlattenAll, Inlined, SpreadsBelow, ResolveArgs;
    match s {
      case Field(_, _, _, _, _, inner) =>
        InlinedEmpty(c, inner, n);
        if parent.Some? && parent.value in c.types {
          InliningKeepsWalk(c, inner, ChildType(c, s, parent.value), path + [s.alias], "", n, m);
        }
      case Inline(cond, inner) =>
        InliningKeepsWalk(c, inner, if cond == "" then parent else TypeNamed(c, cond), path, cond, n, m);
      case Spread(name) =>
        if name in c.fragments {
          var f := c.fragments[name];
          FragmentBelow(c, name);
          InliningKeepsWalk(c, f.sels, TypeNamed(c, f.on), path, f.on, f.rank, m);
        }
    }
  }

  lemma {:induction false} InlinedEmpty(c: Context, sels: seq<Selection>, n: nat)
    ensures Inlined(c, sels, n) == [] <==> sels == []
  {}
}
