/** The field list holds nothing that no execution reaches: every record is that
    of a field which some execution selects, so that the list is exactly what
    executions can select (section 6.3 of the GraphQL specification). */
module CoverageExactness {
  import opened Base
  import opened Coercion
  import opened Documents
  import opened Walk
  import opened Coverage
  import opened WalkFacts

  // ---- What is collected ----

  /** The field stands in the selections, outright or in fragments, with nothing
      on the way left out or inapplicable. */
  ghost predicate Selects(c: Context, e: Execution, object_: string, path: seq<string>, sels: seq<Selection>, field: Selection, n: nat)
    decreases n, sels
  {
    exists i :: 0 <= i < |sels| && SelectsBy(c, e, object_, path, sels[i], field, n)
  }

  ghost predicate SelectsBy(c: Context, e: Execution, object_: string, path: seq<string>, s: Selection, field: Selection, n: nat)
    decreases n, s
  {
    e.keeps(path, s) && match s
      case Field(_, _, _, _, _, _) => field == s
      case Inline(on, inner) => (on == "" || e.applies(object_, on)) && Selects(c, e, object_, path, inner, field, n)
      case Spread(name) =>
        && name in c.fragments && e.applies(object_, c.fragments[name].on) && c.fragments[name].rank < n
        && Selects(c, e, object_, path, c.fragments[name].sels, field, c.fragments[name].rank)
  }

  /** A fragment of that name brings the field. */
  ghost predicate Brings(c: Context, e: Execution, object_: string, path: seq<string>, name: string, field: Selection, n: nat) {
    && name in c.fragments && e.applies(object_, c.fragments[name].on) && c.fragments[name].rank < n
    && Selects(c, e, object_, path, c.fragments[name].sels, field, c.fragments[name].rank)
  }

  ghost predicate Brought(c: Context, e: Execution, object_: string, path: seq<string>, names: set<string>, field: Selection, n: nat) {
    exists name :: name in names && Brings(c, e, object_, path, name, field, n)
  }

  ghost predicate Below(c: Context, names: set<string>, n: nat) {
    forall name :: name in names && name in c.fragments ==> c.fragments[name].rank < n
  }

  /** What is collected is selected; and what is selected is collected, now or
      with a fragment visited before. */
  ghost predicate Complete(c: Context, e: Execution, object_: string, path: seq<string>, visited: set<string>, n: nat,
                           field: Selection, selected: bool, r: (seq<Selection>, set<string>))
  {
    && visited <= r.1 && Below(c, r.1 - visited, n)
    && (field in r.0 ==> selected)
    && (selected ==> field in r.0 || Brought(c, e, object_, path, visited, field, n))
    && (Brought(c, e, object_, path, r.1 - visited, field, n) ==> field in r.0 || Brought(c, e, object_, path, visited, field, n))
  }

  lemma {:induction false} CompleteApart(c: Context, e: Execution, object_: string, path: seq<string>, visited: set<string>, n: nat,
                                         field: Selection, a: bool, b: bool,
                                         first: (seq<Selection>, set<string>), rest: (seq<Selection>, set<string>))
    requires Complete(c, e, object_, path, visited, n, field, a, first)
    requires Complete(c, e, object_, path, first.1, n, field, b, rest)
    ensures Complete(c, e, object_, path, visited, n, field, a || b, (first.0 + rest.0, rest.1))
  {
    hide Brings;
    if Brought(c, e, object_, path, first.1, field, n) {
      var name :| name in first.1 && Brings(c, e, object_, path, name, field, n);
      assert name in visited || name in first.1 - visited;
    }
    if Brought(c, e, object_, path, rest.1 - visited, field, n) {
      var name :| name in rest.1 - visited && Brings(c, e, object_, path, name, field, n);
      assert name in first.1 - visited || name in rest.1 - first.1;
    }
  }

  lemma {:induction false} CollectComplete(c: Context, e: Execution, object_: string, path: seq<string>, sels: seq<Selection>,
                                           visited: set<string>, n: nat, field: Selection)
    requires NoCycles(c) && SpreadsBelow(c, sels, n)
    ensures Complete(c, e, object_, path, visited, n, field, Selects(c, e, object_, path, sels, field, n),
                     Collect(c, e, object_, path, sels, visited, n))
    decreases n, sels
  {
    hide CollectOne, SelectsBy, Complete, SpreadsBelow, NoCycles;
    if sels == [] {
      CollectNothing(c, e, object_, path, visited, n, field);
    } else {
      BelowRest(c, sels, n);
      BelowApart(c, sels, n);
      var first := CollectOne(c, e, object_, path, sels[0], visited, n);
      CollectOneComplete(c, e, object_, path, sels[0], visited, n, field);
      CollectComplete(c, e, object_, path, sels[1..], first.1, n, field);
      CompleteApart(c, e, object_, path, visited, n, field, SelectsBy(c, e, object_, path, sels[0], field, n),
        Selects(c, e, object_, path, sels[1..], field, n), first, Collect(c, e, object_, path, sels[1..], first.1, n));
      assert sels == [sels[0]] + sels[1..];
      assert forall i :: 0 <= i < |sels[1..]| ==> sels[1..][i] == sels[i + 1];
    }
  }

  lemma {:induction false} CollectNothing(c: Context, e: Execution, object_: string, path: seq<string>, visited: set<string>, n: nat, field: Selection)
    ensures Complete(c, e, object_, path, visited, n, field, false, Collect(c, e, object_, path, [], visited, n))
  {}

  lemma {:induction false} CollectOneComplete(c: Context, e: Execution, object_: string, path: seq<string>, s: Selection,
                                              visited: set<string>, n: nat, field: Selection)
    requires NoCycles(c) && BelowOne(c, s, n)
    ensures Complete(c, e, object_, path, visited, n, field, SelectsBy(c, e, object_, path, s, field, n),
                     CollectOne(c, e, object_, path, s, visited, n))
    decreases n, s
  {
    hide Collect, Selects, SpreadsBelow;
    if e.keeps(path, s) {
      match s {
        case Field(_, _, _, _, _, _) =>
        case Inline(on, inner) =>
          if on == "" || e.applies(object_, on) { CollectComplete(c, e, object_, path, inner, visited, n, field); }
        case Spread(name) =>
          if name in visited {
            assert SelectsBy(c, e, object_, path, s, field, n) ==> Brings(c, e, object_, path, name, field, n);
          } else if name in c.fragments && e.applies(object_, c.fragments[name].on) {
            var f := c.fragments[name];
            CollectComplete(c, e, object_, path, f.sels, visited + {name}, f.rank, field);
            FragmentComplete(c, e, object_, path, visited, name, n, field,
              Collect(c, e, object_, path, f.sels, visited + {name}, f.rank));
          }
      }
    }
  }

  lemma {:induction false} FragmentComplete(c: Context, e: Execution, object_: string, path: seq<string>, visited: set<string>,
                                            name: string, n: nat, field: Selection, r: (seq<Selection>, set<string>))
    requires name in c.fragments && name !in visited && e.applies(object_, c.fragments[name].on) && c.fragments[name].rank < n
    requires Complete(c, e, object_, path, visited + {name}, c.fragments[name].rank, field,
                      Selects(c, e, object_, path, c.fragments[name].sels, field, c.fragments[name].rank), r)
    ensures Complete(c, e, object_, path, visited, n, field,
                     Selects(c, e, object_, path, c.fragments[name].sels, field, c.fragments[name].rank), r)
  {
    hide Selects;
    var m := c.fragments[name].rank;
    if Brought(c, e, object_, path, visited + {name}, field, m) {
      var other :| other in visited + {name} && Brings(c, e, object_, path, other, field, m);
      assert other in visited && Brings(c, e, object_, path, other, field, n);
    }
    if Brought(c, e, object_, path, r.1 - visited, field, n) {
      var other :| other in r.1 - visited && Brings(c, e, object_, path, other, field, n);
      if other != name {
        assert other in r.1 - (visited + {name}) && Brings(c, e, object_, path, other, field, m);
      }
    }
  }

  /** The fields collected are those that stand in the selections, each fragment
      visited once or not. */
  lemma {:induction false} CollectExact(c: Context, e: Execution, object_: string, path: seq<string>, sels: seq<Selection>, field: Selection)
    requires NoCycles(c)
    ensures field in Collect(c, e, object_, path, sels, {}, c.bound).0 <==> Selects(c, e, object_, path, sels, field, c.bound)
  {
    hide Collect, Selects, NoCycles;
    BelowBound(c, sels);
    CollectComplete(c, e, object_, path, sels, {}, c.bound, field);
  }

  ghost predicate FirstOf(fields: seq<Selection>, key: string, i: nat) {
    && i < |fields| && fields[i].Field? && fields[i].alias == key
    && forall j :: 0 <= j < i ==> !(fields[j].Field? && fields[j].alias == key)
  }

  /** A group is the fields of its key, in order, the first of them first. */
  lemma {:induction false} GroupExact(fields: seq<Selection>, key: string)
    ensures forall f :: f in Group(fields, key) <==> f in fields && f.Field? && f.alias == key
    ensures Group(fields, key) != [] ==> exists i: nat :: FirstOf(fields, key, i) && fields[i] == Group(fields, key)[0]
    decreases |fields|
  {
    if fields != [] {
      GroupExact(fields[1..], key);
      assert fields == [fields[0]] + fields[1..];
      if fields[0].Field? && fields[0].alias == key {
        assert FirstOf(fields, key, 0);
      } else if Group(fields, key) != [] {
        var i: nat :| FirstOf(fields[1..], key, i) && fields[1..][i] == Group(fields[1..], key)[0];
        assert forall j :: 0 < j <= i + 1 ==> fields[j] == fields[1..][j - 1];
        assert FirstOf(fields, key, i + 1);
      }
    }
  }

  /** Merged selections are the selections of the fields. */
  lemma {:induction false} MergedExact(fields: seq<Selection>)
    ensures forall s :: s in Merged(fields) <==> exists f :: f in fields && f.Field? && s in f.sels
    decreases |fields|
  {
    if fields != [] {
      MergedExact(fields[1..]);
      assert fields == [fields[0]] + fields[1..];
    }
  }

  // ---- Executing along a trail ----

  /** Everything is kept, every fragment applies. */
  const ALL := Execution((path: seq<string>, s: Selection) => true, (object_: string, on: string) => true)

  /** Of the fields, only those of the trail are kept, each at its depth. */
  function Along(trail: seq<Selection>): Execution {
    Execution((path: seq<string>, s: Selection) => s.Field? ==> |path| < |trail| && s == trail[|path|],
              (object_: string, on: string) => true)
  }

  /** A way down the document: each field stands in the selections of the one
      before, fragments expanded. */
  ghost predicate Leads(c: Context, sels: seq<Selection>, trail: seq<Selection>)
    decreases |trail|
  {
    && trail != [] && trail[0].Field? && Selects(c, ALL, "", [], sels, trail[0], c.bound)
    && (|trail| > 1 ==> trail[0].name != TYPENAME && Leads(c, trail[0].sels, trail[1..]))
  }

  function Keys(trail: seq<Selection>): seq<string> {
    if trail == [] then [] else [if trail[0].Field? then trail[0].alias else ""] + Keys(trail[1..])
  }

  /** Other selections with at least the same in them select as much. */
  lemma {:induction false} SelectsMore(c: Context, e: Execution, object_: string, path: seq<string>, sels: seq<Selection>,
                                       more: seq<Selection>, field: Selection, n: nat)
    requires Selects(c, e, object_, path, sels, field, n) && forall s :: s in sels ==> s in more
    ensures Selects(c, e, object_, path, more, field, n)
  {
    hide SelectsBy;
    var i :| 0 <= i < |sels| && SelectsBy(c, e, object_, path, sels[i], field, n);
    assert sels[i] in more;
    var j :| 0 <= j < |more| && more[j] == sels[i];
  }

  lemma {:induction false} LeadsMore(c: Context, sels: seq<Selection>, more: seq<Selection>, trail: seq<Selection>)
    requires Leads(c, sels, trail) && forall s :: s in sels ==> s in more
    ensures Leads(c, more, trail)
  {
    hide Selects;
    SelectsMore(c, ALL, "", [], sels, more, trail[0], c.bound);
  }

  /** Below its bound the rank makes no difference. */
  lemma {:induction false} SelectsStable(c: Context, sels: seq<Selection>, field: Selection, n: nat, m: nat)
    requires SpreadsBelow(c, sels, n) && n <= m
    ensures Selects(c, ALL, "", [], sels, field, n) <==> Selects(c, ALL, "", [], sels, field, m)
    decreases sels
  {
    forall i | 0 <= i < |sels|
      ensures SelectsBy(c, ALL, "", [], sels[i], field, n) <==> SelectsBy(c, ALL, "", [], sels[i], field, m)
    {
      if sels[i].Inline? { SelectsStable(c, sels[i].sels, field, n, m); }
    }
  }

  /** What stands there is selected along a trail where the trail has it. */
  lemma {:induction false} SelectsAlong(c: Context, trail: seq<Selection>, object_: string, path: seq<string>, sels: seq<Selection>,
                                        field: Selection, n: nat)
    requires |path| < |trail| && trail[|path|].Field?
    ensures Selects(c, Along(trail), object_, path, sels, field, n)
      <==> field == trail[|path|] && Selects(c, ALL, "", [], sels, field, n)
    decreases n, sels
  {
    forall i | 0 <= i < |sels|
      ensures SelectsBy(c, Along(trail), object_, path, sels[i], field, n)
        <==> field == trail[|path|] && SelectsBy(c, ALL, "", [], sels[i], field, n)
    {
      SelectsByAlong(c, trail, object_, path, sels[i], field, n);
    }
  }

  lemma {:induction false} SelectsByAlong(c: Context, trail: seq<Selection>, object_: string, path: seq<string>, s: Selection,
                                          field: Selection, n: nat)
    requires |path| < |trail| && trail[|path|].Field?
    ensures SelectsBy(c, Along(trail), object_, path, s, field, n)
      <==> field == trail[|path|] && SelectsBy(c, ALL, "", [], s, field, n)
    decreases n, s
  {
    hide Selects;
    match s
    case Field(_, _, _, _, _, _) =>
    case Inline(_, inner) => SelectsAlong(c, trail, object_, path, inner, field, n);
    case Spread(name) =>
      if name in c.fragments && c.fragments[name].rank < n {
        SelectsAlong(c, trail, object_, path, c.fragments[name].sels, field, c.fragments[name].rank);
      }
  }

  /** Along a trail, the group of the trail's field is that field and nothing
      else. */
  lemma {:induction false} GroupAlong(c: Context, trail: seq<Selection>, object_: string, path: seq<string>, sels: seq<Selection>)
    requires NoCycles(c) && |path| < |trail| && trail[|path|].Field?
    requires Selects(c, ALL, "", [], sels, trail[|path|], c.bound)
    ensures var field := trail[|path|];
      var group := Group(Collect(c, Along(trail), object_, path, sels, {}, c.bound).0, field.alias);
      group != [] && forall f :: f in group <==> f == field
  {
    hide Selects, Collect, Group, NoCycles;
    var field := trail[|path|];
    var collected := Collect(c, Along(trail), object_, path, sels, {}, c.bound).0;
    forall f ensures f in collected <==> f == field {
      CollectExact(c, Along(trail), object_, path, sels, f);
      SelectsAlong(c, trail, object_, path, sels, f, c.bound);
    }
    GroupExact(collected, field.alias);
    assert field in Group(collected, field.alias);
  }

  /** A trail is executed: on whatever objects, the execution along it selects
      its fields one below the other. */
  lemma {:induction false} ExecutesAlong(c: Context, trail: seq<Selection>, object_: string, sels: seq<Selection>, path: seq<string>)
    requires NoCycles(c) && |path| < |trail| && Leads(c, sels, trail[|path|..])
    ensures Executes(c, Along(trail), object_, sels, path, Keys(trail[|path|..]), trail[|trail| - 1])
    decreases |trail| - |path|
  {
    hide Selects, Collect, Group, Merged, NoCycles, Executes, Along, Keys;
    var left := trail[|path|..];
    var field := left[0];
    assert field == trail[|path|] && left[1..] == trail[|path| + 1..];
    GroupAlong(c, trail, object_, path, sels);
    KeysOf(left);
    if |left| > 1 {
      var group := Group(Collect(c, Along(trail), object_, path, sels, {}, c.bound).0, field.alias);
      var under := path + [field.alias];
      MergedExact(group);
      LeadsMore(c, field.sels, Merged(group), left[1..]);
      ExecutesAlong(c, trail, object_, Merged(group), under);
      ExecutesOn(c, Along(trail), object_, sels, path, field, Keys(left[1..]), trail[|trail| - 1]);
    } else {
      KeysCount(left[1..]);
      assert Keys(left) == [field.alias];
      ExecutesLast(c, Along(trail), object_, sels, path, field);
    }
  }

  lemma {:induction false} ExecutesLast(c: Context, e: Execution, object_: string, sels: seq<Selection>, path: seq<string>, field: Selection)
    requires field.Field?
    requires var group := Group(Collect(c, e, object_, path, sels, {}, c.bound).0, field.alias);
      group != [] && forall f :: f in group <==> f == field
    ensures Executes(c, e, object_, sels, path, [field.alias], field)
  {
    hide Collect, Group;
    var group := Group(Collect(c, e, object_, path, sels, {}, c.bound).0, field.alias);
    assert group[0] in group;
  }

  lemma {:induction false} ExecutesOn(c: Context, e: Execution, object_: string, sels: seq<Selection>, path: seq<string>,
                                      field: Selection, target: seq<string>, last: Selection)
    requires field.Field? && field.name != TYPENAME && target != []
    requires var group := Group(Collect(c, e, object_, path, sels, {}, c.bound).0, field.alias);
      && group != [] && (forall f :: f in group <==> f == field)
      && Executes(c, e, object_, Merged(group), path + [field.alias], target, last)
    ensures Executes(c, e, object_, sels, path, [field.alias] + target, last)
  {
    hide Collect, Group, Merged;
    var group := Group(Collect(c, e, object_, path, sels, {}, c.bound).0, field.alias);
    assert ([field.alias] + target)[1..] == target;
    forall i | 0 <= i < |group| ensures group[i] == field { assert group[i] in group; }
  }

  lemma {:induction false} KeysOf(trail: seq<Selection>)
    requires trail != [] && trail[0].Field?
    ensures Keys(trail) == [trail[0].alias] + Keys(trail[1..]) && |Keys(trail)| == |trail|
  {
    KeysCount(trail);
  }

  lemma {:induction false} KeysCount(trail: seq<Selection>)
    ensures |Keys(trail)| == |trail|
    decreases |trail|
  {
    if trail != [] { KeysCount(trail[1..]); }
  }

  // ---- Every field met has a trail ----

  ghost predicate TrailOf(c: Context, sels: seq<Selection>, path: seq<string>, trail: seq<Selection>, m: Met) {
    m.Met? && Leads(c, sels, trail) && trail[|trail| - 1] == m.field && m.path == path + Keys(trail)
  }

  lemma {:induction false} HasTrail(c: Context, sels: seq<Selection>, parent: Option<string>, path: seq<string>, on: string, n: nat, m: Met)
    returns (trail: seq<Selection>)
    requires NoCycles(c) && m.Met? && m in FieldsMet(c, sels, parent, path, on, n)
    ensures TrailOf(c, sels, path, trail, m)
    decreases n, sels
  {
    hide Leads, NoCycles, FieldMet;
    if m in FieldMet(c, sels[0], parent, path, on, n) {
      trail := HasTrailBy(c, sels[0], parent, path, on, n, m);
      LeadsMore(c, [sels[0]], sels, trail);
    } else {
      trail := HasTrail(c, sels[1..], parent, path, on, n, m);
      assert forall s :: s in sels[1..] ==> s in sels;
      LeadsMore(c, sels[1..], sels, trail);
    }
  }

  lemma {:induction false} HasTrailBy(c: Context, s: Selection, parent: Option<string>, path: seq<string>, on: string, n: nat, m: Met)
    returns (trail: seq<Selection>)
    requires NoCycles(c) && m.Met? && m in FieldMet(c, s, parent, path, on, n)
    ensures TrailOf(c, [s], path, trail, m)
    decreases n, s
  {
    hide FieldsMet, ChildType, SpreadsBelow;
    match s
    case Field(key, name, _, _, _, inner) =>
      Outright(c, s);
      if m == Met(s, path + [key], parent, on) {
        trail := [s];
        assert Keys([s]) == [key] by { assert [s][1..] == []; }
      } else {
        var below := HasTrail(c, inner, ChildType(c, s, parent.value), path + [key], "", n, m);
        trail := [s] + below;
        assert trail[1..] == below;
        assert path + Keys(trail) == path + [key] + Keys(below);
      }
    case Inline(cond, inner) =>
      trail := HasTrail(c, inner, if cond == "" then parent else TypeNamed(c, cond), path, cond, n, m);
      SelectsInline(c, s, trail[0]);
    case Spread(name) =>
      var f := c.fragments[name];
      trail := HasTrail(c, f.sels, TypeNamed(c, f.on), path, f.on, f.rank, m);
      SelectsStable(c, f.sels, trail[0], f.rank, c.bound);
      SelectsSpread(c, s, trail[0]);
  }

  lemma {:induction false} Outright(c: Context, s: Selection)
    requires s.Field?
    ensures Selects(c, ALL, "", [], [s], s, c.bound)
  {
    assert SelectsBy(c, ALL, "", [], [s][0], s, c.bound);
  }

  lemma {:induction false} SelectsInline(c: Context, s: Selection, field: Selection)
    requires s.Inline? && Selects(c, ALL, "", [], s.sels, field, c.bound)
    ensures Selects(c, ALL, "", [], [s], field, c.bound)
  {
    assert SelectsBy(c, ALL, "", [], [s][0], field, c.bound);
  }

  lemma {:induction false} SelectsSpread(c: Context, s: Selection, field: Selection)
    requires s.Spread? && s.name in c.fragments && c.fragments[s.name].rank < c.bound
    requires Selects(c, ALL, "", [], c.fragments[s.name].sels, field, c.fragments[s.name].rank)
    ensures Selects(c, ALL, "", [], [s], field, c.bound)
  {
    assert SelectsBy(c, ALL, "", [], [s][0], field, c.bound);
  }

  // ---- The list is exact ----

  /** On whatever objects, this execution selects the field whose record this
      is. */
  ghost predicate Selected(c: Context, sels: seq<Selection>, r: Record, e: Execution, field: Selection) {
    field.Field? && IsRecordOf(c, r, r.path, field) && forall object_: string :: Executes(c, e, object_, sels, [], r.path, field)
  }

  /** Every record of a walk that succeeds is that of a field some execution
      selects at its path: for some outcome of the directives, some types
      that come back and some fragments that apply. Together with
      Coverage.EveryExecutionIsCovered: the list is what executions can select. */
  lemma {:induction false} EveryRecordIsExecuted(c: Context, limits: Limits, sels: seq<Selection>, query: string, r: Record)
    requires NoCycles(c)
    requires Run(limits, START, FlattenAll(c, sels, TypeNamed(c, query), [], "", c.bound)).Ok?
    requires r in Run(limits, START, FlattenAll(c, sels, TypeNamed(c, query), [], "", c.bound)).state.fields
    ensures exists e, field :: Selected(c, sels, r, e, field)
  {
    hide Run, FlattenAll, FieldsMet, NoCycles, Executes, IsRecordOf, Resolves, Within, Leads;
    WalkLists(c, limits, sels, query);
    var fields := Run(limits, START, FlattenAll(c, sels, TypeNamed(c, query), [], "", c.bound)).state.fields;
    var met := FieldsMet(c, sels, TypeNamed(c, query), [], "", c.bound);
    var k :| 0 <= k < |fields| && fields[k] == r;
    assert Says(c, r, met[k]);
    var trail := HasTrail(c, sels, TypeNamed(c, query), [], "", c.bound, met[k]);
    assert trail[0..] == trail && [] + Keys(trail) == Keys(trail);
    TrailSome(c, sels, trail);
    RecordAtItsPath(c, r, met[k].path, met[k].field);
    forall object_: string ensures Executes(c, Along(trail), object_, sels, [], r.path, met[k].field) {
      ExecutesAlong(c, trail, object_, sels, []);
    }
    assert Selected(c, sels, r, Along(trail), met[k].field);
  }

  lemma {:induction false} TrailSome(c: Context, sels: seq<Selection>, trail: seq<Selection>)
    requires Leads(c, sels, trail)
    ensures trail != []
  {}

  lemma {:induction false} RecordAtItsPath(c: Context, r: Record, path: seq<string>, field: Selection)
    requires field.Field? && IsRecordOf(c, r, path, field)
    ensures r.path == path
  {}
}
