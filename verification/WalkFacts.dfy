/** What a walk lists and when it stops, field by field of the expanded document
    (ftv-graphql-mapper/walk.go): each record says what its selection says, and
    a limit is exceeded exactly where one selection too many is met. */
module WalkFacts {
  import opened Base
  import opened Coercion
  import opened Arguments
  import opened Documents
  import opened Walk
  import opened Coverage

  // ---- The fields of a document, fragments expanded ----

  /** A field as it is met: its response path, the type it is selected on, and the
      type condition of the fragment it stands in directly, "" in no fragment or
      one without condition; or a spread of no fragment. */
  datatype Met = Met(field: Selection, path: seq<string>, parent: Option<string>, on: string) | Lost

  function FieldsMet(c: Context, sels: seq<Selection>, parent: Option<string>, path: seq<string>, on: string, n: nat): (r: seq<Met>)
    ensures forall i :: 0 <= i < |r| && r[i].Met? ==> r[i].field.Field?
    decreases n, sels
  {
    if sels == [] then [] else FieldMet(c, sels[0], parent, path, on, n) + FieldsMet(c, sels[1..], parent, path, on, n)
  }

  function FieldMet(c: Context, s: Selection, parent: Option<string>, path: seq<string>, on: string, n: nat): (r: seq<Met>)
    ensures forall i :: 0 <= i < |r| && r[i].Met? ==> r[i].field.Field?
    decreases n, s
  {
    match s
    case Field(key, name, _, _, _, inner) =>
      if parent.None? || parent.value !in c.types then [Lost]
      else
        [Met(s, path + [key], parent, on)]
        + if name == "__typename" then [] else FieldsMet(c, inner, ChildType(c, s, parent.value), path + [key], "", n)
    case Inline(cond, inner) => FieldsMet(c, inner, if cond == "" then parent else TypeNamed(c, cond), path, cond, n)
    case Spread(name) =>
      if name !in c.fragments || c.fragments[name].rank >= n then [Lost]
      else
        var f := c.fragments[name];
        FieldsMet(c, f.sels, TypeNamed(c, f.on), path, f.on, f.rank)
  }

  /** A field written with an alias. */
  predicate WithAlias(m: Met) { m.Met? && m.field.Field? && (m.field.alias != m.field.name || m.field.written) }

  function AliasesAmong(met: seq<Met>): nat {
    if met == [] then 0 else AliasesAmong(met[..|met| - 1]) + if WithAlias(met[|met| - 1]) then 1 else 0
  }

  /** The record says what the selection says. */
  ghost predicate Says(c: Context, r: Record, m: Met) {
    m.Met? && m.field.Field? && IsRecordOf(c, r, m.path, m.field) && m.parent == Some(r.parentType) && r.on == m.on
  }

  /** The field is defined on its parent type and its arguments resolve. */
  ghost predicate Resolves(c: Context, m: Met) {
    && m.Met? && m.field.Field? && m.parent.Some? && m.parent.value in c.types
    && (m.field.name != "__typename" ==>
          && FieldOf(c.types[m.parent.value], m.field.name).Some?
          && ResolveArgs(c, FieldOf(c.types[m.parent.value], m.field.name).value.args, m.field.args, map[]).Args?)
  }

  // ---- Limits ----

  /** The first k fields keep within the limits. */
  ghost predicate Within(limits: Limits, met: seq<Met>, k: nat)
    requires k <= |met|
  {
    && (forall j :: 0 <= j < k && met[j].Met? ==> |met[j].path| <= limits.depth)
    && k <= limits.records && AliasesAmong(met[..k]) <= limits.aliases
  }

  /** The next field is the one too many: too deep, one record over, or one
      alias over. */
  ghost predicate Exceeds(limits: Limits, met: seq<Met>, k: nat, why: Unverifiable)
    requires k < |met|
  {
    met[k].Met? && match why
      case DepthExceeded => |met[k].path| > limits.depth
      case RecordsExceeded => |met[k].path| <= limits.depth && k == limits.records
      case AliasesExceeded =>
        |met[k].path| <= limits.depth && k < limits.records && WithAlias(met[k]) && AliasesAmong(met[..k]) == limits.aliases
      case _ => false
  }

  /** What a run over the fields that are left makes of what came before. */
  ghost predicate Tells(c: Context, limits: Limits, met: seq<Met>, r: Walked) {
    match r
    case Ok(st) =>
      && Within(limits, met, |met|) && (forall k :: 0 <= k < |met| ==> Resolves(c, met[k]))
      && |st.fields| == |met| && (forall k :: 0 <= k < |met| ==> Says(c, st.fields[k], met[k]))
    case Err(why) =>
      exists k :: 0 <= k < |met| && StopsAt(c, limits, met, k, why)
  }

  ghost predicate StopsAt(c: Context, limits: Limits, met: seq<Met>, k: nat, why: Unverifiable)
    requires k < |met|
  {
    && Within(limits, met, k) && (forall j :: 0 <= j < k ==> Resolves(c, met[j]))
    && if IsLimit(why) then Exceeds(limits, met, k, why)
       else !Resolves(c, met[k]) && forall limit :: IsLimit(limit) ==> !Exceeds(limits, met, k, limit)
  }

  // ---- The flattening and the fields ----

  function Solid(items: seq<Item>): seq<Item> {
    if items == [] then [] else (if items[0].Step? then [] else [items[0]]) + Solid(items[1..])
  }

  lemma {:induction false} SolidApart(a: seq<Item>, b: seq<Item>)
    ensures Solid(a + b) == Solid(a) + Solid(b)
    decreases |a|
  {
    if a == [] {
      assert a + b == b;
    } else {
      assert (a + b)[1..] == a[1..] + b;
      SolidApart(a[1..], b);
    }
  }

  lemma {:induction false} RunSolid(limits: Limits, st: State, items: seq<Item>)
    ensures Run(limits, st, Solid(items)) == Run(limits, st, items)
    decreases |items|
  {
    if items != [] {
      var rest := Solid(items[1..]);
      if items[0].Step? {
        assert Solid(items) == rest;
        RunSolid(limits, st, items[1..]);
      } else {
        assert ([items[0]] + rest)[1..] == rest;
        var first := Admit(limits, st, items[0]);
        if first.Ok? { RunSolid(limits, first.state, items[1..]); }
      }
    }
  }

  /** An item of the flattening stands for a field met. */
  ghost predicate StandsFor(c: Context, x: Item, m: Met) {
    match m
    case Lost => x.Broken? && !IsLimit(x.why)
    case Met(field, path, parent, _) =>
      && field.Field? && parent.Some? && parent.value in c.types
      && x.Entry? && x.path == path && (x.aliased <==> WithAlias(m))
      && (if x.outcome.Emit? then Says(c, x.outcome.record, m) && Resolves(c, m) else !Resolves(c, m) && !IsLimit(x.outcome.why))
  }

  ghost predicate StandFor(c: Context, items: seq<Item>, met: seq<Met>) {
    |items| == |met| && forall i :: 0 <= i < |met| ==> StandsFor(c, items[i], met[i])
  }

  lemma {:induction false} StandApart(c: Context, a: seq<Item>, b: seq<Item>, x: seq<Met>, y: seq<Met>)
    requires StandFor(c, a, x) && StandFor(c, b, y)
    ensures StandFor(c, a + b, x + y)
  {
    hide StandsFor;
  }

  lemma {:induction false} EntryStands(c: Context, s: Selection, parent: string, path: seq<string>, on: string)
    requires s.Field? && parent in c.types
    ensures StandFor(c, Solid([FieldEntry(c, s, parent, path, on)]), [Met(s, path + [s.alias], Some(parent), on)])
  {
    hide ResolveArgs;
    var x := FieldEntry(c, s, parent, path, on);
    if FieldOf(c.types[parent], s.name).Some? { ResolveFault(c, FieldOf(c.types[parent], s.name).value.args, s.args, map[]); }
    assert [x][1..] == [] && Solid([]) == [] && [x] + [] == [x];
  }

  lemma {:induction false} OneStands(c: Context, s: Selection, parent: Option<string>, path: seq<string>, on: string, n: nat)
    ensures StandFor(c, Solid(Flatten(c, s, parent, path, on, n)), FieldMet(c, s, parent, path, on, n))
    decreases n, s
  {
    hide FlattenAll, FieldEntry, ChildType, StandsFor, FieldsMet;
    match s {
      case Field(_, _, _, _, _, inner) =>
        if parent.None? || parent.value !in c.types {
          LostStands(c, InvalidQuery);
        } else {
          var x := FieldEntry(c, s, parent.value, path, on);
          EntryStands(c, s, parent.value, path, on);
          var t := ChildType(c, s, parent.value);
          var below := if Descends(s) then FlattenAll(c, inner, t, path + [s.alias], "", n) else [];
          SolidApart([x], below);
          if Descends(s) {
            AllStand(c, inner, t, path + [s.alias], "", n);
            StandApart(c, Solid([x]), Solid(below), [Met(s, path + [s.alias], parent, on)], FieldsMet(c, inner, t, path + [s.alias], "", n));
          } else {
            NoneMet(c, t, path + [s.alias], "", n);
            NoneSolid();
            StandApart(c, Solid([x]), [], [Met(s, path + [s.alias], parent, on)], []);
          }
        }
      case Inline(cond, inner) =>
        var t := if cond == "" then parent else TypeNamed(c, cond);
        AllStand(c, inner, t, path, cond, n);
        StepGone(FlattenAll(c, inner, t, path, cond, n));
      case Spread(name) =>
        if name !in c.fragments || c.fragments[name].rank >= n {
          LostStands(c, InvalidQuery);
        } else {
          var f := c.fragments[name];
          AllStand(c, f.sels, TypeNamed(c, f.on), path, f.on, f.rank);
          StepGone(FlattenAll(c, f.sels, TypeNamed(c, f.on), path, f.on, f.rank));
        }
    }
  }

  lemma {:induction false} NoneMet(c: Context, parent: Option<string>, path: seq<string>, on: string, n: nat)
    ensures FieldsMet(c, [], parent, path, on, n) == []
  {}

  lemma NoneSolid()
    ensures Solid([]) == []
  {}

  lemma {:induction false} LostStands(c: Context, why: Unverifiable)
    requires !IsLimit(why)
    ensures StandFor(c, Solid([Broken(why)]), [Lost])
  {
    assert [Broken(why)][1..] == [] && [Broken(why)] + [] == [Broken(why)];
  }

  lemma {:induction false} StepGone(items: seq<Item>)
    ensures Solid([Step] + items) == Solid(items)
  {
    assert ([Step] + items)[1..] == items;
  }

  lemma {:induction false} AllStand(c: Context, sels: seq<Selection>, parent: Option<string>, path: seq<string>, on: string, n: nat)
    ensures StandFor(c, Solid(FlattenAll(c, sels, parent, path, on, n)), FieldsMet(c, sels, parent, path, on, n))
    decreases n, sels
  {
    hide Flatten, FieldMet, StandsFor;
    if sels == [] {
      NoneSolid();
    } else {
      var first, rest := Flatten(c, sels[0], parent, path, on, n), FlattenAll(c, sels[1..], parent, path, on, n);
      OneStands(c, sels[0], parent, path, on, n);
      AllStand(c, sels[1..], parent, path, on, n);
      SolidApart(first, rest);
      StandApart(c, Solid(first), Solid(rest), FieldMet(c, sels[0], parent, path, on, n), FieldsMet(c, sels[1..], parent, path, on, n));
    }
  }

  // ---- The run over the fields ----

  /** The state after k fields, all of which were listed. */
  ghost predicate After(c: Context, limits: Limits, met: seq<Met>, k: nat, st: State)
    requires k <= |met|
  {
    && Within(limits, met, k) && (forall j :: 0 <= j < k ==> Resolves(c, met[j]))
    && |st.fields| == k && (forall j :: 0 <= j < k ==> Says(c, st.fields[j], met[j])) && st.aliases == AliasesAmong(met[..k])
  }

  lemma {:induction false} OneMore(c: Context, limits: Limits, met: seq<Met>, k: nat, st: State, x: Item)
    requires k < |met| && After(c, limits, met, k, st) && StandsFor(c, x, met[k])
    ensures match Admit(limits, st, x)
      case Ok(next) => After(c, limits, met, k + 1, next)
      case Err(why) => StopsAt(c, limits, met, k, why)
  {
    hide Says, WithAlias, FieldOf, ResolveArgs;
    assert met[..k + 1][..k] == met[..k] && met[..k + 1][k] == met[k];
    match met[k]
    case Lost =>
      assert forall limit :: !Exceeds(limits, met, k, limit);
      assert !Resolves(c, met[k]);
    case Met(field, path, parent, _) =>
      hide Resolves;
      match Admit(limits, st, x) {
        case Ok(next) =>
        case Err(why) =>
          if IsLimit(why) {
            assert Exceeds(limits, met, k, why);
          } else {
            assert forall limit :: !Exceeds(limits, met, k, limit);
          }
      }
  }

  lemma {:induction false} RunTells(c: Context, limits: Limits, met: seq<Met>, k: nat, st: State, items: seq<Item>)
    requires k <= |met| && After(c, limits, met, k, st) && StandFor(c, items, met)
    ensures Tells(c, limits, met, Run(limits, st, items[k..]))
    decreases |met| - k
  {
    hide StandsFor, Says, Resolves, Within, Admit, StopsAt;
    if k < |met| {
      assert items[k..][0] == items[k] && items[k..][1..] == items[k + 1..];
      OneMore(c, limits, met, k, st, items[k]);
      var first := Admit(limits, st, items[k]);
      if first.Ok? { RunTells(c, limits, met, k + 1, first.state, items); }
    } else {
      assert met[..k] == met;
    }
  }

  lemma {:induction false} NoneBefore(c: Context, limits: Limits, met: seq<Met>)
    ensures After(c, limits, met, 0, START)
  {
    assert met[..0] == [];
  }

  /** The walk lists one record for each field of the expanded document, in order,
      saying what its selection says, if every field resolves and keeps within
      the limits; otherwise it stops at the first that does not, and reports a
      limit only where that field is one too many. */
  lemma {:induction false} WalkLists(c: Context, limits: Limits, sels: seq<Selection>, query: string)
    ensures var met := FieldsMet(c, sels, TypeNamed(c, query), [], "", c.bound);
      Tells(c, limits, met, Run(limits, START, FlattenAll(c, sels, TypeNamed(c, query), [], "", c.bound)))
  {
    hide StandFor, Says, Resolves, Tells, FlattenAll, After, Solid, Run, TypeNamed;
    var met := FieldsMet(c, sels, TypeNamed(c, query), [], "", c.bound);
    hide FieldsMet;
    var items := FlattenAll(c, sels, TypeNamed(c, query), [], "", c.bound);
    AllStand(c, sels, TypeNamed(c, query), [], "", c.bound);
    RunSolid(limits, START, items);
    assert Solid(items)[0..] == Solid(items);
    NoneBefore(c, limits, met);
    RunTells(c, limits, met, 0, START, Solid(items));
  }

  /** So it succeeds exactly when all resolve and keep within the limits. */
  lemma {:induction false} WalkSucceedsIff(c: Context, limits: Limits, sels: seq<Selection>, query: string)
    ensures var met := FieldsMet(c, sels, TypeNamed(c, query), [], "", c.bound);
      Run(limits, START, FlattenAll(c, sels, TypeNamed(c, query), [], "", c.bound)).Ok?
      <==> Within(limits, met, |met|) && forall k :: 0 <= k < |met| ==> Resolves(c, met[k])
  {
    hide Says, Resolves, FlattenAll, FieldsMet, Run;
    var met := FieldsMet(c, sels, TypeNamed(c, query), [], "", c.bound);
    WalkLists(c, limits, sels, query);
    var r := Run(limits, START, FlattenAll(c, sels, TypeNamed(c, query), [], "", c.bound));
    if r.Err? && Within(limits, met, |met|) && forall k :: 0 <= k < |met| ==> Resolves(c, met[k]) {
      var k :| 0 <= k < |met| && StopsAt(c, limits, met, k, r.why);
      NotOneTooMany(limits, met, k, r.why);
      assert false;
    }
  }

  lemma {:induction false} AliasesGrow(met: seq<Met>, k: nat)
    requires k <= |met|
    ensures AliasesAmong(met[..k]) <= AliasesAmong(met)
    decreases |met| - k
  {
    if k == |met| {
      assert met[..k] == met;
    } else {
      AliasesGrow(met, k + 1);
      assert met[..k + 1][..k] == met[..k];
    }
  }

  lemma {:induction false} NotOneTooMany(limits: Limits, met: seq<Met>, k: nat, why: Unverifiable)
    requires Within(limits, met, |met|) && k < |met|
    ensures !Exceeds(limits, met, k, why)
  {
    assert met[..|met|] == met;
    AliasesGrow(met, k + 1);
    assert met[..k + 1][..k] == met[..k] && met[..k + 1][k] == met[k];
  }

  // ---- Every selection is visited ----

  /** The selections there are: each field, inline fragment and spread once for
      each place the fragments bring it to. */
  function CountAll(c: Context, sels: seq<Selection>, parent: Option<string>, n: nat): nat
    decreases n, sels
  {
    if sels == [] then 0 else CountOne(c, sels[0], parent, n) + CountAll(c, sels[1..], parent, n)
  }

  function CountOne(c: Context, s: Selection, parent: Option<string>, n: nat): nat
    decreases n, s
  {
    match s
    case Field(_, name, _, _, _, inner) =>
      1 + if parent.None? || parent.value !in c.types || name == "__typename" then 0
          else CountAll(c, inner, ChildType(c, s, parent.value), n)
    case Inline(cond, inner) => 1 + CountAll(c, inner, if cond == "" then parent else TypeNamed(c, cond), n)
    case Spread(name) =>
      1 + if name !in c.fragments || c.fragments[name].rank >= n then 0
          else CountAll(c, c.fragments[name].sels, TypeNamed(c, c.fragments[name].on), c.fragments[name].rank)
  }

  lemma {:induction false} NoneCount(c: Context, parent: Option<string>, n: nat)
    ensures CountAll(c, [], parent, n) == 0
  {}

  lemma {:induction false} OneCounts(c: Context, s: Selection, parent: Option<string>, path: seq<string>, on: string, n: nat)
    ensures |Flatten(c, s, parent, path, on, n)| == CountOne(c, s, parent, n)
    decreases n, s
  {
    hide FlattenAll, CountAll, FieldEntry, ChildType;
    match s {
      case Field(_, _, _, _, _, inner) =>
        if parent.Some? && parent.value in c.types {
          if inner == [] {
            NoneCount(c, ChildType(c, s, parent.value), n);
          } else if Descends(s) {
            AllCount(c, inner, ChildType(c, s, parent.value), path + [s.alias], "", n);
          }
        }
      case Inline(cond, inner) => AllCount(c, inner, if cond == "" then parent else TypeNamed(c, cond), path, cond, n);
      case Spread(name) =>
        if name in c.fragments && c.fragments[name].rank < n {
          var f := c.fragments[name];
          AllCount(c, f.sels, TypeNamed(c, f.on), path, f.on, f.rank);
        }
    }
  }

  lemma {:induction false} AllCount(c: Context, sels: seq<Selection>, parent: Option<string>, path: seq<string>, on: string, n: nat)
    ensures |FlattenAll(c, sels, parent, path, on, n)| == CountAll(c, sels, parent, n)
    decreases n, sels
  {
    hide Flatten, CountOne;
    if sels != [] {
      OneCounts(c, sels[0], parent, path, on, n);
      AllCount(c, sels[1..], parent, path, on, n);
    }
  }

  /** A walk that succeeds visits every one of them once; one that fails visits
      no more. */
  lemma {:induction false} VisitsEach(c: Context, limits: Limits, sels: seq<Selection>, query: string)
    ensures var items := FlattenAll(c, sels, TypeNamed(c, query), [], "", c.bound);
      && Visits(limits, START, items) <= CountAll(c, sels, TypeNamed(c, query), c.bound)
      && (Run(limits, START, items).Ok? ==> Visits(limits, START, items) == CountAll(c, sels, TypeNamed(c, query), c.bound))
  {
    hide FlattenAll, CountAll, Visits, Run;
    AllCount(c, sels, TypeNamed(c, query), [], "", c.bound);
    VisitsExact(limits, START, FlattenAll(c, sels, TypeNamed(c, query), [], "", c.bound));
  }

  // ---- What the walk looks up ----

  /** The type at the end of a list type. */
  ghost predicate EndsIn(t: Type, name: string)
    decreases t
  {
    if t.Named? then t.name == name else EndsIn(t.elem, name)
  }

  lemma {:induction false} NamedTypeEnds(t: Type)
    ensures forall name :: NamedType(t) == name <==> EndsIn(t, name)
    decreases t
  {
    if t.ListOf? { NamedTypeEnds(t.elem); }
  }

  lemma {:induction false} FieldOfExact(fields: seq<FieldDef>, name: string)
    requires forall i, j :: 0 <= i < j < |fields| ==> fields[i].name != fields[j].name
    ensures forall d :: FieldOf(fields, name) == Some(d) <==> d in fields && d.name == name
    decreases |fields|
  {
    if fields != [] {
      assert forall i :: 0 <= i < |fields[1..]| ==> fields[1..][i] == fields[i + 1];
      FieldOfExact(fields[1..], name);
      assert fields == [fields[0]] + fields[1..];
    }
  }

  /** Below a field stands the type its declared type ends in, where the schema
      has it. */
  lemma {:induction false} ChildTypeExact(c: Context, s: Selection, parent: string, t: string)
    requires s.Field? && parent in c.types
    requires forall i, j :: 0 <= i < j < |c.types[parent]| ==> c.types[parent][i].name != c.types[parent][j].name
    ensures ChildType(c, s, parent) == Some(t) <==>
      t in c.types && exists d :: d in c.types[parent] && d.name == s.name && EndsIn(d.typ, t)
  {
    FieldOfExact(c.types[parent], s.name);
    var def := FieldOf(c.types[parent], s.name);
    if def.Some? { NamedTypeEnds(def.value.typ); }
  }

  /** The arguments of a field fail with the first that does not resolve, by
      whose fault that is. */
  lemma {:induction false} ResolveArgsFails(c: Context, defs: seq<ArgumentDef>, written: seq<Member>, args: map<string, Arg>)
    ensures ResolveArgs(c, defs, written, args).Args? <==>
      forall i :: 0 <= i < |defs| ==> !Argument(c.input, c.vars, defs[i], Written(written, defs[i].name)).Bad?
    ensures ResolveArgs(c, defs, written, args).BadArgs? ==> exists i :: 0 <= i < |defs| && FailsAt(c, defs, written, i,
      ResolveArgs(c, defs, written, args).why)
    decreases |defs|
  {
    hide Argument, Written;
    if defs != [] {
      var rest := defs[1..];
      assert forall i :: 0 <= i < |rest| ==> rest[i] == defs[i + 1];
      var spec := Argument(c.input, c.vars, defs[0], Written(written, defs[0].name));
      var next := if spec.Resolved? then args[defs[0].name := spec.arg] else args;
      if spec.Bad? {
        assert FailsAt(c, defs, written, 0, ResolveArgs(c, defs, written, args).why);
      } else {
        ResolveArgsFails(c, rest, written, next);
        var r := ResolveArgs(c, rest, written, next);
        if r.BadArgs? {
          var i :| 0 <= i < |rest| && FailsAt(c, rest, written, i, r.why);
          assert FailsAt(c, defs, written, i + 1, r.why);
        } else {
          forall i | 0 <= i < |defs| ensures !Argument(c.input, c.vars, defs[i], Written(written, defs[i].name)).Bad? {
            if i > 0 { assert defs[i] == rest[i - 1]; }
          }
        }
      }
    }
  }

  ghost predicate FailsAt(c: Context, defs: seq<ArgumentDef>, written: seq<Member>, i: nat, why: Unverifiable)
    requires i < |defs|
  {
    var r := Argument(c.input, c.vars, defs[i], Written(written, defs[i].name));
    && r.Bad? && why == (if r.why == VariableError then VariableFault else InvalidQuery)
    && forall j :: 0 <= j < i ==> !Argument(c.input, c.vars, defs[j], Written(written, defs[j].name)).Bad?
  }
}
