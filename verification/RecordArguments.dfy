/** The arguments of the records a walk lists (ftv-graphql-mapper/walk.go,
    coerce.go): each holds a value of its declared type, with its schema
    defaults where it says. */
module RecordArguments {
  import opened Base
  import opened Coercion
  import opened CoercionLaws
  import opened Arguments
  import opened Documents
  import opened Walk
  import opened CheckArguments

  // ---- What validation grants of arguments ----

  ghost predicate ConstantDefault(a: ArgumentDef) {
    a.default.Some? ==> !a.default.value.Var? && Unique(a.default.value)
  }

  ghost predicate ConstantArguments(fields: seq<FieldDef>) {
    forall i, j :: 0 <= i < |fields| && 0 <= j < |fields[i].args| ==> ConstantDefault(fields[i].args[j])
  }

  /** What is written for an argument names each object field once and uses
      variables where they are allowed. */
  ghost predicate WrittenAllowed(c: Context, defs: seq<VariableDef>, a: ArgumentDef, written: seq<Member>) {
    var w := Written(written, a.name);
    w.Some? ==> Unique(w.value) && UsesAllowed(c.input, defs, a.typ, w.value)
  }

  ghost predicate ArgsAllowed(c: Context, defs: seq<VariableDef>, args: seq<ArgumentDef>, written: seq<Member>) {
    forall i :: 0 <= i < |args| ==> WrittenAllowed(c, defs, args[i], written)
  }

  ghost predicate AllAllowed(c: Context, defs: seq<VariableDef>, sels: seq<Selection>)
    decreases sels
  {
    forall i :: 0 <= i < |sels| ==> AllowedIn(c, defs, sels[i])
  }

  ghost predicate AllowedIn(c: Context, defs: seq<VariableDef>, s: Selection)
    decreases s
  {
    match s
    case Field(_, _, _, args, definition, inner) =>
      (definition.Some? ==> ArgsAllowed(c, defs, definition.value.args, args)) && AllAllowed(c, defs, inner)
    case Inline(_, inner) => AllAllowed(c, defs, inner)
    case Spread(_) => true
  }

  ghost predicate ValidArguments(c: Context, defs: seq<VariableDef>, sels: seq<Selection>) {
    && WellFormed(c.input) && DefsWellFormed(defs)
    && (forall t :: t in c.types ==> ConstantArguments(c.types[t]))
    && AllAllowed(c, defs, sels)
    && (forall f :: f in c.fragments ==> AllAllowed(c, defs, c.fragments[f].sels))
  }

  // ---- Sound records ----

  ghost predicate SoundArg(s: Schema, args: seq<ArgumentDef>, k: string, arg: Arg) {
    exists i :: 0 <= i < |args| && args[i].name == k && SoundValue(s, args[i].typ, arg.value, arg.schemaDefaults)
  }

  ghost predicate SoundArgs(s: Schema, args: seq<ArgumentDef>, values: map<string, Arg>) {
    forall k :: k in values ==> SoundArg(s, args, k, values[k])
  }

  /** Every argument of the record is one its field defines, with a value of its
      type. */
  ghost predicate SoundRecord(c: Context, r: Record) {
    r.args == map[] ||
    (r.parentType in c.types && FieldOf(c.types[r.parentType], r.field).Some?
     && SoundArgs(c.input, FieldOf(c.types[r.parentType], r.field).value.args, r.args))
  }

  ghost predicate SoundRecords(c: Context, fields: seq<Record>) { forall r :: r in fields ==> SoundRecord(c, r) }

  ghost predicate SoundItems(c: Context, items: seq<Item>) {
    forall i :: 0 <= i < |items| && items[i].Entry? && items[i].outcome.Emit? ==> SoundRecord(c, items[i].outcome.record)
  }

  /** The variables are those the operation's definitions give. */
  ghost predicate Bound(c: Context, defs: seq<VariableDef>, supplied: map<string, Json>) {
    WellFormed(c.input) && Arguments.Acyclic(c.input) && DefsWellFormed(defs) && CoerceAll(c.input, defs, supplied, map[]) == Some(c.vars)
  }

  lemma {:induction false} ResolvedSound(c: Context, defs: seq<VariableDef>, supplied: map<string, Json>, all: seq<ArgumentDef>, k: nat,
                                         written: seq<Member>, values: map<string, Arg>)
    requires Bound(c, defs, supplied) && ArgsAllowed(c, defs, all, written)
    requires k <= |all| && forall i :: 0 <= i < |all| ==> ConstantDefault(all[i])
    requires SoundArgs(c.input, all, values)
    ensures var r := ResolveArgs(c, all[k..], written, values); r.Args? ==> SoundArgs(c.input, all, r.args)
    decreases |all| - k
  {
    hide Argument, WrittenAllowed, SoundValue, Bound, SoundArgs, ConstantDefault;
    if k < |all| {
      assert all[k..][0] == all[k] && all[k..][1..] == all[k + 1..];
      var spec := Argument(c.input, c.vars, all[k], Written(written, all[k].name));
      if spec.Resolved? {
        OneSound(c, defs, supplied, all, k, written);
        AddedSound(c.input, all, values, all[k].name, spec.arg);
        ResolvedSound(c, defs, supplied, all, k + 1, written, values[all[k].name := spec.arg]);
      } else if spec.NoValue? {
        ResolvedSound(c, defs, supplied, all, k + 1, written, values);
      }
    }
  }

  lemma {:induction false} OneSound(c: Context, defs: seq<VariableDef>, supplied: map<string, Json>, all: seq<ArgumentDef>, k: nat,
                                    written: seq<Member>)
    requires Bound(c, defs, supplied) && k < |all| && WrittenAllowed(c, defs, all[k], written) && ConstantDefault(all[k])
    ensures var spec := Argument(c.input, c.vars, all[k], Written(written, all[k].name));
      spec.Resolved? ==> SoundArg(c.input, all, all[k].name, spec.arg)
  {
    hide Argument, SoundValue, Unique, UsesAllowed, WellFormed, DefsWellFormed, CoerceAll, Arguments.Acyclic;
    ArgumentSound(c.input, defs, supplied, c.vars, all[k], Written(written, all[k].name));
  }

  lemma {:induction false} AddedSound(s: Schema, args: seq<ArgumentDef>, values: map<string, Arg>, k: string, arg: Arg)
    requires SoundArgs(s, args, values) && SoundArg(s, args, k, arg)
    ensures SoundArgs(s, args, values[k := arg])
  {
    hide SoundArg;
  }

  lemma {:induction false} EntrySound(c: Context, defs: seq<VariableDef>, supplied: map<string, Json>, s: Selection, parent: string,
                                      path: seq<string>, on: string)
    requires Bound(c, defs, supplied) && s.Field? && parent in c.types && ValidOne(c, s, parent)
    requires ConstantArguments(c.types[parent]) && AllowedIn(c, defs, s)
    ensures var x := FieldEntry(c, s, parent, path, on); x.Entry? && (x.outcome.Emit? ==> SoundRecord(c, x.outcome.record))
  {
    hide ResolveArgs, Bound, ArgsAllowed, AllAllowed, SoundArgs, Valid;
    if s.name != TYPENAME {
      var all := FieldOf(c.types[parent], s.name).value.args;
      FieldConstant(c.types[parent], s.name);
      assert all[0..] == all;
      NoArgsSound(c.input, all);
      ResolvedSound(c, defs, supplied, all, 0, s.args, map[]);
    }
  }

  lemma NoArgsSound(s: Schema, args: seq<ArgumentDef>)
    ensures SoundArgs(s, args, map[])
  {}

  lemma {:induction false} FieldConstant(fields: seq<FieldDef>, name: string)
    requires ConstantArguments(fields) && FieldOf(fields, name).Some?
    ensures forall j :: 0 <= j < |FieldOf(fields, name).value.args| ==> ConstantDefault(FieldOf(fields, name).value.args[j])
    decreases |fields|
  {
    hide ConstantDefault;
    if fields[0].name != name {
      forall i, j | 0 <= i < |fields[1..]| && 0 <= j < |fields[1..][i].args| ensures ConstantDefault(fields[1..][i].args[j]) {
        assert fields[1..][i] == fields[i + 1];
      }
      FieldConstant(fields[1..], name);
    }
  }

  lemma {:induction false} SoundApart(c: Context, a: seq<Item>, b: seq<Item>)
    requires SoundItems(c, a) && SoundItems(c, b)
    ensures SoundItems(c, a + b)
  {
    hide SoundRecord;
  }

  lemma {:induction false} FlattenSound(c: Context, defs: seq<VariableDef>, supplied: map<string, Json>, s: Selection,
                                        parent: string, path: seq<string>, on: string, n: nat)
    requires Bound(c, defs, supplied) && Granted(c, defs) && parent in c.types && ValidOne(c, s, parent) && AllowedIn(c, defs, s)
    ensures SoundItems(c, Flatten(c, s, Some(parent), path, on, n))
    decreases n, s
  {
    hide FlattenAll, FieldEntry, ChildType, Bound, SoundRecord, ConstantArguments, Valid, AllAllowed, ArgsAllowed;
    match s {
      case Field(_, _, _, _, _, inner) =>
        EntrySound(c, defs, supplied, s, parent, path, on);
        if Descends(s) {
          FlattenAllSound(c, defs, supplied, inner, ChildType(c, s, parent), path + [s.alias], "", n);
          SoundApart(c, [FieldEntry(c, s, parent, path, on)], FlattenAll(c, inner, ChildType(c, s, parent), path + [s.alias], "", n));
        }
      case Inline(cond, inner) =>
        var t := if cond == "" then Some(parent) else TypeNamed(c, cond);
        FlattenAllSound(c, defs, supplied, inner, t, path, cond, n);
        SoundApart(c, [Step], FlattenAll(c, inner, t, path, cond, n));
      case Spread(name) =>
        if c.fragments[name].rank < n {
          var f := c.fragments[name];
          FlattenAllSound(c, defs, supplied, f.sels, TypeNamed(c, f.on), path, f.on, f.rank);
          SoundApart(c, [Step], FlattenAll(c, f.sels, TypeNamed(c, f.on), path, f.on, f.rank));
        }
    }
  }

  /** What is granted of types and fragments, whatever is selected. */
  ghost predicate Granted(c: Context, defs: seq<VariableDef>) {
    && (forall t :: t in c.types ==> ConstantArguments(c.types[t]))
    && (forall f :: f in c.fragments ==>
          AllAllowed(c, defs, c.fragments[f].sels) && Valid(c, c.fragments[f].sels, TypeNamed(c, c.fragments[f].on)))
  }

  lemma {:induction false} FlattenAllSound(c: Context, defs: seq<VariableDef>, supplied: map<string, Json>, sels: seq<Selection>,
                                           parent: Option<string>, path: seq<string>, on: string, n: nat)
    requires Bound(c, defs, supplied) && Granted(c, defs) && Valid(c, sels, parent) && AllAllowed(c, defs, sels)
    ensures SoundItems(c, FlattenAll(c, sels, parent, path, on, n))
    decreases n, sels
  {
    hide Flatten, Bound, Granted, SoundItems, ValidOne, AllowedIn;
    if sels == [] {
      NothingSound(c);
    } else {
      FlattenSound(c, defs, supplied, sels[0], parent.value, path, on, n);
      assert forall i :: 0 <= i < |sels[1..]| ==> sels[1..][i] == sels[i + 1];
      FlattenAllSound(c, defs, supplied, sels[1..], parent, path, on, n);
      SoundApart(c, Flatten(c, sels[0], parent, path, on, n), FlattenAll(c, sels[1..], parent, path, on, n));
    }
  }

  lemma NothingSound(c: Context)
    ensures SoundItems(c, [])
  {}

  lemma {:induction false} RecordsSound(c: Context, items: seq<Item>)
    requires SoundItems(c, items)
    ensures SoundRecords(c, Records(items))
    decreases |items|
  {
    hide SoundRecord;
    if items != [] {
      forall i | 0 <= i < |items[1..]| && items[1..][i].Entry? && items[1..][i].outcome.Emit?
        ensures SoundRecord(c, items[1..][i].outcome.record)
      {
        assert items[1..][i] == items[i + 1];
      }
      RecordsSound(c, items[1..]);
    }
  }

  /** In every list a walk of a validated operation returns, every argument of
      every record is one its field defines, holds a value of the declared type,
      and each of its default paths leads to a field with its coerced default. */
  lemma {:induction false} ListedArgumentsSound(c: Context, defs: seq<VariableDef>, supplied: map<string, Json>, limits: Limits,
                                                sels: seq<Selection>, query: string)
    requires ValidDocument(c, sels, query) && ValidArguments(c, defs, sels) && Arguments.Acyclic(c.input)
    requires CoerceAll(c.input, defs, supplied, map[]) == Some(c.vars)
    requires Run(limits, START, FlattenAll(c, sels, TypeNamed(c, query), [], "", c.bound)).Ok?
    ensures SoundRecords(c, Run(limits, START, FlattenAll(c, sels, TypeNamed(c, query), [], "", c.bound)).state.fields)
  {
    hide Run, FlattenAll, WellFormed, DefsWellFormed, Arguments.Acyclic, CoerceAll, Valid, AllAllowed, ConstantArguments,
         Records, SoundItems, SoundRecords, Clean;
    var items := FlattenAll(c, sels, TypeNamed(c, query), [], "", c.bound);
    FlattenAllSound(c, defs, supplied, sels, TypeNamed(c, query), [], "", c.bound);
    RunIsFirstOffence(limits, items);
    RecordsSound(c, items);
  }

  // Validity of arguments does not depend on the values of variables.

  lemma {:induction false} StillAllowed(c: Context, vars: Vars, defs: seq<VariableDef>, sels: seq<Selection>)
    requires AllAllowed(c, defs, sels)
    ensures AllAllowed(c.(vars := vars), defs, sels)
    decreases sels
  {
    forall i | 0 <= i < |sels| ensures AllowedIn(c.(vars := vars), defs, sels[i]) { StillAllowedIn(c, vars, defs, sels[i]); }
  }

  lemma {:induction false} StillAllowedIn(c: Context, vars: Vars, defs: seq<VariableDef>, s: Selection)
    requires AllowedIn(c, defs, s)
    ensures AllowedIn(c.(vars := vars), defs, s)
    decreases s
  {
    hide UsesAllowed, Unique;
    if s.Field? && s.definition.Some? {
      var args := s.definition.value.args;
      forall i | 0 <= i < |args| ensures WrittenAllowed(c.(vars := vars), defs, args[i], s.args) {
        assert WrittenAllowed(c, defs, args[i], s.args);
      }
    }
    if !s.Spread? { StillAllowed(c, vars, defs, s.sels); }
  }

  lemma {:induction false} StillValidArguments(c: Context, vars: Vars, defs: seq<VariableDef>, sels: seq<Selection>)
    requires ValidArguments(c, defs, sels)
    ensures ValidArguments(c.(vars := vars), defs, sels)
  {
    hide WellFormed, DefsWellFormed, AllAllowed, ConstantArguments;
    StillAllowed(c, vars, defs, sels);
    forall f | f in c.fragments ensures AllAllowed(c.(vars := vars), defs, c.fragments[f].sels) {
      StillAllowed(c, vars, defs, c.fragments[f].sels);
    }
  }
}
