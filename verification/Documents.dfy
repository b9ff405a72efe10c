/** A validated query document of the GraphQL mapper, and its pre-order
    flattening: every fragment inlined, one entry per field, as
    ftv-graphql-mapper/walk.go meets them. */
module Documents {
  import opened Base
  import opened Coercion
  import opened Arguments

  datatype FieldDef = FieldDef(name: string, typ: Type, args: seq<ArgumentDef>)

  /** alias is the response key, equal to the name for a field without alias;
      written tells whether it has one. definition is what validation resolved the field to. */
  datatype Selection =
    | Field(alias: string, name: string, written: bool, args: seq<Member>,
            definition: Option<FieldDef>, sels: seq<Selection>)
    | Inline(on: string, sels: seq<Selection>)
    | Spread(name: string)

  /** rank orders fragments: one spreads only fragments of a lower rank. */
  datatype Fragment = Fragment(on: string, sels: seq<Selection>, rank: nat)

  /** What the walk looks things up in. bound lies above every rank. */
  datatype Context = Context(types: map<string, seq<FieldDef>>, input: Schema,
                             fragments: map<string, Fragment>, vars: Vars, bound: nat)

  datatype Limits = Limits(depth: nat, records: nat, aliases: nat)

  datatype Record = Record(path: seq<string>, alias: string, parentType: string, on: string,
                           field: string, leaf: bool, args: map<string, Arg>)

  datatype Unverifiable = InvalidQuery | VariableFault | DepthExceeded | RecordsExceeded | AliasesExceeded

  predicate IsLimit(why: Unverifiable) { why.DepthExceeded? || why.RecordsExceeded? || why.AliasesExceeded? }

  const TYPENAME := "__typename"

  // ---- One field ----

  function NamedType(t: Type): string
    decreases t
  {
    if t.Named? then t.name else NamedType(t.elem)
  }

  function FieldOf(fields: seq<FieldDef>, name: string): Option<FieldDef> {
    if fields == [] then None
    else if fields[0].name == name then Some(fields[0])
    else FieldOf(fields[1..], name)
  }

  function Failed(why: Failure): Unverifiable { if why.VariableError? then VariableFault else InvalidQuery }

  datatype Resolution = BadArgs(why: Unverifiable) | Args(args: map<string, Arg>)

  /** walker.args: the arguments a field defines, in order. */
  function ResolveArgs(c: Context, defs: seq<ArgumentDef>, written: seq<Member>, args: map<string, Arg>): Resolution
    decreases |defs|
  {
    if defs == [] then Args(args)
    else match Argument(c.input, c.vars, defs[0], Written(written, defs[0].name))
      case Bad(why) => BadArgs(Failed(why))
      case NoValue => ResolveArgs(c, defs[1..], written, args)
      case Resolved(arg) => ResolveArgs(c, defs[1..], written, args[defs[0].name := arg])
  }

  /** Arguments that do not resolve exceed no limit. */
  lemma {:induction false} ResolveFault(c: Context, defs: seq<ArgumentDef>, written: seq<Member>, args: map<string, Arg>)
    ensures var r := ResolveArgs(c, defs, written, args); r.BadArgs? ==> !IsLimit(r.why)
    decreases |defs|
  {
    hide Argument;
    if defs != [] {
      var spec := Argument(c.input, c.vars, defs[0], Written(written, defs[0].name));
      ResolveFault(c, defs[1..], written, if spec.Resolved? then args[defs[0].name := spec.arg] else args);
    }
  }

  // ---- Flattening ----

  /** What the walk meets: a spread or inline fragment, a field with the record
      it makes, or something that is not there. */
  datatype Item =
    | Step
    | Entry(path: seq<string>, aliased: bool, outcome: Outcome)
    | Broken(why: Unverifiable)

  datatype Outcome = Emit(record: Record) | Fault(why: Unverifiable)

  predicate IsAliased(s: Selection)
    requires s.Field?
  {
    s.alias != s.name || s.written
  }

  /** The entry of a field on a known parent type. */
  function FieldEntry(c: Context, s: Selection, parent: string, path: seq<string>, on: string): Item
    requires s.Field? && parent in c.types
  {
    var aliased := IsAliased(s);
    var bare := Record(path + [s.alias], if aliased then s.alias else "", parent, on, s.name, s.sels == [], map[]);
    var outcome :=
      if s.name == TYPENAME then Emit(bare)
      else match FieldOf(c.types[parent], s.name)
        case None => Fault(InvalidQuery)
        case Some(def) =>
          match ResolveArgs(c, def.args, s.args, map[])
          case BadArgs(why) => Fault(why)
          case Args(args) => Emit(bare.(args := args));
    Entry(path + [s.alias], aliased, outcome)
  }

  function TypeNamed(c: Context, name: string): Option<string> { if name in c.types then Some(name) else None }

  /** The type of a field's selection set. */
  function ChildType(c: Context, s: Selection, parent: string): Option<string>
    requires s.Field? && parent in c.types
  {
    match FieldOf(c.types[parent], s.name)
    case None => None
    case Some(def) => TypeNamed(c, NamedType(def.typ))
  }

  predicate Descends(s: Selection)
    requires s.Field?
  {
    s.name != TYPENAME && s.sels != []
  }

  function Flatten(c: Context, s: Selection, parent: Option<string>, path: seq<string>, on: string, n: nat): seq<Item>
    decreases n, s
  {
    match s
    case Field(_, _, _, _, _, sels) =>
      if parent.None? || parent.value !in c.types then [Broken(InvalidQuery)]
      else
        [FieldEntry(c, s, parent.value, path, on)]
        + (if Descends(s) then FlattenAll(c, sels, ChildType(c, s, parent.value), path + [s.alias], "", n) else [])
    case Inline(cond, sels) =>
      [Step] + FlattenAll(c, sels, if cond == "" then parent else TypeNamed(c, cond), path, cond, n)
    case Spread(name) =>
      if name !in c.fragments || c.fragments[name].rank >= n then [Broken(InvalidQuery)]
      else
        var f := c.fragments[name];
        [Step] + FlattenAll(c, f.sels, TypeNamed(c, f.on), path, f.on, f.rank)
  }

  function FlattenAll(c: Context, sels: seq<Selection>, parent: Option<string>, path: seq<string>, on: string, n: nat): seq<Item>
    decreases n, sels
  {
    if sels == [] then []
    else Flatten(c, sels[0], parent, path, on, n) + FlattenAll(c, sels[1..], parent, path, on, n)
  }

  // ---- Acyclic fragments ----

  /** Every fragment spread in the selections has a rank below n. */
  ghost predicate SpreadsBelow(c: Context, sels: seq<Selection>, n: nat)
    decreases sels
  {
    forall i :: 0 <= i < |sels| ==> match sels[i]
      case Field(_, _, _, _, _, inner) => SpreadsBelow(c, inner, n)
      case Inline(_, inner) => SpreadsBelow(c, inner, n)
      case Spread(name) => name in c.fragments ==> c.fragments[name].rank < n
  }

  ghost predicate NoCycles(c: Context) {
    forall f :: f in c.fragments ==> c.fragments[f].rank < c.bound && SpreadsBelow(c, c.fragments[f].sels, c.fragments[f].rank)
  }

  lemma {:induction false} BelowBound(c: Context, sels: seq<Selection>)
    requires NoCycles(c)
    ensures SpreadsBelow(c, sels, c.bound)
    decreases sels
  {
    forall i | 0 <= i < |sels|
      ensures match sels[i]
        case Field(_, _, _, _, _, inner) => SpreadsBelow(c, inner, c.bound)
        case Inline(_, inner) => SpreadsBelow(c, inner, c.bound)
        case Spread(name) => name in c.fragments ==> c.fragments[name].rank < c.bound
    {
      if !sels[i].Spread? { BelowBound(c, sels[i].sels); }
    }
  }

  /** Below its bound the rank makes no difference. */
  lemma {:induction false} FlattenStable(c: Context, sels: seq<Selection>, parent: Option<string>, path: seq<string>, on: string, n: nat, m: nat)
    requires SpreadsBelow(c, sels, n) && n <= m
    ensures FlattenAll(c, sels, parent, path, on, n) == FlattenAll(c, sels, parent, path, on, m)
    decreases sels
  {
    hide FieldEntry, ChildType;
    if sels != [] {
      var s := sels[0];
      match s {
        case Field(_, _, _, _, _, inner) =>
          if parent.Some? && parent.value in c.types {
            FlattenStable(c, inner, ChildType(c, s, parent.value), path + [s.alias], "", n, m);
          }
        case Inline(cond, inner) =>
          FlattenStable(c, inner, if cond == "" then parent else TypeNamed(c, cond), path, cond, n, m);
        case Spread(_) =>
      }
      assert forall i :: 0 <= i < |sels[1..]| ==> sels[1..][i] == sels[i + 1];
      FlattenStable(c, sels[1..], parent, path, on, n, m);
    }
  }
}
