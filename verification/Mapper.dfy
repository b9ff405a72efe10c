/** The last stages of the mapper on a validated query operation
    (ftv-graphql-mapper/mapper.go): variables, arguments, then the walk. */
module Mapper {
  import opened Base
  import opened Coercion
  import opened Arguments
  import opened Documents
  import opened Walk
  import opened Coverage
  import opened CoverageExactness
  import opened CheckArguments
  import opened RecordArguments
  import opened WalkFacts

  datatype Mapped = Listed(fields: seq<Record>) | Failed(why: Unverifiable)

  /** Every field some execution selects has a record. */
  ghost predicate Covers(c: Context, sels: seq<Selection>, fields: seq<Record>) {
    forall e, object_, target, field ::
      Executes(c, e, object_, sels, [], target, field) ==> field.Field? && HasRecord(c, fields, target, field)
  }

  /** Every record is that of a field some execution selects. */
  ghost predicate OnlyCovered(c: Context, sels: seq<Selection>, fields: seq<Record>) {
    forall r :: r in fields ==> exists e, field :: Selected(c, sels, r, e, field)
  }

  /** One record for each field of the expanded document, saying what its
      selection says, all within the limits; or the limit that the first field
      too many exceeds. */
  ghost predicate Lists(c: Context, sels: seq<Selection>, query: string, limits: Limits, r: Mapped) {
    Tells(c, limits, FieldsMet(c, sels, TypeNamed(c, query), [], "", c.bound),
          match r case Listed(fields) => Ok(State(fields, 0)) case Failed(why) => Err(why))
  }

  /** What the stages report, one after the other. */
  ghost predicate Reports(c: Context, defs: seq<VariableDef>, supplied: map<string, Json>, sels: seq<Selection>,
                          query: string, limits: Limits, r: Mapped)
  {
    match CoerceAll(c.input, defs, supplied, map[])
    case None => r == Failed(VariableFault)
    case Some(vars) =>
      match VerdictOf(c.(vars := vars), Checks(Visit(c.(vars := vars), sels, {}, c.bound).0))
      case Stopped(why, _) => r == Failed(why)
      case Passed =>
        && Lists(c.(vars := vars), sels, query, limits, r)
        && match r
        case Listed(fields) =>
          && Covers(c.(vars := vars), sels, fields) && OnlyCovered(c.(vars := vars), sels, fields)
          && (ValidArguments(c, defs, sels) ==> SoundRecords(c.(vars := vars), fields))
        case Failed(why) => IsLimit(why)
  }

  /** Either the list is what executions can select, with every argument of every record
      a value of its type, or the failure is that of the first stage that fails;
      a limit is reported only when the variables and all arguments are in
      order. */
  method MapOperation(c: Context, defs: seq<VariableDef>, supplied: map<string, Json>, sels: seq<Selection>,
                      query: string, limits: Limits)
    returns (r: Mapped)
    requires NoCycles(c) && Arguments.Acyclic(c.input) && ValidDocument(c, sels, query)
    ensures Reports(c, defs, supplied, sels, query, limits, r)
  {
    hide NoCycles, Arguments.Acyclic, ValidDocument, CoerceAll, Visit, Checks, VerdictOf, Run, FlattenAll, Covers, OnlyCovered, ValidArguments, SoundRecords, Lists;
    var vars := CoerceVariables(c.input, defs, supplied);
    if vars.None? { return Failed(VariableFault); }
    var full := c.(vars := vars.value);
    VariablesChangeNothing(c, vars.value, sels, query);
    var verdict := CheckAll(full, sels);
    if verdict.Stopped? { return Failed(verdict.why); }
    OnlyLimitsRemain(full, limits, sels, query);
    var fields, fail, visits := WalkOperation(full, sels, query, limits);
    WalkIsListed(full, limits, sels, query);
    if fail.Some? { return Failed(fail.value); }
    WalkCovers(full, limits, sels, query);
    WalkCoversOnly(full, limits, sels, query);
    if ValidArguments(c, defs, sels) {
      StillValidArguments(c, vars.value, defs, sels);
      ListedArgumentsSound(full, defs, supplied, limits, sels, query);
    }
    return Listed(fields);
  }

  lemma {:induction false} WalkIsListed(c: Context, limits: Limits, sels: seq<Selection>, query: string)
    ensures match Run(limits, START, FlattenAll(c, sels, TypeNamed(c, query), [], "", c.bound))
      case Ok(st) => Lists(c, sels, query, limits, Listed(st.fields))
      case Err(why) => Lists(c, sels, query, limits, Failed(why))
  {
    hide Run, FlattenAll, FieldsMet, Within, Resolves, Says, StopsAt;
    WalkLists(c, limits, sels, query);
  }

  lemma {:induction false} WalkCovers(c: Context, limits: Limits, sels: seq<Selection>, query: string)
    requires NoCycles(c)
    requires Run(limits, START, FlattenAll(c, sels, TypeNamed(c, query), [], "", c.bound)).Ok?
    ensures Covers(c, sels, Run(limits, START, FlattenAll(c, sels, TypeNamed(c, query), [], "", c.bound)).state.fields)
  {
    hide NoCycles, Run, FlattenAll, Executes, HasRecord;
    var fields := Run(limits, START, FlattenAll(c, sels, TypeNamed(c, query), [], "", c.bound)).state.fields;
    forall e, object_, target, field | Executes(c, e, object_, sels, [], target, field)
      ensures field.Field? && HasRecord(c, fields, target, field)
    {
      EveryExecutionIsCovered(c, limits, sels, query, e, object_, target, field);
    }
  }

  lemma {:induction false} WalkCoversOnly(c: Context, limits: Limits, sels: seq<Selection>, query: string)
    requires NoCycles(c)
    requires Run(limits, START, FlattenAll(c, sels, TypeNamed(c, query), [], "", c.bound)).Ok?
    ensures OnlyCovered(c, sels, Run(limits, START, FlattenAll(c, sels, TypeNamed(c, query), [], "", c.bound)).state.fields)
  {
    hide NoCycles, Run, FlattenAll, Selected;
    var fields := Run(limits, START, FlattenAll(c, sels, TypeNamed(c, query), [], "", c.bound)).state.fields;
    forall r | r in fields ensures exists e, field :: Selected(c, sels, r, e, field) {
      EveryRecordIsExecuted(c, limits, sels, query, r);
    }
  }

  // The validity of a document does not depend on its variables.

  lemma {:induction false} VariablesChangeNothing(c: Context, vars: Vars, sels: seq<Selection>, query: string)
    requires NoCycles(c) && ValidDocument(c, sels, query)
    ensures NoCycles(c.(vars := vars)) && ValidDocument(c.(vars := vars), sels, query)
  {
    hide Valid, SpreadsBelow;
    var d := c.(vars := vars);
    StillValid(c, vars, sels, TypeNamed(c, query));
    forall f | f in c.fragments
      ensures SpreadsBelow(d, c.fragments[f].sels, c.fragments[f].rank)
      ensures Valid(d, c.fragments[f].sels, TypeNamed(d, c.fragments[f].on))
    {
      StillBelow(c, vars, c.fragments[f].sels, c.fragments[f].rank);
      StillValid(c, vars, c.fragments[f].sels, TypeNamed(c, c.fragments[f].on));
    }
  }

  lemma {:induction false} StillBelow(c: Context, vars: Vars, sels: seq<Selection>, n: nat)
    requires SpreadsBelow(c, sels, n)
    ensures SpreadsBelow(c.(vars := vars), sels, n)
    decreases sels
  {
    var d := c.(vars := vars);
    forall i | 0 <= i < |sels|
      ensures match sels[i]
        case Field(_, _, _, _, _, inner) => SpreadsBelow(d, inner, n)
        case Inline(_, inner) => SpreadsBelow(d, inner, n)
        case Spread(name) => name in d.fragments ==> d.fragments[name].rank < n
    {
      if !sels[i].Spread? { StillBelow(c, vars, sels[i].sels, n); }
    }
  }

  lemma {:induction false} StillValid(c: Context, vars: Vars, sels: seq<Selection>, parent: Option<string>)
    requires Valid(c, sels, parent)
    ensures Valid(c.(vars := vars), sels, parent)
    decreases sels
  {
    forall i | 0 <= i < |sels| ensures ValidOne(c.(vars := vars), sels[i], parent.value) {
      StillValidOne(c, vars, sels[i], parent.value);
    }
  }

  lemma {:induction false} StillValidOne(c: Context, vars: Vars, s: Selection, parent: string)
    requires parent in c.types && ValidOne(c, s, parent)
    ensures ValidOne(c.(vars := vars), s, parent)
    decreases s
  {
    match s {
      case Field(_, name, _, _, _, inner) =>
        if name != TYPENAME && inner != [] { StillValid(c, vars, inner, ChildType(c, s, parent)); }
      case Inline(on, inner) => StillValid(c, vars, inner, if on == "" then Some(parent) else TypeNamed(c, on));
      case Spread(_) =>
    }
  }
}
