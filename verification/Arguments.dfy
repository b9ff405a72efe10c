/** Variables and arguments (ftv-graphql-mapper/coerce.go): coerceVariables
    fills the variables of an operation, and argument uses them to find what a
    selection passes for an argument. */
module Arguments {
  import opened Base
  import opened Coercion
  import opened CoercionLaws
  import opened SuppliedValues
  import opened Coercers

  // ---- Coercion returns ----

  /** A literal takes only defaults of a rank below n. */
  ghost predicate Below(s: Schema, t: Type, v: Coercion.Value, n: nat)
    decreases v, Height(t) + 1
  {
    if v.Var? || v.Null? then true
    else if t.ListOf? then
      if v.ListV? then forall i :: 0 <= i < |v.items| ==> Below(s, t.elem, v.items[i], n)
      else Below(s, t.elem, v, n)
    else t.name in s.types && s.types[t.name].InputObject? && v.ObjV? ==>
      forall j :: 0 <= j < |s.types[t.name].fields| ==> FieldBelow(s, s.types[t.name].fields[j], v, n)
  }

  ghost predicate FieldBelow(s: Schema, fd: InputField, v: Coercion.Value, n: nat)
    requires v.ObjV?
    decreases v, 0
  {
    && (Written(v.members, fd.name).None? || Written(v.members, fd.name).value.Var? ==> fd.default.Some? ==> fd.rank < n)
    && (forall i :: 0 <= i < |v.members| && v.members[i].name == fd.name ==> Below(s, fd.typ, v.members[i].value, n))
  }

  /** The schema's input-field defaults are acyclic: each takes only defaults
      of a lower rank. */
  ghost predicate Acyclic(s: Schema) {
    forall t, i :: t in s.types && s.types[t].InputObject? && 0 <= i < |s.types[t].fields| ==>
      RankedDefault(s, s.types[t].fields[i])
  }

  ghost predicate RankedDefault(s: Schema, fd: InputField) {
    fd.default.Some? ==> fd.rank < s.bound && Below(s, fd.typ, fd.default.value, fd.rank)
  }

  lemma {:induction false} AnyBelowBound(s: Schema, t: Type, v: Coercion.Value)
    requires Acyclic(s)
    ensures Below(s, t, v, s.bound)
    decreases v, Height(t)
  {
    if v.Var? || v.Null? {
    } else if t.ListOf? {
      if v.ListV? {
        forall i | 0 <= i < |v.items| ensures Below(s, t.elem, v.items[i], s.bound) { AnyBelowBound(s, t.elem, v.items[i]); }
      } else {
        AnyBelowBound(s, t.elem, v);
      }
    } else if t.name in s.types && s.types[t.name].InputObject? && v.ObjV? {
      var fields := s.types[t.name].fields;
      forall j | 0 <= j < |fields| ensures FieldBelow(s, fields[j], v, s.bound) {
        assert RankedDefault(s, fields[j]);
        forall i | 0 <= i < |v.members| && v.members[i].name == fields[j].name
          ensures Below(s, fields[j].typ, v.members[i].value, s.bound)
        {
          AnyBelowBound(s, fields[j].typ, v.members[i].value);
        }
      }
    }
  }

  lemma {:induction false} LiteralReturns(s: Schema, vars: Vars, t: Type, v: Coercion.Value, n: nat)
    requires Acyclic(s) && Below(s, t, v, n)
    ensures Literal(s, vars, t, v, n) != Fail(Endless)
    decreases n, v, Height(t) + 1, 0
  {
    hide LiteralItems, LiteralFields, ScalarLiteral, Acyclic, FieldBelow;
    if v.Var? || v.Null? {
    } else if t.ListOf? {
      if v.ListV? { ItemsReturn(s, vars, t.elem, v, 0, n); } else { LiteralReturns(s, vars, t.elem, v, n); }
    } else if t.name in s.types {
      match s.types[t.name] {
        case Scalar => ScalarReturns(s, vars, t.name, v);
        case InputObject(fields, _) =>
          if v.ObjV? {
            forall j | 0 <= j < |fields| ensures RankedDefault(s, fields[j]) { RankedField(s, t.name, j); }
            FieldsReturn(s, vars, fields, v, n);
          }
        case _ =>
      }
    }
  }

  lemma RankedField(s: Schema, t: string, j: nat)
    requires Acyclic(s) && t in s.types && s.types[t].InputObject? && j < |s.types[t].fields|
    ensures RankedDefault(s, s.types[t].fields[j])
  {}

  lemma ScalarReturns(s: Schema, vars: Vars, name: string, v: Coercion.Value)
    ensures ScalarLiteral(s, vars, name, v) != Fail(Endless)
  {
    hide Untyped, ParseInt32;
  }

  lemma {:induction false} ItemsReturn(s: Schema, vars: Vars, elem: Type, v: Coercion.Value, i: nat, n: nat)
    requires Acyclic(s) && v.ListV? && i <= |v.items|
    requires forall k :: 0 <= k < |v.items| ==> Below(s, elem, v.items[k], n)
    ensures LiteralItems(s, vars, elem, v, i, n) != NoItems(Endless)
    decreases n, v, 0, |v.items| - i
  {
    hide Literal, Acyclic, Below;
    if i < |v.items| {
      LiteralReturns(s, vars, elem, v.items[i], n);
      ItemsReturn(s, vars, elem, v, i + 1, n);
    }
  }

  lemma {:induction false} FieldsReturn(s: Schema, vars: Vars, fields: seq<InputField>, v: Coercion.Value, n: nat)
    requires Acyclic(s) && v.ObjV?
    requires forall j :: 0 <= j < |fields| ==> RankedDefault(s, fields[j]) && FieldBelow(s, fields[j], v, n)
    ensures LiteralFields(s, vars, fields, v, n) != NoFields(Endless)
    decreases n, v, 0, |fields|
  {
    hide Literal, Acyclic, Below;
    if fields != [] {
      var fd := fields[0];
      var written := Written(v.members, fd.name);
      WrittenIn(v.members, fd.name);
      if written.Some? {
        var i :| 0 <= i < |v.members| && v.members[i].name == fd.name && v.members[i].value == written.value;
        LiteralReturns(s, vars, fd.typ, written.value, n);
        if !written.value.Var? { LiteralPresent(s, vars, fd.typ, written.value, n); }
      }
      if fd.default.Some? && fd.rank < n { LiteralReturns(s, map[], fd.typ, fd.default.value, fd.rank); }
      assert forall j :: 0 <= j < |fields[1..]| ==> fields[1..][j] == fields[j + 1];
      FieldsReturn(s, vars, fields[1..], v, n);
    }
  }

  lemma {:induction false} InputReturns(s: Schema, t: Type, v: Json)
    requires Acyclic(s)
    ensures Input(s, t, v) != Fail(Endless)
    decreases v, Height(t) + 1, 0
  {
    hide InputItems, InputFields, ScalarInput, Acyclic;
    if v.JNull? {
    } else if t.ListOf? {
      if v.JList? { InputItemsReturn(s, t.elem, v, 0); } else { InputReturns(s, t.elem, v); }
    } else if t.name in s.types && s.types[t.name].InputObject? && v.JObj? {
      var fields := s.types[t.name].fields;
      forall j | 0 <= j < |fields| ensures RankedDefault(s, fields[j]) { RankedField(s, t.name, j); }
      InputFieldsReturn(s, fields, v);
    }
  }

  lemma {:induction false} InputItemsReturn(s: Schema, elem: Type, v: Json, i: nat)
    requires Acyclic(s) && v.JList? && i <= |v.items|
    ensures InputItems(s, elem, v, i) != NoItems(Endless)
    decreases v, 0, |v.items| - i
  {
    hide Input, Acyclic;
    if i < |v.items| {
      InputReturns(s, elem, v.items[i]);
      InputItemsReturn(s, elem, v, i + 1);
    }
  }

  lemma {:induction false} InputFieldsReturn(s: Schema, fields: seq<InputField>, v: Json)
    requires Acyclic(s) && v.JObj? && forall j :: 0 <= j < |fields| ==> RankedDefault(s, fields[j])
    ensures InputFields(s, fields, v) != NoFields(Endless)
    decreases v, 0, |fields|
  {
    hide Input, Acyclic, Literal, Below;
    if fields != [] {
      var fd := fields[0];
      if fd.name in v.members {
        InputReturns(s, fd.typ, v.members[fd.name]);
        InputPlain(s, fd.typ, v.members[fd.name]);
      }
      if fd.default.Some? { LiteralReturns(s, map[], fd.typ, fd.default.value, fd.rank); }
      assert forall j :: 0 <= j < |fields[1..]| ==> fields[1..][j] == fields[j + 1];
      InputFieldsReturn(s, fields[1..], v);
    }
  }

  lemma {:induction false} AnyLiteralReturns(s: Schema, vars: Vars, t: Type, v: Coercion.Value)
    requires Acyclic(s)
    ensures Literal(s, vars, t, v, s.bound) != Fail(Endless)
  {
    AnyBelowBound(s, t, v);
    LiteralReturns(s, vars, t, v, s.bound);
  }

  // ---- Variables ----

  datatype VariableDef = VariableDef(name: string, typ: Type, default: Option<Coercion.Value>)

  /** One variable: an error, no value, or its value. */
  datatype Coerced = Refused(why: Failure) | Unset | Set(variable: Variable)

  function CoerceOne(s: Schema, def: VariableDef, supplied: map<string, Json>): Coerced {
    if def.name in supplied then
      match Input(s, def.typ, supplied[def.name])
      case Fail(why) => Refused(why)
      case Got(v, _, defaults) => Set(Variable(OrNull(v), false, defaults))
    else if def.default.Some? then
      match Literal(s, map[], def.typ, def.default.value, s.bound)
      case Fail(why) => Refused(why)
      case Got(v, _, defaults) => Set(Variable(OrNull(v), true, defaults))
    else if def.typ.nonNull then Refused(VariableError)
    else Unset
  }

  function CoerceAll(s: Schema, defs: seq<VariableDef>, supplied: map<string, Json>, vars: Vars): Option<Vars>
    decreases |defs|
  {
    if defs == [] then Some(vars)
    else match CoerceOne(s, defs[0], supplied)
      case Refused(_) => None
      case Unset => CoerceAll(s, defs[1..], supplied, vars)
      case Set(x) => CoerceAll(s, defs[1..], supplied, vars[defs[0].name := x])
  }

  ghost predicate DistinctNames(defs: seq<VariableDef>) {
    forall i, j :: 0 <= i < j < |defs| ==> defs[i].name != defs[j].name
  }

  /** What a definition makes of its variable: a supplied value at its type,
      whether or not there is a default; the default where nothing is supplied;
      or no value, which its type must allow. */
  ghost predicate BoundBy(s: Schema, def: VariableDef, supplied: map<string, Json>, vars: Vars) {
    && (def.name in supplied ==>
          var value := Input(s, def.typ, supplied[def.name]);
          value.Got? && def.name in vars && vars[def.name] == Variable(OrNull(value.value), false, value.defaults))
    && (def.name !in supplied && def.default.Some? ==>
          var value := Literal(s, map[], def.typ, def.default.value, s.bound);
          value.Got? && def.name in vars && vars[def.name] == Variable(OrNull(value.value), true, value.defaults))
    && (def.name !in supplied && def.default.None? ==> !def.typ.nonNull && def.name !in vars)
  }

  /** Every definition has its way, and nothing else is bound. */
  ghost predicate BoundByAll(s: Schema, defs: seq<VariableDef>, supplied: map<string, Json>, vars: Vars) {
    && (forall i :: 0 <= i < |defs| ==> BoundBy(s, defs[i], supplied, vars))
    && (forall x :: x in vars ==> exists i :: 0 <= i < |defs| && defs[i].name == x)
  }

  lemma {:induction false} OneBinds(s: Schema, def: VariableDef, supplied: map<string, Json>)
    ensures match CoerceOne(s, def, supplied)
      case Refused(_) => forall vars :: !BoundBy(s, def, supplied, vars)
      case Unset => forall vars :: BoundBy(s, def, supplied, vars) <==> def.name !in vars
      case Set(x) => forall vars :: BoundBy(s, def, supplied, vars) <==> def.name in vars && vars[def.name] == x
  {
    hide Input, Literal;
  }

  /** The definitions from the k-th on bind what is not bound yet. */
  lemma {:induction false} BindFrom(s: Schema, defs: seq<VariableDef>, supplied: map<string, Json>, k: nat, vars: Vars)
    requires DistinctNames(defs) && k <= |defs|
    requires forall i :: k <= i < |defs| ==> defs[i].name !in vars
    ensures var r := CoerceAll(s, defs[k..], supplied, vars);
      if r.Some? then
        && (forall i :: k <= i < |defs| ==> BoundBy(s, defs[i], supplied, r.value))
        && (forall x :: x in vars ==> x in r.value && r.value[x] == vars[x])
        && (forall x :: x in r.value ==> x in vars || exists i :: k <= i < |defs| && defs[i].name == x)
      else exists i :: k <= i < |defs| && CoerceOne(s, defs[i], supplied).Refused?
    decreases |defs| - k
  {
    hide CoerceOne, BoundBy;
    if k < |defs| {
      assert defs[k..][0] == defs[k] && defs[k..][1..] == defs[k + 1..];
      OneBinds(s, defs[k], supplied);
      match CoerceOne(s, defs[k], supplied) {
        case Refused(_) =>
        case Unset =>
          BindFrom(s, defs, supplied, k + 1, vars);
        case Set(x) =>
          BindFrom(s, defs, supplied, k + 1, vars[defs[k].name := x]);
      }
    }
  }

  /** Variables of distinct names are bound as each definition says, and there
      is a failure exactly when they cannot be. */
  lemma {:induction false} VariablesExact(s: Schema, defs: seq<VariableDef>, supplied: map<string, Json>)
    requires DistinctNames(defs)
    ensures forall vars :: CoerceAll(s, defs, supplied, map[]) == Some(vars) <==> BoundByAll(s, defs, supplied, vars)
  {
    hide CoerceOne, CoerceAll, BoundBy;
    assert defs[0..] == defs;
    BindFrom(s, defs, supplied, 0, map[]);
    var r := CoerceAll(s, defs, supplied, map[]);
    forall vars | BoundByAll(s, defs, supplied, vars) ensures r == Some(vars) {
      forall i | 0 <= i < |defs|
        ensures !CoerceOne(s, defs[i], supplied).Refused?
        ensures r.Some? ==> (defs[i].name in vars <==> defs[i].name in r.value)
        ensures r.Some? && defs[i].name in vars ==> vars[defs[i].name] == r.value[defs[i].name]
      {
        OneBinds(s, defs[i], supplied);
      }
      assert r.Some?;
      forall x ensures (x in vars <==> x in r.value) && (x in vars ==> vars[x] == r.value[x]) {
        if i :| 0 <= i < |defs| && defs[i].name == x {}
      }
      assert vars == r.value;
    }
  }

  /** coerceVariables; every failure is a VARIABLE_ERROR. */
  method CoerceVariables(s: Schema, defs: seq<VariableDef>, supplied: map<string, Json>) returns (r: Option<Vars>)
    requires Acyclic(s)
    ensures r == CoerceAll(s, defs, supplied, map[])
    ensures DistinctNames(defs) ==> forall vars :: r == Some(vars) <==> BoundByAll(s, defs, supplied, vars)
  {
    hide Input, Literal, Acyclic, NoteAll, BoundByAll, DistinctNames;
    if DistinctNames(defs) { VariablesExact(s, defs, supplied); }
    var vars: Vars := map[];
    var i := 0;
    while i < |defs|
      invariant i <= |defs|
      invariant CoerceAll(s, defs, supplied, map[]) == CoerceAll(s, defs[i..], supplied, vars)
    {
      var def := defs[i];
      assert defs[i..][1..] == defs[i + 1..];
      var c := new Coercer(s, map[], true);
      if def.name in supplied {
        InputReturns(s, def.typ, supplied[def.name]);
        var out := c.InputAt(def.typ, supplied[def.name], []);
        if out.Err? { return None; }
        RecordedFromStart(Input(s, def.typ, supplied[def.name]).defaults);
        vars := vars[def.name := Variable(OrNull(out.value), false, c.defaults)];
      } else if def.default.Some? {
        AnyLiteralReturns(s, map[], def.typ, def.default.value);
        var out := c.LiteralAt(def.typ, def.default.value, [], s.bound);
        if out.Err? { return None; }
        RecordedFromStart(Literal(s, map[], def.typ, def.default.value, s.bound).defaults);
        vars := vars[def.name := Variable(OrNull(out.value), true, c.defaults)];
      } else if def.typ.nonNull {
        return None;
      }
      i := i + 1;
    }
    return Some(vars);
  }

  lemma RecordedFromStart(paths: seq<Path>)
    ensures [] + Recorded(true, [], paths) == paths
  {
    assert forall i :: 0 <= i < |paths| ==> [] + paths[i] == paths[i];
  }

  ghost predicate DefsWellFormed(defs: seq<VariableDef>) {
    && DistinctNames(defs)
    && (forall i :: 0 <= i < |defs| && defs[i].default.Some? ==>
          !defs[i].default.value.Var? && Unique(defs[i].default.value))
  }

  /** A variable holds a value of its declared type, with its defaults where
      it says. */
  ghost predicate VarTyped(s: Schema, defs: seq<VariableDef>, x: string, v: Variable) {
    exists i :: 0 <= i < |defs| && defs[i].name == x && SoundValue(s, defs[i].typ, v.value, v.defaults)
  }

  ghost predicate VarsTyped(s: Schema, defs: seq<VariableDef>, vars: Vars) {
    forall x :: x in vars ==> VarTyped(s, defs, x, vars[x])
  }

  lemma CoerceOneTyped(s: Schema, def: VariableDef, supplied: map<string, Json>)
    requires WellFormed(s)
    requires def.default.Some? ==> !def.default.value.Var? && Unique(def.default.value)
    ensures var c := CoerceOne(s, def, supplied); c.Set? ==> SoundValue(s, def.typ, c.variable.value, c.variable.defaults)
  {
    hide Input, Literal, WellFormed, SoundValue;
    if def.name in supplied {
      InputSound(s, def.typ, supplied[def.name]);
      InputPlain(s, def.typ, supplied[def.name]);
    } else if def.default.Some? {
      NoVars(s, def.typ, def.default.value);
      LiteralSound(s, map[], def.typ, def.default.value, s.bound);
      LiteralPresent(s, map[], def.typ, def.default.value, s.bound);
    }
  }

  /** All variables are typed, those of non-null type have a value, and only
      defined variables have one. */
  lemma {:induction false} VariablesTyped(s: Schema, defs: seq<VariableDef>, supplied: map<string, Json>, k: nat, vars: Vars)
    requires WellFormed(s) && DefsWellFormed(defs) && k <= |defs| && VarsTyped(s, defs, vars)
    requires forall i :: 0 <= i < k && defs[i].typ.nonNull ==> defs[i].name in vars
    ensures var r := CoerceAll(s, defs[k..], supplied, vars);
      r.Some? ==>
        && VarsTyped(s, defs, r.value)
        && (forall i :: 0 <= i < |defs| && defs[i].typ.nonNull ==> defs[i].name in r.value)
    decreases |defs| - k
  {
    hide CoerceOne, WellFormed, SoundValue;
    if k < |defs| {
      assert defs[k..][1..] == defs[k + 1..];
      CoerceOneTyped(s, defs[k], supplied);
      UnsetIsNullable(s, defs[k], supplied);
      match CoerceOne(s, defs[k], supplied) {
        case Refused(_) =>
        case Unset => VariablesTyped(s, defs, supplied, k + 1, vars);
        case Set(x) =>
          assert VarTyped(s, defs, defs[k].name, x);
          VariablesTyped(s, defs, supplied, k + 1, vars[defs[k].name := x]);
      }
    }
  }

  lemma UnsetIsNullable(s: Schema, def: VariableDef, supplied: map<string, Json>)
    ensures CoerceOne(s, def, supplied).Unset? ==> !def.typ.nonNull
  {
    hide Input, Literal;
  }

  // ---- Positions ----

  /** AreTypesCompatible (section 5.8.5 of the GraphQL specification). */
  predicate Compatible(v: Type, t: Type)
    decreases Height(t)
  {
    (t.nonNull ==> v.nonNull) && if t.ListOf? then v.ListOf? && Compatible(v.elem, t.elem) else v.Named? && v.name == t.name
  }

  lemma {:induction false} CompatibleConforms(s: Schema, v: Type, t: Type, x: Json)
    requires Compatible(v, t) && Conforms(s, v, x)
    ensures Conforms(s, t, x)
    decreases Height(t)
  {
    if t.ListOf? && x.JList? {
      forall i | 0 <= i < |x.items| ensures Conforms(s, t.elem, x.items[i]) {
        CompatibleConforms(s, v.elem, t.elem, x.items[i]);
      }
    }
  }

  lemma {:induction false} CompatibleDefault(s: Schema, v: Type, t: Type, x: Json, d: Path)
    requires Compatible(v, t) && DefaultAt(s, v, x, d)
    ensures DefaultAt(s, t, x, d)
    decreases Height(t)
  {
    if t.ListOf? { CompatibleDefault(s, v.elem, t.elem, x.items[d[0].i], d[1..]); }
  }

  /** Validation's rule: each variable stands at a position its declared type
      is compatible with, up to a null that is refused there. */
  ghost predicate UsesAllowed(s: Schema, defs: seq<VariableDef>, t: Type, v: Coercion.Value)
    decreases v, Height(t)
  {
    if v.Var? then exists i :: 0 <= i < |defs| && defs[i].name == v.name && Compatible(defs[i].typ, Nullable(t))
    else if t.ListOf? then
      if v.ListV? then forall i :: 0 <= i < |v.items| ==> UsesAllowed(s, defs, t.elem, v.items[i])
      else UsesAllowed(s, defs, t.elem, v)
    else t.name in s.types && s.types[t.name].InputObject? && v.ObjV? ==>
      forall i, j :: 0 <= i < |v.members| && 0 <= j < |s.types[t.name].fields|
                     && v.members[i].name == s.types[t.name].fields[j].name
        ==> UsesAllowed(s, defs, s.types[t.name].fields[j].typ, v.members[i].value)
  }

  lemma {:induction false} AllowedFits(s: Schema, defs: seq<VariableDef>, vars: Vars, t: Type, v: Coercion.Value)
    requires DefsWellFormed(defs) && VarsTyped(s, defs, vars) && UsesAllowed(s, defs, t, v)
    ensures UsesFit(s, vars, t, v)
    decreases v, Height(t)
  {
    hide Conforms, DefaultAt, Compatible;
    if v.Var? {
      if v.name in vars {
        assert VarTyped(s, defs, v.name, vars[v.name]);
        var i :| 0 <= i < |defs| && defs[i].name == v.name && Compatible(defs[i].typ, Nullable(t));
        var x := vars[v.name];
        CompatibleConforms(s, defs[i].typ, Nullable(t), x.value);
        forall d | d in x.defaults ensures DefaultAt(s, Nullable(t), x.value, d) {
          CompatibleDefault(s, defs[i].typ, Nullable(t), x.value, d);
        }
      }
    } else if t.ListOf? {
      if v.ListV? {
        forall i | 0 <= i < |v.items| ensures UsesFit(s, vars, t.elem, v.items[i]) { AllowedFits(s, defs, vars, t.elem, v.items[i]); }
      } else {
        AllowedFits(s, defs, vars, t.elem, v);
      }
    } else if t.name in s.types && s.types[t.name].InputObject? && v.ObjV? {
      var fields := s.types[t.name].fields;
      forall i, j | 0 <= i < |v.members| && 0 <= j < |fields| && v.members[i].name == fields[j].name
        ensures UsesFit(s, vars, fields[j].typ, v.members[i].value)
      {
        AllowedFits(s, defs, vars, fields[j].typ, v.members[i].value);
      }
    }
  }

  lemma TypedIsSound(s: Schema, defs: seq<VariableDef>, vars: Vars)
    requires VarsTyped(s, defs, vars)
    ensures VarsSound(s, vars)
  {
    hide DefaultAt, Conforms;
    forall x, d | x in vars && d in vars[x].defaults ensures exists u :: DefaultAt(s, u, vars[x].value, d) {
      assert VarTyped(s, defs, x, vars[x]);
    }
  }

  // ---- Arguments ----

  datatype ArgumentDef = ArgumentDef(name: string, typ: Type, default: Option<Coercion.Value>)

  datatype Origin = FromVariable(name: string) | FromDefault(name: string) | FromLiteral | Mixed | FromSchema

  datatype Arg = Arg(value: Json, origin: Origin, variables: seq<string>, schemaDefaults: seq<Path>)

  datatype Resolved = Bad(why: Failure) | NoValue | Resolved(arg: Arg)

  function OriginOf(vars: Vars, written: Coercion.Value, used: seq<string>): Origin {
    if written.Var? then
      if written.name in vars && vars[written.name].defaulted then FromDefault(written.name)
      else FromVariable(written.name)
    else if used == [] then FromLiteral
    else Mixed
  }

  function FromDefinition(s: Schema, def: ArgumentDef): Resolved {
    if def.default.None? then NoValue
    else match Literal(s, map[], def.typ, def.default.value, s.bound)
      case Fail(why) => Bad(why)
      case Got(v, _, _) => Resolved(Arg(OrNull(v), FromSchema, [], []))
  }

  function Argument(s: Schema, vars: Vars, def: ArgumentDef, written: Option<Coercion.Value>): Resolved {
    if written.None? then FromDefinition(s, def)
    else match Literal(s, vars, def.typ, written.value, s.bound)
      case Fail(why) => Bad(why)
      case Got(v, used, defaults) =>
        if v.None? then FromDefinition(s, def)
        else Resolved(Arg(v.value, OriginOf(vars, written.value, NoteAll([], used)), NoteAll([], used), defaults))
  }

  /** argument */
  method ResolveArgument(s: Schema, vars: Vars, def: ArgumentDef, written: Option<Coercion.Value>) returns (r: Resolved)
    requires Acyclic(s)
    ensures r == Argument(s, vars, def, written)
  {
    hide Literal, Acyclic, NoteAll;
    if written.Some? {
      var c := new Coercer(s, vars, true);
      AnyLiteralReturns(s, vars, def.typ, written.value);
      var out := c.LiteralAt(def.typ, written.value, [], s.bound);
      if out.Err? { return Bad(out.why); }
      if out.value.Some? {
        RecordedFromStart(Literal(s, vars, def.typ, written.value, s.bound).defaults);
        return Resolved(Arg(out.value.value, OriginOf(vars, written.value, c.used), c.used, c.defaults));
      }
    }
    if def.default.None? { return NoValue; }
    var c := new Coercer(s, map[], false);
    AnyLiteralReturns(s, map[], def.typ, def.default.value);
    var out := c.LiteralAt(def.typ, def.default.value, [], s.bound);
    if out.Err? { return Bad(out.why); }
    return Resolved(Arg(OrNull(out.value), FromSchema, [], []));
  }

  /** An argument the operation's variables resolve holds a value of its type,
      every path among its schema defaults leads to an input field with its
      coerced default, and the resolution returns. */
  lemma {:induction false} ArgumentSound(s: Schema, defs: seq<VariableDef>, supplied: map<string, Json>, vars: Vars,
                      def: ArgumentDef, written: Option<Coercion.Value>)
    requires WellFormed(s) && Acyclic(s) && DefsWellFormed(defs)
    requires CoerceAll(s, defs, supplied, map[]) == Some(vars)
    requires written.Some? ==> Unique(written.value) && UsesAllowed(s, defs, def.typ, written.value)
    requires def.default.Some? ==> !def.default.value.Var? && Unique(def.default.value)
    ensures var r := Argument(s, vars, def, written);
      && r != Bad(Endless)
      && (r.Resolved? ==> SoundValue(s, def.typ, r.arg.value, r.arg.schemaDefaults))
  {
    hide Literal, WellFormed, Acyclic, DefsWellFormed, CoerceAll, UsesAllowed, NoteAll;
    assert defs[0..] == defs;
    VariablesTyped(s, defs, supplied, 0, map[]);
    TypedIsSound(s, defs, vars);
    if written.Some? {
      AnyLiteralReturns(s, vars, def.typ, written.value);
      AllowedFits(s, defs, vars, def.typ, written.value);
      LiteralSound(s, vars, def.typ, written.value, s.bound);
    }
    if def.default.Some? {
      AnyLiteralReturns(s, map[], def.typ, def.default.value);
      NoVars(s, def.typ, def.default.value);
      LiteralSound(s, map[], def.typ, def.default.value, s.bound);
      LiteralPresent(s, map[], def.typ, def.default.value, s.bound);
    }
  }

  // ---- The variables an argument reports ----

  ghost predicate Occurs(x: string, v: Coercion.Value) {
    match v
    case Var(name) => name == x
    case ListV(items) => exists i :: 0 <= i < |items| && Occurs(x, items[i])
    case ObjV(members) => exists i :: 0 <= i < |members| && Occurs(x, members[i].value)
    case _ => false
  }

  /** Input object literals name fields of their type only (section 5.6.2 of
      the GraphQL specification). */
  ghost predicate KnownFields(s: Schema, t: Type, v: Coercion.Value)
    decreases v, Height(t)
  {
    if t.ListOf? then
      if v.ListV? then forall i :: 0 <= i < |v.items| ==> KnownFields(s, t.elem, v.items[i])
      else KnownFields(s, t.elem, v)
    else t.name in s.types && s.types[t.name].InputObject? && v.ObjV? ==>
      var fields := s.types[t.name].fields;
      && (forall i :: 0 <= i < |v.members| ==> HasField(fields, v.members[i].name))
      && (forall i, j :: 0 <= i < |v.members| && 0 <= j < |fields| && v.members[i].name == fields[j].name
            ==> KnownFields(s, fields[j].typ, v.members[i].value))
  }

  lemma {:induction false} UsedOccur(s: Schema, vars: Vars, t: Type, v: Coercion.Value, n: nat, x: string)
    requires Unique(v) && KnownFields(s, t, v) && Literal(s, vars, t, v, n).Got?
    ensures x in Literal(s, vars, t, v, n).used <==> Occurs(x, v)
    decreases v, Height(t) + 1, 0
  {
    hide LiteralItems, LiteralFields, ScalarLiteral, HasField;
    if v.Var? || v.Null? {
    } else if t.ListOf? {
      if v.ListV? { ItemsUsed(s, vars, t.elem, v, 0, n, x); } else { UsedOccur(s, vars, t.elem, v, n, x); }
    } else {
      match s.types[t.name] {
        case Scalar => ScalarUsed(s, vars, t.name, v, x);
        case InputObject(fields, _) =>
          FieldsUsed(s, vars, fields, v, n, x);
          ObjectOccurs(fields, v, x);
        case _ =>
      }
    }
  }

  ghost predicate OccursAt(x: string, v: Coercion.Value, i: nat)
    requires v.ListV?
  {
    exists k :: i <= k < |v.items| && Occurs(x, v.items[k])
  }

  lemma {:induction false} ItemsUsed(s: Schema, vars: Vars, elem: Type, v: Coercion.Value, i: nat, n: nat, x: string)
    requires v.ListV? && i <= |v.items| && Unique(v)
    requires forall k :: 0 <= k < |v.items| ==> KnownFields(s, elem, v.items[k])
    requires LiteralItems(s, vars, elem, v, i, n).Items?
    ensures x in LiteralItems(s, vars, elem, v, i, n).used <==> OccursAt(x, v, i)
    decreases v, 0, |v.items| - i
  {
    hide Literal, Occurs, KnownFields;
    if i < |v.items| {
      UsedOccur(s, vars, elem, v.items[i], n, x);
      ItemsUsed(s, vars, elem, v, i + 1, n, x);
    }
  }

  /** x occurs in what is written for one of the fields. */
  ghost predicate OccursIn(x: string, fields: seq<InputField>, v: Coercion.Value)
    requires v.ObjV?
  {
    exists j, w :: 0 <= j < |fields| && Written(v.members, fields[j].name) == Some(w) && Occurs(x, w)
  }

  lemma {:induction false} OccursInApart(x: string, fields: seq<InputField>, v: Coercion.Value)
    requires v.ObjV? && fields != []
    ensures OccursIn(x, fields, v) <==>
      (exists w :: Written(v.members, fields[0].name) == Some(w) && Occurs(x, w)) || OccursIn(x, fields[1..], v)
  {
    hide Occurs, Written;
    assert forall j :: 0 <= j < |fields[1..]| ==> fields[1..][j] == fields[j + 1];
    if j, w :| 0 <= j < |fields| && Written(v.members, fields[j].name) == Some(w) && Occurs(x, w) {
      if j > 0 { assert fields[1..][j - 1] == fields[j]; }
    }
  }

  lemma {:induction false} ObjectOccurs(fields: seq<InputField>, v: Coercion.Value, x: string)
    requires v.ObjV? && Unique(v) && forall i :: 0 <= i < |v.members| ==> HasField(fields, v.members[i].name)
    ensures OccursIn(x, fields, v) <==> Occurs(x, v)
  {
    hide Written;
    if i :| 0 <= i < |v.members| && Occurs(x, v.members[i].value) {
      var j :| 0 <= j < |fields| && fields[j].name == v.members[i].name;
      WrittenIn(v.members, fields[j].name);
    }
    if j, w :| 0 <= j < |fields| && Written(v.members, fields[j].name) == Some(w) && Occurs(x, w) {
      WrittenIn(v.members, fields[j].name);
    }
  }

  lemma {:induction false} FieldsUsed(s: Schema, vars: Vars, fields: seq<InputField>, v: Coercion.Value, n: nat, x: string)
    requires v.ObjV? && Unique(v)
    requires forall i, j :: 0 <= i < |v.members| && 0 <= j < |fields| && v.members[i].name == fields[j].name
                      ==> KnownFields(s, fields[j].typ, v.members[i].value)
    requires LiteralFields(s, vars, fields, v, n).Fields?
    ensures x in LiteralFields(s, vars, fields, v, n).used <==> OccursIn(x, fields, v)
    decreases v, 0, |fields|
  {
    hide Literal, Occurs, KnownFields, OccursIn, Written;
    if fields == [] {
      NoneOccurs(x, v);
    } else {
      var fd := fields[0];
      var written := Written(v.members, fd.name);
      WrittenIn(v.members, fd.name);
      OccursInApart(x, fields, v);
      if written.Some? {
        var i :| 0 <= i < |v.members| && v.members[i].name == fd.name && v.members[i].value == written.value;
        UsedOccur(s, vars, fd.typ, written.value, n, x);
      }
      assert forall j :: 0 <= j < |fields[1..]| ==> fields[1..][j] == fields[j + 1];
      FieldsUsed(s, vars, fields[1..], v, n, x);
    }
  }

  lemma NoneOccurs(x: string, v: Coercion.Value)
    requires v.ObjV?
    ensures !OccursIn(x, [], v)
  {}

  lemma {:induction false} ScalarUsed(s: Schema, vars: Vars, name: string, v: Coercion.Value, x: string)
    requires !v.Var? && ScalarLiteral(s, vars, name, v).Got?
    ensures x in ScalarLiteral(s, vars, name, v).used <==> Occurs(x, v)
  {
    hide Untyped, ParseInt32;
    UntypedUsed(vars, v, x);
  }

  lemma {:induction false} UntypedUsed(vars: Vars, v: Coercion.Value, x: string)
    ensures x in Untyped(vars, v).used <==> Occurs(x, v)
    decreases v, 1, 0
  {
    hide UntypedItems, UntypedFields;
    if v.ListV? { UntypedItemsUsed(vars, v, 0, x); }
    if v.ObjV? { UntypedFieldsUsed(vars, v, 0, x); }
  }

  lemma {:induction false} UntypedItemsUsed(vars: Vars, v: Coercion.Value, i: nat, x: string)
    requires v.ListV? && i <= |v.items|
    ensures x in UntypedItems(vars, v, i).used <==> OccursAt(x, v, i)
    decreases v, 0, |v.items| - i
  {
    hide Untyped, Occurs;
    if i < |v.items| {
      UntypedUsed(vars, v.items[i], x);
      UntypedItemsUsed(vars, v, i + 1, x);
    }
  }

  lemma {:induction false} UntypedFieldsUsed(vars: Vars, v: Coercion.Value, i: nat, x: string)
    requires v.ObjV? && i <= |v.members|
    ensures x in UntypedFields(vars, v, i).used <==> exists k :: i <= k < |v.members| && Occurs(x, v.members[k].value)
    decreases v, 0, |v.members| - i
  {
    hide Untyped, Occurs;
    if i < |v.members| {
      UntypedUsed(vars, v.members[i].value, x);
      UntypedFieldsUsed(vars, v, i + 1, x);
    }
  }

  lemma {:induction false} NotedOnce(used: seq<string>, names: seq<string>)
    requires forall i, j :: 0 <= i < j < |used| ==> used[i] != used[j]
    ensures var r := NoteAll(used, names);
      && (forall x :: x in r <==> x in used || x in names)
      && (forall i, j :: 0 <= i < j < |r| ==> r[i] != r[j])
    decreases |names|
  {
    if names != [] {
      NotedOnce(Note(used, names[0]), names[1..]);
      assert forall x :: x in names <==> x == names[0] || x in names[1..];
    }
  }

  /** The variables of an argument taken from the document are those that
      occur in what was written, each once; its origin says whether there are
      any. */
  lemma {:induction false} ArgumentVariables(s: Schema, vars: Vars, def: ArgumentDef, written: Coercion.Value)
    requires Unique(written) && KnownFields(s, def.typ, written)
    requires Literal(s, vars, def.typ, written, s.bound).Got? && Literal(s, vars, def.typ, written, s.bound).value.Some?
    ensures var r := Argument(s, vars, def, Some(written));
      && r.Resolved?
      && (forall x :: x in r.arg.variables <==> Occurs(x, written))
      && (forall i, j :: 0 <= i < j < |r.arg.variables| ==> r.arg.variables[i] != r.arg.variables[j])
      && (r.arg.origin == FromLiteral <==> forall x :: !Occurs(x, written))
      && r.arg.origin != FromSchema
  {
    hide Literal, Occurs, NoteAll, Unique, KnownFields;
    var used := Literal(s, vars, def.typ, written, s.bound).used;
    NotedOnce([], used);
    forall x ensures x in used <==> Occurs(x, written) {
      UsedOccur(s, vars, def.typ, written, s.bound, x);
    }
    var noted := NoteAll([], used);
    if written.Var? { assert Occurs(written.name, written) by { OccursItself(written); } }
    if noted != [] { assert noted[0] in noted; }
  }

  lemma {:induction false} OccursItself(v: Coercion.Value)
    requires v.Var?
    ensures Occurs(v.name, v)
  {}

  /** Variables inside an input object come in the order of the type's fields,
      not in that of the document. */
  lemma {:induction false} UsedInFieldOrder(s: Schema, vars: Vars)
    requires "In" in s.types && s.types["In"] ==
      InputObject([InputField("a", Named("String", false), None, 0), InputField("b", Named("String", false), None, 0)], false)
    requires vars == map["x" := Variable(JStr("1"), false, []), "y" := Variable(JStr("2"), false, [])]
    ensures var written := ObjV([Member("b", Var("y")), Member("a", Var("x"))]);
      Literal(s, vars, Named("In", false), written, s.bound).Got?
      && Literal(s, vars, Named("In", false), written, s.bound).used == ["x", "y"]
  {
    var fields := s.types["In"].fields;
    var members := [Member("b", Var("y")), Member("a", Var("x"))];
    var written := ObjV(members);
    assert members[1..][0] == members[1];
    assert Written(members, "b") == Some(Var("y")) && Written(members, "a") == Some(Var("x"));
    assert fields[1..][0] == fields[1] && fields[1..][1..] == [];
    assert LiteralFields(s, vars, [], written, s.bound) == Fields(map[], [], []);
    OneVariableField(s, vars, fields[1..], written, "y", "2");
    OneVariableField(s, vars, fields, written, "x", "1");
  }

  lemma {:induction false} OneVariableField(s: Schema, vars: Vars, fields: seq<InputField>, written: Coercion.Value, x: string, text: string)
    requires fields != [] && fields[0].typ == Named("String", false) && fields[0].default.None?
    requires written.ObjV? && Written(written.members, fields[0].name) == Some(Var(x))
    requires x in vars && vars[x] == Variable(JStr(text), false, [])
    requires LiteralFields(s, vars, fields[1..], written, s.bound).Fields?
    ensures var r := LiteralFields(s, vars, fields, written, s.bound);
      r.Fields? && r.used == [x] + LiteralFields(s, vars, fields[1..], written, s.bound).used
  {
    assert Prefixed([Key(fields[0].name)], []) == [];
  }
}
