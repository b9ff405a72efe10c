/** What an empty comparison of schemas is worth exactly: supplied values
    coerce alike on both sides if and only if what the comparison does not look
    at, @oneOf and the style of strings in defaults, is the same
    (ftv-graphql-mapper/drift.go, coerce.go). */
module DriftExactness {
  import opened Base
  import opened Coercion
  import opened CoercionLaws
  import opened SuppliedValues
  import Arguments
  import opened Canonical
  import opened Agreement
  import opened Drift
  import opened DriftSoundness

  /** Every supplied value at every type of s coerces alike in s2. */
  ghost predicate InputsAlike(s: Schema, s2: Schema) {
    forall t, v :: Known(s, t) ==> Like(Input(s, t, v), Input(s2, t, v))
  }

  // ---- @oneOf ----

  lemma {:induction false} AllOmittable(f: seq<InputField>, g: seq<InputField>)
    requires FieldsAgree(f, g)
    requires (forall i :: 0 <= i < |f| ==> Omittable(f[i])) || (forall j :: 0 <= j < |g| ==> Omittable(g[j]))
    ensures (forall i :: 0 <= i < |f| ==> Omittable(f[i])) && (forall j :: 0 <= j < |g| ==> Omittable(g[j]))
  {
    hide FieldsAgree, FieldAgrees;
    forall i | 0 <= i < |f| ensures Omittable(f[i]) {
      var j := Opposite(f, g, i);
      OmittableBoth(f[i], g[j]);
    }
    forall j | 0 <= j < |g| ensures Omittable(g[j]) {
      var i := OppositeBack(f, g, j);
      OmittableBoth(f[i], g[j]);
    }
  }

  lemma OmittableBoth(f: InputField, g: InputField)
    requires FieldAgrees(f, g)
    ensures Omittable(f) <==> Omittable(g)
  {
    hide NormOf;
  }

  /** An input object that is OneOf on one side only takes the empty object on
      the other side only. */
  lemma {:induction false} OneOfTells(s: Schema, s2: Schema, t: string)
    requires Matches(s, s2) && WellFormed(s) && WellFormed(s2) && t in s.types && t in s2.types
    requires s.types[t].InputObject? && s2.types[t].InputObject? && s.types[t].oneOf != s2.types[t].oneOf
    ensures !Like(Input(s, Named(t, false), JObj(map[])), Input(s2, Named(t, false), JObj(map[])))
  {
    hide FieldsAgree, InputFields, Omittable;
    var f, g := s.types[t].fields, s2.types[t].fields;
    assert TypeAgrees(s.types[t], s2.types[t]);
    WellFormedFields(s, t);
    WellFormedFields(s2, t);
    AllOmittable(f, g);
    EmptyObject(s, f);
    EmptyObject(s2, g);
  }

  // ---- The style of strings in defaults ----

  lemma {:induction false} FilledFrom(fd: InputField, supplied: Result, default: Result)
    requires Filled(fd, supplied, default).Got?
    ensures supplied.Got? && (supplied.value.None? && fd.default.Some? ==> default.Got?)
  {}

  lemma {:induction false} JoinedGot(specs: map<string, Result>, r: Fields, k: string)
    requires JoinedFrom(specs, r) && r.Fields? && k in specs
    ensures specs[k].Got?
  {}

  /** Two literals of the same canonical text that both coerce have strings of
      the same style at every ID. */
  lemma {:induction false} StyleOfCoerced(s: Schema, s2: Schema, vars: Vars, t: Type, v: Value, w: Value, n: nat, m: nat)
    requires Matches(s, s2) && Known(s, t) && Unique(v) && Unique(w) && NormOf(v) == NormOf(w)
    requires Literal(s, vars, t, v, n).Got? && Literal(s2, vars, t, w, m).Got?
    ensures SameStyle(s, t, v, w)
    decreases v, Height(t) + 1
  {
    hide Unique, NormOf, LiteralItems, LiteralFields, Matches, MembersStyled;
    NormKinds(v, w);
    if v.Var? || v.Null? {
      PlainStyle(s, t, v, w);
    } else if t.ListOf? {
      if v.ListV? {
        NormItems(v, w);
        UniqueItems(v);
        UniqueItems(w);
        ItemsCoerced(s, vars, t.elem, v, 0, n);
        ItemsCoerced(s2, vars, t.elem, w, 0, m);
        forall i | 0 <= i < |v.items| ensures SameStyle(s, t.elem, v.items[i], w.items[i]) {
          StyleOfCoerced(s, s2, vars, t.elem, v.items[i], w.items[i], n, m);
        }
      } else {
        StyleOfCoerced(s, s2, vars, t.elem, v, w, n, m);
      }
    } else {
      MatchedType(s, s2, t.name);
      match s.types[t.name] {
        case Scalar => ScalarStyle(s, s2, vars, t.name, v, w);
        case InputObject(fields, _) =>
          forall j | 0 <= j < |fields| ensures MembersStyled(s, fields[j], v, w) {
            MemberStyle(s, s2, vars, t.name, v, w, n, m, j);
          }
        case _ =>
      }
    }
  }

  lemma {:induction false} MatchedType(s: Schema, s2: Schema, t: string)
    requires Matches(s, s2) && t in s.types
    ensures t in s2.types && TypeAgrees(s.types[t], s2.types[t])
    ensures s.types[t].InputObject? ==> forall i :: 0 <= i < |s.types[t].fields| ==> Known(s, s.types[t].fields[i].typ)
  {}

  lemma {:induction false} PlainStyle(s: Schema, t: Type, v: Value, w: Value)
    requires !v.ListV? && !v.ObjV? && !v.BlockV? && !w.BlockV?
    ensures SameStyle(s, t, v, w)
    decreases t
  {
    if t.ListOf? { PlainStyle(s, t.elem, v, w); }
  }

  lemma {:induction false} ScalarStyle(s: Schema, s2: Schema, vars: Vars, name: string, v: Value, w: Value)
    requires name in s.types && s.types[name].Scalar? && !v.Var?
    requires ScalarLiteral(s, vars, name, v).Got? && ScalarLiteral(s2, vars, name, w).Got?
    ensures SameStyle(s, Named(name, false), v, w)
  {
    hide ParseInt32, Untyped;
  }

  lemma {:induction false} ItemsCoerced(s: Schema, vars: Vars, elem: Type, v: Value, i: nat, n: nat)
    requires v.ListV? && i <= |v.items| && LiteralItems(s, vars, elem, v, i, n).Items?
    ensures forall k :: i <= k < |v.items| ==> Literal(s, vars, elem, v.items[k], n).Got?
    decreases |v.items| - i
  {
    hide Literal;
    if i < |v.items| { ItemsCoerced(s, vars, elem, v, i + 1, n); }
  }

  lemma {:induction false} MemberCoerced(s: Schema, vars: Vars, fields: seq<InputField>, v: Value, n: nat, j: nat, i: nat)
    requires v.ObjV? && Unique(v) && Distinct(fields) && LiteralFields(s, vars, fields, v, n).Fields?
    requires j < |fields| && i < |v.members| && v.members[i].name == fields[j].name
    ensures Literal(s, vars, fields[j].typ, v.members[i].value, n).Got?
  {
    hide Literal, LiteralFields, SpecMap, JoinedFrom, Filled, DefaultSpec, Unique;
    UniqueMembers(v);
    WrittenIn(v.members, fields[j].name);
    LiteralFieldsJoined(s, vars, fields, v, n);
    SpecMapAt(s, vars, fields, v, n);
    JoinedGot(SpecMap(s, vars, fields, v, n), LiteralFields(s, vars, fields, v, n), fields[j].name);
    FilledFrom(fields[j], WrittenSpec(s, vars, fields[j], v, n), DefaultSpec(s, fields[j], n));
  }

  lemma {:induction false} MemberStyle(s: Schema, s2: Schema, vars: Vars, t: string, v: Value, w: Value, n: nat, m: nat, j: nat)
    requires Matches(s, s2) && t in s.types && s.types[t].InputObject? && j < |s.types[t].fields|
    requires v.ObjV? && w.ObjV? && Unique(v) && Unique(w) && NormOf(v) == NormOf(w)
    requires Literal(s, vars, Named(t, false), v, n).Got? && Literal(s2, vars, Named(t, false), w, m).Got?
    ensures MembersStyled(s, s.types[t].fields[j], v, w)
    decreases v, 0
  {
    hide Unique, NormOf, LiteralFields, Matches, FieldAgrees, FieldsAgree, SameStyle, Written;
    MatchedType(s, s2, t);
    var f, g := s.types[t].fields, s2.types[t].fields;
    AgreedDistinct(f, g);
    var l := Opposite(f, g, j);
    AgreedName(f[j], g[l]);
    UniqueMembers(v);
    UniqueMembers(w);
    forall i, k | 0 <= i < |v.members| && 0 <= k < |w.members| && v.members[i].name == f[j].name && w.members[k].name == f[j].name
      ensures SameStyle(s, f[j].typ, v.members[i].value, w.members[k].value)
    {
      MemberCoerced(s, vars, f, v, n, j, i);
      MemberCoerced(s2, vars, g, w, m, l, k);
      NormWritten(v, w, f[j].name);
      WrittenIn(v.members, f[j].name);
      WrittenIn(w.members, f[j].name);
      StyleOfCoerced(s, s2, vars, f[j].typ, v.members[i].value, w.members[k].value, n, m);
    }
  }

  lemma {:induction false} DefaultTaken(s: Schema, t: string, i: nat, v: Json)
    requires t in s.types && s.types[t].InputObject? && Distinct(s.types[t].fields) && i < |s.types[t].fields|
    requires v.JObj? && s.types[t].fields[i].name !in v.members && s.types[t].fields[i].default.Some?
    requires Input(s, Named(t, false), v).Got?
    ensures Default(s, s.types[t].fields[i]).Got?
  {
    hide InputFields, InputMap, JoinedFrom, Filled, Default, HasField;
    var f := s.types[t].fields;
    InputFieldsJoined(s, f, v);
    InputMapAt(s, f, v);
    JoinedGot(InputMap(s, f, v), InputFields(s, f, v), f[i].name);
    FilledFrom(f[i], SuppliedSpec(s, f[i], v), Default(s, f[i]));
  }

  /** Where the style of a default differs, an object that leaves the field out
      coerces on one side at most. */
  lemma {:induction false} StyleTells(s: Schema, s2: Schema, t: string, i: nat, j: nat, v: Json)
    requires Matches(s, s2) && t in s.types && t in s2.types && s.types[t].InputObject? && s2.types[t].InputObject?
    requires i < |s.types[t].fields| && j < |s2.types[t].fields|
    requires var f, g := s.types[t].fields[i], s2.types[t].fields[j];
      f.name == g.name && !StyledAlike(s, f.typ, f.default, g.default) && v.JObj? && f.name !in v.members
    ensures !(Input(s, Named(t, false), v).Got? && Input(s2, Named(t, false), v).Got?)
  {
    hide Literal, FieldsAgree, SameStyle, NormOf, Unique, InputFields, HasField;
    var f, g := s.types[t].fields, s2.types[t].fields;
    MatchedType(s, s2, t);
    AgreedDistinct(f, g);
    var l := Opposite(f, g, i);
    assert l == j;
    if Input(s, Named(t, false), v).Got? && Input(s2, Named(t, false), v).Got? {
      DefaultTaken(s, t, i, v);
      DefaultTaken(s2, t, j, v);
      StyleOfCoerced(s, s2, map[], f[i].typ, f[i].default.value, g[j].default.value, f[i].rank, g[j].rank);
      assert false;
    }
  }

  // ---- Defaults in use ----

  lemma {:induction false} AllGot(specs: map<string, Result>, r: Fields)
    requires JoinedFrom(specs, r) && forall k :: k in specs ==> specs[k].Got?
    ensures r.Fields?
  {}

  lemma {:induction false} FilledGot(fd: InputField, supplied: Result, default: Result)
    requires supplied.Got? && (supplied.value.None? ==> if fd.default.Some? then default.Got? else !fd.typ.nonNull)
    ensures Filled(fd, supplied, default).Got?
  {}

  /** An object of a type, without a field that has a default, coerces. */
  lemma {:induction false} WithoutField(s: Schema, t: string, obj: map<string, Json>, i: nat)
    requires WellFormed(s) && t in s.types && s.types[t].InputObject? && Conforms(s, Named(t, false), JObj(obj))
    requires i < |s.types[t].fields| && s.types[t].fields[i].default.Some? && Default(s, s.types[t].fields[i]).Got?
    ensures Input(s, Named(t, false), JObj(obj - {s.types[t].fields[i].name})).Got?
  {
    hide Conforms, Filled, Default, InputFields, InputMap, JoinedFrom, WellFormed;
    var fields := s.types[t].fields;
    var v := JObj(obj - {fields[i].name});
    WellFormedFields(s, t);
    ObjectParts(s, t, obj);
    InputFieldsJoined(s, fields, v);
    InputMapAt(s, fields, v);
    var specs := InputMap(s, fields, v);
    forall k | k in specs ensures specs[k].Got? {
      var j := FieldNamed(fields, k);
      if k in v.members {
        FixedIffConforms(s, fields[j].typ, obj[k]);
      } else if k in obj {
        assert j == i;
      }
      FilledGot(fields[j], SuppliedSpec(s, fields[j], v), Default(s, fields[j]));
    }
    AllGot(specs, InputFields(s, fields, v));
  }

  lemma {:induction false} ObjectParts(s: Schema, t: string, obj: map<string, Json>)
    requires t in s.types && s.types[t].InputObject? && Conforms(s, Named(t, false), JObj(obj))
    ensures ObjConforms(s, s.types[t].fields, obj)
  {}

  /** A constant object that coerces and leaves a field with a default out shows
      that a supplied object can do so too. */
  lemma {:induction false} ConstantShows(s: Schema, t: string, w: Value, n: nat, i: nat)
    requires WellFormed(s) && Arguments.Acyclic(s) && t in s.types && s.types[t].InputObject? && i < |s.types[t].fields|
    requires w.ObjV? && Unique(w) && n <= s.bound && Omits(w, s.types[t].fields[i].name) && s.types[t].fields[i].default.Some?
    requires Literal(s, map[], Named(t, false), w, n).Got?
    ensures exists v: Json :: v.JObj? && s.types[t].fields[i].name !in v.members && Input(s, Named(t, false), v).Got?
  {
    hide Conforms, LiteralFields, SpecMap, JoinedFrom, Filled, Arguments.Acyclic, Input, WellFormed, DefaultAt, Unique;
    var fields := s.types[t].fields;
    WellFormedFields(s, t);
    NoVars(s, Named(t, false), w);
    LiteralSound(s, map[], Named(t, false), w, n);
    var obj := Literal(s, map[], Named(t, false), w, n).value.value.members;
    LiteralFieldsJoined(s, map[], fields, w, n);
    SpecMapAt(s, map[], fields, w, n);
    JoinedGot(SpecMap(s, map[], fields, w, n), LiteralFields(s, map[], fields, w, n), fields[i].name);
    OmittedSpec(s, fields[i], w, n);
    FilledFrom(fields[i], WrittenSpec(s, map[], fields[i], w, n), DefaultSpec(s, fields[i], n));
    DefaultOfSpec(s, fields[i], n);
    WithoutField(s, t, obj, i);
  }

  lemma {:induction false} OmittedSpec(s: Schema, fd: InputField, w: Value, n: nat)
    requires w.ObjV? && Omits(w, fd.name)
    ensures WrittenSpec(s, map[], fd, w, n).Got? && WrittenSpec(s, map[], fd, w, n).value.None?
  {}

  lemma {:induction false} DefaultOfSpec(s: Schema, fd: InputField, n: nat)
    requires DefaultSpec(s, fd, n).Got? && n <= s.bound
    ensures Default(s, fd).Got?
  {
    hide Literal;
  }

  // ---- Exactly when an empty comparison is sound ----

  /** Some supplied object that leaves the field out coerces, on one side or the
      other: its default is in use. */
  ghost predicate Used(s: Schema, s2: Schema, t: string, name: string) {
    exists v: Json :: v.JObj? && name !in v.members && (Input(s, Named(t, false), v).Got? || Input(s2, Named(t, false), v).Got?)
  }

  /** Defaults in use have the same style on both sides. */
  ghost predicate UsedStyles(s: Schema, s2: Schema) {
    forall t, i: nat, j: nat :: Restyled(s, s2, t, i, j) ==> !Used(s, s2, t, s.types[t].fields[i].name)
  }

  lemma {:induction false} UnusedIsIdle(s: Schema, s2: Schema, t: string, i: nat, j: nat)
    requires WellFormed(s) && WellFormed(s2) && Arguments.Acyclic(s) && Arguments.Acyclic(s2)
    requires Restyled(s, s2, t, i, j) && !Used(s, s2, t, s.types[t].fields[i].name)
    ensures Idle(s, t, s.types[t].fields[i].name) && Idle(s2, t, s.types[t].fields[i].name)
  {
    hide WellFormed, Arguments.Acyclic, Literal, Input, Unique, Omits, StyledAlike;
    var name := s.types[t].fields[i].name;
    UnlikeHasDefault(s, s.types[t].fields[i], s2.types[t].fields[j]);
    forall w: Value, n: nat | w.ObjV? && Unique(w) && n <= s.bound && Omits(w, name)
      ensures Literal(s, map[], Named(t, false), w, n).Fail?
    {
      if Literal(s, map[], Named(t, false), w, n).Got? { ConstantShows(s, t, w, n, i); }
    }
    forall w: Value, n: nat | w.ObjV? && Unique(w) && n <= s2.bound && Omits(w, name)
      ensures Literal(s2, map[], Named(t, false), w, n).Fail?
    {
      if Literal(s2, map[], Named(t, false), w, n).Got? { ConstantShows(s2, t, w, n, j); }
    }
  }

  /** Matching schemas coerce supplied values alike if and only if the same input
      objects are OneOf and the defaults in use have the same style. */
  lemma {:induction false} AlikeIff(s: Schema, s2: Schema)
    requires Matches(s, s2) && WellFormed(s) && WellFormed(s2) && Arguments.Acyclic(s) && Arguments.Acyclic(s2)
    ensures InputsAlike(s, s2) <==> SameOneOf(s, s2) && UsedStyles(s, s2)
  {
    hide Matches, WellFormed, Arguments.Acyclic, Input, Like, UsedStyles, Unaffected;
    if !SameOneOf(s, s2) {
      var t :| t in s.types && t in s2.types && s.types[t].InputObject? && s2.types[t].InputObject? && s.types[t].oneOf != s2.types[t].oneOf;
      assert Known(s, Named(t, false));
      OneOfTells(s, s2, t);
    } else if UsedStyles(s, s2) {
      UsedOnly(s, s2);
      forall t, v | Known(s, t) ensures Like(Input(s, t, v), Input(s2, t, v)) { InputLike(s, s2, t, v); }
    } else {
      UsedTells(s, s2);
    }
  }

  lemma {:induction false} UsedOnly(s: Schema, s2: Schema)
    requires WellFormed(s) && WellFormed(s2) && Arguments.Acyclic(s) && Arguments.Acyclic(s2) && UsedStyles(s, s2)
    ensures Unaffected(s, s2)
  {
    hide WellFormed, Arguments.Acyclic, StyledAlike, Used, Idle;
    forall t, i: nat, j: nat | Restyled(s, s2, t, i, j)
      ensures Idle(s, t, s.types[t].fields[i].name) && Idle(s2, t, s.types[t].fields[i].name)
    {
      UnusedIsIdle(s, s2, t, i, j);
    }
  }

  lemma {:induction false} UsedTells(s: Schema, s2: Schema)
    requires Matches(s, s2) && !UsedStyles(s, s2)
    ensures !InputsAlike(s, s2)
  {
    hide Matches, Input, StyledAlike;
    var t, i: nat, j: nat :| Restyled(s, s2, t, i, j) && Used(s, s2, t, s.types[t].fields[i].name);
    var name := s.types[t].fields[i].name;
    var v: Json :| v.JObj? && name !in v.members && (Input(s, Named(t, false), v).Got? || Input(s2, Named(t, false), v).Got?);
    assert Known(s, Named(t, false));
    StyleTells(s, s2, t, i, j, v);
    assert !Like(Input(s, Named(t, false), v), Input(s2, Named(t, false), v));
  }

  lemma UnlikeHasDefault(s: Schema, f: InputField, g: InputField)
    requires !StyledAlike(s, f.typ, f.default, g.default)
    ensures f.default.Some? && g.default.Some?
  {}

  /** An argument nobody wrote, whose default one side at least takes, comes out
      alike if and only if the defaults have the same style. */
  lemma {:induction false} UnwrittenAlikeIff(s: Schema, s2: Schema, vars: Vars, vars2: Vars, a: Arguments.ArgumentDef, b: Arguments.ArgumentDef)
    requires Ready(s, s2) && VarsAgree(vars, vars2) && ArgumentAgrees(a, b) && Known(s, a.typ)
    requires Arguments.Argument(s, vars, a, None).Resolved? || Arguments.Argument(s2, vars2, b, None).Resolved?
    ensures LikeArg(Arguments.Argument(s, vars, a, None), Arguments.Argument(s2, vars2, b, None))
      <==> StyledAlike(s, a.typ, a.default, b.default)
  {
    hide Literal, NormOf, Unique, SameStyle, Matches, SameOneOf, SameStyles, Arguments.Acyclic, VarsAgree;
    if StyledAlike(s, a.typ, a.default, b.default) {
      ArgumentLike(s, s2, vars, vars2, a, b, None);
    } else if LikeArg(Arguments.Argument(s, vars, a, None), Arguments.Argument(s2, vars2, b, None)) {
      StyleOfCoerced(s, s2, map[], a.typ, a.default.value, b.default.value, s.bound, s2.bound);
    }
  }

  /** If the comparison of two schemas finds nothing, supplied values coerce
      alike on both sides exactly when the same input objects are OneOf and the
      defaults in use have the same style. */
  lemma {:induction false} DriftExact(b: Ast, s: Ast)
    requires NoDrift(ModelOf(b), ModelOf(s)) && SamePrelude(b, s)
    requires AstOk(b) && AstOk(s) && AstClosed(b) && SameFinite(b.finite, s.finite)
    requires WellFormed(InputSchema(b)) && WellFormed(InputSchema(s))
    requires Arguments.Acyclic(InputSchema(b)) && Arguments.Acyclic(InputSchema(s))
    ensures var x, y := InputSchema(b), InputSchema(s); InputsAlike(x, y) <==> SameOneOf(x, y) && UsedStyles(x, y)
  {
    hide *;
    InputsMatch(b, s);
    AlikeIff(InputSchema(b), InputSchema(s));
  }
}
