/** What an empty comparison says of two schemas, and what one change of a
    schema is reported as (ftv-graphql-mapper/drift.go). */
module DriftFacts {
  import opened Base
  import opened Coercion
  import CoercionLaws
  import opened Arguments
  import opened Canonical
  import opened Documents
  import opened Agreement
  import opened WalkAgreement
  import opened Drift
  import opened DriftSoundness
  import Order

  // ---- What the comparison looks at ----

  /** Types of the schema's own: neither built in nor of introspection. */
  predicate IsOwn(a: Ast, t: string) { t in a.types && t !in a.builtIn && !("__" <= t) }

  /** Every field of the one that is not of introspection is in the other, with
      the same type and the same arguments; the other may have more. */
  ghost predicate FieldsExtend(f: seq<FieldDef>, g: seq<FieldDef>) {
    forall i :: 0 <= i < |f| && !("__" <= f[i].name) ==> HasField(f[i], g)
  }

  ghost predicate HasField(f: FieldDef, g: seq<FieldDef>) {
    exists j :: 0 <= j < |g| && g[j].name == f.name && g[j].typ == f.typ && ArgumentsAgree(f.args, g[j].args)
  }

  /** How often an object type is listed among those an abstract type can be. */
  function TimesPossible(a: Ast, t: string, object_: string): nat {
    if t in a.possible && object_ in a.types && a.types[object_].ObjectType? then multiset(a.possible[t])[object_] else 0
  }

  ghost predicate SameObjects(b: Ast, s: Ast, t: string) { forall u :: TimesPossible(b, t, u) == TimesPossible(s, t, u) }

  ghost predicate SameDefinition(b: Ast, s: Ast, t: string)
    requires t in b.types && t in s.types
  {
    match (b.types[t], s.types[t])
    case (ObjectType(f), ObjectType(g)) => FieldsExtend(f, g)
    case (InterfaceType(f), InterfaceType(g)) => FieldsExtend(f, g) && SameObjects(b, s, t)
    case (UnionType, UnionType) => SameObjects(b, s, t)
    case (EnumType(v), EnumType(w)) => multiset(v) == multiset(w)
    case (InputType(x, _), InputType(y, _)) => ArgumentsAgree(AsArgs(x), AsArgs(y))
    case (ScalarType, ScalarType) => true
    case _ => false
  }

  /** The source defines everything the bundle defines, alike. */
  ghost predicate SchemaExtends(b: Ast, s: Ast) {
    && (forall op :: op in b.roots ==> b.roots[op] == if op in s.roots then s.roots[op] else "")
    && (forall t :: IsOwn(b, t) ==> IsOwn(s, t) && SameDefinition(b, s, t))
  }

  // ---- Part by part ----

  lemma OwnIsCompared(a: Ast, t: string)
    ensures IsCompared(a, t) <==> IsOwn(a, t)
    ensures forall name: string :: Hidden(name) <==> "__" <= name
  {
    forall name: string ensures Hidden(name) <==> "__" <= name {
      if "__" <= name { assert name[0] == "__"[0] && name[1] == "__"[1]; }
      if Hidden(name) { assert name[..2] == "__"; }
    }
  }

  lemma SameInputIff(a: ArgumentDef, b: ArgumentDef)
    requires ArgOk(a) && ArgOk(b) && a.name == b.name
    ensures InputOf(a.typ, a.default) == InputOf(b.typ, b.default) <==> ArgumentAgrees(a, b)
  {
    hide TypeText, Canon, NormOf, Lexed, CoercionLaws.Unique;
    if InputOf(a.typ, a.default) == InputOf(b.typ, b.default) { SameInput(a, b); }
    if a.default.Some? && b.default.Some? { CanonSame(a.default.value, b.default.value); }
  }

  lemma {:induction false} OneSame(a: seq<ArgumentDef>, b: seq<ArgumentDef>, i: nat)
    requires ArgsOk(a) && ArgsOk(b) && ArgumentsAgree(a, b) && i < |a|
    ensures a[i].name in ArgModels(a) && a[i].name in ArgModels(b) && ArgModels(b)[a[i].name] == ArgModels(a)[a[i].name]
  {
    hide ArgModels, InputOf, ArgOk, ArgumentAgrees;
    var j := Given(a, b, i);
    hide ArgumentsAgree;
    ArgModelsAt(a);
    ArgModelsAt(b);
    AgreedName(a[i], b[j]);
    SameInputIff(a[i], b[j]);
  }

  lemma {:induction false} OneBack(a: seq<ArgumentDef>, b: seq<ArgumentDef>, j: nat)
    requires ArgsOk(a) && ArgumentsAgree(a, b) && j < |b|
    ensures b[j].name in ArgModels(a)
  {
    hide ArgModels, InputOf, ArgOk, ArgumentAgrees;
    var i := Giving(a, b, j);
    hide ArgumentsAgree;
    ArgModelsAt(a);
    AgreedName(a[i], b[j]);
  }

  lemma {:induction false} ArgModelsIff(a: seq<ArgumentDef>, b: seq<ArgumentDef>)
    requires ArgsOk(a) && ArgsOk(b)
    ensures ArgModels(a) == ArgModels(b) <==> ArgumentsAgree(a, b)
  {
    if ArgModels(a) == ArgModels(b) { ArgModelsAgree(a, b); }
    if ArgumentsAgree(a, b) {
      forall i | 0 <= i < |a|
        ensures a[i].name in ArgModels(a) && a[i].name in ArgModels(b) && ArgModels(b)[a[i].name] == ArgModels(a)[a[i].name]
      {
        OneSame(a, b, i);
      }
      forall j | 0 <= j < |b| ensures b[j].name in ArgModels(a) { OneBack(a, b, j); }
      ArgModelsAt(a);
      ArgModelsAt(b);
      hide ArgModels, ArgumentsAgree, ArgsOk, InputOf;
      assert ArgModels(a).Keys == ArgModels(b).Keys;
      assert ArgModels(a) == ArgModels(b);
    }
  }

  lemma AgreedName(a: ArgumentDef, b: ArgumentDef)
    requires ArgumentAgrees(a, b)
    ensures a.name == b.name
  {}

  ghost predicate FieldsOk(f: seq<FieldDef>) {
    && (forall i, j :: 0 <= i < j < |f| ==> f[i].name != f[j].name)
    && (forall i :: 0 <= i < |f| ==> NamedByWord(f[i].typ) && ArgsOk(f[i].args))
  }

  lemma {:induction false} ShownOnly(fields: seq<FieldDef>)
    ensures forall k :: k in FieldModels(fields) ==> !Hidden(k)
    decreases |fields|
  {
    hide TypeText, ArgModels, Hidden;
    if fields != [] { ShownOnly(fields[..|fields| - 1]); }
  }

  ghost predicate ModelsExtend(m: map<string, FieldModel>, n: map<string, FieldModel>) {
    forall k :: k in m ==> k in n && n[k] == m[k]
  }

  lemma {:induction false} FieldsIff(f: seq<FieldDef>, g: seq<FieldDef>)
    requires FieldsOk(f) && FieldsOk(g)
    ensures ModelsExtend(FieldModels(f), FieldModels(g)) <==> FieldsExtend(f, g)
  {
    hide FieldModels, ArgModels, TypeText, Hidden, ArgumentsAgree, ArgsOk;
    FieldModelsAt(f);
    FieldModelsAt(g);
    ShownOnly(f);
    OwnHidden();
    forall i, j | 0 <= i < |f| && 0 <= j < |g|
      ensures FieldModel(TypeText(f[i].typ), ArgModels(f[i].args)) == FieldModel(TypeText(g[j].typ), ArgModels(g[j].args))
        <==> f[i].typ == g[j].typ && ArgumentsAgree(f[i].args, g[j].args)
    {
      TypeTextInjective(f[i].typ, g[j].typ);
      ArgModelsIff(f[i].args, g[j].args);
    }
    if ModelsExtend(FieldModels(f), FieldModels(g)) {
      forall i | 0 <= i < |f| && !("__" <= f[i].name) ensures HasField(f[i], g) {
        assert f[i].name in FieldModels(g);
        var j :| 0 <= j < |g| && g[j].name == f[i].name;
        assert FieldModels(g)[g[j].name] == FieldModel(TypeText(g[j].typ), ArgModels(g[j].args));
      }
    }
    if FieldsExtend(f, g) {
      forall k | k in FieldModels(f) ensures k in FieldModels(g) && FieldModels(g)[k] == FieldModels(f)[k] {
        var i :| 0 <= i < |f| && f[i].name == k;
        assert HasField(f[i], g);
        var j :| 0 <= j < |g| && g[j].name == k && g[j].typ == f[i].typ && ArgumentsAgree(f[i].args, g[j].args);
      }
    }
  }

  lemma OwnHidden()
    ensures forall name: string :: Hidden(name) <==> "__" <= name
  {
    OwnIsCompared(Ast(map[], map[], map[], {}, x => true, 0), "");
  }

  lemma {:induction false} ObjectsCount(a: Ast, names: seq<string>, u: string)
    ensures multiset(ObjectsOf(a, names))[u] == if u in a.types && a.types[u].ObjectType? then multiset(names)[u] else 0
    decreases |names|
  {
    if names != [] {
      var n := |names| - 1;
      ObjectsCount(a, names[..n], u);
      assert names == names[..n] + [names[n]];
    }
  }

  lemma {:induction false} MembersIff(b: Ast, s: Ast, t: string)
    ensures MembersOf(b, t) == MembersOf(s, t) <==> SameObjects(b, s, t)
  {
    hide ObjectsOf, Order.Sort;
    var x, y := if t in b.possible then b.possible[t] else [], if t in s.possible then s.possible[t] else [];
    var p, q := ObjectsOf(b, x), ObjectsOf(s, y);
    Order.SortSame(p, q);
    forall u ensures multiset(p)[u] == TimesPossible(b, t, u) && multiset(q)[u] == TimesPossible(s, t, u) {
      ObjectsCount(b, x, u);
      ObjectsCount(s, y, u);
    }
    if SameObjects(b, s, t) {
      forall u ensures multiset(p)[u] == multiset(q)[u] {}
      assert multiset(p) == multiset(q);
    }
  }

  lemma OkFields(d: Definition)
    requires DefinitionOk(d) && (d.ObjectType? || d.InterfaceType?)
    ensures FieldsOk(d.fields)
  {
    assert OutFields(d) == d.fields;
  }

  lemma {:induction false} DefinitionIff(b: Ast, s: Ast, t: string)
    requires t in b.types && t in s.types && DefinitionOk(b.types[t]) && DefinitionOk(s.types[t])
    ensures TypeExtends(TypeModelOf(b, t), TypeModelOf(s, t)) <==> SameDefinition(b, s, t)
  {
    hide FieldModels, ArgModels, MembersOf, Order.Sort, AsArgs, SameObjects, FieldsExtend, ArgumentsAgree, DefinitionOk, FieldsOk;
    var d, e := b.types[t], s.types[t];
    if KindOf(d) == KindOf(e) { KindsDiffer(d, e); }
    NoFieldModels();
    match (d, e) {
      case (ObjectType(f), ObjectType(g)) =>
        OkFields(d);
        OkFields(e);
        FieldsIff(f, g);
      case (InterfaceType(f), InterfaceType(g)) =>
        OkFields(d);
        OkFields(e);
        FieldsIff(f, g);
        MembersIff(b, s, t);
      case (UnionType, UnionType) =>
        MembersIff(b, s, t);
      case (EnumType(v), EnumType(w)) =>
        Order.SortSame(v, w);
      case (InputType(x, _), InputType(y, _)) =>
        InputsOk(d);
        InputsOk(e);
        ArgModelsIff(AsArgs(x), AsArgs(y));
      case _ =>
    }
  }

  lemma InputsOk(d: Definition)
    requires DefinitionOk(d) && d.InputType?
    ensures ArgsOk(AsArgs(d.inputs))
  {}

  /** The comparison finds nothing exactly when the source's schema has every
      root, type, field, argument, input field, enum value and member of the
      bundle's, with the same types and the same defaults; it may have more types
      and fields, and nothing else. */
  lemma {:induction false} NoDriftMeans(b: Ast, s: Ast)
    requires AstOk(b) && AstOk(s)
    ensures NoDrift(ModelOf(b), ModelOf(s)) <==> SchemaExtends(b, s)
  {
    hide TypeModelOf, TypeExtends, SameDefinition, DefinitionOk, NoDrift, Hidden;
    NoDriftIffExtends(ModelOf(b), ModelOf(s));
    forall t ensures (IsCompared(b, t) <==> IsOwn(b, t)) && (IsCompared(s, t) <==> IsOwn(s, t)) {
      OwnIsCompared(b, t);
      OwnIsCompared(s, t);
    }
    forall t | t in b.types && t in s.types
      ensures TypeExtends(TypeModelOf(b, t), TypeModelOf(s, t)) <==> SameDefinition(b, s, t)
    {
      DefinitionIff(b, s, t);
    }
    hide IsCompared, IsOwn;
    if SchemaExtends(b, s) {
      forall t | t in ModelOf(b).types ensures t in ModelOf(s).types && TypeExtends(ModelOf(b).types[t], ModelOf(s).types[t]) {
        assert IsOwn(b, t) && IsOwn(s, t);
      }
    }
    if Extends(ModelOf(b), ModelOf(s)) {
      forall t | IsOwn(b, t) ensures IsOwn(s, t) && t in b.types && t in s.types && SameDefinition(b, s, t) {
        assert t in ModelOf(b).types;
      }
    }
  }

  // ---- One change, one difference ----

  /** The source differs in one argument or input field, in that way. */
  ghost predicate InputChanged(b: map<string, InputModel>, s: map<string, InputModel>, d: InputDifference) {
    match d
    case NotInSource(n) => n in b && s == b - {n}
    case OtherType(n) => n in b && n in s && s[n].typ != b[n].typ && s == b[n := b[n].(typ := s[n].typ)]
    case OtherDefault(n) => n in b && n in s && s[n].def != b[n].def && s == b[n := b[n].(def := s[n].def)]
    case OnlyInSource(n) => n !in b && n in s && s == b[n := s[n]]
  }

  ghost predicate TypeChanged(name: string, b: TypeModel, s: TypeModel, d: Difference) {
    match d
    case NoField(t, f) => t == name && f in b.fields && s == b.(fields := b.fields - {f})
    case OtherResult(t, f) =>
      && t == name && f in b.fields && f in s.fields && s.fields[f].typ != b.fields[f].typ
      && s == b.(fields := b.fields[f := b.fields[f].(typ := s.fields[f].typ)])
    case InArgument(t, f, input) =>
      && t == name && f in b.fields && f in s.fields && InputChanged(b.fields[f].args, s.fields[f].args, input)
      && s == b.(fields := b.fields[f := b.fields[f].(args := s.fields[f].args)])
    case InInput(t, input) => t == name && InputChanged(b.inputs, s.inputs, input) && s == b.(inputs := s.inputs)
    case OtherMembers(t) => t == name && s.members != b.members && s == b.(members := s.members)
    case OtherValues(t) => t == name && s.values != b.values && s == b.(values := s.values)
    case _ => false
  }

  /** The source is the bundle with one change, which that difference names. */
  ghost predicate Changed(b: SchemaModel, s: SchemaModel, d: Difference) {
    match d
    case Root(op) => op in b.roots && op in s.roots && s.roots[op] != b.roots[op] && s == b.(roots := b.roots[op := s.roots[op]])
    case NoType(t) => t in b.types && s == b.(types := b.types - {t})
    case OtherKind(t) =>
      && t in b.types && t in s.types && s.types[t].kind != b.types[t].kind
      && s == b.(types := b.types[t := b.types[t].(kind := s.types[t].kind)])
    case _ =>
      && d.t in b.types && d.t in s.types && TypeChanged(d.t, b.types[d.t], s.types[d.t], d)
      && s == b.(types := b.types[d.t := s.types[d.t]])
  }

  lemma {:induction false} OneInput(b: map<string, InputModel>, s: map<string, InputModel>, d: InputDifference)
    requires InputChanged(b, s, d)
    ensures forall e :: InputDiffers(b, s, e) <==> e == d
  {}

  lemma {:induction false} OneType(name: string, b: TypeModel, s: TypeModel, d: Difference)
    requires TypeChanged(name, b, s, d)
    ensures forall e :: TypeDiffers(name, b, s, e) <==> e == d
    ensures b.kind == s.kind && d.t == name && !d.Root?
  {
    hide InputDiffers, InputChanged;
    forall f | f in b.fields ensures forall e :: !InputDiffers(b.fields[f].args, b.fields[f].args, e) { SameInputs(b.fields[f].args, b.fields[f].args); }
    SameInputs(b.inputs, b.inputs);
    match d {
      case InArgument(_, f, input) =>
        OneInput(b.fields[f].args, s.fields[f].args, input);
      case InInput(_, input) =>
        OneInput(b.inputs, s.inputs, input);
      case _ =>
    }
  }

  /** One change of a schema is reported, as what it is, and nothing else is. */
  lemma {:induction false} OneChangeOneReport(b: SchemaModel, s: SchemaModel, d: Difference)
    requires Changed(b, s, d)
    ensures forall e :: Differs(b, s, e) <==> e == d
  {
    hide TypeDiffers, TypeChanged;
    forall t | t in b.types ensures forall e :: !TypeDiffers(t, b.types[t], b.types[t], e) { TypeExtendsIff(t, b.types[t], b.types[t]); }
    match d {
      case Root(_) =>
      case NoType(_) =>
      case OtherKind(_) =>
      case _ =>
        var m := s.types[d.t];
        OneType(d.t, b.types[d.t], m, d);
        forall t | t in b.types ensures t in s.types && s.types[t] == if t == d.t then m else b.types[t] {}
        forall e ensures Differs(b, s, e) <==> e == d {
          if !e.Root? && e.t == d.t { AboutType(d.t, b.types[d.t], m); }
        }
    }
  }
}
