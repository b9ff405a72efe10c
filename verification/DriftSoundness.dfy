/** From schemas to the models the comparison works on
    (ftv-graphql-mapper/drift.go, modelFromAST), and what an empty comparison
    is worth: the source maps every document of the bundle alike. */
module DriftSoundness {
  import opened Base
  import opened Coercion
  import CoercionLaws
  import opened Arguments
  import opened Canonical
  import opened Documents
  import opened Walk
  import opened CheckArguments
  import opened Agreement
  import opened WalkAgreement
  import opened Drift
  import Order

  // ---- Schemas ----

  datatype Definition =
    | ObjectType(fields: seq<FieldDef>)
    | InterfaceType(fields: seq<FieldDef>)
    | UnionType
    | EnumType(values: seq<string>)
    | InputType(inputs: seq<InputField>, oneOf: bool)
    | ScalarType

  /** A parsed schema. possible lists what an interface or union can be; finite
      and bound are those of Coercion.Schema. */
  datatype Ast = Ast(types: map<string, Definition>, roots: map<string, string>, possible: map<string, seq<string>>,
                     builtIn: set<string>, finite: string -> bool, bound: nat)

  predicate Hidden(name: string) { |name| >= 2 && name[0] == '_' && name[1] == '_' }

  function KindOf(d: Definition): string {
    match d
    case ObjectType(_) => "OBJECT"
    case InterfaceType(_) => "INTERFACE"
    case UnionType => "UNION"
    case EnumType(_) => "ENUM"
    case InputType(_, _) => "INPUT_OBJECT"
    case ScalarType => "SCALAR"
  }

  lemma {:induction false} KindsDiffer(a: Definition, b: Definition)
    requires KindOf(a) == KindOf(b)
    ensures (a.ObjectType? <==> b.ObjectType?) && (a.InterfaceType? <==> b.InterfaceType?) && (a.UnionType? <==> b.UnionType?)
    ensures (a.EnumType? <==> b.EnumType?) && (a.InputType? <==> b.InputType?) && (a.ScalarType? <==> b.ScalarType?)
  {
    var x := KindOf(a);
    assert |"OBJECT"| == 6 && |"INTERFACE"| == 9 && |"UNION"| == 5 && |"ENUM"| == 4 && |"INPUT_OBJECT"| == 12 && |"SCALAR"| == 6;
    assert "OBJECT"[0] == 'O' && "SCALAR"[0] == 'S';
  }

  // ---- modelFromAST ----

  /** canonicalValue of a default, "" when there is none. */
  function DefaultText(d: Option<Value>): string { if d.None? then "" else Canon(d.value) }

  function InputOf(typ: Type, default: Option<Value>): InputModel { InputModel(TypeText(typ), DefaultText(default)) }

  function ArgModels(args: seq<ArgumentDef>): map<string, InputModel> {
    if args == [] then map[]
    else
      var last := args[|args| - 1];
      ArgModels(args[..|args| - 1])[last.name := InputOf(last.typ, last.default)]
  }

  /** The fields of an input object, as arguments. */
  function AsArgs(fields: seq<InputField>): (r: seq<ArgumentDef>)
    ensures |r| == |fields|
    ensures forall i :: 0 <= i < |r| ==> r[i] == ArgumentDef(fields[i].name, fields[i].typ, fields[i].default)
  {
    seq(|fields|, i requires 0 <= i < |fields| => ArgumentDef(fields[i].name, fields[i].typ, fields[i].default))
  }

  function FieldModels(fields: seq<FieldDef>): map<string, FieldModel> {
    if fields == [] then map[]
    else
      var last, before := fields[|fields| - 1], FieldModels(fields[..|fields| - 1]);
      if Hidden(last.name) then before
      else before[last.name := FieldModel(TypeText(last.typ), ArgModels(last.args))]
  }

  function ObjectsOf(a: Ast, names: seq<string>): seq<string> {
    if names == [] then []
    else
      var last, before := names[|names| - 1], ObjectsOf(a, names[..|names| - 1]);
      if last in a.types && a.types[last].ObjectType? then before + [last] else before
  }

  function MembersOf(a: Ast, name: string): seq<string> {
    Order.Sort(ObjectsOf(a, if name in a.possible then a.possible[name] else []))
  }

  function TypeModelOf(a: Ast, name: string): TypeModel
    requires name in a.types
  {
    var d := a.types[name];
    TypeModel(KindOf(d),
              if d.ObjectType? || d.InterfaceType? then FieldModels(d.fields) else map[],
              if d.InputType? then ArgModels(AsArgs(d.inputs)) else map[],
              if d.InterfaceType? || d.UnionType? then MembersOf(a, name) else [],
              if d.EnumType? then Order.Sort(d.values) else [])
  }

  predicate IsCompared(a: Ast, name: string) { name in a.types && name !in a.builtIn && !Hidden(name) }

  function ModelOf(a: Ast): SchemaModel {
    SchemaModel(a.roots, map t | t in a.types && IsCompared(a, t) :: TypeModelOf(a, t))
  }

  method ModelArgs(args: seq<ArgumentDef>) returns (m: map<string, InputModel>)
    ensures m == ArgModels(args)
  {
    hide TypeText, DefaultText;
    m := map[];
    var i := 0;
    while i < |args|
      invariant i <= |args|
      invariant m == ArgModels(args[..i])
    {
      assert args[..i + 1][..i] == args[..i];
      m := m[args[i].name := InputOf(args[i].typ, args[i].default)];
      i := i + 1;
    }
    assert args[..i] == args;
  }

  method ModelFields(fields: seq<FieldDef>) returns (m: map<string, FieldModel>)
    ensures m == FieldModels(fields)
  {
    hide TypeText, ArgModels;
    m := map[];
    var i := 0;
    while i < |fields|
      invariant i <= |fields|
      invariant m == FieldModels(fields[..i])
    {
      assert fields[..i + 1][..i] == fields[..i];
      var f := fields[i];
      if !Hidden(f.name) {
        var args := ModelArgs(f.args);
        m := m[f.name := FieldModel(TypeText(f.typ), args)];
      }
      i := i + 1;
    }
    assert fields[..i] == fields;
  }

  method ModelMembers(a: Ast, name: string) returns (r: seq<string>)
    ensures r == MembersOf(a, name)
  {
    var names := if name in a.possible then a.possible[name] else [];
    r := [];
    var i := 0;
    while i < |names|
      invariant i <= |names|
      invariant r == ObjectsOf(a, names[..i])
    {
      assert names[..i + 1][..i] == names[..i];
      if names[i] in a.types && a.types[names[i]].ObjectType? { r := r + [names[i]]; }
      i := i + 1;
    }
    assert names[..i] == names;
    r := Order.Sort(r);
  }

  method ModelType(a: Ast, name: string) returns (m: TypeModel)
    requires name in a.types
    ensures m == TypeModelOf(a, name)
  {
    hide FieldModels, ArgModels, MembersOf;
    var d := a.types[name];
    var fields: map<string, FieldModel> := map[];
    var inputs: map<string, InputModel> := map[];
    var members: seq<string> := [];
    if d.ObjectType? || d.InterfaceType? { fields := ModelFields(d.fields); }
    if d.InputType? { inputs := ModelArgs(AsArgs(d.inputs)); }
    if d.InterfaceType? || d.UnionType? { members := ModelMembers(a, name); }
    return TypeModel(KindOf(d), fields, inputs, members, if d.EnumType? then Order.Sort(d.values) else []);
  }

  /** modelFromAST */
  method ModelFromAst(a: Ast) returns (m: SchemaModel)
    ensures m == ModelOf(a)
  {
    hide TypeModelOf;
    var types: map<string, TypeModel> := map[];
    var left := a.types.Keys;
    while left != {}
      invariant left <= a.types.Keys
      invariant types == map t | t in a.types && IsCompared(a, t) && t !in left :: TypeModelOf(a, t)
      decreases left
    {
      var t :| t in left;
      left := left - {t};
      if IsCompared(a, t) {
        var model := ModelType(a, t);
        types := types[t := model];
      }
    }
    return SchemaModel(a.roots, types);
  }

  // ---- What the mapper looks up in a schema ----

  function OutFields(d: Definition): seq<FieldDef> { if d.ObjectType? || d.InterfaceType? then d.fields else [] }

  function TypeDefOf(d: Definition): TypeDef {
    match d
    case EnumType(values) => Enum(values)
    case InputType(inputs, oneOf) => InputObject(inputs, oneOf)
    case ScalarType => Scalar
    case _ => NotInput
  }

  function InputSchema(a: Ast): Schema { Schema(map t | t in a.types :: TypeDefOf(a.types[t]), a.finite, a.bound) }

  function ContextOf(a: Ast, fragments: map<string, Fragment>, vars: Vars, bound: nat): Context {
    Context(map t | t in a.types :: OutFields(a.types[t]), InputSchema(a), fragments, vars, bound)
  }

  // ---- Assumptions ----

  /** What parsing and validating a schema grants of its arguments, and of the
      fields of its input objects. */
  ghost predicate ArgsOk(args: seq<ArgumentDef>) {
    && DistinctArgs(args)
    && (forall i :: 0 <= i < |args| ==> ArgOk(args[i]))
  }

  ghost predicate ArgOk(a: ArgumentDef) {
    NamedByWord(a.typ) && (a.default.Some? ==> Lexed(a.default.value) && CoercionLaws.Unique(a.default.value))
  }

  ghost predicate DefinitionOk(d: Definition) {
    && (forall i, j :: 0 <= i < j < |OutFields(d)| ==> OutFields(d)[i].name != OutFields(d)[j].name)
    && (forall i :: 0 <= i < |OutFields(d)| ==> NamedByWord(OutFields(d)[i].typ) && ArgsOk(OutFields(d)[i].args))
    && (d.InputType? ==> ArgsOk(AsArgs(d.inputs)))
  }

  ghost predicate AstOk(a: Ast) { forall t :: t in a.types ==> DefinitionOk(a.types[t]) }

  /** Every type a definition names is defined. */
  ghost predicate DefinitionClosed(a: Ast, d: Definition) {
    && (forall i :: 0 <= i < |OutFields(d)| ==>
          NamedType(OutFields(d)[i].typ) in a.types
          && forall j :: 0 <= j < |OutFields(d)[i].args| ==> NamedType(OutFields(d)[i].args[j].typ) in a.types)
    && (d.InputType? ==> forall i :: 0 <= i < |d.inputs| ==> NamedType(d.inputs[i].typ) in a.types)
  }

  ghost predicate AstClosed(a: Ast) { forall t :: t in a.types ==> DefinitionClosed(a, a.types[t]) }

  /** Built-in types and introspection fields, which are not compared, are the
      same everywhere. */
  ghost predicate SamePrelude(b: Ast, s: Ast) {
    && (forall t :: t in b.types && (t in b.builtIn || Hidden(t)) ==> t in s.types && s.types[t] == b.types[t])
    && (forall t, name :: t in b.types && t in s.types && Hidden(name) ==>
          FieldOf(OutFields(b.types[t]), name) == FieldOf(OutFields(s.types[t]), name))
  }

  /** What canonical texts do not tell apart: the style of the strings in the
      default of an argument of an output field. */
  ghost predicate FieldStyles(b: Ast, s: Ast) {
    forall t :: t in b.types && t in s.types ==> FieldsStyled(InputSchema(b), OutFields(b.types[t]), OutFields(s.types[t]))
  }

  ghost predicate FieldsStyled(schema: Schema, f: seq<FieldDef>, g: seq<FieldDef>) {
    forall i, j :: 0 <= i < |f| && 0 <= j < |g| && f[i].name == g[j].name ==> ArgumentsStyled(schema, f[i].args, g[j].args)
  }

  // ---- Models say what definitions say ----

  lemma {:induction false} ArgModelsAt(args: seq<ArgumentDef>)
    requires DistinctArgs(args)
    ensures forall k :: k in ArgModels(args) ==> exists i :: 0 <= i < |args| && args[i].name == k
    ensures forall i :: 0 <= i < |args| ==>
      args[i].name in ArgModels(args) && ArgModels(args)[args[i].name] == InputOf(args[i].typ, args[i].default)
    decreases |args|
  {
    hide InputOf;
    if args != [] {
      var n := |args| - 1;
      ArgModelsAt(args[..n]);
      forall i | 0 <= i < |args|
        ensures args[i].name in ArgModels(args) && ArgModels(args)[args[i].name] == InputOf(args[i].typ, args[i].default)
      {
        if i < n { assert args[..n][i] == args[i] && args[i].name != args[n].name; }
      }
      forall k | k in ArgModels(args) ensures exists i :: 0 <= i < |args| && args[i].name == k {
        if k != args[n].name {
          var i :| 0 <= i < |args[..n]| && args[..n][i].name == k;
          assert args[i].name == k;
        }
      }
    }
  }

  lemma {:induction false} SameInput(a: ArgumentDef, b: ArgumentDef)
    requires ArgOk(a) && ArgOk(b) && a.name == b.name && InputOf(a.typ, a.default) == InputOf(b.typ, b.default)
    ensures ArgumentAgrees(a, b)
  {
    hide TypeText, Canon, NormOf, Lexed, CoercionLaws.Unique;
    TypeTextInjective(a.typ, b.typ);
    if a.default.Some? { CanonHead(a.default.value); }
    if b.default.Some? { CanonHead(b.default.value); }
    if a.default.Some? && b.default.Some? { CanonSame(a.default.value, b.default.value); }
  }

  lemma {:induction false} ArgModelsAgree(a: seq<ArgumentDef>, b: seq<ArgumentDef>)
    requires ArgsOk(a) && ArgsOk(b) && ArgModels(a) == ArgModels(b)
    ensures ArgumentsAgree(a, b)
  {
    hide ArgModels, InputOf, ArgOk, ArgumentAgrees;
    ArgModelsAt(a);
    ArgModelsAt(b);
    forall i | 0 <= i < |a| ensures IsGiven(a[i], b) {
      assert a[i].name in ArgModels(b);
      var j :| 0 <= j < |b| && b[j].name == a[i].name;
      SameInput(a[i], b[j]);
    }
    forall j | 0 <= j < |b| ensures Gives(a, b[j]) {
      assert b[j].name in ArgModels(a);
      var i :| 0 <= i < |a| && a[i].name == b[j].name;
      SameInput(a[i], b[j]);
    }
  }

  lemma {:induction false} ArgsAsFields(f: seq<InputField>, g: seq<InputField>)
    requires ArgumentsAgree(AsArgs(f), AsArgs(g))
    ensures FieldsAgree(f, g)
  {
    hide DefaultAgrees, ArgumentsAgree, IsRepeated, Repeats, ArgumentAgrees, FieldAgrees;
    var a, b := AsArgs(f), AsArgs(g);
    DistinctBoth(a, b);
    forall i, j | 0 <= i < j < |f| ensures f[i].name != f[j].name { assert a[i].name != a[j].name; }
    forall i, j | 0 <= i < j < |g| ensures g[i].name != g[j].name { assert b[i].name != b[j].name; }
    forall i | 0 <= i < |f| ensures IsRepeated(f[i], g) {
      var j := Given(a, b, i);
      AsField(f[i], g[j]);
      RepeatedAt(f[i], g, j);
    }
    forall j | 0 <= j < |g| ensures Repeats(f, g[j]) {
      var i := Giving(a, b, j);
      AsField(f[i], g[j]);
      RepeatsAt(f, i, g[j]);
    }
  }

  lemma {:induction false} DistinctBoth(a: seq<ArgumentDef>, b: seq<ArgumentDef>)
    requires ArgumentsAgree(a, b)
    ensures DistinctArgs(a) && DistinctArgs(b)
  {}

  lemma {:induction false} Given(a: seq<ArgumentDef>, b: seq<ArgumentDef>, i: nat) returns (j: nat)
    requires ArgumentsAgree(a, b) && i < |a|
    ensures j < |b| && ArgumentAgrees(a[i], b[j])
  {
    hide ArgumentAgrees;
    assert IsGiven(a[i], b);
    j :| 0 <= j < |b| && ArgumentAgrees(a[i], b[j]);
  }

  lemma {:induction false} Giving(a: seq<ArgumentDef>, b: seq<ArgumentDef>, j: nat) returns (i: nat)
    requires ArgumentsAgree(a, b) && j < |b|
    ensures i < |a| && ArgumentAgrees(a[i], b[j])
  {
    hide ArgumentAgrees;
    assert Gives(a, b[j]);
    i :| 0 <= i < |a| && ArgumentAgrees(a[i], b[j]);
  }

  lemma {:induction false} AsField(f: InputField, g: InputField)
    requires ArgumentAgrees(ArgumentDef(f.name, f.typ, f.default), ArgumentDef(g.name, g.typ, g.default))
    ensures FieldAgrees(f, g)
  {}

  lemma {:induction false} RepeatedAt(f: InputField, g: seq<InputField>, j: nat)
    requires j < |g| && FieldAgrees(f, g[j])
    ensures IsRepeated(f, g)
  {}

  lemma {:induction false} RepeatsAt(f: seq<InputField>, i: nat, g: InputField)
    requires i < |f| && FieldAgrees(f[i], g)
    ensures Repeats(f, g)
  {}

  lemma {:induction false} FieldOfIn(fields: seq<FieldDef>, name: string)
    ensures FieldOf(fields, name).Some? ==>
      exists i :: 0 <= i < |fields| && fields[i] == FieldOf(fields, name).value && fields[i].name == name
    ensures (exists i :: 0 <= i < |fields| && fields[i].name == name) ==> FieldOf(fields, name).Some?
    decreases |fields|
  {
    if fields != [] {
      FieldOfIn(fields[1..], name);
      assert forall i :: 0 <= i < |fields[1..]| ==> fields[1..][i] == fields[i + 1];
    }
  }

  lemma {:induction false} FieldModelsAt(fields: seq<FieldDef>)
    requires forall i, j :: 0 <= i < j < |fields| ==> fields[i].name != fields[j].name
    ensures forall k :: k in FieldModels(fields) ==> exists i :: 0 <= i < |fields| && fields[i].name == k
    ensures forall i :: 0 <= i < |fields| && !Hidden(fields[i].name) ==>
      && fields[i].name in FieldModels(fields)
      && FieldModels(fields)[fields[i].name] == FieldModel(TypeText(fields[i].typ), ArgModels(fields[i].args))
    decreases |fields|
  {
    hide TypeText, ArgModels, Hidden;
    if fields != [] {
      var n := |fields| - 1;
      FieldModelsAt(fields[..n]);
      forall i | 0 <= i < |fields| && !Hidden(fields[i].name)
        ensures fields[i].name in FieldModels(fields)
          && FieldModels(fields)[fields[i].name] == FieldModel(TypeText(fields[i].typ), ArgModels(fields[i].args))
      {
        if i < n { assert fields[..n][i] == fields[i] && fields[i].name != fields[n].name; }
      }
      forall k | k in FieldModels(fields) ensures exists i :: 0 <= i < |fields| && fields[i].name == k {
        if k in FieldModels(fields[..n]) {
          var i :| 0 <= i < |fields[..n]| && fields[..n][i].name == k;
          assert fields[i].name == k;
        }
      }
    }
  }

  // ---- A definition is the source's too ----

  /** The source's definition of a type has everything the bundle's has. */
  ghost predicate DefinitionExtends(d: Definition, e: Definition) {
    && KindOf(d) == KindOf(e)
    && (d.InputType? ==> ArgModels(AsArgs(d.inputs)) == ArgModels(AsArgs(e.inputs)))
    && (d.EnumType? ==> Order.Sort(d.values) == Order.Sort(e.values))
    && (forall k :: k in FieldModels(OutFields(d)) ==>
          k in FieldModels(OutFields(e)) && FieldModels(OutFields(e))[k] == FieldModels(OutFields(d))[k])
  }

  lemma {:induction false} ModelExtends(a: Ast, b: Ast, t: string)
    requires t in a.types && t in b.types && TypeExtends(TypeModelOf(a, t), TypeModelOf(b, t))
    ensures DefinitionExtends(a.types[t], b.types[t])
  {
    hide FieldModels, ArgModels, MembersOf, Order.Sort, AsArgs;
    KindsDiffer(a.types[t], b.types[t]);
    NoFieldModels();
  }

  lemma {:induction false} NoFieldModels()
    ensures FieldModels([]) == map[]
  {}

  lemma {:induction false} SelfExtends(d: Definition)
    ensures DefinitionExtends(d, d)
  {}

  lemma {:induction false} ExtendedInput(d: Definition, e: Definition)
    requires DefinitionOk(d) && DefinitionOk(e) && DefinitionExtends(d, e)
    ensures TypeAgrees(TypeDefOf(d), TypeDefOf(e))
  {
    hide ArgModels, ArgsOk, AsArgs, FieldModels, FieldsAgree, Order.Sort;
    KindsDiffer(d, e);
    if d.InputType? {
      ArgModelsAgree(AsArgs(d.inputs), AsArgs(e.inputs));
      ArgsAsFields(d.inputs, e.inputs);
    }
    if d.EnumType? { SameValues(d.values, e.values); }
  }

  lemma {:induction false} SameValues(a: seq<string>, b: seq<string>)
    requires Order.Sort(a) == Order.Sort(b)
    ensures forall x :: x in a <==> x in b
  {
    Order.SortSame(a, b);
    forall x ensures x in a <==> x in b { assert (x in a <==> x in multiset(a)) && (x in b <==> x in multiset(b)); }
  }

  lemma {:induction false} ExtendedField(schema: Schema, d: Definition, e: Definition, name: string)
    requires DefinitionOk(d) && DefinitionOk(e) && DefinitionExtends(d, e)
    requires FieldsStyled(schema, OutFields(d), OutFields(e))
    requires Hidden(name) ==> FieldOf(OutFields(d), name) == FieldOf(OutFields(e), name)
    requires forall i, j :: 0 <= i < |OutFields(d)| && 0 <= j < |OutFields(d)[i].args| ==> NamedType(OutFields(d)[i].args[j].typ) in schema.types
    ensures WalkAgreement.FieldIn(schema, name, OutFields(d), OutFields(e))
  {
    hide ArgModels, ArgsOk, FieldModels, TypeText, Hidden, ArgumentsStyled, ArgumentsAgree, NamedType;
    var f, g := OutFields(d), OutFields(e);
    hide OutFields;
    FieldOfIn(f, name);
    if FieldOf(f, name).Some? {
      var i :| 0 <= i < |f| && f[i] == FieldOf(f, name).value && f[i].name == name;
      var j := Twin(f, g, i);
      ArgModelsAgree(f[i].args, g[j].args);
    }
  }

  ghost predicate DistinctFields(f: seq<FieldDef>) { forall i, j :: 0 <= i < j < |f| ==> f[i].name != f[j].name }

  /** The source's field of the same name: the same type, the same arguments. */
  lemma {:induction false} Twin(f: seq<FieldDef>, g: seq<FieldDef>, i: nat) returns (j: nat)
    requires i < |f| && DistinctFields(f) && DistinctFields(g)
    requires forall k :: k in FieldModels(f) ==> k in FieldModels(g) && FieldModels(g)[k] == FieldModels(f)[k]
    requires Hidden(f[i].name) ==> FieldOf(f, f[i].name) == FieldOf(g, f[i].name)
    requires FieldOf(f, f[i].name) == Some(f[i])
    requires NamedByWord(f[i].typ) && forall k :: 0 <= k < |g| ==> NamedByWord(g[k].typ)
    ensures j < |g| && g[j].name == f[i].name && FieldOf(g, f[i].name) == Some(g[j]) && g[j].typ == f[i].typ && ArgModels(g[j].args) == ArgModels(f[i].args)
  {
    hide ArgModels, FieldModels, TypeText, Hidden, NamedByWord;
    var name := f[i].name;
    FieldOfIn(g, name);
    if !Hidden(name) {
      FieldModelsAt(f);
      FieldModelsAt(g);
      assert name in FieldModels(g);
      var k :| 0 <= k < |g| && g[k].name == name;
    }
    j :| 0 <= j < |g| && g[j] == FieldOf(g, name).value && g[j].name == name;
    if !Hidden(name) {
      assert FieldModels(g)[name] == FieldModel(TypeText(g[j].typ), ArgModels(g[j].args));
      TypeTextInjective(f[i].typ, g[j].typ);
    }
  }

  // ---- Soundness of an empty comparison ----

  lemma {:induction false} Extended(b: Ast, s: Ast, t: string)
    requires NoDrift(ModelOf(b), ModelOf(s)) && SamePrelude(b, s) && t in b.types
    ensures t in s.types && DefinitionExtends(b.types[t], s.types[t])
  {
    hide TypeModelOf, DefinitionExtends, TypeExtends, NoDrift;
    NoDriftIffExtends(ModelOf(b), ModelOf(s));
    if IsCompared(b, t) {
      assert t in ModelOf(b).types && t in ModelOf(s).types;
      ModelExtends(b, s, t);
    } else {
      SelfExtends(b.types[t]);
    }
  }

  /** An empty comparison means that the source's input types match. */
  lemma {:induction false} InputsMatch(b: Ast, s: Ast)
    requires NoDrift(ModelOf(b), ModelOf(s)) && SamePrelude(b, s)
    requires AstOk(b) && AstOk(s) && AstClosed(b) && SameFinite(b.finite, s.finite)
    ensures Matches(InputSchema(b), InputSchema(s))
  {
    hide NoDrift, ModelOf, DefinitionExtends, DefinitionOk, TypeAgrees, SamePrelude;
    var x, y := InputSchema(b), InputSchema(s);
    forall t | t in x.types ensures t in y.types && TypeAgrees(x.types[t], y.types[t]) {
      Extended(b, s, t);
      ExtendedInput(b.types[t], s.types[t]);
    }
    forall t, i | t in x.types && x.types[t].InputObject? && 0 <= i < |x.types[t].fields| ensures Known(x, x.types[t].fields[i].typ) {
      assert DefinitionClosed(b, b.types[t]);
    }
  }

  lemma {:induction false} OutputsAgree(b: Ast, s: Ast, fragments: map<string, Fragment>, vars: Vars, vars2: Vars, bound: nat)
    requires NoDrift(ModelOf(b), ModelOf(s)) && SamePrelude(b, s) && FieldStyles(b, s) && AstOk(b) && AstOk(s) && AstClosed(b)
    ensures OutputAgrees(ContextOf(b, fragments, vars, bound), ContextOf(s, fragments, vars2, bound))
  {
    hide NoDrift, ModelOf, DefinitionExtends, DefinitionOk, WalkAgreement.FieldIn, ArgumentsStyled;
    var c, c2 := ContextOf(b, fragments, vars, bound), ContextOf(s, fragments, vars2, bound);
    forall t | t in c.types ensures t in c2.types { Extended(b, s, t); }
    forall t, name | t in c.types && t in c2.types ensures WalkAgreement.FieldIn(c.input, name, c.types[t], c2.types[t]) {
      Extended(b, s, t);
      assert DefinitionClosed(b, b.types[t]);
      ExtendedField(c.input, b.types[t], s.types[t], name);
    }
    forall t, name | t in c.types ensures ClosedField(c, c.types[t], name) {
      assert DefinitionClosed(b, b.types[t]);
      FieldOfIn(c.types[t], name);
    }
  }

  /** The root type of an operation, "" when there is none. */
  function RootNamed(a: Ast, op: string): string { if op in a.roots then a.roots[op] else "" }

  lemma SameRoot(b: Ast, s: Ast, op: string)
    requires NoDrift(ModelOf(b), ModelOf(s)) && op in b.roots
    ensures RootNamed(s, op) == RootNamed(b, op)
  {
    assert !Differs(ModelOf(b), ModelOf(s), Root(op));
  }

  /** If the comparison finds nothing, and what it does not look at is the same,
      every document valid against the bundle maps with the source's schema to
      the same list, each from its own root type: the same paths, parent types
      and fields, with arguments of the same value and origin. */
  lemma {:induction false} DriftSound(b: Ast, s: Ast, fragments: map<string, Fragment>, defs: seq<VariableDef>,
                                      supplied: map<string, Json>, vars: Vars, limits: Limits, sels: seq<Selection>,
                                      op: string, bound: nat)
    requires NoDrift(ModelOf(b), ModelOf(s)) && SamePrelude(b, s) && op in b.roots
    requires SameOneOf(InputSchema(b), InputSchema(s)) && SameStyles(InputSchema(b), InputSchema(s)) && FieldStyles(b, s)
    requires AstOk(b) && AstOk(s) && AstClosed(b) && SameFinite(b.finite, s.finite)
    requires Arguments.Acyclic(InputSchema(b)) && Arguments.Acyclic(InputSchema(s))
    requires forall i :: 0 <= i < |defs| ==>
      Known(InputSchema(b), defs[i].typ) && (defs[i].default.Some? ==> CoercionLaws.Unique(defs[i].default.value))
    requires CoerceAll(InputSchema(b), defs, supplied, map[]) == Some(vars)
    requires GoodFragments(ContextOf(b, fragments, vars, bound))
    requires var c := ContextOf(b, fragments, vars, bound); Valid(c, sels, TypeNamed(c, RootNamed(b, op))) && UniqueArgs(sels)
    ensures var again := CoerceAll(InputSchema(s), defs, supplied, map[]);
      again.Some? &&
      var c, c2 := ContextOf(b, fragments, vars, bound), ContextOf(s, fragments, again.value, bound);
      LikeWalks(Run(limits, START, FlattenAll(c, sels, TypeNamed(c, RootNamed(b, op)), [], "", bound)),
                Run(limits, START, FlattenAll(c2, sels, TypeNamed(c2, RootNamed(s, op)), [], "", bound)))
  {
    hide NoDrift, ModelOf, AstOk, AstClosed, GoodFragments, Valid, UniqueArgs, Matches, SameOneOf, SameStyles, FieldStyles,
         Arguments.Acyclic, CoerceAll, OutputAgrees, LikeWalks, Run, FlattenAll, RootNamed;
    InputsMatch(b, s);
    SameRoot(b, s, op);
    NoVarsAgree();
    VariablesLike(InputSchema(b), InputSchema(s), defs, supplied, map[], map[]);
    var again := CoerceAll(InputSchema(s), defs, supplied, map[]).value;
    OutputsAgree(b, s, fragments, vars, again, bound);
    WalksAlike(ContextOf(b, fragments, vars, bound), ContextOf(s, fragments, again, bound), limits, sels, RootNamed(b, op));
  }

  // ---- What an empty comparison leaves open ----

  /** The comparison does not look at @oneOf: making an input object OneOf goes
      unseen, and from then on the two sides differ on the empty object. So an
      empty comparison is sound only where the flags agree. */
  lemma {:induction false} OneOfGoesUnseen(a: Ast, t: string, inputs: seq<InputField>, v: Json)
    requires t in a.types && a.types[t] == InputType(inputs, false)
    requires forall i :: 0 <= i < |inputs| ==> CoercionLaws.Omittable(inputs[i])
    requires v == JObj(map[])
    ensures var one := a.(types := a.types[t := InputType(inputs, true)]);
      && NoDrift(ModelOf(a), ModelOf(one))
      && Input(InputSchema(a), Named(t, false), v) == Got(Some(v), [], [])
      && Input(InputSchema(one), Named(t, false), v) == Fail(ValueError)
  {
    hide NoDrift, TypeModelOf;
    var one := a.(types := a.types[t := InputType(inputs, true)]);
    assert ModelOf(one) == ModelOf(a) by {
      forall u | u in a.types ensures TypeModelOf(one, u) == TypeModelOf(a, u) && IsCompared(one, u) == IsCompared(a, u) {
        SameModel(a, one, t, u);
      }
    }
    NoDriftPreorder(ModelOf(a), ModelOf(a), ModelOf(a));
    EmptyObject(InputSchema(a), inputs);
  }

  lemma {:induction false} SameModel(a: Ast, one: Ast, t: string, u: string)
    requires t in a.types && a.types[t].InputType? && u in a.types
    requires one == a.(types := a.types[t := InputType(a.types[t].inputs, true)])
    ensures TypeModelOf(one, u) == TypeModelOf(a, u)
  {
    hide FieldModels, ArgModels, Order.Sort;
    SameObjects(a, one, t, if u in a.possible then a.possible[u] else []);
  }

  lemma {:induction false} SameObjects(a: Ast, one: Ast, t: string, names: seq<string>)
    requires t in a.types && a.types[t].InputType?
    requires one == a.(types := a.types[t := InputType(a.types[t].inputs, true)])
    ensures ObjectsOf(one, names) == ObjectsOf(a, names)
    decreases |names|
  {
    if names != [] { SameObjects(a, one, t, names[..|names| - 1]); }
  }

  lemma {:induction false} EmptyObject(s: Schema, fields: seq<InputField>)
    requires forall i :: 0 <= i < |fields| ==> CoercionLaws.Omittable(fields[i])
    ensures InputFields(s, fields, JObj(map[])) == Fields(map[], [], [])
    decreases |fields|
  {
    hide Literal;
    if fields != [] {
      assert forall i :: 0 <= i < |fields[1..]| ==> fields[1..][i] == fields[i + 1];
      EmptyObject(s, fields[1..]);
    }
  }

  /** Nor do canonical texts tell a block string from a plain one, where an ID
      takes only the plain one. */
  lemma {:induction false} BlockStringGoesUnseen(s: Schema, raw: string, n: nat)
    requires "ID" in s.types && s.types["ID"].Scalar?
    ensures DefaultText(Some(BlockV(raw))) == DefaultText(Some(StrV(raw)))
    ensures Literal(s, map[], Named("ID", false), StrV(raw), n) == Got(Some(JStr(raw)), [], [])
    ensures Literal(s, map[], Named("ID", false), BlockV(raw), n) == Fail(ValueError)
  {
    hide Quote;
  }
}
