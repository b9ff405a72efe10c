/** What the coercer of the GraphQL mapper computes (ftv-graphql-mapper/
    coerce.go): the value of a literal or of a supplied variable at its
    declared type, the variables it used, and the paths inside the value that
    were filled from a schema default. */
module Coercion {
  import opened Base
  import opened Decimal

  // ---- Types, values and schemas ----

  datatype Type = Named(name: string, nonNull: bool) | ListOf(elem: Type, nonNull: bool)

  /** A literal of a document or of a schema default. */
  datatype Value =
    | Var(name: string)
    | Null
    | IntV(raw: string)
    | FloatV(raw: string)
    | StrV(raw: string)
    | BlockV(raw: string)
    | BoolV(raw: string)
    | EnumV(raw: string)
    | ListV(items: seq<Value>)
    | ObjV(members: seq<Member>)

  datatype Member = Member(name: string, value: Value)

  /** rank orders the input fields with a default: a default value takes only
      defaults of a lower rank, since the schema's defaults are acyclic. */
  datatype InputField = InputField(name: string, typ: Type, default: Option<Value>, rank: nat)

  datatype TypeDef =
    | Scalar
    | Enum(values: seq<string>)
    | InputObject(fields: seq<InputField>, oneOf: bool)
    | NotInput

  /** finite is strconv.ParseFloat: whether a number text fits a float64.
      bound lies above every rank. */
  datatype Schema = Schema(types: map<string, TypeDef>, finite: string -> bool, bound: nat)

  datatype ScalarKind = IntKind | FloatKind | StringKind | BooleanKind | IdKind | CustomKind

  function Kind(name: string): ScalarKind {
    if name == "Int" then IntKind
    else if name == "Float" then FloatKind
    else if name == "String" then StringKind
    else if name == "Boolean" then BooleanKind
    else if name == "ID" then IdKind
    else CustomKind
  }

  function Height(t: Type): nat { if t.ListOf? then 1 + Height(t.elem) else 0 }

  /** A coerced variable: its value, and the paths in it that are defaults. */
  datatype Variable = Variable(value: Json, defaulted: bool, defaults: seq<Path>)

  type Vars = map<string, Variable>

  // ---- Results ----

  /** A failure is the fault of a variable's value or of the document. Endless
      stands for a coercion that would not return; it does not happen when
      the defaults are acyclic. */
  datatype Failure = VariableError | ValueError | Endless

  /** The value, None for a variable without one; the variables met, in order;
      and the default paths, relative to the value. */
  datatype Result = Fail(why: Failure) | Got(value: Option<Json>, used: seq<string>, defaults: seq<Path>)

  datatype Items = NoItems(why: Failure) | Items(values: seq<Json>, used: seq<string>, defaults: seq<Path>)

  datatype Fields = NoFields(why: Failure) | Fields(obj: map<string, Json>, used: seq<string>, defaults: seq<Path>)

  function Prefixed(p: Path, paths: seq<Path>): (r: seq<Path>)
    ensures |r| == |paths| && forall i :: 0 <= i < |r| ==> r[i] == p + paths[i]
  {
    seq(|paths|, i requires 0 <= i < |paths| => p + paths[i])
  }

  function OrNull(v: Option<Json>): Json { if v.Some? then v.value else JNull }

  /** A list item before the items behind it. An item without value is null. */
  function JoinItem(i: nat, item: Result, nonNull: bool, rest: Items): Items {
    if item.Fail? then NoItems(item.why)
    else if item.value.None? && nonNull then NoItems(ValueError)
    else if rest.NoItems? then rest
    else Items([OrNull(item.value)] + rest.values, item.used + rest.used,
               Prefixed([Index(i)], item.defaults) + rest.defaults)
  }

  /** A field before the fields behind it; a later one of that name wins. */
  function JoinField(name: string, field: Result, rest: Fields): Fields {
    if field.Fail? then NoFields(field.why)
    else if rest.NoFields? then rest
    else Fields((if field.value.Some? then map[name := field.value.value] else map[]) + rest.obj,
                field.used + rest.used,
                field.defaults + rest.defaults)
  }

  /** One field of an input object: what was supplied for it, or its default. */
  function Filled(fd: InputField, supplied: Result, default: Result): Result {
    if supplied.Fail? then supplied
    else if supplied.value.Some? then Got(supplied.value, supplied.used, Prefixed([Key(fd.name)], supplied.defaults))
    else if fd.default.None? then
      if fd.typ.nonNull then Fail(ValueError) else Got(None, supplied.used, [])
    else if default.Fail? then default
    else Got(Some(OrNull(default.value)), supplied.used, [[Key(fd.name)]])
  }

  function ListResult(items: Items): Result {
    match items
    case NoItems(why) => Fail(why)
    case Items(values, used, defaults) => Got(Some(JList(values)), used, defaults)
  }

  function SingleItem(item: Result): Result {
    if item.Fail? || item.value.None? then item
    else Got(Some(JList([item.value.value])), item.used, Prefixed([Index(0)], item.defaults))
  }

  predicate OneEntryNotNull(obj: map<string, Json>) {
    |obj| == 1 && forall k :: k in obj ==> !obj[k].JNull?
  }

  // ---- Literals ----

  function UseVariable(vars: Vars, name: string): Result {
    if name in vars then Got(Some(vars[name].value), [name], vars[name].defaults) else Got(None, [name], [])
  }

  /** ChildValueList.ForName: the first member of that name. */
  function Written(members: seq<Member>, name: string): Option<Value> {
    if members == [] then None
    else if members[0].name == name then Some(members[0].value)
    else Written(members[1..], name)
  }

  lemma {:induction false} WrittenIn(members: seq<Member>, name: string)
    ensures Written(members, name).Some? ==>
      exists i :: 0 <= i < |members| && members[i].name == name && members[i].value == Written(members, name).value
    ensures (exists i :: 0 <= i < |members| && members[i].name == name) ==> Written(members, name).Some?
  {
    if members != [] {
      WrittenIn(members[1..], name);
      assert forall i :: 0 <= i < |members[1..]| ==> members[1..][i] == members[i + 1];
    }
  }

  /** Of the literal and the type, the first shrinks; at the same literal the
      type does; below a default the rank does. */
  function Literal(s: Schema, vars: Vars, t: Type, v: Value, n: nat): Result
    decreases n, v, Height(t) + 1, 0
  {
    if v.Var? then
      if v.name in vars && vars[v.name].value.JNull? && t.nonNull then Fail(VariableError)
      else UseVariable(vars, v.name)
    else if v.Null? then
      if t.nonNull then Fail(ValueError) else Got(Some(JNull), [], [])
    else if t.ListOf? then
      if v.ListV? then ListResult(LiteralItems(s, vars, t.elem, v, 0, n))
      else SingleItem(Literal(s, vars, t.elem, v, n))
    else if t.name !in s.types then Fail(ValueError)
    else match s.types[t.name]
      case Scalar => ScalarLiteral(s, vars, t.name, v)
      case Enum(values) =>
        if v.EnumV? && v.raw in values then Got(Some(JStr(v.raw)), [], []) else Fail(ValueError)
      case InputObject(fields, oneOf) =>
        if !v.ObjV? then Fail(ValueError)
        else if oneOf && (|v.members| != 1 || v.members[0].value.Null?) then Fail(ValueError)
        else ObjectResult(oneOf, LiteralFields(s, vars, fields, v, n))
      case NotInput => Fail(ValueError)
  }

  /** The one field of a OneOf Input Object may be a variable without a value,
      or null: the fault of the variable. */
  function ObjectResult(oneOf: bool, fields: Fields): Result {
    match fields
    case NoFields(why) => Fail(why)
    case Fields(obj, used, defaults) =>
      if oneOf && !OneEntryNotNull(obj) then Fail(VariableError) else Got(Some(JObj(obj)), used, defaults)
  }

  function LiteralItems(s: Schema, vars: Vars, elem: Type, v: Value, i: nat, n: nat): Items
    requires v.ListV? && i <= |v.items|
    decreases n, v, 0, |v.items| - i
  {
    if i == |v.items| then Items([], [], [])
    else JoinItem(i, Literal(s, vars, elem, v.items[i], n), elem.nonNull, LiteralItems(s, vars, elem, v, i + 1, n))
  }

  function LiteralFields(s: Schema, vars: Vars, fields: seq<InputField>, v: Value, n: nat): Fields
    requires v.ObjV?
    decreases n, v, 0, |fields|
  {
    if fields == [] then Fields(map[], [], [])
    else
      var fd := fields[0];
      var written := Written(v.members, fd.name);
      WrittenIn(v.members, fd.name);
      var supplied := if written.Some? then Literal(s, vars, fd.typ, written.value, n) else Got(None, [], []);
      var default := if fd.default.Some? && fd.rank < n then Literal(s, map[], fd.typ, fd.default.value, fd.rank)
                     else Fail(Endless);
      JoinField(fd.name, Filled(fd, supplied, default), LiteralFields(s, vars, fields[1..], v, n))
  }

  /** strconv.ParseInt(raw, 10, 32) */
  function ParseInt32(raw: string): Option<int> {
    var i := ParseInt(raw);
    if i.Some? && MIN_INT32 <= i.value <= MAX_INT32 then i else None
  }

  function ScalarLiteral(s: Schema, vars: Vars, name: string, v: Value): Result {
    match Kind(name)
    case IntKind =>
      if v.IntV? && ParseInt32(v.raw).Some? then Got(Some(JNum(IntText(ParseInt32(v.raw).value))), [], [])
      else Fail(ValueError)
    case FloatKind =>
      if (v.IntV? || v.FloatV?) && s.finite(v.raw) then Got(Some(JNum(v.raw)), [], []) else Fail(ValueError)
    case StringKind =>
      if v.StrV? || v.BlockV? then Got(Some(JStr(v.raw)), [], []) else Fail(ValueError)
    case BooleanKind =>
      if v.BoolV? then Got(Some(JBool(v.raw == "true")), [], []) else Fail(ValueError)
    case IdKind =>
      if v.StrV? || v.IntV? then Got(Some(JStr(v.raw)), [], []) else Fail(ValueError)
    case CustomKind =>
      var r := Untyped(vars, v);
      Got(Some(OrNull(r.value)), r.used, r.defaults)
  }

  /** The literal of a custom scalar, as JSON. A variable without a value is
      left out of an object and null elsewhere. */
  function Untyped(vars: Vars, v: Value): (r: Result)
    ensures r.Got? && (!v.Var? ==> r.value.Some?)
    decreases v, 1, 0
  {
    match v
    case Var(name) => UseVariable(vars, name)
    case IntV(raw) => Got(Some(JNum(raw)), [], [])
    case FloatV(raw) => Got(Some(JNum(raw)), [], [])
    case BoolV(raw) => Got(Some(JBool(raw == "true")), [], [])
    case Null => Got(Some(JNull), [], [])
    case ListV(items) => ListResult(UntypedItems(vars, v, 0))
    case ObjV(members) =>
      var fields := UntypedFields(vars, v, 0);
      Got(Some(JObj(fields.obj)), fields.used, fields.defaults)
    case StrV(raw) => Got(Some(JStr(raw)), [], [])
    case BlockV(raw) => Got(Some(JStr(raw)), [], [])
    case EnumV(raw) => Got(Some(JStr(raw)), [], [])
  }

  function UntypedItems(vars: Vars, v: Value, i: nat): (r: Items)
    requires v.ListV? && i <= |v.items|
    ensures r.Items?
    decreases v, 0, |v.items| - i
  {
    if i == |v.items| then Items([], [], [])
    else JoinItem(i, Untyped(vars, v.items[i]), false, UntypedItems(vars, v, i + 1))
  }

  function UntypedFields(vars: Vars, v: Value, i: nat): (r: Fields)
    requires v.ObjV? && i <= |v.members|
    ensures r.Fields?
    decreases v, 0, |v.members| - i
  {
    if i == |v.members| then Fields(map[], [], [])
    else
      var m := v.members[i];
      var r := Untyped(vars, m.value);
      JoinField(m.name, Got(r.value, r.used, Prefixed([Key(m.name)], r.defaults)), UntypedFields(vars, v, i + 1))
  }

  // ---- Supplied values ----

  /** scalarInput */
  function ScalarInput(s: Schema, name: string, v: Json): Option<Json> {
    match Kind(name)
    case IntKind =>
      if v.JNum? && Integral(v.text, MIN_INT32, MAX_INT32).Some?
      then Some(JNum(IntText(Integral(v.text, MIN_INT32, MAX_INT32).value))) else None
    case FloatKind => if v.JNum? && s.finite(v.text) then Some(v) else None
    case StringKind => if v.JStr? then Some(v) else None
    case BooleanKind => if v.JBool? then Some(v) else None
    case IdKind =>
      if v.JStr? then Some(v)
      else if v.JNum? && Integral(v.text, MIN_INT64, MAX_INT64).Some?
      then Some(JStr(IntText(Integral(v.text, MIN_INT64, MAX_INT64).value))) else None
    case CustomKind => Some(v)
  }

  predicate HasField(fields: seq<InputField>, name: string) {
    exists i :: 0 <= i < |fields| && fields[i].name == name
  }

  function Input(s: Schema, t: Type, v: Json): Result
    decreases v, Height(t) + 1, 0
  {
    if v.JNull? then
      if t.nonNull then Fail(ValueError) else Got(Some(JNull), [], [])
    else if t.ListOf? then
      if v.JList? then ListResult(InputItems(s, t.elem, v, 0)) else SingleItem(Input(s, t.elem, v))
    else if t.name !in s.types then Fail(ValueError)
    else match s.types[t.name]
      case Scalar =>
        var r := ScalarInput(s, t.name, v);
        if r.Some? then Got(r, [], []) else Fail(ValueError)
      case Enum(values) => if v.JStr? && v.s in values then Got(Some(v), [], []) else Fail(ValueError)
      case InputObject(fields, oneOf) =>
        if !v.JObj? then Fail(ValueError)
        else if exists k :: k in v.members && !HasField(fields, k) then Fail(ValueError)
        else if oneOf && !OneEntryNotNull(v.members) then Fail(ValueError)
        else ObjectResult(false, InputFields(s, fields, v))
      case NotInput => Fail(ValueError)
  }

  function InputItems(s: Schema, elem: Type, v: Json, i: nat): Items
    requires v.JList? && i <= |v.items|
    decreases v, 0, |v.items| - i
  {
    if i == |v.items| then Items([], [], [])
    else JoinItem(i, Input(s, elem, v.items[i]), elem.nonNull, InputItems(s, elem, v, i + 1))
  }

  /** A field's coerced default. */
  function Default(s: Schema, fd: InputField): Result {
    if fd.default.Some? && fd.rank < s.bound then Literal(s, map[], fd.typ, fd.default.value, fd.rank)
    else Fail(Endless)
  }

  function InputFields(s: Schema, fields: seq<InputField>, v: Json): Fields
    requires v.JObj?
    decreases v, 0, |fields|
  {
    if fields == [] then Fields(map[], [], [])
    else
      var fd := fields[0];
      var supplied := if fd.name in v.members then Input(s, fd.typ, v.members[fd.name]) else Got(None, [], []);
      JoinField(fd.name, Filled(fd, supplied, Default(s, fd)), InputFields(s, fields[1..], v))
  }
}
