/** What coercion promises: only values of the declared type come out, coercing
    them again changes nothing, and every path reported as a schema default
    leads to an input field holding its default (section 6.1.2 of the GraphQL
    specification). */
module CoercionLaws {
  import opened Base
  import opened Decimal
  import opened Coercion

  // ---- Values of a type ----

  ghost predicate ScalarOk(s: Schema, name: string, v: Json) {
    match Kind(name)
    case IntKind => v.JNum? && exists i :: MIN_INT32 <= i <= MAX_INT32 && v.text == IntText(i)
    case FloatKind => v.JNum? && s.finite(v.text)
    case StringKind => v.JStr?
    case BooleanKind => v.JBool?
    case IdKind => v.JStr?
    case CustomKind => true
  }

  /** The coerced values of a type. An input object holds every field that has
      a default or may not be null. */
  ghost predicate Conforms(s: Schema, t: Type, v: Json)
    decreases v, Height(t)
  {
    if v.JNull? then !t.nonNull
    else if t.ListOf? then v.JList? && forall i :: 0 <= i < |v.items| ==> Conforms(s, t.elem, v.items[i])
    else t.name in s.types && match s.types[t.name]
      case Scalar => ScalarOk(s, t.name, v)
      case Enum(values) => v.JStr? && v.s in values
      case InputObject(fields, oneOf) =>
        && v.JObj?
        && (forall k :: k in v.members ==> HasField(fields, k))
        && (forall i :: 0 <= i < |fields| ==>
              if fields[i].name in v.members then Conforms(s, fields[i].typ, v.members[fields[i].name])
              else Omittable(fields[i]))
        && (oneOf ==> OneEntryNotNull(v.members))
      case NotInput => false
  }

  predicate Omittable(fd: InputField) { fd.default.None? && !fd.typ.nonNull }

  function Nullable(t: Type): Type { t.(nonNull := false) }

  ghost predicate ObjConforms(s: Schema, fields: seq<InputField>, obj: map<string, Json>) {
    && (forall k :: k in obj ==> HasField(fields, k))
    && (forall i :: 0 <= i < |fields| ==>
          if fields[i].name in obj then Conforms(s, fields[i].typ, obj[fields[i].name]) else Omittable(fields[i]))
  }

  // ---- Where defaults stand ----

  function DefaultOf(s: Schema, fd: InputField): Option<Json> {
    match Default(s, fd) case Got(v, _, _) => Some(OrNull(v)) case _ => None
  }

  /** A path leads, along the type, to an input field that holds its coerced
      schema default. Inside a custom scalar it leads to the value of a
      variable first, and goes on along that variable's type. */
  ghost predicate DefaultAt(s: Schema, t: Type, v: Json, path: Path)
    decreases |path|
  {
    path != [] &&
    if t.ListOf? then
      v.JList? && path[0].Index? && path[0].i < |v.items| && DefaultAt(s, t.elem, v.items[path[0].i], path[1..])
    else t.name in s.types && match s.types[t.name]
      case InputObject(fields, _) => v.JObj? && FieldDefaultAt(s, fields, v.members, path)
      case Scalar =>
        exists k: nat, u: Type ::
          0 < k <= |path| && At(v, path[..k]).Some? && DefaultAt(s, u, At(v, path[..k]).value, path[k..])
      case _ => false
  }

  ghost predicate FieldDefaultAt(s: Schema, fields: seq<InputField>, obj: map<string, Json>, path: Path)
    requires path != []
    decreases |path|, 0
  {
    path[0].Key? && path[0].name in obj &&
    exists fd :: fd in fields && fd.name == path[0].name &&
      if |path| == 1 then DefaultOf(s, fd) == Some(obj[path[0].name])
      else DefaultAt(s, fd.typ, obj[path[0].name], path[1..])
  }

  lemma {:induction false} AtApart(v: Json, a: Path, b: Path)
    requires At(v, a).Some?
    ensures At(v, a + b) == At(At(v, a).value, b)
    decreases |a|
  {
    if a == [] {
      assert a + b == b;
    } else {
      assert (a + b)[1..] == a[1..] + b;
      var next := if a[0].Key? then v.members[a[0].name] else v.items[a[0].i];
      AtApart(next, a[1..], b);
    }
  }

  /** The value is the coerced default of an input field of the schema. */
  ghost predicate IsDefault(s: Schema, name: string, value: Option<Json>) {
    exists t, fd :: IsFieldOf(s, t, fd) && fd.name == name && fd.default.Some? && DefaultOf(s, fd) == value
  }

  predicate IsFieldOf(s: Schema, t: string, fd: InputField) {
    t in s.types && s.types[t].InputObject? && fd in s.types[t].fields
  }

  /** Such a path resolves inside the value to what an input field of the schema
      of that name, with a default, has as its coerced default. */
  lemma {:induction false} DefaultAtResolves(s: Schema, t: Type, v: Json, path: Path)
    requires DefaultAt(s, t, v, path)
    ensures At(v, path).Some? && path[|path| - 1].Key?
    ensures IsDefault(s, path[|path| - 1].name, At(v, path))
    decreases |path|
  {
    hide DefaultOf, IsDefault;
    if t.ListOf? {
      DefaultAtResolves(s, t.elem, v.items[path[0].i], path[1..]);
      assert path[1..][|path| - 2] == path[|path| - 1];
    } else if s.types[t.name].InputObject? {
      var fields := s.types[t.name].fields;
      var w := v.members[path[0].name];
      if |path| == 1 {
        assert path[1..] == [];
        assert At(v, path) == At(w, []);
        var fd :| fd in fields && fd.name == path[0].name && DefaultOf(s, fd) == Some(w);
        FieldIsDefault(s, t.name, fd, w);
      } else {
        var fd :| fd in fields && fd.name == path[0].name && DefaultAt(s, fd.typ, w, path[1..]);
        DefaultAtResolves(s, fd.typ, w, path[1..]);
        assert path[1..][|path| - 2] == path[|path| - 1];
      }
    } else {
      var k: nat, u: Type :| 0 < k <= |path| && At(v, path[..k]).Some? && DefaultAt(s, u, At(v, path[..k]).value, path[k..]);
      DefaultAtResolves(s, u, At(v, path[..k]).value, path[k..]);
      AtApart(v, path[..k], path[k..]);
      assert path[..k] + path[k..] == path;
      assert path[k..][|path| - k - 1] == path[|path| - 1];
    }
  }

  lemma {:induction false} FieldIsDefault(s: Schema, t: string, fd: InputField, w: Json)
    requires IsFieldOf(s, t, fd) && DefaultOf(s, fd) == Some(w)
    ensures IsDefault(s, fd.name, Some(w))
  {
    hide Literal;
  }

  // ---- Sound results ----

  ghost predicate SoundValue(s: Schema, t: Type, v: Json, defaults: seq<Path>) {
    Conforms(s, t, v) && forall d :: d in defaults ==> DefaultAt(s, t, v, d)
  }

  /** A result holds a value of its type with its defaults where it says. */
  ghost predicate Sound(s: Schema, t: Type, r: Result) {
    r.Got? ==> if r.value.Some? then SoundValue(s, t, r.value.value, r.defaults) else r.defaults == []
  }

  ghost predicate SoundItem(s: Schema, elem: Type, values: seq<Json>, i: nat, d: Path) {
    d != [] && d[0].Index? && i <= d[0].i < i + |values| && DefaultAt(s, elem, values[d[0].i - i], d[1..])
  }

  /** The items from i on. */
  ghost predicate SoundItems(s: Schema, elem: Type, i: nat, items: Items) {
    items.Items? ==>
      && (forall k :: 0 <= k < |items.values| ==> Conforms(s, elem, items.values[k]))
      && (forall d :: d in items.defaults ==> SoundItem(s, elem, items.values, i, d))
  }

  ghost predicate SoundFields(s: Schema, fields: seq<InputField>, r: Fields) {
    r.Fields? ==>
      && ObjConforms(s, fields, r.obj)
      && (forall d :: d in r.defaults ==> d != [] && FieldDefaultAt(s, fields, r.obj, d))
  }

  ghost predicate Distinct(fields: seq<InputField>) {
    forall i, j :: 0 <= i < j < |fields| ==> fields[i].name != fields[j].name
  }

  /** Input object literals name each field once (section 5.6.3 of the GraphQL
      specification). */
  ghost predicate Unique(v: Value) {
    match v
    case ListV(items) => forall i :: 0 <= i < |items| ==> Unique(items[i])
    case ObjV(members) =>
      && (forall i, j :: 0 <= i < j < |members| ==> members[i].name != members[j].name)
      && (forall i :: 0 <= i < |members| ==> Unique(members[i].value))
    case _ => true
  }

  /** What schema validation grants: fields of one input object differ in
      name, those of a OneOf Input Object are nullable without default, and a
      default is a literal. */
  ghost predicate WellFormed(s: Schema) {
    forall t :: t in s.types && s.types[t].InputObject? ==> FieldsWellFormed(s.types[t].fields, s.types[t].oneOf)
  }

  ghost predicate FieldsWellFormed(fields: seq<InputField>, oneOf: bool) {
    && Distinct(fields)
    && ConstantDefaults(fields)
    && (oneOf ==> forall i :: 0 <= i < |fields| ==> Omittable(fields[i]))
  }

  ghost predicate ConstantDefaults(fields: seq<InputField>) {
    forall i :: 0 <= i < |fields| && fields[i].default.Some? ==>
      !fields[i].default.value.Var? && Unique(fields[i].default.value)
  }

  lemma SoundJoinItem(s: Schema, elem: Type, i: nat, item: Result, rest: Items)
    requires Sound(s, elem, item) && SoundItems(s, elem, i + 1, rest)
    ensures SoundItems(s, elem, i, JoinItem(i, item, elem.nonNull, rest))
  {
    hide DefaultAt;
    var r := JoinItem(i, item, elem.nonNull, rest);
    if r.Items? {
      var head := OrNull(item.value);
      forall d: Path | d in r.defaults ensures SoundItem(s, elem, r.values, i, d) {
        var pre := Prefixed([Index(i)], item.defaults);
        if d in pre {
          var k :| 0 <= k < |pre| && pre[k] == d;
          assert d[1..] == item.defaults[k];
        } else {
          assert d in rest.defaults;
          assert r.values[d[0].i - i] == rest.values[d[0].i - i - 1];
        }
      }
    }
  }

  lemma SoundList(s: Schema, t: Type, items: Items)
    requires t.ListOf? && SoundItems(s, t.elem, 0, items)
    ensures Sound(s, t, ListResult(items))
  {}

  lemma SoundSingle(s: Schema, t: Type, item: Result)
    requires t.ListOf? && Sound(s, t.elem, item)
    ensures Sound(s, t, SingleItem(item))
  {
    var r := SingleItem(item);
    if r.Got? && r.value.Some? {
      forall d: Path | d in r.defaults ensures DefaultAt(s, t, r.value.value, d) {
        var k :| 0 <= k < |r.defaults| && r.defaults[k] == d;
        assert d[1..] == item.defaults[k];
      }
    }
  }

  ghost predicate SoundDefault(s: Schema, fd: InputField, default: Result) {
    default.Got? ==> DefaultOf(s, fd) == Some(OrNull(default.value)) && Conforms(s, fd.typ, OrNull(default.value))
  }

  lemma SoundJoinField(s: Schema, fields: seq<InputField>, supplied: Result, default: Result, rest: Fields)
    requires fields != [] && Distinct(fields)
    requires Sound(s, fields[0].typ, supplied) && SoundFields(s, fields[1..], rest)
    requires SoundDefault(s, fields[0], default)
    ensures SoundFields(s, fields, JoinField(fields[0].name, Filled(fields[0], supplied, default), rest))
  {
    hide DefaultAt, Conforms, DefaultOf;
    var fd := fields[0];
    var mine := Filled(fd, supplied, default);
    var r := JoinField(fd.name, mine, rest);
    if r.Fields? {
      FirstIsApart(fields);
      assert fd.name !in rest.obj;
      ObjJoined(s, fields, mine.value, rest.obj);
      forall d: Path | d in r.defaults ensures d != [] && FieldDefaultAt(s, fields, r.obj, d) {
        if d in mine.defaults {
          var k :| 0 <= k < |mine.defaults| && mine.defaults[k] == d;
          assert fd in fields && d[0] == Key(fd.name);
          if supplied.value.Some? { assert d[1..] == supplied.defaults[k]; DefaultPathsLead(s, fd.typ, supplied.value.value, d[1..]); }
        } else {
          assert d in rest.defaults;
          assert forall f :: f in fields[1..] ==> f in fields;
        }
      }
    }
  }

  lemma FirstIsApart(fields: seq<InputField>)
    requires fields != [] && Distinct(fields)
    ensures !HasField(fields[1..], fields[0].name)
  {
    forall i | 0 <= i < |fields[1..]| ensures fields[1..][i].name != fields[0].name {
      assert fields[1..][i] == fields[i + 1];
    }
  }

  lemma {:induction false} DefaultPathsLead(s: Schema, t: Type, v: Json, d: Path)
    requires DefaultAt(s, t, v, d)
    ensures d != []
  {}

  lemma {:induction false} ObjJoined(s: Schema, fields: seq<InputField>, value: Option<Json>, rest: map<string, Json>)
    requires fields != [] && Distinct(fields) && ObjConforms(s, fields[1..], rest) && fields[0].name !in rest
    requires if value.Some? then Conforms(s, fields[0].typ, value.value) else Omittable(fields[0])
    ensures ObjConforms(s, fields, (if value.Some? then map[fields[0].name := value.value] else map[]) + rest)
  {
    hide Conforms;
    var obj := (if value.Some? then map[fields[0].name := value.value] else map[]) + rest;
    forall k | k in obj ensures HasField(fields, k) {
      if k in rest {
        var i :| 0 <= i < |fields[1..]| && fields[1..][i].name == k;
        assert fields[i + 1].name == k;
      }
    }
    forall i | 0 <= i < |fields|
      ensures if fields[i].name in obj then Conforms(s, fields[i].typ, obj[fields[i].name]) else Omittable(fields[i])
    {
      if i > 0 { assert fields[i] == fields[1..][i - 1] && fields[i].name != fields[0].name; }
    }
  }

  lemma SoundObject(s: Schema, t: Type, fields: seq<InputField>, oneOf: bool, r: Fields, checked: bool)
    requires t.Named? && t.name in s.types && s.types[t.name] == InputObject(fields, oneOf)
    requires SoundFields(s, fields, r)
    requires oneOf && r.Fields? && !checked ==> OneEntryNotNull(r.obj)
    requires checked ==> oneOf
    ensures Sound(s, t, ObjectResult(checked, r))
  {
    hide DefaultAt, FieldDefaultAt;
    if r.Fields? {
      var v := JObj(r.obj);
      forall d: Path | d in r.defaults ensures DefaultAt(s, t, v, d) {
        ObjectDefaultAt(s, t, fields, oneOf, r.obj, d);
      }
    }
  }

  lemma {:induction false} ObjectDefaultAt(s: Schema, t: Type, fields: seq<InputField>, oneOf: bool, obj: map<string, Json>, d: Path)
    requires t.Named? && t.name in s.types && s.types[t.name] == InputObject(fields, oneOf)
    requires d != [] && FieldDefaultAt(s, fields, obj, d)
    ensures DefaultAt(s, t, JObj(obj), d)
  {}

  // ---- Literals are sound ----

  /** Every variable's defaults lie where its own type says. */
  ghost predicate VarsSound(s: Schema, vars: Vars) {
    forall x, d :: x in vars && d in vars[x].defaults ==> exists u :: DefaultAt(s, u, vars[x].value, d)
  }

  /** Each variable stands where its value may: allowed positions (section
      5.8.5 of the GraphQL specification), up to null. */
  ghost predicate UsesFit(s: Schema, vars: Vars, t: Type, v: Value)
    decreases v, Height(t)
  {
    if v.Var? then v.name in vars ==> SoundValue(s, Nullable(t), vars[v.name].value, vars[v.name].defaults)
    else if t.ListOf? then
      if v.ListV? then forall i :: 0 <= i < |v.items| ==> UsesFit(s, vars, t.elem, v.items[i])
      else UsesFit(s, vars, t.elem, v)
    else t.name in s.types && s.types[t.name].InputObject? && v.ObjV? ==>
      forall i, j :: 0 <= i < |v.members| && 0 <= j < |s.types[t.name].fields|
                     && v.members[i].name == s.types[t.name].fields[j].name
        ==> UsesFit(s, vars, s.types[t.name].fields[j].typ, v.members[i].value)
  }

  lemma {:induction false} NonNullFits(s: Schema, t: Type, x: Variable)
    requires SoundValue(s, Nullable(t), x.value, x.defaults) && !(x.value.JNull? && t.nonNull)
    ensures SoundValue(s, t, x.value, x.defaults)
  {
    forall d | d in x.defaults ensures DefaultAt(s, t, x.value, d) {
      NullableDefault(s, t, x.value, d);
    }
  }

  lemma {:induction false} NullableDefault(s: Schema, t: Type, v: Json, d: Path)
    ensures DefaultAt(s, Nullable(t), v, d) <==> DefaultAt(s, t, v, d)
  {}

  lemma {:induction false} LiteralSound(s: Schema, vars: Vars, t: Type, v: Value, n: nat)
    requires WellFormed(s) && VarsSound(s, vars) && Unique(v) && UsesFit(s, vars, t, v) && n <= s.bound
    ensures Sound(s, t, Literal(s, vars, t, v, n))
    decreases n, v, Height(t) + 1, 0
  {
    hide DefaultAt, Conforms, LiteralItems, LiteralFields, ScalarLiteral, WellFormed, VarsSound;
    if v.Var? {
      if v.name in vars && !(vars[v.name].value.JNull? && t.nonNull) { NonNullFits(s, t, vars[v.name]); }
    } else if v.Null? {
      NullConforms(s, t);
    } else if t.ListOf? {
      if v.ListV? {
        LiteralItemsSound(s, vars, t.elem, v, 0, n);
        SoundList(s, t, LiteralItems(s, vars, t.elem, v, 0, n));
      } else {
        LiteralSound(s, vars, t.elem, v, n);
        SoundSingle(s, t, Literal(s, vars, t.elem, v, n));
      }
    } else if t.name in s.types {
      match s.types[t.name] {
        case Scalar => ScalarLiteralSound(s, vars, t, v);
        case Enum(values) => if v.EnumV? && v.raw in values { EnumConforms(s, t, values, v.raw); }
        case InputObject(fields, oneOf) =>
          WellFormedFields(s, t.name);
          if v.ObjV? {
            UsesFitFields(s, vars, t, v);
            LiteralFieldsSound(s, vars, fields, v, n);
            SoundObject(s, t, fields, oneOf, LiteralFields(s, vars, fields, v, n), oneOf);
          }
        case NotInput =>
      }
    }
  }

  lemma {:induction false} NullConforms(s: Schema, t: Type)
    ensures Conforms(s, t, JNull) <==> !t.nonNull
  {}

  lemma {:induction false} EnumConforms(s: Schema, t: Type, values: seq<string>, raw: string)
    requires t.Named? && t.name in s.types && s.types[t.name] == Enum(values) && raw in values
    ensures Conforms(s, t, JStr(raw))
  {}

  lemma WellFormedFields(s: Schema, name: string)
    requires WellFormed(s) && name in s.types && s.types[name].InputObject?
    ensures FieldsWellFormed(s.types[name].fields, s.types[name].oneOf)
  {}

  ghost predicate WrittenFit(s: Schema, vars: Vars, fields: seq<InputField>, v: Value)
    requires v.ObjV?
  {
    forall j, w :: 0 <= j < |fields| && Written(v.members, fields[j].name) == Some(w) ==> UsesFit(s, vars, fields[j].typ, w)
  }

  lemma {:induction false} UsesFitFields(s: Schema, vars: Vars, t: Type, v: Value)
    requires t.Named? && t.name in s.types && s.types[t.name].InputObject? && v.ObjV? && UsesFit(s, vars, t, v)
    ensures WrittenFit(s, vars, s.types[t.name].fields, v)
  {
    var fields := s.types[t.name].fields;
    forall j, w | 0 <= j < |fields| && Written(v.members, fields[j].name) == Some(w) ensures UsesFit(s, vars, fields[j].typ, w) {
      WrittenIn(v.members, fields[j].name);
    }
  }

  lemma {:induction false} LiteralItemsSound(s: Schema, vars: Vars, elem: Type, v: Value, i: nat, n: nat)
    requires WellFormed(s) && VarsSound(s, vars) && Unique(v) && n <= s.bound && v.ListV? && i <= |v.items|
    requires forall k :: 0 <= k < |v.items| ==> UsesFit(s, vars, elem, v.items[k])
    ensures SoundItems(s, elem, i, LiteralItems(s, vars, elem, v, i, n))
    decreases n, v, 0, |v.items| - i
  {
    hide DefaultAt, Conforms, Literal, WellFormed, VarsSound, UsesFit, JoinItem, Sound;
    if i < |v.items| {
      LiteralSound(s, vars, elem, v.items[i], n);
      LiteralItemsSound(s, vars, elem, v, i + 1, n);
      SoundJoinItem(s, elem, i, Literal(s, vars, elem, v.items[i], n), LiteralItems(s, vars, elem, v, i + 1, n));
    }
  }

  lemma {:induction false} LiteralFieldsSound(s: Schema, vars: Vars, fields: seq<InputField>, v: Value, n: nat)
    requires WellFormed(s) && VarsSound(s, vars) && Unique(v) && n <= s.bound && v.ObjV?
    requires Distinct(fields) && ConstantDefaults(fields) && WrittenFit(s, vars, fields, v)
    ensures SoundFields(s, fields, LiteralFields(s, vars, fields, v, n))
    decreases n, v, 0, |fields|
  {
    hide DefaultAt, Conforms, Literal, WellFormed, VarsSound, UsesFit, JoinField, Filled, Sound, Written, SoundDefault;
    if fields != [] {
      var fd := fields[0];
      var written := Written(v.members, fd.name);
      WrittenIn(v.members, fd.name);
      var supplied := if written.Some? then Literal(s, vars, fd.typ, written.value, n) else Got(None, [], []);
      var default := if fd.default.Some? && fd.rank < n then Literal(s, map[], fd.typ, fd.default.value, fd.rank)
                     else Fail(Endless);
      if written.Some? { LiteralSound(s, vars, fd.typ, written.value, n); } else { NothingSound(s, fd.typ); }
      if fd.default.Some? && fd.rank < n {
        NoVars(s, fd.typ, fd.default.value);
        LiteralSound(s, map[], fd.typ, fd.default.value, fd.rank);
        DefaultSound(s, fd);
      } else {
        FailSound(s, fd);
      }
      LiteralFieldsSound(s, vars, fields[1..], v, n);
      SoundJoinField(s, fields, supplied, default, LiteralFields(s, vars, fields[1..], v, n));
    }
  }

  lemma NothingSound(s: Schema, t: Type)
    ensures Sound(s, t, Got(None, [], []))
  {}

  lemma FailSound(s: Schema, fd: InputField)
    ensures SoundDefault(s, fd, Fail(Endless))
  {}

  /** A default holds no variable, so whatever it coerces to is of its type. */
  lemma {:induction false} DefaultSound(s: Schema, fd: InputField)
    requires fd.default.Some? && !fd.default.value.Var? && fd.rank < s.bound
    requires Sound(s, fd.typ, Literal(s, map[], fd.typ, fd.default.value, fd.rank))
    ensures SoundDefault(s, fd, Literal(s, map[], fd.typ, fd.default.value, fd.rank))
  {
    hide DefaultAt, Conforms, Literal;
    LiteralPresent(s, map[], fd.typ, fd.default.value, fd.rank);
  }

  /** Only a variable can be without a value. */
  lemma {:induction false} LiteralPresent(s: Schema, vars: Vars, t: Type, v: Value, n: nat)
    requires !v.Var?
    ensures var r := Literal(s, vars, t, v, n); r.Got? ==> r.value.Some?
    decreases Height(t)
  {
    hide LiteralItems, LiteralFields;
    if t.ListOf? && !v.Null? && !v.ListV? { LiteralPresent(s, vars, t.elem, v, n); }
  }

  lemma {:induction false} NoVars(s: Schema, t: Type, v: Value)
    ensures VarsSound(s, map[]) && UsesFit(s, map[], t, v)
    decreases v, Height(t)
  {
    hide DefaultAt;
    if t.ListOf? {
      if v.ListV? {
        forall i | 0 <= i < |v.items| ensures UsesFit(s, map[], t.elem, v.items[i]) { NoVars(s, t.elem, v.items[i]); }
      } else {
        NoVars(s, t.elem, v);
      }
    } else if t.name in s.types && s.types[t.name].InputObject? && v.ObjV? {
      var fields := s.types[t.name].fields;
      forall i, j | 0 <= i < |v.members| && 0 <= j < |fields| && v.members[i].name == fields[j].name
        ensures UsesFit(s, map[], fields[j].typ, v.members[i].value)
      {
        NoVars(s, fields[j].typ, v.members[i].value);
      }
    }
  }

  // ---- Custom scalars ----

  /** Inside a custom scalar, a default path leads to a variable's value first. */
  ghost predicate InsideAt(s: Schema, v: Json, path: Path, k: nat, u: Type) {
    k <= |path| && At(v, path[..k]).Some? && DefaultAt(s, u, At(v, path[..k]).value, path[k..])
  }

  ghost predicate Inside(s: Schema, v: Json, path: Path, least: nat) {
    exists k: nat, u :: least <= k && InsideAt(s, v, path, k, u)
  }

  lemma {:induction false} InsideHere(s: Schema, v: Json, d: Path, u: Type)
    requires DefaultAt(s, u, v, d)
    ensures Inside(s, v, d, 0)
  {
    assert d[..0] == [] && d[0..] == d;
    assert InsideAt(s, v, d, 0, u);
  }

  lemma {:induction false} InsideBelow(s: Schema, v: Json, d: Path)
    requires d != [] && At(v, d[..1]).Some? && Inside(s, At(v, d[..1]).value, d[1..], 0)
    ensures Inside(s, v, d, 1)
  {
    hide DefaultAt;
    var w := At(v, d[..1]).value;
    var k: nat, u :| InsideAt(s, w, d[1..], k, u);
    AtApart(v, d[..1], d[1..][..k]);
    assert d[..1] + d[1..][..k] == d[..k + 1];
    assert d[1..][k..] == d[k + 1..];
    assert InsideAt(s, v, d, k + 1, u);
  }

  lemma AtIndex(values: seq<Json>, d: Path)
    requires d != [] && d[0].Index? && d[0].i < |values|
    ensures At(JList(values), d[..1]) == Some(values[d[0].i])
  {
    assert d[..1][1..] == [];
  }

  lemma AtKey(obj: map<string, Json>, d: Path)
    requires d != [] && d[0].Key? && d[0].name in obj
    ensures At(JObj(obj), d[..1]) == Some(obj[d[0].name])
  {
    assert d[..1][1..] == [];
  }

  ghost predicate ItemInside(s: Schema, values: seq<Json>, i: nat, d: Path) {
    d != [] && d[0].Index? && i <= d[0].i < i + |values| && Inside(s, values[d[0].i - i], d[1..], 0)
  }

  ghost predicate FieldInside(s: Schema, obj: map<string, Json>, d: Path) {
    d != [] && d[0].Key? && d[0].name in obj && Inside(s, obj[d[0].name], d[1..], 0)
  }

  ghost predicate ItemsInside(s: Schema, i: nat, items: Items) {
    items.Items? ==> forall d :: d in items.defaults ==> ItemInside(s, items.values, i, d)
  }

  ghost predicate FieldsInside(s: Schema, r: Fields) {
    r.Fields? ==> forall d :: d in r.defaults ==> FieldInside(s, r.obj, d)
  }

  lemma {:induction false} UntypedInside(s: Schema, vars: Vars, v: Value)
    requires VarsSound(s, vars) && Unique(v)
    ensures var r := Untyped(vars, v);
      if r.value.None? then r.defaults == []
      else forall d :: d in r.defaults ==> Inside(s, r.value.value, d, if v.Var? then 0 else 1)
    decreases v, 1, 0
  {
    hide DefaultAt, Inside, UntypedItems, UntypedFields;
    var r := Untyped(vars, v);
    match v {
      case Var(x) =>
        if x in vars {
          forall d | d in r.defaults ensures Inside(s, r.value.value, d, 0) {
            var u :| DefaultAt(s, u, vars[x].value, d);
            InsideHere(s, vars[x].value, d, u);
          }
        }
      case ListV(items) =>
        UntypedItemsInside(s, vars, v, 0);
        assert r == ListResult(UntypedItems(vars, v, 0));
        forall d | d in r.defaults ensures Inside(s, r.value.value, d, 1) {
          AtIndex(r.value.value.items, d);
          InsideBelow(s, r.value.value, d);
        }
      case ObjV(members) =>
        UntypedFieldsInside(s, vars, v, 0);
        assert r.value.value.members == UntypedFields(vars, v, 0).obj && r.defaults == UntypedFields(vars, v, 0).defaults;
        forall d | d in r.defaults ensures Inside(s, r.value.value, d, 1) {
          AtKey(r.value.value.members, d);
          InsideBelow(s, r.value.value, d);
        }
      case _ =>
    }
  }

  lemma InsideLess(s: Schema, v: Json, d: Path)
    requires Inside(s, v, d, 1)
    ensures Inside(s, v, d, 0)
  {
    hide InsideAt;
    var k: nat, u :| 1 <= k && InsideAt(s, v, d, k, u);
  }

  lemma {:induction false} UntypedItemsInside(s: Schema, vars: Vars, v: Value, i: nat)
    requires VarsSound(s, vars) && Unique(v) && v.ListV? && i <= |v.items|
    ensures ItemsInside(s, i, UntypedItems(vars, v, i))
    decreases v, 0, |v.items| - i
  {
    hide Inside, Untyped, VarsSound;
    if i < |v.items| {
      UntypedInside(s, vars, v.items[i]);
      UntypedItemsInside(s, vars, v, i + 1);
      var item, rest, r := Untyped(vars, v.items[i]), UntypedItems(vars, v, i + 1), UntypedItems(vars, v, i);
      assert r == JoinItem(i, item, false, rest);
      forall d: Path | d in r.defaults ensures ItemInside(s, r.values, i, d) {
        var pre := Prefixed([Index(i)], item.defaults);
        if d in pre {
          var k :| 0 <= k < |pre| && pre[k] == d;
          assert d[1..] == item.defaults[k];
          assert item.defaults[k] in item.defaults;
          if !v.items[i].Var? { InsideLess(s, item.value.value, d[1..]); }
        } else {
          assert d in rest.defaults;
          assert r.values[d[0].i - i] == rest.values[d[0].i - i - 1];
        }
      }
    }
  }

  lemma {:induction false} UntypedFieldNames(vars: Vars, v: Value, i: nat)
    requires v.ObjV? && i <= |v.members|
    ensures forall k :: k in UntypedFields(vars, v, i).obj ==> exists j :: i <= j < |v.members| && v.members[j].name == k
    decreases |v.members| - i
  {
    hide Untyped;
    if i < |v.members| { UntypedFieldNames(vars, v, i + 1); }
  }

  lemma {:induction false} UntypedFieldsInside(s: Schema, vars: Vars, v: Value, i: nat)
    requires VarsSound(s, vars) && Unique(v) && v.ObjV? && i <= |v.members|
    ensures FieldsInside(s, UntypedFields(vars, v, i))
    decreases v, 0, |v.members| - i
  {
    hide Inside, Untyped, VarsSound;
    if i < |v.members| {
      var m := v.members[i];
      UntypedInside(s, vars, m.value);
      UntypedFieldsInside(s, vars, v, i + 1);
      UntypedFieldNames(vars, v, i + 1);
      var item, rest, r := Untyped(vars, m.value), UntypedFields(vars, v, i + 1), UntypedFields(vars, v, i);
      assert r == JoinField(m.name, Got(item.value, item.used, Prefixed([Key(m.name)], item.defaults)), rest);
      assert m.name !in rest.obj;
      forall d | d in r.defaults ensures FieldInside(s, r.obj, d) {
        var pre := Prefixed([Key(m.name)], item.defaults);
        if d in pre {
          var k :| 0 <= k < |pre| && pre[k] == d;
          assert d[1..] == item.defaults[k];
          assert item.defaults[k] in item.defaults;
          if !m.value.Var? { InsideLess(s, item.value.value, d[1..]); }
        } else {
          assert d in rest.defaults;
        }
      }
    }
  }

  lemma {:induction false} ScalarLiteralSound(s: Schema, vars: Vars, t: Type, v: Value)
    requires VarsSound(s, vars) && Unique(v) && !v.Var? && !v.Null?
    requires t.Named? && t.name in s.types && s.types[t.name].Scalar?
    ensures Sound(s, t, ScalarLiteral(s, vars, t.name, v))
  {
    hide VarsSound, Untyped, DefaultAt;
    var r := ScalarLiteral(s, vars, t.name, v);
    if Kind(t.name).CustomKind? {
      UntypedInside(s, vars, v);
      UntypedNotNull(vars, v);
      forall d | d in r.defaults ensures DefaultAt(s, t, r.value.value, d) {
        ScalarInside(s, t, r.value.value, d);
      }
    }
  }

  lemma {:induction false} UntypedNotNull(vars: Vars, v: Value)
    requires !v.Var? && !v.Null?
    ensures !OrNull(Untyped(vars, v).value).JNull?
  {}

  lemma {:induction false} ScalarInside(s: Schema, t: Type, v: Json, d: Path)
    requires t.Named? && t.name in s.types && s.types[t.name].Scalar?
    requires Inside(s, v, d, 1)
    ensures DefaultAt(s, t, v, d)
  {
    var k: nat, u :| 1 <= k && InsideAt(s, v, d, k, u);
  }
}
