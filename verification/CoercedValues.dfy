/** Which value coercion makes (ftv-graphql-mapper/coerce.go), as a relation
    between what is written or supplied and its value at a type: item by item
    and field by field, without an order of evaluation. */
module CoercedValues {
  import opened Base
  import opened Decimal
  import opened Coercion
  import opened CoercionLaws
  import opened Arguments
  import opened SuppliedValues
  import opened LiteralForms
  import opened Coercers

  // ---- Literals ----

  /** A variable that has no value. */
  predicate Unbound(vars: Vars, v: Coercion.Value) { v.Var? && v.name !in vars }

  /** The literal is worth j at the type. Input fields nobody wrote take their
      defaults, those of a rank below n. */
  ghost predicate Means(s: Schema, vars: Vars, t: Type, v: Coercion.Value, n: nat, j: Json)
    decreases n, v, Height(t) + 1, 0
  {
    if v.Var? then v.name in vars && vars[v.name].value == j && (j.JNull? ==> !t.nonNull)
    else if v.Null? then j == JNull && !t.nonNull
    else if t.ListOf? then
      j.JList? &&
      if v.ListV? then |j.items| == |v.items| && forall i :: 0 <= i < |v.items| ==> ItemMeans(s, vars, t.elem, v.items[i], n, j.items[i])
      else |j.items| == 1 && Means(s, vars, t.elem, v, n, j.items[0])
    else t.name in s.types && match s.types[t.name]
      case Scalar => ScalarMeans(s, vars, t.name, v, j)
      case Enum(values) => v.EnumV? && v.raw in values && j == JStr(v.raw)
      case InputObject(fields, oneOf) =>
        && v.ObjV? && j.JObj? && FieldsMean(s, vars, fields, v, n, j.members)
        && (oneOf ==> |v.members| == 1 && |j.members| == 1 && forall k :: k in j.members ==> j.members[k] != JNull)
      case NotInput => false
  }

  /** An item without value is null, where that is allowed. */
  ghost predicate ItemMeans(s: Schema, vars: Vars, elem: Type, v: Coercion.Value, n: nat, j: Json)
    decreases n, v, Height(elem) + 2, 0
  {
    if Unbound(vars, v) then j == JNull && !elem.nonNull else Means(s, vars, elem, v, n, j)
  }

  ghost predicate FieldsMean(s: Schema, vars: Vars, fields: seq<InputField>, v: Coercion.Value, n: nat, obj: map<string, Json>)
    requires v.ObjV?
    decreases n, v, 0, 1
  {
    && (forall k :: k in obj ==> HasField(fields, k))
    && (forall i :: 0 <= i < |fields| ==> FieldMeans(s, vars, fields[i], v, n, Entry(obj, fields[i].name)))
  }

  function Entry(obj: map<string, Json>, name: string): Option<Json> { if name in obj then Some(obj[name]) else None }

  /** A field holds what was written for it; else its default; else nothing. */
  ghost predicate FieldMeans(s: Schema, vars: Vars, fd: InputField, v: Coercion.Value, n: nat, x: Option<Json>)
    requires v.ObjV?
    decreases n, v, 0, 0
  {
    var w := Written(v.members, fd.name);
    WrittenIn(v.members, fd.name);
    if w.Some? && !Unbound(vars, w.value) then x.Some? && Means(s, vars, fd.typ, w.value, n, x.value)
    else if fd.default.Some? then fd.rank < n && x.Some? && Means(s, map[], fd.typ, fd.default.value, fd.rank, x.value)
    else x.None? && !fd.typ.nonNull
  }

  ghost predicate ScalarMeans(s: Schema, vars: Vars, name: string, v: Coercion.Value, j: Json) {
    if name == "Int" then v.IntV? && exists i :: ReadsAs(v.raw, i) && -2_147_483_648 <= i <= 2_147_483_647 && j == JNum(IntText(i))
    else if name == "Float" then (v.IntV? || v.FloatV?) && s.finite(v.raw) && j == JNum(v.raw)
    else if name == "String" then (v.StrV? || v.BlockV?) && j == JStr(v.raw)
    else if name == "Boolean" then v.BoolV? && j == JBool(v.raw == "true")
    else if name == "ID" then (v.StrV? || v.IntV?) && j == JStr(v.raw)
    else Shows(vars, v, j)
  }

  /** The literal of a custom scalar as JSON: a variable without value is null
      among items, and left out of an object. */
  ghost predicate Shows(vars: Vars, v: Coercion.Value, j: Json)
    decreases v
  {
    match v
    case Var(name) => name in vars && j == vars[name].value
    case Null => j == JNull
    case IntV(raw) => j == JNum(raw)
    case FloatV(raw) => j == JNum(raw)
    case BoolV(raw) => j == JBool(raw == "true")
    case StrV(raw) => j == JStr(raw)
    case BlockV(raw) => j == JStr(raw)
    case EnumV(raw) => j == JStr(raw)
    case ListV(items) =>
      j.JList? && |j.items| == |items| && forall i :: 0 <= i < |items| ==>
        if Unbound(vars, items[i]) then j.items[i] == JNull else Shows(vars, items[i], j.items[i])
    case ObjV(members) =>
      && j.JObj?
      && (forall k :: k in j.members ==> exists i :: 0 <= i < |members| && members[i].name == k)
      && (forall i :: 0 <= i < |members| ==>
            if Unbound(vars, members[i].value) then members[i].name !in j.members
            else members[i].name in j.members && Shows(vars, members[i].value, j.members[members[i].name]))
  }

  predicate Yields(r: Result, j: Json) { r.Got? && r.value == Some(j) }

  lemma {:induction false} UntypedShows(vars: Vars, v: Coercion.Value)
    requires Unique(v) && !Unbound(vars, v)
    ensures forall j :: Yields(Untyped(vars, v), j) <==> Shows(vars, v, j)
    decreases v, 1, 0
  {
    hide UntypedItems, UntypedFields;
    match v {
      case ListV(items) =>
        forall j ensures Yields(Untyped(vars, v), j) <==> Shows(vars, v, j) {
          if j.JList? {
            assert items[0..] == items;
            UntypedItemsShow(vars, v, 0, j.items);
          }
        }
      case ObjV(members) =>
        forall j ensures Yields(Untyped(vars, v), j) <==> Shows(vars, v, j) {
          if j.JObj? { UntypedFieldsShow(vars, v, 0, j.members); }
        }
      case _ =>
    }
  }

  ghost predicate ItemShows(vars: Vars, v: Coercion.Value, j: Json) {
    if Unbound(vars, v) then j == JNull else Shows(vars, v, j)
  }

  lemma {:induction false} OneItemShows(vars: Vars, v: Coercion.Value)
    requires Unique(v) && (!Unbound(vars, v) ==> forall j :: Yields(Untyped(vars, v), j) <==> Shows(vars, v, j))
    ensures forall j :: OrNull(Untyped(vars, v).value) == j <==> ItemShows(vars, v, j)
  {
    hide Shows;
    UntypedPresent(vars, v);
  }

  lemma {:induction false} UntypedPresent(vars: Vars, v: Coercion.Value)
    ensures Untyped(vars, v).value.Some? <==> !Unbound(vars, v)
  {}

  ghost predicate ItemsShow(vars: Vars, items: seq<Coercion.Value>, values: seq<Json>) {
    |values| == |items| && forall k :: 0 <= k < |items| ==> ItemShows(vars, items[k], values[k])
  }

  lemma {:induction false} ItemsShowApart(vars: Vars, items: seq<Coercion.Value>, values: seq<Json>)
    requires items != [] && values != []
    ensures ItemsShow(vars, items, values) <==> ItemShows(vars, items[0], values[0]) && ItemsShow(vars, items[1..], values[1..])
  {
    hide ItemShows;
    assert forall k :: 0 <= k < |items[1..]| ==> items[1..][k] == items[k + 1];
    assert forall k :: 0 <= k < |values[1..]| ==> values[1..][k] == values[k + 1];
    if ItemShows(vars, items[0], values[0]) && ItemsShow(vars, items[1..], values[1..]) {
      forall k | 0 <= k < |items| ensures ItemShows(vars, items[k], values[k]) {
        if k > 0 { assert ItemShows(vars, items[1..][k - 1], values[1..][k - 1]); }
      }
    }
  }

  lemma {:induction false} UntypedItemsShow(vars: Vars, v: Coercion.Value, i: nat, values: seq<Json>)
    requires v.ListV? && i <= |v.items| && Unique(v)
    ensures UntypedItems(vars, v, i).values == values <==> ItemsShow(vars, v.items[i..], values)
    decreases v, 0, |v.items| - i
  {
    hide Untyped, Shows, ItemShows;
    if i < |v.items| {
      var item := v.items[i];
      if !Unbound(vars, item) { UntypedShows(vars, item); }
      OneItemShows(vars, item);
      assert v.items[i..][0] == item && v.items[i..][1..] == v.items[i + 1..];
      if values != [] {
        UntypedItemsShow(vars, v, i + 1, values[1..]);
        ItemsShowApart(vars, v.items[i..], values);
        assert values == [values[0]] + values[1..];
        var whole := UntypedItems(vars, v, i).values;
        assert whole[0] == OrNull(Untyped(vars, item).value) && whole[1..] == UntypedItems(vars, v, i + 1).values;
      }
    }
  }

  /** The members from i on, and nothing else. */
  ghost predicate MembersShow(vars: Vars, v: Coercion.Value, i: nat, obj: map<string, Json>)
    requires v.ObjV?
  {
    && (forall k :: k in obj ==> exists m :: i <= m < |v.members| && v.members[m].name == k)
    && (forall m :: i <= m < |v.members| ==> MemberShows(vars, v.members[m].value, Entry(obj, v.members[m].name)))
  }

  ghost predicate MemberShows(vars: Vars, v: Coercion.Value, x: Option<Json>) {
    if Unbound(vars, v) then x.None? else x.Some? && Shows(vars, v, x.value)
  }

  lemma {:induction false} UntypedFieldsShow(vars: Vars, v: Coercion.Value, i: nat, obj: map<string, Json>)
    requires v.ObjV? && i <= |v.members| && Unique(v)
    ensures UntypedFields(vars, v, i).obj == obj <==> MembersShow(vars, v, i, obj)
    decreases v, 0, |v.members| - i
  {
    hide Untyped, Shows, MembersShow;
    if i == |v.members| {
      NoMembersShow(vars, v, obj);
    } else {
      var m := v.members[i];
      if !Unbound(vars, m.value) { UntypedShows(vars, m.value); }
      UntypedPresent(vars, m.value);
      var rest := UntypedFields(vars, v, i + 1).obj;
      UntypedFieldsShow(vars, v, i + 1, obj - {m.name});
      UntypedFieldNames(vars, v, i + 1);
      assert m.name !in rest;
      MembersShowApart(vars, v, i, obj);
      var first := Untyped(vars, m.value).value;
      assert MemberShows(vars, m.value, Entry(obj, m.name)) <==> Entry(obj, m.name) == first;
      MapApart(UntypedFields(vars, v, i).obj, obj, m.name, first, rest);
    }
  }

  lemma NoMembersShow(vars: Vars, v: Coercion.Value, obj: map<string, Json>)
    requires v.ObjV?
    ensures MembersShow(vars, v, |v.members|, obj) <==> obj == map[]
  {
    if obj != map[] { var k :| k in obj; }
  }

  /** One entry, and the rest of the map. */
  lemma MapApart(whole: map<string, Json>, obj: map<string, Json>, name: string, first: Option<Json>, rest: map<string, Json>)
    requires name !in rest && whole == (if first.Some? then map[name := first.value] else map[]) + rest
    ensures whole == obj <==> Entry(obj, name) == first && obj - {name} == rest
  {
    if Entry(obj, name) == first && obj - {name} == rest {
      forall k ensures k in whole <==> k in obj {
        if k != name { assert k in obj <==> k in obj - {name}; }
      }
      forall k | k in whole ensures whole[k] == obj[k] {
        if k != name { assert (obj - {name})[k] == obj[k]; }
      }
    }
  }

  lemma {:induction false} MembersShowApart(vars: Vars, v: Coercion.Value, i: nat, obj: map<string, Json>)
    requires v.ObjV? && i < |v.members| && Unique(v)
    ensures MembersShow(vars, v, i, obj) <==>
      && MemberShows(vars, v.members[i].value, Entry(obj, v.members[i].name))
      && MembersShow(vars, v, i + 1, obj - {v.members[i].name})
  {
    hide MemberShows;
    var name := v.members[i].name;
    forall m | i + 1 <= m < |v.members| ensures Entry(obj - {name}, v.members[m].name) == Entry(obj, v.members[m].name) {}
    if MembersShow(vars, v, i, obj) {
      forall k | k in obj - {name} ensures exists m :: i + 1 <= m < |v.members| && v.members[m].name == k {
        var m :| i <= m < |v.members| && v.members[m].name == k;
      }
    }
    if MemberShows(vars, v.members[i].value, Entry(obj, name)) && MembersShow(vars, v, i + 1, obj - {name}) {
      forall k | k in obj ensures exists m :: i <= m < |v.members| && v.members[m].name == k {
        if k != name { assert k in obj - {name}; }
      }
    }
  }

  lemma {:induction false} ScalarLiteralMeans(s: Schema, vars: Vars, name: string, v: Coercion.Value)
    requires Unique(v) && !v.Var? && !v.Null?
    ensures forall j :: Yields(ScalarLiteral(s, vars, name, v), j) <==> ScalarMeans(s, vars, name, v, j)
  {
    hide ReadsAs, Untyped, Shows, IntText, ParseInt;
    match Kind(name) {
      case IntKind =>
        if v.IntV? {
          forall i ensures ParseInt(v.raw) == Some(i) <==> ReadsAs(v.raw, i) && MIN_INT64 <= i <= MAX_INT64 { ParseIntExact(v.raw, i); }
        }
      case CustomKind =>
        UntypedShows(vars, v);
        UntypedPresent(vars, v);
      case _ =>
    }
  }

  /** A literal is worth what the relation says, and fails exactly when it is
      worth nothing. */
  lemma {:induction false} LiteralMeans(s: Schema, vars: Vars, t: Type, v: Coercion.Value, n: nat)
    requires WellFormed(s) && Unique(v) && !Unbound(vars, v)
    ensures forall j :: Yields(Literal(s, vars, t, v, n), j) <==> Means(s, vars, t, v, n, j)
    decreases n, v, Height(t) + 1, 1
  {
    hide LiteralItems, LiteralFields, ScalarLiteral, ScalarMeans, ItemMeans, FieldsMean, WellFormed, HasField;
    if v.Var? || v.Null? {
    } else if t.ListOf? {
      if v.ListV? {
        assert v.items[0..] == v.items;
        forall j ensures Yields(Literal(s, vars, t, v, n), j) <==> Means(s, vars, t, v, n, j) {
          if j.JList? { LiteralItemsMean(s, vars, t.elem, v, 0, n, j.items); }
        }
      } else {
        LiteralMeans(s, vars, t.elem, v, n);
        LiteralPresent(s, vars, t.elem, v, n);
        var item := Literal(s, vars, t.elem, v, n);
        hide Literal;
        forall j ensures Yields(SingleItem(item), j) <==> j.JList? && |j.items| == 1 && Means(s, vars, t.elem, v, n, j.items[0]) {
          if j.JList? && |j.items| == 1 { assert j.items == [j.items[0]]; }
        }
        SingleIs(s, vars, t, v, n);
      }
    } else if t.name in s.types {
      match s.types[t.name] {
        case Scalar => ScalarLiteralMeans(s, vars, t.name, v);
        case InputObject(fields, oneOf) =>
          WellFormedFields(s, t.name);
          if v.ObjV? {
            forall j ensures Yields(Literal(s, vars, t, v, n), j) <==> Means(s, vars, t, v, n, j) {
              if j.JObj? { ObjectMeans(s, vars, t, v, n, j.members); }
            }
          }
        case _ =>
      }
    }
  }

  lemma {:induction false} SingleIs(s: Schema, vars: Vars, t: Type, v: Coercion.Value, n: nat)
    requires t.ListOf? && !v.Var? && !v.Null? && !v.ListV?
    ensures Literal(s, vars, t, v, n) == SingleItem(Literal(s, vars, t.elem, v, n))
  {}

  /** Of a OneOf Input Object only one member is written, and it is not null. */
  lemma {:induction false} ObjectMeans(s: Schema, vars: Vars, t: Type, v: Coercion.Value, n: nat, obj: map<string, Json>)
    requires WellFormed(s) && Unique(v) && v.ObjV?
    requires t.Named? && t.name in s.types && s.types[t.name].InputObject?
    ensures Yields(Literal(s, vars, t, v, n), JObj(obj)) <==> Means(s, vars, t, v, n, JObj(obj))
    decreases n, v, Height(t) + 1, 0
  {
    hide LiteralFields, FieldMeans, WellFormed, HasField;
    var fields, oneOf := s.types[t.name].fields, s.types[t.name].oneOf;
    WellFormedFields(s, t.name);
    LiteralFieldsMean(s, vars, fields, v, n, obj);
    if oneOf && |v.members| == 1 && v.members[0].value.Null? && FieldsMean(s, vars, fields, v, n, obj) && OneEntryNotNull(obj) {
      NotNullWritten(s, vars, fields, v, n, obj);
    }
  }

  lemma {:induction false} NotNullWritten(s: Schema, vars: Vars, fields: seq<InputField>, v: Coercion.Value, n: nat, obj: map<string, Json>)
    requires v.ObjV? && |v.members| == 1 && v.members[0].value.Null?
    requires FieldsWellFormed(fields, true) && FieldsMean(s, vars, fields, v, n, obj)
    ensures !OneEntryNotNull(obj)
  {
    hide Means;
    if OneEntryNotNull(obj) {
      var k :| k in obj;
      var i :| 0 <= i < |fields| && fields[i].name == k;
      assert FieldMeans(s, vars, fields[i], v, n, Entry(obj, k));
      OnlyNull(s, vars, fields[i], v, n, obj[k]);
    }
  }

  lemma {:induction false} OnlyNull(s: Schema, vars: Vars, fd: InputField, v: Coercion.Value, n: nat, j: Json)
    requires v.ObjV? && |v.members| == 1 && v.members[0].value.Null? && fd.default.None?
    requires FieldMeans(s, vars, fd, v, n, Some(j))
    ensures j.JNull?
  {
    WrittenIn(v.members, fd.name);
  }

  ghost predicate ItemsMean(s: Schema, vars: Vars, elem: Type, items: seq<Coercion.Value>, n: nat, values: seq<Json>) {
    |values| == |items| && forall k :: 0 <= k < |items| ==> ItemMeans(s, vars, elem, items[k], n, values[k])
  }

  lemma {:induction false} ItemsMeanApart(s: Schema, vars: Vars, elem: Type, items: seq<Coercion.Value>, n: nat, values: seq<Json>)
    requires items != [] && values != []
    ensures ItemsMean(s, vars, elem, items, n, values)
      <==> ItemMeans(s, vars, elem, items[0], n, values[0]) && ItemsMean(s, vars, elem, items[1..], n, values[1..])
  {
    hide ItemMeans;
    assert forall k :: 0 <= k < |items[1..]| ==> items[1..][k] == items[k + 1];
    assert forall k :: 0 <= k < |values[1..]| ==> values[1..][k] == values[k + 1];
    if ItemMeans(s, vars, elem, items[0], n, values[0]) && ItemsMean(s, vars, elem, items[1..], n, values[1..]) {
      forall k | 0 <= k < |items| ensures ItemMeans(s, vars, elem, items[k], n, values[k]) {
        if k > 0 { assert ItemMeans(s, vars, elem, items[1..][k - 1], n, values[1..][k - 1]); }
      }
    }
  }

  predicate IsItem(item: Result, nonNull: bool, j: Json) {
    item.Got? && !(item.value.None? && nonNull) && OrNull(item.value) == j
  }

  lemma {:induction false} OneItemMeans(s: Schema, vars: Vars, elem: Type, v: Coercion.Value, n: nat)
    requires !Unbound(vars, v) ==> forall j :: Yields(Literal(s, vars, elem, v, n), j) <==> Means(s, vars, elem, v, n, j)
    ensures forall j :: IsItem(Literal(s, vars, elem, v, n), elem.nonNull, j) <==> ItemMeans(s, vars, elem, v, n, j)
  {
    hide Means;
    if Unbound(vars, v) {
      assert Literal(s, vars, elem, v, n) == Got(None, [v.name], []);
    } else {
      BoundPresent(s, vars, elem, v, n);
    }
  }

  lemma {:induction false} BoundPresent(s: Schema, vars: Vars, t: Type, v: Coercion.Value, n: nat)
    requires !Unbound(vars, v)
    ensures Literal(s, vars, t, v, n).Got? ==> Literal(s, vars, t, v, n).value.Some?
  {
    if !v.Var? { LiteralPresent(s, vars, t, v, n); }
  }

  lemma {:induction false} LiteralItemsMean(s: Schema, vars: Vars, elem: Type, v: Coercion.Value, i: nat, n: nat, values: seq<Json>)
    requires WellFormed(s) && Unique(v) && v.ListV? && i <= |v.items|
    ensures var r := LiteralItems(s, vars, elem, v, i, n);
      r.Items? && r.values == values <==> ItemsMean(s, vars, elem, v.items[i..], n, values)
    decreases n, v, 0, |v.items| - i
  {
    hide Literal, Means, ItemMeans, WellFormed;
    if i < |v.items| {
      var item := v.items[i];
      if !Unbound(vars, item) { LiteralMeans(s, vars, elem, item, n); }
      OneItemMeans(s, vars, elem, item, n);
      assert v.items[i..][0] == item && v.items[i..][1..] == v.items[i + 1..];
      if values != [] {
        LiteralItemsMean(s, vars, elem, v, i + 1, n, values[1..]);
        ItemsMeanApart(s, vars, elem, v.items[i..], n, values);
        hide ItemsMean;
        JoinedItem(i, Literal(s, vars, elem, item, n), elem.nonNull, LiteralItems(s, vars, elem, v, i + 1, n), values);
      }
    }
  }

  lemma JoinedItem(i: nat, item: Result, nonNull: bool, rest: Items, values: seq<Json>)
    requires values != []
    ensures var r := JoinItem(i, item, nonNull, rest);
      r.Items? && r.values == values <==> IsItem(item, nonNull, values[0]) && rest.Items? && rest.values == values[1..]
  {
    assert values == [values[0]] + values[1..];
    if rest.Items? { assert ([OrNull(if item.Got? then item.value else None)] + rest.values)[1..] == rest.values; }
  }

  lemma {:induction false} LiteralFieldsMean(s: Schema, vars: Vars, fields: seq<InputField>, v: Coercion.Value, n: nat, obj: map<string, Json>)
    requires WellFormed(s) && Unique(v) && v.ObjV? && Distinct(fields) && ConstantDefaults(fields)
    ensures var r := LiteralFields(s, vars, fields, v, n);
      r.Fields? && r.obj == obj <==> FieldsMean(s, vars, fields, v, n, obj)
    decreases n, v, 0, |fields|
  {
    hide Means, FieldMeans, WellFormed, HasField, LiteralFields, FilledFrom, FieldsMean;
    FieldsUnfold(s, vars, fields, v, n);
    if fields == [] {
      NoFieldsMean(s, vars, v, n, obj);
    } else {
      var fd := fields[0];
      var rest := LiteralFields(s, vars, fields[1..], v, n);
      OneFieldMeans(s, vars, fd, v, n);
      FirstIsApart(fields);
      assert forall j :: 0 <= j < |fields[1..]| ==> fields[1..][j] == fields[j + 1];
      LiteralFieldsMean(s, vars, fields[1..], v, n, obj - {fd.name});
      FieldsMeanApart(s, vars, fields, v, n, obj);
      if rest.Fields? {
        FieldsNamed(s, vars, fields[1..], v, n);
        JoinedField(fd.name, FilledFrom(s, vars, fd, v, n), rest, obj);
      }
    }
  }

  lemma {:induction false} FieldsUnfold(s: Schema, vars: Vars, fields: seq<InputField>, v: Coercion.Value, n: nat)
    requires v.ObjV?
    ensures LiteralFields(s, vars, fields, v, n) ==
      if fields == [] then Fields(map[], [], [])
      else JoinField(fields[0].name, FilledFrom(s, vars, fields[0], v, n), LiteralFields(s, vars, fields[1..], v, n))
  {
    hide Literal;
  }

  lemma JoinedField(name: string, field: Result, rest: Fields, obj: map<string, Json>)
    requires rest.Fields? && name !in rest.obj
    ensures var r := JoinField(name, field, rest);
      r.Fields? && r.obj == obj <==> field.Got? && Entry(obj, name) == field.value && rest.obj == obj - {name}
  {
    if field.Got? { MapApart(JoinField(name, field, rest).obj, obj, name, field.value, rest.obj); }
  }

  /** What LiteralFields makes of one field. */
  function FilledFrom(s: Schema, vars: Vars, fd: InputField, v: Coercion.Value, n: nat): Result
    requires v.ObjV?
  {
    var written := Written(v.members, fd.name);
    var supplied := if written.Some? then Literal(s, vars, fd.typ, written.value, n) else Got(None, [], []);
    Filled(fd, supplied,
           if fd.default.Some? && fd.rank < n then Literal(s, map[], fd.typ, fd.default.value, fd.rank) else Fail(Endless))
  }

  lemma {:induction false} OneFieldMeans(s: Schema, vars: Vars, fd: InputField, v: Coercion.Value, n: nat)
    requires WellFormed(s) && Unique(v) && v.ObjV?
    requires fd.default.Some? ==> !fd.default.value.Var? && Unique(fd.default.value)
    ensures forall x :: FilledFrom(s, vars, fd, v, n).Got? && FilledFrom(s, vars, fd, v, n).value == x <==> FieldMeans(s, vars, fd, v, n, x)
    decreases n, v, 0, 0
  {
    hide Literal, Means, WellFormed;
    var written := Written(v.members, fd.name);
    WrittenIn(v.members, fd.name);
    if written.Some? {
      var i :| 0 <= i < |v.members| && v.members[i].name == fd.name && v.members[i].value == written.value;
      if Unbound(vars, written.value) {
        UnboundNothing(s, vars, fd.typ, written.value, n);
      } else {
        LiteralMeans(s, vars, fd.typ, written.value, n);
        BoundPresent(s, vars, fd.typ, written.value, n);
      }
    }
    if fd.default.Some? && fd.rank < n {
      LiteralMeans(s, map[], fd.typ, fd.default.value, fd.rank);
      LiteralPresent(s, map[], fd.typ, fd.default.value, fd.rank);
    }
  }

  lemma {:induction false} UnboundNothing(s: Schema, vars: Vars, t: Type, v: Coercion.Value, n: nat)
    requires Unbound(vars, v)
    ensures Literal(s, vars, t, v, n) == Got(None, [v.name], [])
  {}

  lemma {:induction false} NoFieldsMean(s: Schema, vars: Vars, v: Coercion.Value, n: nat, obj: map<string, Json>)
    requires v.ObjV?
    ensures FieldsMean(s, vars, [], v, n, obj) <==> obj == map[]
  {
    if obj != map[] { var k :| k in obj; }
  }

  lemma {:induction false} FieldsMeanApart(s: Schema, vars: Vars, fields: seq<InputField>, v: Coercion.Value, n: nat, obj: map<string, Json>)
    requires v.ObjV? && fields != [] && Distinct(fields)
    ensures FieldsMean(s, vars, fields, v, n, obj) <==>
      && FieldMeans(s, vars, fields[0], v, n, Entry(obj, fields[0].name))
      && FieldsMean(s, vars, fields[1..], v, n, obj - {fields[0].name})
  {
    hide FieldMeans, HasField;
    var name, rest := fields[0].name, fields[1..];
    forall i | 0 <= i < |rest|
      ensures rest[i] == fields[i + 1] && Entry(obj - {name}, rest[i].name) == Entry(obj, rest[i].name)
    {}
    forall k ensures HasField(fields, k) <==> k == name || HasField(rest, k) { HasFieldApart(fields, k); }
    FirstIsApart(fields);
    if FieldMeans(s, vars, fields[0], v, n, Entry(obj, name)) && FieldsMean(s, vars, rest, v, n, obj - {name}) {
      forall i | 0 <= i < |fields| ensures FieldMeans(s, vars, fields[i], v, n, Entry(obj, fields[i].name)) {
        if i > 0 { assert FieldMeans(s, vars, rest[i - 1], v, n, Entry(obj - {name}, rest[i - 1].name)); }
      }
    }
  }

  lemma {:induction false} FieldsNamed(s: Schema, vars: Vars, fields: seq<InputField>, v: Coercion.Value, n: nat)
    requires v.ObjV? && LiteralFields(s, vars, fields, v, n).Fields?
    ensures forall k :: k in LiteralFields(s, vars, fields, v, n).obj ==> HasField(fields, k)
    decreases |fields|
  {
    hide Literal, HasField;
    if fields != [] {
      FieldsNamed(s, vars, fields[1..], v, n);
      forall k ensures HasField(fields, k) <==> k == fields[0].name || HasField(fields[1..], k) { HasFieldApart(fields, k); }
    }
  }

  // ---- Supplied values ----

  /** The supplied value is worth j at the type. */
  ghost predicate Suits(s: Schema, t: Type, v: Json, j: Json)
    decreases v, Height(t) + 1, 0
  {
    if v.JNull? then j == JNull && !t.nonNull
    else if t.ListOf? then
      j.JList? &&
      if v.JList? then |j.items| == |v.items| && forall i :: 0 <= i < |v.items| ==> Suits(s, t.elem, v.items[i], j.items[i])
      else |j.items| == 1 && Suits(s, t.elem, v, j.items[0])
    else t.name in s.types && match s.types[t.name]
      case Scalar => ScalarSuits(s, t.name, v, j)
      case Enum(values) => v.JStr? && v.s in values && j == v
      case InputObject(fields, oneOf) =>
        && v.JObj? && j.JObj? && (forall k :: k in v.members ==> HasField(fields, k))
        && (oneOf ==> |v.members| == 1 && forall k :: k in v.members ==> v.members[k] != JNull)
        && FieldsSuit(s, fields, v, j.members)
      case NotInput => false
  }

  ghost predicate FieldsSuit(s: Schema, fields: seq<InputField>, v: Json, obj: map<string, Json>)
    requires v.JObj?
    decreases v, 0, 1
  {
    && (forall k :: k in obj ==> HasField(fields, k))
    && (forall i :: 0 <= i < |fields| ==> FieldSuits(s, fields[i], v, Entry(obj, fields[i].name)))
  }

  /** A field holds what was supplied for it; else its default; else nothing. */
  ghost predicate FieldSuits(s: Schema, fd: InputField, v: Json, x: Option<Json>)
    requires v.JObj?
    decreases v, 0, 0
  {
    if fd.name in v.members then x.Some? && Suits(s, fd.typ, v.members[fd.name], x.value)
    else if fd.default.Some? then fd.rank < s.bound && x.Some? && Means(s, map[], fd.typ, fd.default.value, fd.rank, x.value)
    else x.None? && !fd.typ.nonNull
  }

  /** A number is an Int, or an ID, as the integer it is; other scalars take
      their own kind of value unchanged. */
  ghost predicate ScalarSuits(s: Schema, name: string, v: Json, j: Json) {
    if name == "Int" then v.JNum? && exists i :: Integral(v.text, -2_147_483_648, 2_147_483_647) == Some(i) && j == JNum(IntText(i))
    else if name == "Float" then v.JNum? && s.finite(v.text) && j == v
    else if name == "String" then v.JStr? && j == v
    else if name == "Boolean" then v.JBool? && j == v
    else if name == "ID" then
      || (v.JStr? && j == v)
      || (v.JNum? && exists i :: Integral(v.text, -0x8000_0000_0000_0000, 0x7fff_ffff_ffff_ffff) == Some(i) && j == JStr(IntText(i)))
    else j == v
  }

  lemma ScalarInputSuits(s: Schema, name: string, v: Json)
    ensures forall j :: ScalarInput(s, name, v) == Some(j) <==> ScalarSuits(s, name, v, j)
  {
    hide Integral, IntText;
  }

  /** A supplied value is worth what the relation says, and is refused exactly
      when it is worth nothing. */
  lemma {:induction false} InputSuits(s: Schema, t: Type, v: Json)
    requires WellFormed(s)
    ensures forall j :: Yields(Input(s, t, v), j) <==> Suits(s, t, v, j)
    decreases v, Height(t) + 1, 1
  {
    hide InputItems, InputFields, ScalarInput, ScalarSuits, FieldsSuit, WellFormed, HasField;
    if v.JNull? {
    } else if t.ListOf? {
      if v.JList? {
        assert v.items[0..] == v.items;
        forall j ensures Yields(Input(s, t, v), j) <==> Suits(s, t, v, j) {
          if j.JList? { InputItemsSuit(s, t.elem, v, 0, j.items); }
        }
      } else {
        InputSuits(s, t.elem, v);
        InputPresent(s, t.elem, v);
        SingleInput(s, t, v);
        var item := Input(s, t.elem, v);
        hide Input;
        forall j ensures Yields(SingleItem(item), j) <==> j.JList? && |j.items| == 1 && Suits(s, t.elem, v, j.items[0]) {
          if j.JList? && |j.items| == 1 { assert j.items == [j.items[0]]; }
        }
      }
    } else if t.name in s.types {
      match s.types[t.name] {
        case Scalar => ScalarInputSuits(s, t.name, v);
        case InputObject(fields, oneOf) =>
          WellFormedFields(s, t.name);
          if v.JObj? {
            forall j ensures Yields(Input(s, t, v), j) <==> Suits(s, t, v, j) {
              if j.JObj? { InputFieldsSuit(s, fields, v, j.members); }
            }
          }
        case _ =>
      }
    }
  }

  lemma {:induction false} SingleInput(s: Schema, t: Type, v: Json)
    requires t.ListOf? && !v.JNull? && !v.JList?
    ensures Input(s, t, v) == SingleItem(Input(s, t.elem, v))
  {}

  ghost predicate ItemsSuit(s: Schema, elem: Type, items: seq<Json>, values: seq<Json>) {
    |values| == |items| && forall k :: 0 <= k < |items| ==> Suits(s, elem, items[k], values[k])
  }

  lemma {:induction false} ItemsSuitApart(s: Schema, elem: Type, items: seq<Json>, values: seq<Json>)
    requires items != [] && values != []
    ensures ItemsSuit(s, elem, items, values) <==> Suits(s, elem, items[0], values[0]) && ItemsSuit(s, elem, items[1..], values[1..])
  {
    hide Suits;
    assert forall k :: 0 <= k < |items[1..]| ==> items[1..][k] == items[k + 1];
    assert forall k :: 0 <= k < |values[1..]| ==> values[1..][k] == values[k + 1];
    if Suits(s, elem, items[0], values[0]) && ItemsSuit(s, elem, items[1..], values[1..]) {
      forall k | 0 <= k < |items| ensures Suits(s, elem, items[k], values[k]) {
        if k > 0 { assert Suits(s, elem, items[1..][k - 1], values[1..][k - 1]); }
      }
    }
  }

  lemma {:induction false} InputItemsSuit(s: Schema, elem: Type, v: Json, i: nat, values: seq<Json>)
    requires WellFormed(s) && v.JList? && i <= |v.items|
    ensures var r := InputItems(s, elem, v, i);
      r.Items? && r.values == values <==> ItemsSuit(s, elem, v.items[i..], values)
    decreases v, 0, |v.items| - i
  {
    hide Input, Suits, WellFormed;
    if i < |v.items| {
      InputSuits(s, elem, v.items[i]);
      InputPresent(s, elem, v.items[i]);
      assert v.items[i..][0] == v.items[i] && v.items[i..][1..] == v.items[i + 1..];
      if values != [] {
        InputItemsSuit(s, elem, v, i + 1, values[1..]);
        ItemsSuitApart(s, elem, v.items[i..], values);
        hide ItemsSuit;
        JoinedItem(i, Input(s, elem, v.items[i]), elem.nonNull, InputItems(s, elem, v, i + 1), values);
      }
    }
  }

  lemma {:induction false} InputFieldsSuit(s: Schema, fields: seq<InputField>, v: Json, obj: map<string, Json>)
    requires WellFormed(s) && v.JObj? && Distinct(fields) && ConstantDefaults(fields)
    ensures var r := InputFields(s, fields, v);
      r.Fields? && r.obj == obj <==> FieldsSuit(s, fields, v, obj)
    decreases v, 0, |fields|
  {
    hide Suits, FieldSuits, WellFormed, HasField, InputFields, FieldsSuit, FilledInput;
    InputFieldsUnfold(s, fields, v);
    if fields == [] {
      NoFieldsSuit(s, v, obj);
    } else {
      var fd := fields[0];
      var rest := InputFields(s, fields[1..], v);
      OneFieldSuits(s, fd, v);
      FirstIsApart(fields);
      assert forall j :: 0 <= j < |fields[1..]| ==> fields[1..][j] == fields[j + 1];
      InputFieldsSuit(s, fields[1..], v, obj - {fd.name});
      FieldsSuitApart(s, fields, v, obj);
      if rest.Fields? {
        InputFieldsNamed(s, fields[1..], v);
        JoinedField(fd.name, FilledInput(s, fd, v), rest, obj);
      }
    }
  }

  /** What InputFields makes of one field. */
  function FilledInput(s: Schema, fd: InputField, v: Json): Result
    requires v.JObj?
  {
    Filled(fd, if fd.name in v.members then Input(s, fd.typ, v.members[fd.name]) else Got(None, [], []), Default(s, fd))
  }

  lemma {:induction false} InputFieldsUnfold(s: Schema, fields: seq<InputField>, v: Json)
    requires v.JObj?
    ensures InputFields(s, fields, v) ==
      if fields == [] then Fields(map[], [], [])
      else JoinField(fields[0].name, FilledInput(s, fields[0], v), InputFields(s, fields[1..], v))
  {
    hide Input, Default;
  }

  lemma {:induction false} NoFieldsSuit(s: Schema, v: Json, obj: map<string, Json>)
    requires v.JObj?
    ensures FieldsSuit(s, [], v, obj) <==> obj == map[]
  {
    if obj != map[] { var k :| k in obj; }
  }

  lemma {:induction false} OneFieldSuits(s: Schema, fd: InputField, v: Json)
    requires WellFormed(s) && v.JObj?
    requires fd.default.Some? ==> !fd.default.value.Var? && Unique(fd.default.value)
    ensures forall x :: FilledInput(s, fd, v).Got? && FilledInput(s, fd, v).value == x <==> FieldSuits(s, fd, v, x)
    decreases v, 0, 0
  {
    hide Literal, Input, Means, Suits, WellFormed;
    if fd.name in v.members {
      InputSuits(s, fd.typ, v.members[fd.name]);
      InputPresent(s, fd.typ, v.members[fd.name]);
    }
    if fd.default.Some? && fd.rank < s.bound {
      LiteralMeans(s, map[], fd.typ, fd.default.value, fd.rank);
      LiteralPresent(s, map[], fd.typ, fd.default.value, fd.rank);
    }
  }

  lemma {:induction false} FieldsSuitApart(s: Schema, fields: seq<InputField>, v: Json, obj: map<string, Json>)
    requires v.JObj? && fields != [] && Distinct(fields)
    ensures FieldsSuit(s, fields, v, obj) <==>
      && FieldSuits(s, fields[0], v, Entry(obj, fields[0].name))
      && FieldsSuit(s, fields[1..], v, obj - {fields[0].name})
  {
    hide FieldSuits, HasField;
    var name, rest := fields[0].name, fields[1..];
    forall i | 0 <= i < |rest|
      ensures rest[i] == fields[i + 1] && Entry(obj - {name}, rest[i].name) == Entry(obj, rest[i].name)
    {}
    forall k ensures HasField(fields, k) <==> k == name || HasField(rest, k) { HasFieldApart(fields, k); }
    FirstIsApart(fields);
    if FieldSuits(s, fields[0], v, Entry(obj, name)) && FieldsSuit(s, rest, v, obj - {name}) {
      forall i | 0 <= i < |fields| ensures FieldSuits(s, fields[i], v, Entry(obj, fields[i].name)) {
        if i > 0 { assert FieldSuits(s, rest[i - 1], v, Entry(obj - {name}, rest[i - 1].name)); }
      }
    }
  }

  lemma {:induction false} InputFieldsNamed(s: Schema, fields: seq<InputField>, v: Json)
    requires v.JObj? && InputFields(s, fields, v).Fields?
    ensures forall k :: k in InputFields(s, fields, v).obj ==> HasField(fields, k)
    decreases |fields|
  {
    hide Input, HasField, Default;
    if fields != [] {
      InputFieldsNamed(s, fields[1..], v);
      forall k ensures HasField(fields, k) <==> k == fields[0].name || HasField(fields[1..], k) { HasFieldApart(fields, k); }
    }
  }

  // ---- Whose fault a failure is ----

  /** A variable that is null, or has no value. */
  predicate Wanting(vars: Vars, x: string) { x !in vars || vars[x].value.JNull? }

  ghost predicate UsesWanting(vars: Vars, v: Coercion.Value) { exists x :: Wanting(vars, x) && Occurs(x, v) }

  /** What validation grants of the schema's defaults: no variables, and input
      objects name fields of their type only. */
  ghost predicate PlainDefaults(s: Schema) {
    forall t, i :: t in s.types && s.types[t].InputObject? && 0 <= i < |s.types[t].fields| ==> PlainDefault(s, s.types[t].fields[i])
  }

  ghost predicate PlainDefault(s: Schema, fd: InputField) {
    fd.default.Some? ==> VariableFree(fd.default.value) && Unique(fd.default.value) && KnownFields(s, fd.typ, fd.default.value)
  }

  lemma {:induction false} FreeOccursNot(v: Coercion.Value, x: string)
    requires VariableFree(v)
    ensures !Occurs(x, v)
  {
    match v {
      case ListV(items) => forall i | 0 <= i < |items| ensures !Occurs(x, items[i]) { FreeOccursNot(items[i], x); }
      case ObjV(members) => forall i | 0 <= i < |members| ensures !Occurs(x, members[i].value) { FreeOccursNot(members[i].value, x); }
      case _ =>
    }
  }

  lemma {:induction false} NotNull(s: Schema, vars: Vars, t: Type, v: Coercion.Value, n: nat, j: Json)
    requires Means(s, vars, t, v, n, j) && !v.Var? && !v.Null?
    ensures !j.JNull?
  {}

  lemma UsesInItem(vars: Vars, v: Coercion.Value, i: nat)
    requires v.ListV? && i < |v.items| && UsesWanting(vars, v.items[i])
    ensures UsesWanting(vars, v)
  {
    var x :| Wanting(vars, x) && Occurs(x, v.items[i]);
    assert Occurs(x, v);
  }

  lemma UsesInMember(vars: Vars, v: Coercion.Value, i: nat)
    requires v.ObjV? && i < |v.members| && UsesWanting(vars, v.members[i].value)
    ensures UsesWanting(vars, v)
  {
    var x :| Wanting(vars, x) && Occurs(x, v.members[i].value);
    assert Occurs(x, v);
  }

  /** A literal fails for a variable's value only where it uses a variable that
      is null or has no value; any other failure is the document's. */
  lemma {:induction false} VariableFault(s: Schema, vars: Vars, t: Type, v: Coercion.Value, n: nat)
    requires WellFormed(s) && PlainDefaults(s) && Unique(v) && KnownFields(s, t, v)
    requires Literal(s, vars, t, v, n) == Fail(VariableError)
    ensures UsesWanting(vars, v)
    decreases n, v, Height(t) + 1, 0
  {
    hide LiteralItems, LiteralFields, WellFormed, PlainDefaults, HasField, UsesWanting;
    if v.Var? {
      VariableWanting(vars, v);
    } else if t.ListOf? {
      if v.ListV? { ItemsFault(s, vars, t.elem, v, 0, n); } else { VariableFault(s, vars, t.elem, v, n); }
    } else {
      match s.types[t.name] {
        case Scalar => NoScalarFault(s, vars, t.name, v);
        case InputObject(fields, oneOf) =>
          WellFormedFields(s, t.name);
          forall i | 0 <= i < |fields| ensures PlainDefault(s, fields[i]) { PlainField(s, t.name, i); }
          var r := LiteralFields(s, vars, fields, v, n);
          if r.NoFields? { FieldsFault(s, vars, fields, v, n); } else { OneOfFault(s, vars, t, fields, v, n); }
        case _ =>
      }
    }
  }

  lemma VariableWanting(vars: Vars, v: Coercion.Value)
    requires v.Var? && Wanting(vars, v.name)
    ensures UsesWanting(vars, v)
  {
    assert Occurs(v.name, v);
  }

  lemma PlainField(s: Schema, t: string, i: nat)
    requires PlainDefaults(s) && t in s.types && s.types[t].InputObject? && i < |s.types[t].fields|
    ensures PlainDefault(s, s.types[t].fields[i])
  {}

  lemma NoScalarFault(s: Schema, vars: Vars, name: string, v: Coercion.Value)
    ensures ScalarLiteral(s, vars, name, v) != Fail(VariableError)
  {
    hide Untyped, ParseInt;
  }

  lemma {:induction false} ItemsFault(s: Schema, vars: Vars, elem: Type, v: Coercion.Value, i: nat, n: nat)
    requires WellFormed(s) && PlainDefaults(s) && Unique(v) && v.ListV? && i <= |v.items|
    requires forall k :: 0 <= k < |v.items| ==> KnownFields(s, elem, v.items[k])
    requires LiteralItems(s, vars, elem, v, i, n) == NoItems(VariableError)
    ensures UsesWanting(vars, v)
    decreases n, v, 0, |v.items| - i
  {
    hide Literal, WellFormed, PlainDefaults, UsesWanting, KnownFields;
    if Literal(s, vars, elem, v.items[i], n) == Fail(VariableError) {
      VariableFault(s, vars, elem, v.items[i], n);
      UsesInItem(vars, v, i);
    } else {
      ItemsFault(s, vars, elem, v, i + 1, n);
    }
  }

  lemma {:induction false} FieldsFault(s: Schema, vars: Vars, fields: seq<InputField>, v: Coercion.Value, n: nat)
    requires WellFormed(s) && PlainDefaults(s) && Unique(v) && v.ObjV?
    requires forall i :: 0 <= i < |fields| ==> PlainDefault(s, fields[i])
    requires forall i, j :: 0 <= i < |v.members| && 0 <= j < |fields| && v.members[i].name == fields[j].name
                      ==> KnownFields(s, fields[j].typ, v.members[i].value)
    requires LiteralFields(s, vars, fields, v, n) == NoFields(VariableError)
    ensures UsesWanting(vars, v)
    decreases n, v, 0, |fields|
  {
    hide Literal, WellFormed, PlainDefaults, UsesWanting, KnownFields, LiteralFields;
    FieldsUnfold(s, vars, fields, v, n);
    var fd := fields[0];
    if FilledFrom(s, vars, fd, v, n) == Fail(VariableError) {
      var written := Written(v.members, fd.name);
      WrittenIn(v.members, fd.name);
      if written.Some? && Literal(s, vars, fd.typ, written.value, n) == Fail(VariableError) {
        var i :| 0 <= i < |v.members| && v.members[i].name == fd.name && v.members[i].value == written.value;
        VariableFault(s, vars, fd.typ, written.value, n);
        UsesInMember(vars, v, i);
      } else {
        VariableFault(s, map[], fd.typ, fd.default.value, fd.rank);
        NoneInFree(map[], fd.default.value);
      }
    } else {
      assert forall j :: 0 <= j < |fields[1..]| ==> fields[1..][j] == fields[j + 1];
      FieldsFault(s, vars, fields[1..], v, n);
    }
  }

  lemma {:induction false} NoneInFree(vars: Vars, v: Coercion.Value)
    requires VariableFree(v)
    ensures !UsesWanting(vars, v)
  {
    forall x ensures !Occurs(x, v) { FreeOccursNot(v, x); }
  }

  /** The one field of a OneOf Input Object is a variable that is null or has no
      value, if the object is refused when it has been coerced. */
  lemma {:induction false} OneOfFault(s: Schema, vars: Vars, t: Type, fields: seq<InputField>, v: Coercion.Value, n: nat)
    requires WellFormed(s) && Unique(v) && v.ObjV? && FieldsWellFormed(fields, true)
    requires |v.members| == 1 && !v.members[0].value.Null? && HasField(fields, v.members[0].name)
    requires LiteralFields(s, vars, fields, v, n).Fields? && !OneEntryNotNull(LiteralFields(s, vars, fields, v, n).obj)
    ensures UsesWanting(vars, v)
  {
    hide LiteralFields, WellFormed, Means, UsesWanting;
    var obj := LiteralFields(s, vars, fields, v, n).obj;
    var m := v.members[0];
    LiteralFieldsMean(s, vars, fields, v, n, obj);
    forall k | k in obj ensures k == m.name {
      var i :| 0 <= i < |fields| && fields[i].name == k;
      assert FieldMeans(s, vars, fields[i], v, n, Entry(obj, k));
      WrittenIn(v.members, k);
    }
    var i :| 0 <= i < |fields| && fields[i].name == m.name;
    assert FieldMeans(s, vars, fields[i], v, n, Entry(obj, m.name));
    assert Written(v.members, m.name) == Some(m.value);
    if m.value.Var? && Wanting(vars, m.value.name) {
      VariableWanting(vars, m.value);
      UsesInMember(vars, v, 0);
    } else {
      if m.value.Var? { BoundMeans(s, vars, fields[i].typ, m.value, n, obj[m.name]); } else { NotNull(s, vars, fields[i].typ, m.value, n, obj[m.name]); }
      hide OneEntryNotNull;
      OneEntry(obj, m.name);
    }
  }

  lemma OneEntry(obj: map<string, Json>, name: string)
    requires name in obj && !obj[name].JNull? && forall k :: k in obj ==> k == name
    ensures OneEntryNotNull(obj)
  {
    assert obj.Keys == {name};
    assert |obj| == |obj.Keys|;
  }

  lemma {:induction false} BoundMeans(s: Schema, vars: Vars, t: Type, v: Coercion.Value, n: nat, j: Json)
    requires v.Var? && Means(s, vars, t, v, n, j)
    ensures v.name in vars && vars[v.name].value == j
  {}

  // ---- Where an argument comes from ----

  /** Whether the selection passes a value: something is written, and it is no
      variable without value. */
  predicate Passes(vars: Vars, written: Option<Coercion.Value>) { written.Some? && !Unbound(vars, written.value) }

  /** Where a passed value comes from. */
  ghost predicate ComesFrom(vars: Vars, written: Coercion.Value, origin: Origin) {
    match origin
    case FromVariable(x) => written == Var(x) && x in vars && !vars[x].defaulted
    case FromDefault(x) => written == Var(x) && x in vars && vars[x].defaulted
    case Mixed => !written.Var? && exists x :: Occurs(x, written)
    case FromLiteral => forall x :: !Occurs(x, written)
    case FromSchema => false
  }

  /** An argument is worth what is passed for it, and says where that comes from;
      else its default, from the schema; else it has no value. */
  ghost predicate ArgumentIs(s: Schema, vars: Vars, def: ArgumentDef, written: Option<Coercion.Value>, arg: Arg) {
    if Passes(vars, written) then
      Means(s, vars, def.typ, written.value, s.bound, arg.value) && ComesFrom(vars, written.value, arg.origin)
    else
      && def.default.Some? && Means(s, map[], def.typ, def.default.value, s.bound, arg.value)
      && arg.origin == FromSchema && arg.variables == [] && arg.schemaDefaults == []
  }

  lemma {:induction false} ArgumentExact(s: Schema, vars: Vars, def: ArgumentDef, written: Option<Coercion.Value>)
    requires WellFormed(s) && (written.Some? ==> Unique(written.value) && KnownFields(s, def.typ, written.value))
    requires def.default.Some? ==> !def.default.value.Var? && Unique(def.default.value)
    ensures var r := Argument(s, vars, def, written);
      && (r.NoValue? <==> !Passes(vars, written) && def.default.None?)
      && (r.Resolved? ==> ArgumentIs(s, vars, def, written, r.arg))
      && (r.Bad? ==> forall arg :: !ArgumentIs(s, vars, def, written, arg))
  {
    hide Literal, Means, WellFormed, KnownFields, Unique, Occurs, NoteAll;
    if Passes(vars, written) {
      var v := written.value;
      LiteralMeans(s, vars, def.typ, v, s.bound);
      BoundPresent(s, vars, def.typ, v, s.bound);
      var r := Literal(s, vars, def.typ, v, s.bound);
      if r.Got? {
        assert Yields(r, r.value.value);
        ArgumentVariables(s, vars, def, v);
        if v.Var? { VariableUsed(s, vars, def.typ, v, s.bound); }
      }
    } else {
      if written.Some? { UnboundNothing(s, vars, def.typ, written.value, s.bound); }
      if def.default.Some? {
        LiteralMeans(s, map[], def.typ, def.default.value, s.bound);
        LiteralPresent(s, map[], def.typ, def.default.value, s.bound);
      }
    }
  }

  lemma {:induction false} VariableUsed(s: Schema, vars: Vars, t: Type, v: Coercion.Value, n: nat)
    requires v.Var? && !Unbound(vars, v)
    ensures v.name in vars && Occurs(v.name, v)
  {}
}
