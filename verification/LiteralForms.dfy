/** A literal means the same written in the document as supplied in its JSON
    form through a variable, except for integers at an ID that are not the
    canonical text of an int64. */
module LiteralForms {
  import opened Base
  import opened Decimal
  import opened Coercion
  import opened CoercionLaws
  import opened SuppliedValues

  ghost predicate VariableFree(v: Value) {
    match v
    case Var(_) => false
    case ListV(items) => forall i :: 0 <= i < |items| ==> VariableFree(items[i])
    case ObjV(members) => forall i :: 0 <= i < |members| ==> VariableFree(members[i].value)
    case _ => true
  }

  /** The literal as JSON. */
  function AsJson(v: Value): Json { OrNull(Untyped(map[], v).value) }

  // ---- The JSON form, part by part ----

  lemma {:induction false} UntypedFree(vars: Vars, v: Value)
    requires VariableFree(v)
    ensures Untyped(vars, v) == Got(Some(AsJson(v)), [], [])
    ensures AsJson(v).JNull? <==> v.Null?
    decreases v, 1, 0
  {
    hide UntypedItems, UntypedFields;
    if v.ListV? {
      ItemsFree(vars, v, 0);
      ItemsFree(map[], v, 0);
    } else if v.ObjV? {
      FieldsFree(vars, v, 0);
      FieldsFree(map[], v, 0);
    }
  }

  function JsonItems(v: Value, i: nat): seq<Json>
    requires v.ListV? && i <= |v.items|
    decreases |v.items| - i
  {
    if i == |v.items| then [] else [AsJson(v.items[i])] + JsonItems(v, i + 1)
  }

  function JsonFields(v: Value, i: nat): map<string, Json>
    requires v.ObjV? && i <= |v.members|
    decreases |v.members| - i
  {
    if i == |v.members| then map[]
    else map[v.members[i].name := AsJson(v.members[i].value)] + JsonFields(v, i + 1)
  }

  lemma {:induction false} ItemsFree(vars: Vars, v: Value, i: nat)
    requires VariableFree(v) && v.ListV? && i <= |v.items|
    ensures UntypedItems(vars, v, i) == Items(JsonItems(v, i), [], [])
    decreases v, 0, |v.items| - i
  {
    hide Untyped, AsJson;
    if i < |v.items| {
      UntypedFree(vars, v.items[i]);
      ItemsFree(vars, v, i + 1);
    }
  }

  lemma {:induction false} FieldsFree(vars: Vars, v: Value, i: nat)
    requires VariableFree(v) && v.ObjV? && i <= |v.members|
    ensures UntypedFields(vars, v, i) == Fields(JsonFields(v, i), [], [])
    decreases v, 0, |v.members| - i
  {
    hide Untyped, AsJson;
    if i < |v.members| {
      UntypedFree(vars, v.members[i].value);
      FieldsFree(vars, v, i + 1);
    }
  }

  lemma {:induction false} JsonItemsAt(v: Value, i: nat, k: nat)
    requires v.ListV? && i <= k < |v.items|
    ensures |JsonItems(v, i)| == |v.items| - i && JsonItems(v, i)[k - i] == AsJson(v.items[k])
    decreases |v.items| - i
  {
    hide AsJson;
    if i + 1 < |v.items| { JsonItemsAt(v, i + 1, if k == i then k + 1 else k); }
    else { assert JsonItems(v, i + 1) == []; }
  }

  lemma {:induction false} ListAsJson(v: Value)
    requires v.ListV? && VariableFree(v)
    ensures AsJson(v).JList? && |AsJson(v).items| == |v.items|
    ensures forall k :: 0 <= k < |v.items| ==> AsJson(v).items[k] == AsJson(v.items[k])
  {
    hide VariableFree;
    ItemsFree(map[], v, 0);
    assert AsJson(v) == JList(JsonItems(v, 0));
    hide AsJson;
    if v.items != [] {
      forall k | 0 <= k < |v.items| ensures |JsonItems(v, 0)| == |v.items| && JsonItems(v, 0)[k] == AsJson(v.items[k]) {
        JsonItemsAt(v, 0, k);
      }
      JsonItemsAt(v, 0, 0);
    } else {
      assert JsonItems(v, 0) == [];
    }
  }

  lemma {:induction false} JsonFieldsOf(v: Value, i: nat, name: string)
    requires v.ObjV? && Unique(v) && i <= |v.members|
    ensures name in JsonFields(v, i) <==> Written(v.members[i..], name).Some?
    ensures name in JsonFields(v, i) ==> JsonFields(v, i)[name] == AsJson(Written(v.members[i..], name).value)
    decreases |v.members| - i
  {
    hide AsJson;
    if i < |v.members| {
      assert v.members[i..][1..] == v.members[i + 1..];
      JsonFieldsOf(v, i + 1, name);
      if name == v.members[i].name { WrittenIn(v.members[i + 1..], name); }
    }
  }

  lemma {:induction false} ObjectAsJson(v: Value, name: string)
    requires v.ObjV? && VariableFree(v) && Unique(v)
    ensures AsJson(v).JObj? && (name in AsJson(v).members <==> Written(v.members, name).Some?)
    ensures name in AsJson(v).members ==> AsJson(v).members[name] == AsJson(Written(v.members, name).value)
  {
    hide VariableFree, Unique;
    FieldsFree(map[], v, 0);
    assert AsJson(v) == JObj(JsonFields(v, 0));
    hide AsJson;
    assert v.members[0..] == v.members;
    JsonFieldsOf(v, 0, name);
  }

  // ---- Validated literals ----

  /** An IntValue token: a JSON number without fraction and exponent. */
  ghost predicate IntToken(raw: string) {
    exists p: Number :: p.Valid() && p.frac.None? && p.exp.None? && p.Text() == raw
  }

  /** The text FormatInt gives an int64. */
  ghost predicate Int64Text(raw: string) {
    exists i: int :: MIN_INT64 <= i <= MAX_INT64 && raw == IntText(i)
  }

  /** A literal that validation lets stand at a type: its integers are integer
      tokens, at an ID canonical int64 texts, and its fields are fields of the
      type. */
  ghost predicate Validated(s: Schema, t: Type, v: Value)
    decreases v, Height(t)
  {
    if v.Null? then true
    else if t.ListOf? then
      if v.ListV? then forall i :: 0 <= i < |v.items| ==> Validated(s, t.elem, v.items[i]) else Validated(s, t.elem, v)
    else if t.name !in s.types then true
    else match s.types[t.name]
      case Scalar => v.IntV? ==> IntToken(v.raw) && (Kind(t.name).IdKind? ==> Int64Text(v.raw))
      case InputObject(fields, _) =>
        v.ObjV? ==>
          && (forall i :: 0 <= i < |v.members| ==> HasField(fields, v.members[i].name))
          && (forall i, j :: 0 <= i < |v.members| && 0 <= j < |fields| && v.members[i].name == fields[j].name
                ==> Validated(s, fields[j].typ, v.members[i].value))
      case _ => true
  }

  /** ParseInt and integral read an integer token alike. */
  lemma IntTokenRead(raw: string)
    requires IntToken(raw)
    ensures Integral(raw, MIN_INT32, MAX_INT32) == ParseInt32(raw)
  {
    hide Integral, ParseInt, Val;
    var p: Number :| p.Valid() && p.frac.None? && p.exp.None? && p.Text() == raw;
    assert p.whole + p.Frac() == p.whole;
    var i := Signed(p.neg, Val(p.whole));
    var sign := if p.neg then "-" else "";
    assert raw == sign + p.whole;
    ParseDigits(p.whole, sign);
    IntegralExact(p, MIN_INT32, MAX_INT32, i);
    var r := Integral(raw, MIN_INT32, MAX_INT32);
    if r.Some? { IntegralExact(p, MIN_INT32, MAX_INT32, r.value); }
  }

  lemma {:induction false} ScalarAgrees(s: Schema, vars: Vars, name: string, v: Value)
    requires VariableFree(v) && !v.Null? && (v.IntV? ==> IntToken(v.raw) && (Kind(name).IdKind? ==> Int64Text(v.raw)))
    ensures var l := ScalarLiteral(s, vars, name, v);
      l.Got? ==> ScalarInput(s, name, AsJson(v)) == l.value && l.value.Some? && l.used == [] && l.defaults == []
  {
    hide Integral, ParseInt32, IntText, IntToken, VariableFree, UntypedItems, UntypedFields;
    match Kind(name) {
      case IntKind => if v.IntV? { IntTokenRead(v.raw); }
      case CustomKind => UntypedFree(vars, v);
      case IdKind => if v.IntV? {
          var i: int :| MIN_INT64 <= i <= MAX_INT64 && v.raw == IntText(i);
          IntegralOfIntText(i, MIN_INT64, MAX_INT64);
        }
      case _ =>
    }
  }

  /** A validated literal without variables that coerces at a type coerces, as
      its JSON form supplied through a variable, to the same value with the
      same defaults filled in; its integers at an ID are canonical. */
  lemma {:induction false} LiteralAgrees(s: Schema, vars: Vars, t: Type, v: Value)
    requires VariableFree(v) && Unique(v) && Validated(s, t, v)
    requires Literal(s, vars, t, v, s.bound).Got?
    ensures Input(s, t, AsJson(v)) == Literal(s, vars, t, v, s.bound)
    decreases v, Height(t) + 1, 0
  {
    hide AsJson, LiteralItems, LiteralFields, InputItems, InputFields, ScalarLiteral, ScalarInput, HasField;
    UntypedFree(vars, v);
    if v.Null? {
    } else if t.ListOf? {
      if v.ListV? {
        ListAsJson(v);
        ItemsAgree(s, vars, t.elem, v, 0);
      } else {
        NotAList(v);
        LiteralAgrees(s, vars, t.elem, v);
      }
    } else {
      match s.types[t.name] {
        case Scalar => ScalarAgrees(s, vars, t.name, v);
        case Enum(values) => EnumAsJson(v);
        case InputObject(fields, oneOf) => ObjectAgrees(s, vars, t, fields, oneOf, v);
        case NotInput =>
      }
    }
  }

  lemma EnumAsJson(v: Value)
    requires v.EnumV?
    ensures AsJson(v) == JStr(v.raw)
  {}

  lemma {:induction false} NotAList(v: Value)
    requires VariableFree(v) && !v.ListV?
    ensures !AsJson(v).JList?
  {}

  lemma {:induction false} ItemsAgree(s: Schema, vars: Vars, elem: Type, v: Value, i: nat)
    requires v.ListV? && i <= |v.items| && VariableFree(v) && Unique(v)
    requires forall k :: 0 <= k < |v.items| ==> Validated(s, elem, v.items[k])
    requires LiteralItems(s, vars, elem, v, i, s.bound).Items?
    requires AsJson(v).JList? && |AsJson(v).items| == |v.items|
    ensures InputItems(s, elem, AsJson(v), i) == LiteralItems(s, vars, elem, v, i, s.bound)
    decreases v, 0, |v.items| - i
  {
    hide AsJson, Literal, Input, Validated;
    if i < |v.items| {
      ListAsJson(v);
      LiteralAgrees(s, vars, elem, v.items[i]);
      ItemsAgree(s, vars, elem, v, i + 1);
    }
  }

  lemma {:induction false} ObjectAgrees(s: Schema, vars: Vars, t: Type, fields: seq<InputField>, oneOf: bool, v: Value)
    requires t.Named? && t.name in s.types && s.types[t.name] == InputObject(fields, oneOf)
    requires VariableFree(v) && Unique(v) && Validated(s, t, v) && !v.Null? && !v.Var?
    requires Literal(s, vars, t, v, s.bound).Got?
    ensures Input(s, t, AsJson(v)) == Literal(s, vars, t, v, s.bound)
    decreases v, 0, |fields| + 1
  {
    hide AsJson, LiteralFields, InputFields, Unique;
    assert v.ObjV?;
    ObjectAsJson(v, "");
    FieldsAgree(s, vars, fields, v);
    var members := AsJson(v).members;
    forall k | k in members ensures HasField(fields, k) {
      ObjectAsJson(v, k);
      WrittenIn(v.members, k);
    }
    if oneOf { OneMember(v); }
  }

  /** A literal with one member that is not null has one entry in its JSON
      form, not null. */
  lemma {:induction false} OneMember(v: Value)
    requires v.ObjV? && VariableFree(v) && Unique(v) && |v.members| == 1 && !v.members[0].value.Null?
    ensures AsJson(v).JObj? && OneEntryNotNull(AsJson(v).members)
  {
    hide AsJson;
    var m := v.members[0];
    UntypedFree(map[], m.value);
    ObjectAsJson(v, m.name);
    assert AsJson(v).members == map[m.name := AsJson(m.value)] by {
      forall k ensures k in AsJson(v).members <==> k == m.name {
        ObjectAsJson(v, k);
        WrittenIn(v.members, k);
      }
    }
  }

  lemma {:induction false} FieldsAgree(s: Schema, vars: Vars, fields: seq<InputField>, v: Value)
    requires v.ObjV? && VariableFree(v) && Unique(v) && AsJson(v).JObj?
    requires forall i, j :: 0 <= i < |v.members| && 0 <= j < |fields| && v.members[i].name == fields[j].name
                      ==> Validated(s, fields[j].typ, v.members[i].value)
    requires LiteralFields(s, vars, fields, v, s.bound).Fields?
    ensures InputFields(s, fields, AsJson(v)) == LiteralFields(s, vars, fields, v, s.bound)
    decreases v, 0, |fields|
  {
    hide AsJson, Literal, Input, Validated, Written, Filled;
    if fields != [] {
      var fd := fields[0];
      ObjectAsJson(v, fd.name);
      WrittenIn(v.members, fd.name);
      var written := Written(v.members, fd.name);
      if written.Some? {
        var i :| 0 <= i < |v.members| && v.members[i].name == fd.name && v.members[i].value == written.value;
        FilledGot(s, vars, fd, written.value, s.bound);
        LiteralAgrees(s, vars, fd.typ, written.value);
      }
      assert forall j :: 0 <= j < |fields[1..]| ==> fields[1..][j] == fields[j + 1];
      FieldsAgree(s, vars, fields[1..], v);
    }
  }

  lemma {:induction false} FilledGot(s: Schema, vars: Vars, fd: InputField, w: Value, n: nat)
    ensures forall d :: Filled(fd, Literal(s, vars, fd.typ, w, n), d).Got? ==> Literal(s, vars, fd.typ, w, n).Got?
  {
    hide Literal;
  }

  /** At an ID an integer literal keeps its spelling, while a supplied number is
      rewritten and must fit an int64: the two agree exactly on the canonical
      texts of int64 values. */
  lemma {:induction false} IdAgreesIff(s: Schema, vars: Vars, t: Type, raw: string, n: nat)
    requires t.Named? && t.name == "ID" && "ID" in s.types && s.types["ID"].Scalar? && IntToken(raw)
    ensures Input(s, t, AsJson(IntV(raw))) == Literal(s, vars, t, IntV(raw), n) <==> Int64Text(raw)
  {
    hide Integral, IntText;
    var p: Number :| p.Valid() && p.frac.None? && p.exp.None? && p.Text() == raw;
    assert AsJson(IntV(raw)) == JNum(raw);
    var read := Integral(raw, MIN_INT64, MAX_INT64);
    if read.Some? { IntegralExact(p, MIN_INT64, MAX_INT64, read.value); }
    if i: int :| MIN_INT64 <= i <= MAX_INT64 && raw == IntText(i) { IntegralOfIntText(i, MIN_INT64, MAX_INT64); }
  }

  /** Two ways to differ: a zero with a sign, and an integer beyond int64. */
  lemma {:induction false} IdDiffers(s: Schema, vars: Vars, t: Type, n: nat)
    requires t.Named? && t.name == "ID" && "ID" in s.types && s.types["ID"].Scalar?
    ensures Literal(s, vars, t, IntV("-0"), n) == Got(Some(JStr("-0")), [], [])
    ensures Input(s, t, AsJson(IntV("-0"))) == Got(Some(JStr("0")), [], [])
    ensures Literal(s, vars, t, IntV(IntText(MAX_INT64 + 1)), n) == Got(Some(JStr(IntText(MAX_INT64 + 1))), [], [])
    ensures Input(s, t, AsJson(IntV(IntText(MAX_INT64 + 1)))) == Fail(ValueError)
  {
    hide Integral, ParseInt, IntText;
    MinusZero();
    ZeroText();
    BeyondInt64(MAX_INT64 + 1);
  }

  lemma ZeroText()
    ensures IntText(0) == "0"
  {}

  lemma BeyondInt64(i: int)
    requires i > MAX_INT64
    ensures Integral(IntText(i), MIN_INT64, MAX_INT64) == None
  {
    hide Integral;
    var p := IntNumber(i);
    var r := Integral(IntText(i), MIN_INT64, MAX_INT64);
    if r.Some? { IntegralExact(p, MIN_INT64, MAX_INT64, r.value); }
  }

  lemma MinusZero()
    ensures Integral("-0", MIN_INT64, MAX_INT64) == Some(0)
  {
    hide Integral;
    var p := Number(true, "0", None, None);
    assert p.Text() == "-0";
    assert p.whole + p.Frac() == "0";
    assert "0"[..0] == "";
    assert Val("0") == 0;
    IntegralExact(p, MIN_INT64, MAX_INT64, 0);
  }
}
