/** The input coercion of supplied values (coercer.input): it yields values of
    the type, leaves those as they are, and agrees with the coercion of
    literals. */
module SuppliedValues {
  import opened Base
  import opened Decimal
  import opened Coercion
  import opened CoercionLaws

  // ---- Only values of the type ----

  /** Coercing what was supplied: never without a value, never by a variable,
      and null only for null. */
  ghost predicate Plain(v: Json, r: Result) {
    r.Got? ==> r.value.Some? && r.used == [] && (r.value.value.JNull? ==> v.JNull?)
  }

  lemma {:induction false} InputPlain(s: Schema, t: Type, v: Json)
    ensures Plain(v, Input(s, t, v))
    decreases v, Height(t) + 1, 0
  {
    hide InputItems, InputFields;
    if v.JNull? {
    } else if t.ListOf? {
      if v.JList? { InputItemsPlain(s, t.elem, v, 0); } else { InputPlain(s, t.elem, v); }
    } else if t.name in s.types && s.types[t.name].InputObject? && v.JObj? {
      InputFieldsPlain(s, s.types[t.name].fields, v);
    }
  }

  lemma {:induction false} InputItemsPlain(s: Schema, elem: Type, v: Json, i: nat)
    requires v.JList? && i <= |v.items|
    ensures var r := InputItems(s, elem, v, i); r.Items? ==> r.used == []
    decreases v, 0, |v.items| - i
  {
    hide Input;
    if i < |v.items| {
      InputPlain(s, elem, v.items[i]);
      InputItemsPlain(s, elem, v, i + 1);
    }
  }

  lemma {:induction false} InputFieldsPlain(s: Schema, fields: seq<InputField>, v: Json)
    requires v.JObj?
    ensures var r := InputFields(s, fields, v); r.Fields? ==> r.used == []
    decreases v, 0, |fields|
  {
    hide Input, Default;
    if fields != [] {
      if fields[0].name in v.members { InputPlain(s, fields[0].typ, v.members[fields[0].name]); }
      InputFieldsPlain(s, fields[1..], v);
    }
  }

  /** Without defaults, the fields kept are the fields supplied. */
  lemma {:induction false} InputFieldsKept(s: Schema, fields: seq<InputField>, v: Json)
    requires v.JObj? && Distinct(fields) && forall i :: 0 <= i < |fields| ==> Omittable(fields[i])
    ensures var r := InputFields(s, fields, v);
      r.Fields? ==>
        && (forall k :: k in r.obj <==> k in v.members && HasField(fields, k))
        && (forall k :: k in r.obj && r.obj[k].JNull? ==> v.members[k].JNull?)
    decreases |fields|
  {
    hide Input, Default;
    if fields != [] {
      var fd, rest := fields[0], fields[1..];
      FirstIsApart(fields);
      if fd.name in v.members { InputPlain(s, fd.typ, v.members[fd.name]); }
      assert forall i :: 0 <= i < |rest| ==> rest[i] == fields[i + 1];
      InputFieldsKept(s, rest, v);
      forall k ensures HasField(fields, k) <==> k == fd.name || HasField(rest, k) {
        HasFieldApart(fields, k);
      }
    }
  }

  lemma HasFieldApart(fields: seq<InputField>, k: string)
    requires fields != []
    ensures HasField(fields, k) <==> k == fields[0].name || HasField(fields[1..], k)
  {
    if HasField(fields[1..], k) {
      var i :| 0 <= i < |fields[1..]| && fields[1..][i].name == k;
      assert fields[i + 1].name == k;
    }
    if i :| 0 <= i < |fields| && fields[i].name == k && i > 0 {
      assert fields[1..][i - 1].name == k;
    }
  }

  lemma {:induction false} OneEntryKept(s: Schema, fields: seq<InputField>, v: Json)
    requires v.JObj? && Distinct(fields) && (forall i :: 0 <= i < |fields| ==> Omittable(fields[i]))
    requires (forall k :: k in v.members ==> HasField(fields, k)) && OneEntryNotNull(v.members)
    ensures var r := InputFields(s, fields, v); r.Fields? ==> OneEntryNotNull(r.obj)
  {
    InputFieldsKept(s, fields, v);
    var r := InputFields(s, fields, v);
    if r.Fields? {
      assert r.obj.Keys == v.members.Keys;
      assert |r.obj| == |r.obj.Keys| && |v.members| == |v.members.Keys|;
    }
  }

  /** Input coercion yields a value of the type, and the defaults it reports
      stand where it says. */
  lemma {:induction false} InputSound(s: Schema, t: Type, v: Json)
    requires WellFormed(s)
    ensures Sound(s, t, Input(s, t, v))
    decreases v, Height(t) + 1, 0
  {
    hide DefaultAt, Conforms, InputItems, InputFields, ScalarInput, WellFormed;
    if v.JNull? {
      NullConforms(s, t);
    } else if t.ListOf? {
      if v.JList? {
        InputItemsSound(s, t.elem, v, 0);
        SoundList(s, t, InputItems(s, t.elem, v, 0));
      } else {
        InputSound(s, t.elem, v);
        SoundSingle(s, t, Input(s, t.elem, v));
      }
    } else if t.name in s.types {
      match s.types[t.name] {
        case Scalar => ScalarInputSound(s, t, v);
        case Enum(values) => if v.JStr? && v.s in values { EnumConforms(s, t, values, v.s); }
        case InputObject(fields, oneOf) =>
          WellFormedFields(s, t.name);
          if v.JObj? && (forall k :: k in v.members ==> HasField(fields, k)) && (oneOf ==> OneEntryNotNull(v.members)) {
            InputFieldsSound(s, fields, v);
            if oneOf { OneEntryKept(s, fields, v); }
            SoundObject(s, t, fields, oneOf, InputFields(s, fields, v), false);
          }
        case NotInput =>
      }
    }
  }

  lemma {:induction false} ScalarInputSound(s: Schema, t: Type, v: Json)
    requires t.Named? && t.name in s.types && s.types[t.name].Scalar? && !v.JNull?
    ensures var r := ScalarInput(s, t.name, v); r.Some? ==> Conforms(s, t, r.value)
  {
    hide Integral, IntText;
    if Kind(t.name).IntKind? && v.JNum? && Integral(v.text, MIN_INT32, MAX_INT32).Some? {
      IntegralWithin(v.text, MIN_INT32, MAX_INT32);
    }
  }

  lemma IntegralWithin(text: string, lo: int, hi: int)
    requires Integral(text, lo, hi).Some?
    ensures lo <= Integral(text, lo, hi).value <= hi
  {
    hide ParseSigned, PadZeros, TrimLeftZeros, TrimRightZeros, CutNumber, ParseInt;
  }

  lemma {:induction false} InputItemsSound(s: Schema, elem: Type, v: Json, i: nat)
    requires WellFormed(s) && v.JList? && i <= |v.items|
    ensures SoundItems(s, elem, i, InputItems(s, elem, v, i))
    decreases v, 0, |v.items| - i
  {
    hide DefaultAt, Conforms, Input, WellFormed, JoinItem, Sound;
    if i < |v.items| {
      InputSound(s, elem, v.items[i]);
      InputItemsSound(s, elem, v, i + 1);
      SoundJoinItem(s, elem, i, Input(s, elem, v.items[i]), InputItems(s, elem, v, i + 1));
    }
  }

  lemma {:induction false} InputFieldsSound(s: Schema, fields: seq<InputField>, v: Json)
    requires WellFormed(s) && v.JObj? && Distinct(fields) && ConstantDefaults(fields)
    ensures SoundFields(s, fields, InputFields(s, fields, v))
    decreases v, 0, |fields|
  {
    hide DefaultAt, Conforms, Input, WellFormed, JoinField, Filled, Sound, SoundDefault, Default;
    if fields != [] {
      var fd := fields[0];
      var supplied := if fd.name in v.members then Input(s, fd.typ, v.members[fd.name]) else Got(None, [], []);
      if fd.name in v.members { InputSound(s, fd.typ, v.members[fd.name]); } else { NothingSound(s, fd.typ); }
      CoercedDefaultSound(s, fd);
      InputFieldsSound(s, fields[1..], v);
      SoundJoinField(s, fields, supplied, Default(s, fd), InputFields(s, fields[1..], v));
    }
  }

  lemma CoercedDefaultSound(s: Schema, fd: InputField)
    requires WellFormed(s)
    requires fd.default.Some? ==> !fd.default.value.Var? && Unique(fd.default.value)
    ensures SoundDefault(s, fd, Default(s, fd))
  {
    hide Literal, WellFormed, SoundDefault;
    if fd.default.Some? && fd.rank < s.bound {
      NoVars(s, fd.typ, fd.default.value);
      LiteralSound(s, map[], fd.typ, fd.default.value, fd.rank);
      DefaultSound(s, fd);
    } else {
      FailSound(s, fd);
    }
  }

  // ---- Coerced values stay as they are ----

  /** A value of the type is its own coercion, and no default is filled in. */
  lemma {:induction false} InputFixed(s: Schema, t: Type, v: Json)
    requires WellFormed(s) && Conforms(s, t, v)
    ensures Input(s, t, v) == Got(Some(v), [], [])
    decreases v, Height(t) + 1, 0
  {
    hide InputItems, InputFields, ScalarInput, WellFormed, HasField;
    if v.JNull? {
    } else if t.ListOf? {
      InputItemsFixed(s, t.elem, v, 0);
      assert v.items[0..] == v.items;
    } else {
      match s.types[t.name] {
        case Scalar => ScalarInputFixed(s, t.name, v);
        case Enum(values) =>
        case InputObject(fields, oneOf) =>
          WellFormedFields(s, t.name);
          InputFieldsFixed(s, fields, v, v.members);
        case NotInput =>
      }
    }
  }

  lemma ScalarInputFixed(s: Schema, name: string, v: Json)
    requires ScalarOk(s, name, v)
    ensures ScalarInput(s, name, v) == Some(v)
  {
    hide Integral, IntText;
    if Kind(name).IntKind? {
      var i :| MIN_INT32 <= i <= MAX_INT32 && v.text == IntText(i);
      IntegralOfIntText(i, MIN_INT32, MAX_INT32);
    }
  }

  lemma {:induction false} InputItemsFixed(s: Schema, elem: Type, v: Json, i: nat)
    requires WellFormed(s) && v.JList? && i <= |v.items|
    requires forall k :: 0 <= k < |v.items| ==> Conforms(s, elem, v.items[k])
    ensures InputItems(s, elem, v, i) == Items(v.items[i..], [], [])
    decreases v, 0, |v.items| - i
  {
    hide Input, Conforms, WellFormed;
    if i < |v.items| {
      InputFixed(s, elem, v.items[i]);
      InputItemsFixed(s, elem, v, i + 1);
      assert v.items[i..] == [v.items[i]] + v.items[i + 1..];
    }
  }

  lemma {:induction false} BehindConforms(s: Schema, fields: seq<InputField>, members: map<string, Json>)
    requires fields != [] && Distinct(fields) && ObjConforms(s, fields, members)
    ensures ObjConforms(s, fields[1..], members - {fields[0].name})
  {
    hide Conforms;
    forall k | k in members && k != fields[0].name ensures HasField(fields[1..], k) { HasFieldApart(fields, k); }
    forall i | 0 <= i < |fields[1..]| ensures fields[1..][i] == fields[i + 1] && fields[i + 1].name != fields[0].name {}
  }

  /** members is what v holds of the given fields. */
  lemma {:induction false} InputFieldsFixed(s: Schema, fields: seq<InputField>, v: Json, members: map<string, Json>)
    requires WellFormed(s) && v.JObj? && Distinct(fields) && ObjConforms(s, fields, members)
    requires forall k :: k in members ==> k in v.members && members[k] == v.members[k]
    requires forall k :: HasField(fields, k) && k in v.members ==> k in members
    ensures InputFields(s, fields, v) == Fields(members, [], [])
    decreases v, 0, |fields|
  {
    hide Input, Conforms, WellFormed, InputFields;
    if fields == [] {
      assert InputFields(s, [], v) == Fields(map[], [], []) by { NoInputFields(s, v); }
      assert forall k :: !HasField(fields, k);
      assert members == map[];
    } else {
      var fd, rest := fields[0], fields[1..];
      FirstIsApart(fields);
      assert forall i :: 0 <= i < |rest| ==> rest[i] == fields[i + 1];
      assert HasField(fields, fd.name) by { HasFieldApart(fields, fd.name); }
      var behind := members - {fd.name};
      BehindConforms(s, fields, members);
      hide HasField, ObjConforms;
      forall k ensures HasField(fields, k) <==> k == fd.name || HasField(rest, k) { HasFieldApart(fields, k); }
      InputFieldsFixed(s, rest, v, behind);
      if fd.name in members { InputFixed(s, fd.typ, v.members[fd.name]); }
      FirstFixed(s, fields, v, members);
    }
  }

  lemma {:induction false} NoInputFields(s: Schema, v: Json)
    requires v.JObj?
    ensures InputFields(s, [], v) == Fields(map[], [], [])
  {}

  lemma {:induction false} FirstFixed(s: Schema, fields: seq<InputField>, v: Json, members: map<string, Json>)
    requires v.JObj? && fields != []
    requires var name := fields[0].name;
      && InputFields(s, fields[1..], v) == Fields(members - {name}, [], [])
      && (if name in members
          then name in v.members && members[name] == v.members[name]
            && Input(s, fields[0].typ, v.members[name]) == Got(Some(v.members[name]), [], [])
          else name !in v.members && Omittable(fields[0]))
    ensures InputFields(s, fields, v) == Fields(members, [], [])
  {
    hide Input, Default;
    var name := fields[0].name;
    if name in members {
      assert map[name := v.members[name]] + (members - {name}) == members;
    } else {
      assert members - {name} == members;
      assert map[] + members == members;
    }
  }

  /** What coerces has a value. */
  lemma {:induction false} InputPresent(s: Schema, t: Type, v: Json)
    ensures Input(s, t, v).Got? ==> Input(s, t, v).value.Some?
    decreases t
  {
    hide InputItems, InputFields, ScalarInput, HasField;
    if t.ListOf? && !v.JList? { InputPresent(s, t.elem, v); }
  }

  /** The values of a type are exactly the fixed points of its coercion. */
  lemma {:induction false} FixedIffConforms(s: Schema, t: Type, v: Json)
    requires WellFormed(s)
    ensures Conforms(s, t, v) <==> Input(s, t, v) == Got(Some(v), [], [])
  {
    hide Conforms, Input, WellFormed;
    if Conforms(s, t, v) { InputFixed(s, t, v); } else { InputSound(s, t, v); }
  }

  /** Coercing twice is coercing once. */
  lemma {:induction false} InputIdempotent(s: Schema, t: Type, v: Json)
    requires WellFormed(s) && Input(s, t, v).Got?
    ensures Input(s, t, v).value.Some? && Conforms(s, t, Input(s, t, v).value.value)
    ensures Input(s, t, Input(s, t, v).value.value) == Got(Input(s, t, v).value, [], [])
  {
    hide Conforms, Input, WellFormed;
    InputPlain(s, t, v);
    InputSound(s, t, v);
    InputFixed(s, t, Input(s, t, v).value.value);
  }
}
