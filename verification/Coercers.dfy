/** The coercer itself (ftv-graphql-mapper/coerce.go): one value is coerced
    while the variables used and the default paths pile up in its fields. */
module Coercers {
  import opened Base
  import opened Decimal
  import opened Coercion

  // ---- What piles up ----

  function Note(used: seq<string>, name: string): seq<string> {
    if name in used then used else used + [name]
  }

  /** Variables noted one after the other, each once. */
  function NoteAll(used: seq<string>, names: seq<string>): seq<string>
    decreases |names|
  {
    if names == [] then used else NoteAll(Note(used, names[0]), names[1..])
  }

  lemma {:induction false} NoteApart(used: seq<string>, a: seq<string>, b: seq<string>)
    ensures NoteAll(used, a + b) == NoteAll(NoteAll(used, a), b)
    decreases |a|
  {
    hide Note;
    if a == [] {
      assert a + b == b;
    } else {
      assert (a + b)[1..] == a[1..] + b;
      NoteApart(Note(used, a[0]), a[1..], b);
    }
  }

  function Recorded(record: bool, path: Path, paths: seq<Path>): seq<Path> {
    if record then Prefixed(path, paths) else []
  }

  lemma RecordedApart(record: bool, path: Path, a: seq<Path>, b: seq<Path>)
    ensures Recorded(record, path, a + b) == Recorded(record, path, a) + Recorded(record, path, b)
  {
    hide Prefixed;
    if record {
      var l, r := Prefixed(path, a + b), Prefixed(path, a) + Prefixed(path, b);
      assert |l| == |r|;
      forall i | 0 <= i < |l| ensures l[i] == r[i] {}
    }
  }

  lemma RecordedBelow(record: bool, path: Path, seg: Seg, paths: seq<Path>)
    ensures Recorded(record, path, Prefixed([seg], paths)) == Recorded(record, path + [seg], paths)
  {
    hide Prefixed;
    if record {
      var l, r := Prefixed(path, Prefixed([seg], paths)), Prefixed(path + [seg], paths);
      assert |l| == |r|;
      forall i | 0 <= i < |l| ensures l[i] == r[i] {
        assert path + ([seg] + paths[i]) == path + [seg] + paths[i];
      }
    }
  }

  /** The items already coerced, before those to come. */
  function ItemsAhead(values: seq<Json>, used: seq<string>, defaults: seq<Path>, rest: Items): Items {
    if rest.NoItems? then rest
    else Items(values + rest.values, used + rest.used, defaults + rest.defaults)
  }

  lemma ItemsNext(values: seq<Json>, used: seq<string>, defaults: seq<Path>,
                  i: nat, item: Result, nonNull: bool, rest: Items)
    requires item.Got? && (item.value.Some? || !nonNull)
    ensures ItemsAhead(values, used, defaults, JoinItem(i, item, nonNull, rest))
      == ItemsAhead(values + [OrNull(item.value)], used + item.used, defaults + Prefixed([Index(i)], item.defaults), rest)
  {
    if rest.Items? {
      assert values + ([OrNull(item.value)] + rest.values) == values + [OrNull(item.value)] + rest.values;
      assert used + (item.used + rest.used) == used + item.used + rest.used;
      var pre := Prefixed([Index(i)], item.defaults);
      assert defaults + (pre + rest.defaults) == defaults + pre + rest.defaults;
    }
  }

  function FieldsAhead(obj: map<string, Json>, used: seq<string>, defaults: seq<Path>, rest: Fields): Fields {
    if rest.NoFields? then rest
    else Fields(obj + rest.obj, used + rest.used, defaults + rest.defaults)
  }

  lemma FieldsNext(obj: map<string, Json>, used: seq<string>, defaults: seq<Path>,
                   name: string, field: Result, rest: Fields)
    requires field.Got?
    ensures FieldsAhead(obj, used, defaults, JoinField(name, field, rest))
      == FieldsAhead(if field.value.Some? then obj[name := field.value.value] else obj,
                     used + field.used, defaults + field.defaults, rest)
  {
    if rest.Fields? {
      var mine: map<string, Json> := if field.value.Some? then map[name := field.value.value] else map[];
      assert obj + (mine + rest.obj) == (if field.value.Some? then obj[name := field.value.value] else obj) + rest.obj;
      assert used + (field.used + rest.used) == used + field.used + rest.used;
      assert defaults + (field.defaults + rest.defaults) == defaults + field.defaults + rest.defaults;
    }
  }

  // ---- The coercer ----

  /** What a coercion returns: an error, or the value if there is one. */
  datatype Out = Err(why: Failure) | Value(value: Option<Json>)

  predicate Returns(spec: Result, r: Out) {
    r == if spec.Fail? then Err(spec.why) else Value(spec.value)
  }

  class Coercer {
    const schema: Schema
    const vars: Vars
    /** false while a schema default is coerced as a whole. */
    const record: bool
    var used: seq<string>
    var defaults: seq<Path>

    constructor (schema: Schema, vars: Vars, record: bool)
      ensures this.schema == schema && this.vars == vars && this.record == record
      ensures used == [] && defaults == []
    {
      this.schema, this.vars, this.record := schema, vars, record;
      used, defaults := [], [];
    }

    /** What was used and filled has been added to what was there. */
    ghost predicate Added(used0: seq<string>, defaults0: seq<Path>, path: Path, names: seq<string>, paths: seq<Path>)
      reads this
    {
      used == NoteAll(used0, names) && defaults == defaults0 + Recorded(record, path, paths)
    }

    ghost predicate Done(used0: seq<string>, defaults0: seq<Path>, path: Path, spec: Result)
      reads this
    {
      spec.Got? ==> Added(used0, defaults0, path, spec.used, spec.defaults)
    }

    lemma {:induction false} AddedNext(used0: seq<string>, defaults0: seq<Path>, path: Path,
                    names: seq<string>, paths: seq<Path>, used1: seq<string>, defaults1: seq<Path>,
                    more: seq<string>, morePaths: seq<Path>)
      requires used1 == NoteAll(used0, names) && defaults1 == defaults0 + Recorded(record, path, paths)
      requires Added(used1, defaults1, path, more, morePaths)
      ensures Added(used0, defaults0, path, names + more, paths + morePaths)
    {
      hide NoteAll, Recorded;
      NoteApart(used0, names, more);
      RecordedApart(record, path, paths, morePaths);
      var a, b := Recorded(record, path, paths), Recorded(record, path, morePaths);
      assert (defaults0 + a) + b == defaults0 + (a + b);
    }

    method Use(name: string, path: Path) returns (r: Option<Json>)
      modifies this
      ensures Value(r) == Value(UseVariable(vars, name).value)
      ensures Done(old(used), old(defaults), path, UseVariable(vars, name))
    {
      assert NoteAll(used, [name]) == Note(used, name) by {
        assert [name][1..] == [];
        assert NoteAll(Note(used, name), []) == Note(used, name);
      }
      if name !in used { used := used + [name]; }
      if name !in vars { return None; }
      if record {
        ghost var defaults0 := defaults;
        var paths := vars[name].defaults;
        var i := 0;
        while i < |paths|
          invariant i <= |paths|
          invariant used == Note(old(used), name)
          invariant defaults == defaults0 + Prefixed(path, paths)[..i]
        {
          assert Prefixed(path, paths)[..i + 1] == Prefixed(path, paths)[..i] + [path + paths[i]];
          defaults := defaults + [path + paths[i]];
          i := i + 1;
        }
        assert Prefixed(path, paths)[..i] == Prefixed(path, paths);
      }
      return Some(vars[name].value);
    }

    method LiteralAt(t: Type, v: Coercion.Value, path: Path, ghost n: nat) returns (r: Out)
      requires Literal(schema, vars, t, v, n) != Fail(Endless)
      modifies this
      ensures Returns(Literal(schema, vars, t, v, n), r)
      ensures Done(old(used), old(defaults), path, Literal(schema, vars, t, v, n))
      decreases n, v, Height(t) + 1, 0
    {
      hide NoteAll, Prefixed, LiteralItems, LiteralFields, ScalarLiteral;
      assert defaults + [] == defaults;
      NothingAdded(path);
      if v.Var? {
        var value := Use(v.name, path);
        if value.Some? && value.value.JNull? && t.nonNull { return Err(VariableError); }
        return Value(value);
      }
      if v.Null? {
        return if t.nonNull then Err(ValueError) else Value(Some(JNull));
      }
      if t.ListOf? {
        r := ListLiteral(t, v, path, n);
        return;
      }
      if t.name !in schema.types { return Err(ValueError); }
      match schema.types[t.name]
      case Scalar =>
        r := ScalarLiteralAt(t.name, v, path);
      case Enum(values) =>
        return if v.EnumV? && v.raw in values then Value(Some(JStr(v.raw))) else Err(ValueError);
      case InputObject(fields, oneOf) =>
        if !v.ObjV? { return Err(ValueError); }
        if oneOf && (|v.members| != 1 || v.members[0].value.Null?) { return Err(ValueError); }
        r := LiteralObject(fields, v, path, n);
        if r.Value? && oneOf && !OneEntryNotNull(r.value.value.members) { return Err(VariableError); }
      case NotInput =>
        return Err(ValueError);
    }

    lemma NothingAdded(path: Path)
      ensures Added(used, defaults, path, [], [])
    {
      assert Prefixed(path, []) == [];
      assert defaults + [] == defaults;
    }

    method ListLiteral(t: Type, v: Coercion.Value, path: Path, ghost n: nat) returns (r: Out)
      requires t.ListOf? && !v.Var? && !v.Null?
      requires Literal(schema, vars, t, v, n) != Fail(Endless)
      modifies this
      ensures Returns(Literal(schema, vars, t, v, n), r)
      ensures Done(old(used), old(defaults), path, Literal(schema, vars, t, v, n))
      decreases n, v, Height(t), 2
    {
      hide NoteAll, Prefixed, LiteralFields, ScalarLiteral, LiteralItems, Recorded;
      if !v.ListV? {
        var item := LiteralAt(t.elem, v, path + [Index(0)], n);
        ghost var spec := Literal(schema, vars, t.elem, v, n);
        if spec.Got? { RecordedBelow(record, path, Index(0), spec.defaults); }
        if item.Err? || item.value.None? { NothingUsed(t.elem, v, n, path); return item; }
        return Value(Some(JList([item.value.value])));
      }
      r := ListItems(t, v, path, n);
    }

    lemma {:induction false} NothingUsed(t: Type, v: Coercion.Value, n: nat, path: Path)
      ensures var spec := Literal(schema, vars, t, v, n);
        spec.Got? && spec.value.None? ==> spec.defaults == [] && Recorded(record, path, []) == Recorded(record, path + [Index(0)], [])
      decreases Height(t)
    {
      hide LiteralItems, LiteralFields;
      assert Prefixed(path, []) == Prefixed(path + [Index(0)], []) == [];
      if t.ListOf? && !v.Var? && !v.Null? && !v.ListV? { NothingUsed(t.elem, v, n, path); }
    }

    method ListItems(t: Type, v: Coercion.Value, path: Path, ghost n: nat) returns (r: Out)
      requires t.ListOf? && v.ListV?
      requires LiteralItems(schema, vars, t.elem, v, 0, n) != NoItems(Endless)
      modifies this
      ensures Returns(ListResult(LiteralItems(schema, vars, t.elem, v, 0, n)), r)
      ensures Done(old(used), old(defaults), path, ListResult(LiteralItems(schema, vars, t.elem, v, 0, n)))
      decreases n, v, Height(t), 1
    {
      hide NoteAll, Prefixed, Literal, Recorded;
      ghost var whole := LiteralItems(schema, vars, t.elem, v, 0, n);
      ghost var names: seq<string>, paths: seq<Path> := [], [];
      var list: seq<Json> := [];
      NothingAdded(path);
      AheadOfNothing(whole);
      var i := 0;
      while i < |v.items|
        invariant i <= |v.items|
        invariant whole == ItemsAhead(list, names, paths, LiteralItems(schema, vars, t.elem, v, i, n))
        invariant Added(old(used), old(defaults), path, names, paths)
      {
        ghost var item := Literal(schema, vars, t.elem, v.items[i], n);
        ghost var rest := LiteralItems(schema, vars, t.elem, v, i + 1, n);
        ghost var used1, defaults1 := used, defaults;
        var out := LiteralAt(t.elem, v.items[i], path + [Index(i)], n);
        if out.Err? { return Err(out.why); }
        if out.value.None? && t.elem.nonNull { return Err(ValueError); }
        ItemsNext(list, names, paths, i, item, t.elem.nonNull, rest);
        RecordedBelow(record, path, Index(i), item.defaults);
        AddedNext(old(used), old(defaults), path, names, paths, used1, defaults1,
                  item.used, Prefixed([Index(i)], item.defaults));
        names, paths := names + item.used, paths + Prefixed([Index(i)], item.defaults);
        list := list + [if out.value.Some? then out.value.value else JNull];
        i := i + 1;
      }
      assert list + [] == list && names + [] == names && paths + [] == paths;
      return Value(Some(JList(list)));
    }

    lemma AheadOfNothing(items: Items)
      ensures ItemsAhead([], [], [], items) == items
    {
      if items.Items? {
        assert [] + items.values == items.values && [] + items.used == items.used && [] + items.defaults == items.defaults;
      }
    }

    lemma FieldsAheadOfNothing(fields: Fields)
      ensures FieldsAhead(map[], [], [], fields) == fields
    {
      if fields.Fields? {
        assert map[] + fields.obj == fields.obj && [] + fields.used == fields.used && [] + fields.defaults == fields.defaults;
      }
    }

    /** inputObject's fallback: a field without a value takes its default,
        coerced as a whole by a coercer of its own. */
    method TakeDefault(fd: InputField, path: Path, ghost default: Result) returns (r: Out)
      requires fd.default.Some? && default == Literal(schema, map[], fd.typ, fd.default.value, fd.rank)
      requires default != Fail(Endless)
      modifies this
      ensures Returns(Filled(fd, Got(None, [], []), default), r)
      ensures Done(old(used), old(defaults), path, Filled(fd, Got(None, [], []), default))
      decreases fd.rank
    {
      hide NoteAll, Prefixed, Literal;
      NothingAdded(path);
      var whole := new Coercer(schema, map[], false);
      var out := whole.LiteralAt(fd.typ, fd.default.value, [], fd.rank);
      if out.Err? { return out; }
      if record {
        assert Prefixed(path, [[Key(fd.name)]]) == [path + [Key(fd.name)]];
        defaults := defaults + [path + [Key(fd.name)]];
      }
      return Value(Some(if out.value.Some? then out.value.value else JNull));
    }

    ghost function FieldSpec(fd: InputField, v: Coercion.Value, n: nat): Result
      requires v.ObjV?
    {
      var written := Written(v.members, fd.name);
      var supplied := if written.Some? then Literal(schema, vars, fd.typ, written.value, n) else Got(None, [], []);
      Filled(fd, supplied, DefaultSpec(fd, n))
    }

    ghost function DefaultSpec(fd: InputField, n: nat): Result {
      if fd.default.Some? && fd.rank < n then Literal(schema, map[], fd.typ, fd.default.value, fd.rank) else Fail(Endless)
    }

    /** One field of an input object literal. */
    method LiteralField(fd: InputField, v: Coercion.Value, path: Path, ghost n: nat) returns (r: Out)
      requires v.ObjV? && FieldSpec(fd, v, n) != Fail(Endless)
      modifies this
      ensures Returns(FieldSpec(fd, v, n), r)
      ensures Done(old(used), old(defaults), path, FieldSpec(fd, v, n))
      decreases n, v, 0, 0
    {
      hide NoteAll, Prefixed, Literal, Recorded;
      var written := Written(v.members, fd.name);
      WrittenIn(v.members, fd.name);
      NothingAdded(path);
      if written.None? {
        if fd.default.None? { return if fd.typ.nonNull then Err(ValueError) else Value(None); }
        r := TakeDefault(fd, path, DefaultSpec(fd, n));
        return;
      }
      ghost var supplied := Literal(schema, vars, fd.typ, written.value, n);
      var out := LiteralAt(fd.typ, written.value, path + [Key(fd.name)], n);
      if out.Err? { return out; }
      RecordedBelow(record, path, Key(fd.name), supplied.defaults);
      if out.value.Some? { return out; }
      NothingFilled(fd.typ, written.value, n);
      ghost var used1, defaults1 := used, defaults;
      RecordedNothing(path + [Key(fd.name)]);
      RecordedNothing(path);
      assert defaults1 == old(defaults) + [] == old(defaults);
      if fd.default.None? { return if fd.typ.nonNull then Err(ValueError) else Value(None); }
      r := TakeDefault(fd, path, DefaultSpec(fd, n));
      if r.Value? {
        ghost var filled := Filled(fd, Got(None, [], []), DefaultSpec(fd, n));
        AddedNext(old(used), old(defaults), path, supplied.used, [], used1, defaults1, [], filled.defaults);
        assert supplied.used + [] == supplied.used && [] + filled.defaults == filled.defaults;
      }
    }

    lemma RecordedNothing(path: Path)
      ensures Recorded(record, path, []) == []
    {}

    lemma {:induction false} NothingFilled(t: Type, v: Coercion.Value, n: nat)
      ensures var spec := Literal(schema, vars, t, v, n); spec.Got? && spec.value.None? ==> spec.defaults == []
      decreases Height(t)
    {
      hide LiteralItems, LiteralFields;
      if t.ListOf? && !v.Var? && !v.Null? && !v.ListV? { NothingFilled(t.elem, v, n); }
    }

    method LiteralObject(fields: seq<InputField>, v: Coercion.Value, path: Path, ghost n: nat) returns (r: Out)
      requires v.ObjV? && LiteralFields(schema, vars, fields, v, n) != NoFields(Endless)
      modifies this
      ensures Returns(ObjectResult(false, LiteralFields(schema, vars, fields, v, n)), r)
      ensures Done(old(used), old(defaults), path, ObjectResult(false, LiteralFields(schema, vars, fields, v, n)))
      ensures r.Value? ==> r.value.Some? && r.value.value.JObj?
      decreases n, v, 0, 1
    {
      hide NoteAll, Prefixed, Literal, Recorded, Filled, DefaultSpec;
      ghost var whole := LiteralFields(schema, vars, fields, v, n);
      ghost var names: seq<string>, paths: seq<Path> := [], [];
      var obj: map<string, Json> := map[];
      NothingAdded(path);
      FieldsAheadOfNothing(whole);
      assert fields[0..] == fields;
      var i := 0;
      while i < |fields|
        invariant i <= |fields|
        invariant whole == FieldsAhead(obj, names, paths, LiteralFields(schema, vars, fields[i..], v, n))
        invariant Added(old(used), old(defaults), path, names, paths)
      {
        ghost var field := FieldSpec(fields[i], v, n);
        ghost var rest := LiteralFields(schema, vars, fields[i + 1..], v, n);
        FieldsFrom(fields, i, v, n);
        ghost var used1, defaults1 := used, defaults;
        var out := LiteralField(fields[i], v, path, n);
        if out.Err? { return out; }
        FieldsNext(obj, names, paths, fields[i].name, field, rest);
        AddedNext(old(used), old(defaults), path, names, paths, used1, defaults1, field.used, field.defaults);
        names, paths := names + field.used, paths + field.defaults;
        if out.value.Some? { obj := obj[fields[i].name := out.value.value]; }
        i := i + 1;
      }
      assert obj + map[] == obj && names + [] == names && paths + [] == paths;
      return Value(Some(JObj(obj)));
    }

    lemma {:induction false} FieldsFrom(fields: seq<InputField>, i: nat, v: Coercion.Value, n: nat)
      requires i < |fields| && v.ObjV?
      ensures LiteralFields(schema, vars, fields[i..], v, n)
        == JoinField(fields[i].name, FieldSpec(fields[i], v, n), LiteralFields(schema, vars, fields[i + 1..], v, n))
    {
      assert fields[i..][0] == fields[i] && fields[i..][1..] == fields[i + 1..];
    }

    method ScalarLiteralAt(name: string, v: Coercion.Value, path: Path) returns (r: Out)
      modifies this
      ensures Returns(ScalarLiteral(schema, vars, name, v), r)
      ensures Done(old(used), old(defaults), path, ScalarLiteral(schema, vars, name, v))
    {
      hide NoteAll, Prefixed, Untyped, ParseInt, IntText;
      NothingAdded(path);
      match Kind(name)
      case IntKind =>
        if v.IntV? {
          var i := ParseInt32(v.raw);
          if i.Some? { return Value(Some(JNum(IntText(i.value)))); }
        }
        return Err(ValueError);
      case FloatKind =>
        if (v.IntV? || v.FloatV?) && schema.finite(v.raw) { return Value(Some(JNum(v.raw))); }
        return Err(ValueError);
      case StringKind =>
        if v.StrV? || v.BlockV? { return Value(Some(JStr(v.raw))); }
        return Err(ValueError);
      case BooleanKind =>
        if v.BoolV? { return Value(Some(JBool(v.raw == "true"))); }
        return Err(ValueError);
      case IdKind =>
        if v.StrV? || v.IntV? { return Value(Some(JStr(v.raw))); }
        return Err(ValueError);
      case CustomKind =>
        var value := UntypedAt(v, path);
        return Value(Some(value));
    }

    method UntypedAt(v: Coercion.Value, path: Path) returns (r: Json)
      modifies this
      ensures r == OrNull(Untyped(vars, v).value)
      ensures Done(old(used), old(defaults), path, Untyped(vars, v))
      decreases v, 1
    {
      hide NoteAll, Prefixed, UntypedItems, UntypedFields, Recorded;
      NothingAdded(path);
      match v
      case Var(name) =>
        var value := Use(name, path);
        return if value.Some? then value.value else JNull;
      case IntV(raw) => return JNum(raw);
      case FloatV(raw) => return JNum(raw);
      case BoolV(raw) => return JBool(raw == "true");
      case Null => return JNull;
      case ListV(_) => r := UntypedList(v, path);
      case ObjV(_) => r := UntypedObject(v, path);
      case StrV(raw) => return JStr(raw);
      case BlockV(raw) => return JStr(raw);
      case EnumV(raw) => return JStr(raw);
    }

    method UntypedList(v: Coercion.Value, path: Path) returns (r: Json)
      requires v.ListV?
      modifies this
      ensures r == OrNull(Untyped(vars, v).value)
      ensures Done(old(used), old(defaults), path, Untyped(vars, v))
      decreases v, 0
    {
      hide NoteAll, Prefixed, Recorded;
      ghost var whole := UntypedItems(vars, v, 0);
      assert Untyped(vars, v) == ListResult(whole);
      hide Untyped;
      ghost var names: seq<string>, paths: seq<Path> := [], [];
      var list: seq<Json> := [];
      NothingAdded(path);
      AheadOfNothing(whole);
      var i := 0;
      while i < |v.items|
        invariant i <= |v.items|
        invariant whole == ItemsAhead(list, names, paths, UntypedItems(vars, v, i))
        invariant Added(old(used), old(defaults), path, names, paths)
      {
        ghost var item := Untyped(vars, v.items[i]);
        ghost var used1, defaults1 := used, defaults;
        var out := UntypedAt(v.items[i], path + [Index(i)]);
        ItemsNext(list, names, paths, i, item, false, UntypedItems(vars, v, i + 1));
        RecordedBelow(record, path, Index(i), item.defaults);
        AddedNext(old(used), old(defaults), path, names, paths, used1, defaults1,
                  item.used, Prefixed([Index(i)], item.defaults));
        names, paths := names + item.used, paths + Prefixed([Index(i)], item.defaults);
        list := list + [out];
        i := i + 1;
      }
      assert list + [] == list && names + [] == names && paths + [] == paths;
      return JList(list);
    }

    method UntypedObject(v: Coercion.Value, path: Path) returns (r: Json)
      requires v.ObjV?
      modifies this
      ensures r == OrNull(Untyped(vars, v).value)
      ensures Done(old(used), old(defaults), path, Untyped(vars, v))
      decreases v, 0
    {
      hide NoteAll, Prefixed, Recorded;
      ghost var whole := UntypedFields(vars, v, 0);
      assert Untyped(vars, v) == Got(Some(JObj(whole.obj)), whole.used, whole.defaults);
      hide Untyped;
      ghost var names: seq<string>, paths: seq<Path> := [], [];
      var obj: map<string, Json> := map[];
      NothingAdded(path);
      FieldsAheadOfNothing(whole);
      var i := 0;
      while i < |v.members|
        invariant i <= |v.members|
        invariant whole == FieldsAhead(obj, names, paths, UntypedFields(vars, v, i))
        invariant Added(old(used), old(defaults), path, names, paths)
      {
        var m := v.members[i];
        ghost var item := Untyped(vars, m.value);
        ghost var field := Got(item.value, item.used, Prefixed([Key(m.name)], item.defaults));
        ghost var used1, defaults1 := used, defaults;
        FieldsNext(obj, names, paths, m.name, field, UntypedFields(vars, v, i + 1));
        RecordedBelow(record, path, Key(m.name), item.defaults);
        if m.value.Var? && m.value.name !in vars {
          UntypedVariable(m.value);
          var absent := Use(m.value.name, path);
          RecordedNothing(path);
          RecordedNothing(path + [Key(m.name)]);
        } else {
          UntypedPresent(m.value);
          var out := UntypedAt(m.value, path + [Key(m.name)]);
          obj := obj[m.name := out];
        }
        AddedNext(old(used), old(defaults), path, names, paths, used1, defaults1, field.used, field.defaults);
        names, paths := names + field.used, paths + field.defaults;
        i := i + 1;
      }
      assert obj + map[] == obj && names + [] == names && paths + [] == paths;
      return JObj(obj);
    }

    lemma {:induction false} UntypedVariable(v: Coercion.Value)
      requires v.Var?
      ensures Untyped(vars, v) == UseVariable(vars, v.name)
    {}

    lemma {:induction false} UntypedPresent(v: Coercion.Value)
      requires !(v.Var? && v.name !in vars)
      ensures Untyped(vars, v).value.Some?
    {}

    // ---- Supplied values ----

    method InputAt(t: Type, v: Json, path: Path) returns (r: Out)
      requires Input(schema, t, v) != Fail(Endless)
      modifies this
      ensures Returns(Input(schema, t, v), r)
      ensures Done(old(used), old(defaults), path, Input(schema, t, v))
      decreases v, Height(t) + 1, 0
    {
      hide NoteAll, Prefixed, InputItems, InputFields, ScalarInput, Recorded, HasField;
      NothingAdded(path);
      if v.JNull? {
        return if t.nonNull then Err(ValueError) else Value(Some(JNull));
      }
      if t.ListOf? {
        if v.JList? {
          r := InputList(t, v, path);
          return;
        }
        var item := InputAt(t.elem, v, path + [Index(0)]);
        if item.Err? { return item; }
        SuppliedPresent(t.elem, v);
        RecordedBelow(record, path, Index(0), Input(schema, t.elem, v).defaults);
        return Value(Some(JList([item.value.value])));
      }
      if t.name !in schema.types { return Err(ValueError); }
      match schema.types[t.name]
      case Scalar =>
        var scalar := ScalarInput(schema, t.name, v);
        return if scalar.Some? then Value(scalar) else Err(ValueError);
      case Enum(values) =>
        return if v.JStr? && v.s in values then Value(Some(v)) else Err(ValueError);
      case InputObject(fields, oneOf) =>
        if !v.JObj? { return Err(ValueError); }
        var unknown := UnknownField(fields, v.members);
        if unknown { return Err(ValueError); }
        if oneOf && !OneEntryNotNull(v.members) { return Err(ValueError); }
        r := InputObjectAt(fields, v, path);
      case NotInput =>
        return Err(ValueError);
    }

    lemma {:induction false} SuppliedPresent(t: Type, v: Json)
      ensures var r := Input(schema, t, v); r.Got? ==> r.value.Some?
      decreases Height(t)
    {
      hide InputItems, InputFields;
      if t.ListOf? && !v.JList? && !v.JNull? { SuppliedPresent(t.elem, v); }
    }

    method UnknownField(fields: seq<InputField>, members: map<string, Json>) returns (r: bool)
      ensures r <==> exists k :: k in members && !HasField(fields, k)
    {
      hide HasField;
      var keys := members.Keys;
      while keys != {}
        invariant keys <= members.Keys
        invariant forall k :: k in members && k !in keys ==> HasField(fields, k)
        decreases keys
      {
        var k :| k in keys;
        if !HasField(fields, k) { return true; }
        keys := keys - {k};
      }
      return false;
    }

    method InputList(t: Type, v: Json, path: Path) returns (r: Out)
      requires t.ListOf? && v.JList? && InputItems(schema, t.elem, v, 0) != NoItems(Endless)
      modifies this
      ensures Returns(ListResult(InputItems(schema, t.elem, v, 0)), r)
      ensures Done(old(used), old(defaults), path, ListResult(InputItems(schema, t.elem, v, 0)))
      decreases v, Height(t), 0
    {
      hide NoteAll, Prefixed, Recorded, Input;
      ghost var whole := InputItems(schema, t.elem, v, 0);
      ghost var names: seq<string>, paths: seq<Path> := [], [];
      var out: seq<Json> := [];
      NothingAdded(path);
      AheadOfNothing(whole);
      var i := 0;
      while i < |v.items|
        invariant i <= |v.items|
        invariant whole == ItemsAhead(out, names, paths, InputItems(schema, t.elem, v, i))
        invariant Added(old(used), old(defaults), path, names, paths)
      {
        ghost var item := Input(schema, t.elem, v.items[i]);
        ghost var used1, defaults1 := used, defaults;
        var cv := InputAt(t.elem, v.items[i], path + [Index(i)]);
        if cv.Err? { return cv; }
        SuppliedPresent(t.elem, v.items[i]);
        ItemsNext(out, names, paths, i, item, t.elem.nonNull, InputItems(schema, t.elem, v, i + 1));
        RecordedBelow(record, path, Index(i), item.defaults);
        AddedNext(old(used), old(defaults), path, names, paths, used1, defaults1,
                  item.used, Prefixed([Index(i)], item.defaults));
        names, paths := names + item.used, paths + Prefixed([Index(i)], item.defaults);
        out := out + [cv.value.value];
        i := i + 1;
      }
      assert out + [] == out && names + [] == names && paths + [] == paths;
      return Value(Some(JList(out)));
    }

    ghost function SuppliedSpec(fd: InputField, v: Json): Result
      requires v.JObj?
    {
      Filled(fd, if fd.name in v.members then Input(schema, fd.typ, v.members[fd.name]) else Got(None, [], []),
             Default(schema, fd))
    }

    method InputFieldAt(fd: InputField, v: Json, path: Path) returns (r: Out)
      requires v.JObj? && SuppliedSpec(fd, v) != Fail(Endless)
      modifies this
      ensures Returns(SuppliedSpec(fd, v), r)
      ensures Done(old(used), old(defaults), path, SuppliedSpec(fd, v))
      decreases v, 0, 0
    {
      hide NoteAll, Prefixed, Recorded, Input;
      if fd.name !in v.members {
        NothingAdded(path);
        if fd.default.None? { return if fd.typ.nonNull then Err(ValueError) else Value(None); }
        r := TakeDefault(fd, path, Default(schema, fd));
        return;
      }
      r := InputAt(fd.typ, v.members[fd.name], path + [Key(fd.name)]);
      if r.Err? { return; }
      SuppliedPresent(fd.typ, v.members[fd.name]);
      RecordedBelow(record, path, Key(fd.name), Input(schema, fd.typ, v.members[fd.name]).defaults);
    }

    method InputObjectAt(fields: seq<InputField>, v: Json, path: Path) returns (r: Out)
      requires v.JObj? && InputFields(schema, fields, v) != NoFields(Endless)
      modifies this
      ensures Returns(ObjectResult(false, InputFields(schema, fields, v)), r)
      ensures Done(old(used), old(defaults), path, ObjectResult(false, InputFields(schema, fields, v)))
      decreases v, 0, 1
    {
      hide NoteAll, Prefixed, Recorded, Input, Filled, Default;
      ghost var whole := InputFields(schema, fields, v);
      ghost var names: seq<string>, paths: seq<Path> := [], [];
      var obj: map<string, Json> := map[];
      NothingAdded(path);
      FieldsAheadOfNothing(whole);
      assert fields[0..] == fields;
      var i := 0;
      while i < |fields|
        invariant i <= |fields|
        invariant whole == FieldsAhead(obj, names, paths, InputFields(schema, fields[i..], v))
        invariant Added(old(used), old(defaults), path, names, paths)
      {
        ghost var field := SuppliedSpec(fields[i], v);
        ghost var rest := InputFields(schema, fields[i + 1..], v);
        SuppliedFrom(fields, i, v);
        ghost var used1, defaults1 := used, defaults;
        var out := InputFieldAt(fields[i], v, path);
        if out.Err? { return out; }
        FieldsNext(obj, names, paths, fields[i].name, field, rest);
        AddedNext(old(used), old(defaults), path, names, paths, used1, defaults1, field.used, field.defaults);
        names, paths := names + field.used, paths + field.defaults;
        if out.value.Some? { obj := obj[fields[i].name := out.value.value]; }
        i := i + 1;
      }
      assert obj + map[] == obj && names + [] == names && paths + [] == paths;
      return Value(Some(JObj(obj)));
    }

    lemma {:induction false} SuppliedFrom(fields: seq<InputField>, i: nat, v: Json)
      requires i < |fields| && v.JObj?
      ensures InputFields(schema, fields[i..], v)
        == JoinField(fields[i].name, SuppliedSpec(fields[i], v), InputFields(schema, fields[i + 1..], v))
    {
      assert fields[i..][0] == fields[i] && fields[i..][1..] == fields[i + 1..];
    }
  }
}
