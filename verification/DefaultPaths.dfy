/** Which default paths a coercion reports (ftv-graphql-mapper/coerce.go):
    exactly those of the input fields nobody wrote, in terms of what was written
    or supplied. */
module DefaultPaths {
  import opened Base
  import opened Coercion
  import opened CoercionLaws
  import opened Coercers
  import opened Arguments
  import opened SuppliedValues

  lemma {:induction false} InPrefixed(seg: Seg, paths: seq<Path>, path: Path)
    ensures path in Prefixed([seg], paths) <==> path != [] && path[0] == seg && path[1..] in paths
  {
    var r := Prefixed([seg], paths);
    if path in r {
      var i :| 0 <= i < |r| && r[i] == path;
      assert path[1..] == paths[i];
    }
    if path != [] && path[0] == seg && path[1..] in paths {
      var i :| 0 <= i < |paths| && paths[i] == path[1..];
      assert r[i] == path;
    }
  }

  lemma OnlyKey(path: Path, name: string)
    ensures path in [[Key(name)]] <==> path != [] && path[0] == Key(name) && |path| == 1
  {
    if path != [] && path[0] == Key(name) && |path| == 1 { assert path == [Key(name)]; }
  }

  // ---- Supplied values ----

  /** In a supplied value, the path leads through what was supplied to an input
      field with a default that was not. A single value stands for a list. */
  ghost predicate Unsupplied(s: Schema, t: Type, v: Json, path: Path)
    decreases |path|, 1
  {
    && path != [] && !v.JNull?
    && if t.ListOf? then
         && path[0].Index?
         && if v.JList? then path[0].i < |v.items| && Unsupplied(s, t.elem, v.items[path[0].i], path[1..])
            else path[0].i == 0 && Unsupplied(s, t.elem, v, path[1..])
       else
         && t.name in s.types && s.types[t.name].InputObject? && v.JObj?
         && exists fd :: fd in s.types[t.name].fields && FieldUnsupplied(s, fd, v, path)
  }

  ghost predicate FieldUnsupplied(s: Schema, fd: InputField, v: Json, path: Path)
    requires path != [] && v.JObj?
    decreases |path|, 0
  {
    && path[0] == Key(fd.name)
    && if fd.name in v.members then Unsupplied(s, fd.typ, v.members[fd.name], path[1..]) else |path| == 1 && fd.default.Some?
  }

  lemma {:induction false} InputPaths(s: Schema, t: Type, v: Json, path: Path)
    requires Input(s, t, v).Got?
    ensures path in Input(s, t, v).defaults <==> Unsupplied(s, t, v, path)
    decreases v, Height(t) + 1, 0
  {
    hide InputItems, InputFields, ScalarInput, HasField, FieldUnsupplied;
    if v.JNull? {
    } else if t.ListOf? {
      if v.JList? {
        InputItemsPaths(s, t.elem, v, 0, path);
      } else {
        InPrefixed(Index(0), Input(s, t.elem, v).defaults, path);
        InputPresent(s, t.elem, v);
        if path != [] { InputPaths(s, t.elem, v, path[1..]); }
      }
    } else if s.types[t.name].InputObject? {
      InputFieldsPaths(s, s.types[t.name].fields, v, path);
    }
  }

  lemma {:induction false} InputItemsPaths(s: Schema, elem: Type, v: Json, i: nat, path: Path)
    requires v.JList? && i <= |v.items| && InputItems(s, elem, v, i).Items?
    ensures path in InputItems(s, elem, v, i).defaults <==>
      path != [] && path[0].Index? && i <= path[0].i < |v.items| && Unsupplied(s, elem, v.items[path[0].i], path[1..])
    decreases v, 0, |v.items| - i
  {
    hide Input, Unsupplied;
    if i < |v.items| {
      InPrefixed(Index(i), Input(s, elem, v.items[i]).defaults, path);
      InputItemsPaths(s, elem, v, i + 1, path);
      if path != [] { InputPaths(s, elem, v.items[i], path[1..]); }
    }
  }

  lemma {:induction false} InputFieldsPaths(s: Schema, fields: seq<InputField>, v: Json, path: Path)
    requires v.JObj? && InputFields(s, fields, v).Fields?
    ensures path in InputFields(s, fields, v).defaults <==>
      path != [] && exists fd :: fd in fields && FieldUnsupplied(s, fd, v, path)
    decreases v, 0, |fields|
  {
    hide Input, Unsupplied, Default, FieldUnsupplied;
    if fields != [] {
      var fd := fields[0];
      assert fields == [fd] + fields[1..];
      InputFieldsPaths(s, fields[1..], v, path);
      if fd.name in v.members {
        InputPresent(s, fd.typ, v.members[fd.name]);
        FilledSupplied(fd, Input(s, fd.typ, v.members[fd.name]), Default(s, fd));
        if path != [] { InputPaths(s, fd.typ, v.members[fd.name], path[1..]); }
        SuppliedPaths(s, fd, v, path);
      } else {
        OmittedPaths(s, fd, v, path);
      }
    }
  }

  lemma {:induction false} SuppliedPaths(s: Schema, fd: InputField, v: Json, path: Path)
    requires v.JObj? && fd.name in v.members && Input(s, fd.typ, v.members[fd.name]).Got? && Input(s, fd.typ, v.members[fd.name]).value.Some?
    requires path != [] ==> (path[1..] in Input(s, fd.typ, v.members[fd.name]).defaults <==> Unsupplied(s, fd.typ, v.members[fd.name], path[1..]))
    ensures path in Filled(fd, Input(s, fd.typ, v.members[fd.name]), Default(s, fd)).defaults <==> path != [] && FieldUnsupplied(s, fd, v, path)
  {
    hide Input, Unsupplied, Default;
    InPrefixed(Key(fd.name), Input(s, fd.typ, v.members[fd.name]).defaults, path);
  }

  lemma {:induction false} OmittedPaths(s: Schema, fd: InputField, v: Json, path: Path)
    requires v.JObj? && fd.name !in v.members && Filled(fd, Got(None, [], []), Default(s, fd)).Got?
    ensures path in Filled(fd, Got(None, [], []), Default(s, fd)).defaults <==> path != [] && FieldUnsupplied(s, fd, v, path)
  {
    hide Unsupplied, Default;
    OnlyKey(path, fd.name);
  }

  // ---- Written values ----

  /** In what is written at a custom scalar, the path leads to a variable, and on
      along one of its default paths. */
  ghost predicate UntypedUnwritten(vars: Vars, v: Value, path: Path)
    decreases v
  {
    match v
    case Var(name) => name in vars && path in vars[name].defaults
    case ListV(items) =>
      path != [] && path[0].Index? && path[0].i < |items| && UntypedUnwritten(vars, items[path[0].i], path[1..])
    case ObjV(members) =>
      path != [] && exists i :: 0 <= i < |members| && path[0] == Key(members[i].name) && UntypedUnwritten(vars, members[i].value, path[1..])
    case _ => false
  }

  /** What is written for the field has a value: something other than a variable
      without one. */
  predicate HasValue(vars: Vars, w: Option<Value>) { w.Some? && (w.value.Var? ==> w.value.name in vars) }

  /** In a literal, the path leads through what was written to an input field
      with a default that was not, or through a variable along one of its own
      default paths. */
  ghost predicate Unwritten(s: Schema, vars: Vars, t: Type, v: Value, path: Path)
    decreases |path|, Height(t), 1
  {
    if v.Var? then v.name in vars && path in vars[v.name].defaults
    else
      && path != [] && !v.Null?
      && if t.ListOf? then
           && path[0].Index?
           && if v.ListV? then path[0].i < |v.items| && Unwritten(s, vars, t.elem, v.items[path[0].i], path[1..])
              else path[0].i == 0 && Unwritten(s, vars, t.elem, v, path[1..])
         else t.name in s.types && match s.types[t.name]
           case Scalar => Kind(t.name).CustomKind? && UntypedUnwritten(vars, v, path)
           case InputObject(fields, _) => v.ObjV? && exists fd :: fd in fields && FieldUnwritten(s, vars, fd, v, path)
           case _ => false
  }

  ghost predicate FieldUnwritten(s: Schema, vars: Vars, fd: InputField, v: Value, path: Path)
    requires path != [] && v.ObjV?
    decreases |path|, 0, 0
  {
    var w := Written(v.members, fd.name);
    && path[0] == Key(fd.name)
    && if HasValue(vars, w) then Unwritten(s, vars, fd.typ, w.value, path[1..]) else |path| == 1 && fd.default.Some?
  }

  lemma {:induction false} UntypedPaths(vars: Vars, v: Value, path: Path)
    ensures path in Untyped(vars, v).defaults <==> UntypedUnwritten(vars, v, path)
    decreases v, 1, 0
  {
    hide UntypedItems, UntypedFields;
    if v.ListV? { UntypedItemsPaths(vars, v, 0, path); }
    if v.ObjV? { UntypedFieldsPaths(vars, v, 0, path); }
  }

  lemma {:induction false} UntypedItemsPaths(vars: Vars, v: Value, i: nat, path: Path)
    requires v.ListV? && i <= |v.items|
    ensures path in UntypedItems(vars, v, i).defaults <==>
      path != [] && path[0].Index? && i <= path[0].i < |v.items| && UntypedUnwritten(vars, v.items[path[0].i], path[1..])
    decreases v, 0, |v.items| - i
  {
    hide Untyped, UntypedUnwritten;
    if i < |v.items| {
      InPrefixed(Index(i), Untyped(vars, v.items[i]).defaults, path);
      UntypedItemsPaths(vars, v, i + 1, path);
      if path != [] { UntypedPaths(vars, v.items[i], path[1..]); }
    }
  }

  lemma {:induction false} UntypedFieldsPaths(vars: Vars, v: Value, i: nat, path: Path)
    requires v.ObjV? && i <= |v.members|
    ensures path in UntypedFields(vars, v, i).defaults <==>
      path != [] && exists k :: i <= k < |v.members| && path[0] == Key(v.members[k].name) && UntypedUnwritten(vars, v.members[k].value, path[1..])
    decreases v, 0, |v.members| - i
  {
    hide Untyped, UntypedUnwritten;
    if i < |v.members| {
      InPrefixed(Key(v.members[i].name), Untyped(vars, v.members[i].value).defaults, path);
      UntypedFieldsPaths(vars, v, i + 1, path);
      if path != [] { UntypedPaths(vars, v.members[i].value, path[1..]); }
    }
  }

  lemma {:induction false} LiteralPaths(s: Schema, vars: Vars, t: Type, v: Value, n: nat, path: Path)
    requires Literal(s, vars, t, v, n).Got?
    ensures path in Literal(s, vars, t, v, n).defaults <==> Unwritten(s, vars, t, v, path)
    decreases n, v, Height(t) + 1, 0
  {
    hide LiteralItems, LiteralFields, ScalarLiteral, FieldUnwritten, UntypedUnwritten;
    if v.Var? || v.Null? {
    } else if t.ListOf? {
      if v.ListV? {
        LiteralItemsPaths(s, vars, t.elem, v, 0, n, path);
      } else {
        InPrefixed(Index(0), Literal(s, vars, t.elem, v, n).defaults, path);
        LiteralPresent(s, vars, t.elem, v, n);
        if path != [] { LiteralPaths(s, vars, t.elem, v, n, path[1..]); }
      }
    } else {
      match s.types[t.name] {
        case Scalar => ScalarPaths(s, vars, t.name, v, path);
        case InputObject(fields, _) => LiteralFieldsPaths(s, vars, fields, v, n, path);
        case _ =>
      }
    }
  }

  lemma {:induction false} ScalarPaths(s: Schema, vars: Vars, name: string, v: Value, path: Path)
    requires !v.Var? && !v.Null? && ScalarLiteral(s, vars, name, v).Got?
    ensures path in ScalarLiteral(s, vars, name, v).defaults <==> path != [] && Kind(name).CustomKind? && UntypedUnwritten(vars, v, path)
  {
    hide Untyped, ParseInt32;
    UntypedPaths(vars, v, path);
  }

  lemma {:induction false} LiteralItemsPaths(s: Schema, vars: Vars, elem: Type, v: Value, i: nat, n: nat, path: Path)
    requires v.ListV? && i <= |v.items| && LiteralItems(s, vars, elem, v, i, n).Items?
    ensures path in LiteralItems(s, vars, elem, v, i, n).defaults <==>
      path != [] && path[0].Index? && i <= path[0].i < |v.items| && Unwritten(s, vars, elem, v.items[path[0].i], path[1..])
    decreases n, v, 0, |v.items| - i
  {
    hide Literal, Unwritten;
    if i < |v.items| {
      InPrefixed(Index(i), Literal(s, vars, elem, v.items[i], n).defaults, path);
      LiteralItemsPaths(s, vars, elem, v, i + 1, n, path);
      if path != [] { LiteralPaths(s, vars, elem, v.items[i], n, path[1..]); }
    }
  }

  lemma {:induction false} LiteralFieldsPaths(s: Schema, vars: Vars, fields: seq<InputField>, v: Value, n: nat, path: Path)
    requires v.ObjV? && LiteralFields(s, vars, fields, v, n).Fields?
    ensures path in LiteralFields(s, vars, fields, v, n).defaults <==>
      path != [] && exists fd :: fd in fields && FieldUnwritten(s, vars, fd, v, path)
    decreases n, v, 0, |fields|
  {
    hide Literal, Unwritten, FieldUnwritten, Written, Filled;
    if fields != [] {
      var fd := fields[0];
      assert fields == [fd] + fields[1..];
      LiteralFieldsPaths(s, vars, fields[1..], v, n, path);
      var w := Written(v.members, fd.name);
      WrittenIn(v.members, fd.name);
      var default := if fd.default.Some? && fd.rank < n then Literal(s, map[], fd.typ, fd.default.value, fd.rank) else Fail(Endless);
      var supplied := if w.Some? then Literal(s, vars, fd.typ, w.value, n) else Got(None, [], []);
      ValueGiven(s, vars, fd.typ, w, n);
      FilledSupplied(fd, supplied, default);
      if path != [] && HasValue(vars, w) { LiteralPaths(s, vars, fd.typ, w.value, n, path[1..]); }
      FieldPaths(s, vars, fd, v, supplied, default, path);
    }
  }

  lemma {:induction false} FilledSupplied(fd: InputField, supplied: Result, default: Result)
    requires Filled(fd, supplied, default).Got?
    ensures supplied.Got?
  {}

  lemma {:induction false} ValueGiven(s: Schema, vars: Vars, t: Type, w: Option<Value>, n: nat)
    ensures var r := if w.Some? then Literal(s, vars, t, w.value, n) else Got(None, [], []);
      r.Got? ==> (r.value.Some? <==> HasValue(vars, w))
  {
    hide LiteralItems, LiteralFields, ScalarLiteral;
    if w.Some? && !w.value.Var? { LiteralPresent(s, vars, t, w.value, n); }
  }

  lemma {:induction false} FieldPaths(s: Schema, vars: Vars, fd: InputField, v: Value, supplied: Result, default: Result, path: Path)
    requires v.ObjV? && supplied.Got? && Filled(fd, supplied, default).Got?
    requires supplied.value.Some? <==> HasValue(vars, Written(v.members, fd.name))
    requires path != [] && supplied.value.Some? ==>
      (path[1..] in supplied.defaults <==> Unwritten(s, vars, fd.typ, Written(v.members, fd.name).value, path[1..]))
    ensures path in Filled(fd, supplied, default).defaults <==> path != [] && FieldUnwritten(s, vars, fd, v, path)
  {
    hide Unwritten, Written;
    InPrefixed(Key(fd.name), supplied.defaults, path);
    OnlyKey(path, fd.name);
  }

  /** An argument taken from the document reports as schema defaults exactly the
      paths of the input fields nobody wrote or supplied a value for. */
  lemma {:induction false} ArgumentDefaultsExact(s: Schema, vars: Vars, def: ArgumentDef, written: Value, path: Path)
    requires Literal(s, vars, def.typ, written, s.bound).Got? && Literal(s, vars, def.typ, written, s.bound).value.Some?
    ensures var r := Argument(s, vars, def, Some(written));
      r.Resolved? && (path in r.arg.schemaDefaults <==> Unwritten(s, vars, def.typ, written, path))
  {
    hide Literal, Unwritten, NoteAll;
    LiteralPaths(s, vars, def.typ, written, s.bound, path);
  }
}
