/** Two schemas that agree on the input types of one of them coerce alike:
    the order of their fields, the order in their default objects and the
    style of their strings make no difference to a value. */
module Agreement {
  import opened Base
  import opened Coercion
  import opened CoercionLaws
  import SuppliedValues
  import opened Arguments
  import opened Canonical
  import Coercers
  import opened Documents

  // ---- Agreeing schemas ----

  /** Two literals that canonical texts do not tell apart have, at every ID,
      strings of the same style: an ID takes a plain string and refuses a block
      string. */
  ghost predicate SameStyle(s: Schema, t: Type, v: Value, w: Value)
    decreases v, Height(t) + 1
  {
    if t.ListOf? then
      if v.ListV? then w.ListV? ==> forall i :: 0 <= i < |v.items| && i < |w.items| ==> SameStyle(s, t.elem, v.items[i], w.items[i])
      else SameStyle(s, t.elem, v, w)
    else if t.name !in s.types then true
    else match s.types[t.name]
      case Scalar => Kind(t.name).IdKind? ==> (v.BlockV? <==> w.BlockV?)
      case InputObject(fields, _) =>
        v.ObjV? && w.ObjV? ==> forall j :: 0 <= j < |fields| ==> MembersStyled(s, fields[j], v, w)
      case _ => true
  }

  ghost predicate MembersStyled(s: Schema, fd: InputField, v: Value, w: Value)
    requires v.ObjV? && w.ObjV?
    decreases v, 0
  {
    forall i, k :: 0 <= i < |v.members| && 0 <= k < |w.members| && v.members[i].name == fd.name && w.members[k].name == fd.name
      ==> SameStyle(s, fd.typ, v.members[i].value, w.members[k].value)
  }

  ghost predicate DefaultAgrees(a: Option<Value>, b: Option<Value>) {
    && (a.Some? <==> b.Some?)
    && (a.Some? ==> Unique(a.value) && Unique(b.value) && NormOf(a.value) == NormOf(b.value))
  }

  ghost predicate FieldAgrees(f: InputField, g: InputField) {
    f.name == g.name && f.typ == g.typ && DefaultAgrees(f.default, g.default)
  }

  ghost predicate FieldsAgree(f: seq<InputField>, g: seq<InputField>) {
    && Distinct(f) && Distinct(g)
    && (forall i :: 0 <= i < |f| ==> IsRepeated(f[i], g))
    && (forall j :: 0 <= j < |g| ==> Repeats(f, g[j]))
  }

  ghost predicate IsRepeated(f: InputField, g: seq<InputField>) { exists j :: 0 <= j < |g| && FieldAgrees(f, g[j]) }

  ghost predicate Repeats(f: seq<InputField>, g: InputField) { exists i :: 0 <= i < |f| && FieldAgrees(f[i], g) }

  ghost predicate TypeAgrees(a: TypeDef, b: TypeDef) {
    match a
    case Scalar => b.Scalar?
    case Enum(values) => b.Enum? && forall x :: x in values <==> x in b.values
    case InputObject(fields, _) => b.InputObject? && FieldsAgree(fields, b.fields)
    case NotInput => b.NotInput?
  }

  predicate Known(s: Schema, t: Type) { NamedType(t) in s.types }

  ghost predicate SameFinite(f: string -> bool, g: string -> bool) { forall raw :: f(raw) == g(raw) }

  /** s2 has every type of s, with the same fields and defaults; s names only
      types it has. This is what the comparison of schemas looks at. */
  ghost predicate Matches(s: Schema, s2: Schema) {
    && SameFinite(s.finite, s2.finite)
    && (forall t :: t in s.types ==> t in s2.types && TypeAgrees(s.types[t], s2.types[t]))
    && (forall t, i :: t in s.types && s.types[t].InputObject? && 0 <= i < |s.types[t].fields| ==>
          Known(s, s.types[t].fields[i].typ))
  }

  /** The schemas agree in what the comparison does not look at, too: in every
      default, or in all that take effect. */
  ghost predicate Agrees(s: Schema, s2: Schema) {
    Matches(s, s2) && SameOneOf(s, s2) && (SameStyles(s, s2) || Unaffected(s, s2))
  }

  /** The same input objects are OneOf. */
  ghost predicate SameOneOf(s: Schema, s2: Schema) {
    forall t :: t in s.types && t in s2.types && s.types[t].InputObject? && s2.types[t].InputObject? ==>
      s.types[t].oneOf == s2.types[t].oneOf
  }

  /** The defaults of an input field have the same style on both sides. */
  ghost predicate SameStyles(s: Schema, s2: Schema) {
    forall t, i, j :: t in s.types && t in s2.types && s.types[t].InputObject? && s2.types[t].InputObject?
      && 0 <= i < |s.types[t].fields| && 0 <= j < |s2.types[t].fields|
      && s.types[t].fields[i].name == s2.types[t].fields[j].name
      ==> StyledAlike(s, s.types[t].fields[i].typ, s.types[t].fields[i].default, s2.types[t].fields[j].default)
  }

  /** Where the styles of a default differ, neither side takes an object that
      leaves the field out. */
  ghost predicate Unaffected(s: Schema, s2: Schema) {
    forall t, i: nat, j: nat :: Restyled(s, s2, t, i, j) ==> Idle(s, t, s.types[t].fields[i].name) && Idle(s2, t, s.types[t].fields[i].name)
  }

  ghost predicate Restyled(s: Schema, s2: Schema, t: string, i: nat, j: nat) {
    && t in s.types && t in s2.types && s.types[t].InputObject? && s2.types[t].InputObject?
    && i < |s.types[t].fields| && j < |s2.types[t].fields| && s.types[t].fields[i].name == s2.types[t].fields[j].name
    && !StyledAlike(s, s.types[t].fields[i].typ, s.types[t].fields[i].default, s2.types[t].fields[j].default)
  }

  /** Nothing is written for the field, or a variable. */
  predicate Omits(v: Value, name: string)
    requires v.ObjV?
  {
    Written(v.members, name).None? || Written(v.members, name).value.Var?
  }

  /** The default of the field is never taken: no constant and no supplied object
      that leaves the field out coerces. */
  ghost predicate Idle(s: Schema, t: string, name: string) {
    && (forall w: Value, n: nat :: w.ObjV? && Unique(w) && n <= s.bound && Omits(w, name) ==> Literal(s, map[], Named(t, false), w, n).Fail?)
    && (forall v: Json :: v.JObj? && name !in v.members ==> Input(s, Named(t, false), v).Fail?)
  }

  ghost predicate StyledAlike(s: Schema, t: Type, a: Option<Value>, b: Option<Value>) {
    a.Some? && b.Some? ==> SameStyle(s, t, a.value, b.value)
  }

  ghost predicate VarsAgree(vars: Vars, vars2: Vars) {
    && vars.Keys == vars2.Keys
    && forall x :: x in vars ==> vars[x].value == vars2[x].value && vars[x].defaulted == vars2[x].defaulted
  }

  // ---- Like results ----

  predicate Like(r: Result, r2: Result) {
    && (r.Fail? <==> r2.Fail?)
    && (r.Got? ==> r.value == r2.value && (r.used == [] <==> r2.used == []))
  }

  predicate LikeItems(r: Items, r2: Items) {
    && (r.NoItems? <==> r2.NoItems?)
    && (r.Items? ==> r.values == r2.values && (r.used == [] <==> r2.used == []))
  }

  predicate LikeFields(r: Fields, r2: Fields) {
    && (r.NoFields? <==> r2.NoFields?)
    && (r.Fields? ==> r.obj == r2.obj && (r.used == [] <==> r2.used == []))
  }

  // ---- Object results do not depend on the order of fields ----

  /** What joining the fields of an object yields, given the result of each. */
  ghost predicate JoinedFrom(specs: map<string, Result>, r: Fields) {
    && (r.NoFields? <==> exists k :: k in specs && specs[k].Fail?)
    && (r.Fields? ==>
          && r.obj == (map k | k in specs && specs[k].Got? && specs[k].value.Some? :: specs[k].value.value)
          && (r.used == [] <==> forall k :: k in specs ==> specs[k].Got? && specs[k].used == []))
  }

  lemma {:induction false} JoinStep(specs: map<string, Result>, name: string, spec: Result, rest: Fields)
    requires name !in specs && JoinedFrom(specs, rest)
    ensures JoinedFrom(specs[name := spec], JoinField(name, spec, rest))
  {
    var all, r := specs[name := spec], JoinField(name, spec, rest);
    if k :| k in specs && specs[k].Fail? { assert k in all && all[k].Fail?; }
    if spec.Fail? { assert name in all && all[name].Fail?; }
    if r.Fields? {
      var wanted := map k | k in all && all[k].Got? && all[k].value.Some? :: all[k].value.value;
      forall k ensures k in r.obj <==> k in wanted {}
      forall k | k in wanted ensures r.obj[k] == wanted[k] {}
      assert r.obj == wanted;
      if r.used == [] {
        forall k | k in all ensures all[k].Got? && all[k].used == [] {
          if k != name { assert k in specs; }
        }
      } else if spec.used == [] {
        var k :| k in specs && !(specs[k].Got? && specs[k].used == []);
        assert k in all && all[k] == specs[k];
      } else {
        assert name in all;
      }
    }
  }

  /** Joining like results of the same fields, in whatever order, gives like
      objects. */
  lemma {:induction false} JoinedAlike(specs: map<string, Result>, r: Fields, specs2: map<string, Result>, r2: Fields)
    requires JoinedFrom(specs, r) && JoinedFrom(specs2, r2)
    requires forall k :: k in specs <==> k in specs2
    requires forall k :: k in specs ==> Like(specs[k], specs2[k])
    ensures LikeFields(r, r2)
  {}

  // ---- Like literals ----

  /** Two literals that stand for the same value at a type. */
  ghost predicate SamePlace(s: Schema, t: Type, v: Value, w: Value) {
    Unique(v) && Unique(w) && NormOf(v) == NormOf(w) && (v == w || SameStyle(s, t, v, w))
  }

  lemma {:induction false} NormKinds(v: Value, w: Value)
    requires NormOf(v) == NormOf(w)
    ensures v.Var? <==> w.Var?
    ensures v.Var? ==> v.name == w.name
    ensures v.Null? <==> w.Null?
    ensures v.ListV? <==> w.ListV?
    ensures v.ObjV? <==> w.ObjV?
    ensures v.EnumV? <==> w.EnumV?
    ensures v.EnumV? ==> v.raw == w.raw
  {}

  lemma {:induction false} NormItems(v: Value, w: Value)
    requires v.ListV? && w.ListV? && NormOf(v) == NormOf(w)
    ensures |v.items| == |w.items| && forall i :: 0 <= i < |v.items| ==> NormOf(v.items[i]) == NormOf(w.items[i])
  {
    var p, q := NormOf(v).items, NormOf(w).items;
    assert |p| == |v.items| && |q| == |w.items|;
    assert forall i :: 0 <= i < |p| ==> p[i] == NormOf(v.items[i]) && q[i] == NormOf(w.items[i]);
  }

  lemma {:induction false} UniqueItems(v: Value)
    requires v.ListV? && Unique(v)
    ensures forall i :: 0 <= i < |v.items| ==> Unique(v.items[i])
  {}

  /** Objects that are the same up to order hold like members. */
  lemma {:induction false} NormWritten(v: Value, w: Value, k: string)
    requires v.ObjV? && w.ObjV? && Unique(v) && Unique(w) && NormOf(v) == NormOf(w)
    ensures Written(v.members, k).Some? <==> Written(w.members, k).Some?
    ensures Written(v.members, k).Some? ==> NormOf(Written(v.members, k).value) == NormOf(Written(w.members, k).value)
  {
    hide NormOf, Unique, Written;
    ObjectNorm(v);
    ObjectNorm(w);
    UniqueMembers(v);
    UniqueMembers(w);
    WrittenIn(v.members, k);
    WrittenIn(w.members, k);
    if Written(v.members, k).Some? {
      var i :| 0 <= i < |v.members| && v.members[i].name == k && v.members[i].value == Written(v.members, k).value;
      var j := FieldIn(v.members, w.members, i);
      var l :| 0 <= l < |w.members| && w.members[l].name == k && w.members[l].value == Written(w.members, k).value;
      assert j == l;
    }
    if Written(w.members, k).Some? {
      var i :| 0 <= i < |w.members| && w.members[i].name == k && w.members[i].value == Written(w.members, k).value;
      var j := FieldIn(w.members, v.members, i);
    }
  }

  lemma {:induction false} ScalarLike(s: Schema, s2: Schema, vars: Vars, vars2: Vars, name: string, v: Value, w: Value)
    requires (forall raw :: s.finite(raw) == s2.finite(raw)) && VarsAgree(vars, vars2)
    requires Unique(v) && Unique(w) && NormOf(v) == NormOf(w) && !v.Var? && !v.Null?
    requires Kind(name).IdKind? ==> (v.BlockV? <==> w.BlockV?)
    ensures Like(ScalarLiteral(s, vars, name, v), ScalarLiteral(s2, vars2, name, w))
  {
    hide ParseInt32, Untyped, Unique, VarsAgree;
    if Kind(name).CustomKind? { UntypedLike(vars, vars2, v, w); }
  }

  function UntypedSpecs(vars: Vars, v: Value, i: nat): map<string, Result>
    requires v.ObjV? && i <= |v.members|
    decreases |v.members| - i
  {
    if i == |v.members| then map[]
    else
      var r := Untyped(vars, v.members[i].value);
      UntypedSpecs(vars, v, i + 1)[v.members[i].name := Got(r.value, r.used, Prefixed([Key(v.members[i].name)], r.defaults))]
  }

  lemma {:induction false} UntypedSpecsAt(vars: Vars, v: Value, i: nat, k: string)
    requires v.ObjV? && i <= |v.members| && Unique(v)
    ensures k in UntypedSpecs(vars, v, i) <==> Written(v.members[i..], k).Some?
    ensures k in UntypedSpecs(vars, v, i) ==>
      var r, x := UntypedSpecs(vars, v, i)[k], Untyped(vars, Written(v.members[i..], k).value);
      r.Got? && r.value == x.value && r.used == x.used
    decreases |v.members| - i
  {
    hide Untyped, Prefixed;
    if i < |v.members| {
      assert v.members[i..][0] == v.members[i] && v.members[i..][1..] == v.members[i + 1..];
      UntypedSpecsAt(vars, v, i + 1, k);
    }
  }

  lemma {:induction false} UntypedJoined(vars: Vars, v: Value, i: nat)
    requires v.ObjV? && i <= |v.members| && Unique(v)
    ensures JoinedFrom(UntypedSpecs(vars, v, i), UntypedFields(vars, v, i))
    decreases |v.members| - i
  {
    hide Untyped, JoinedFrom, JoinField, Prefixed;
    if i == |v.members| {
      NothingJoins(map[]);
    } else {
      var m := v.members[i];
      var r := Untyped(vars, m.value);
      UntypedJoined(vars, v, i + 1);
      UntypedSpecsAt(vars, v, i + 1, m.name);
      WrittenIn(v.members[i + 1..], m.name);
      JoinStep(UntypedSpecs(vars, v, i + 1), m.name, Got(r.value, r.used, Prefixed([Key(m.name)], r.defaults)),
               UntypedFields(vars, v, i + 1));
    }
  }

  lemma {:induction false} NothingJoins(specs: map<string, Result>)
    requires forall k :: k !in specs
    ensures JoinedFrom(specs, Fields(map[], [], []))
  {}

  lemma {:induction false} UntypedLike(vars: Vars, vars2: Vars, v: Value, w: Value)
    requires VarsAgree(vars, vars2) && Unique(v) && Unique(w) && NormOf(v) == NormOf(w)
    ensures Like(Untyped(vars, v), Untyped(vars2, w))
    decreases v, 1, 0
  {
    hide Unique, UntypedItems, UntypedFields, VarsAgree;
    NormKinds(v, w);
    if v.ListV? {
      UntypedItemsLike(vars, vars2, v, w, 0);
    } else if v.ObjV? {
      UntypedObjectLike(vars, vars2, v, w);
    } else if v.Var? {
      VariableLike(vars, vars2, v.name);
    }
  }

  lemma {:induction false} VariableLike(vars: Vars, vars2: Vars, x: string)
    requires VarsAgree(vars, vars2)
    ensures Like(UseVariable(vars, x), UseVariable(vars2, x))
  {
    assert x in vars.Keys <==> x in vars2.Keys;
  }

  lemma {:induction false} UntypedItemsLike(vars: Vars, vars2: Vars, v: Value, w: Value, i: nat)
    requires VarsAgree(vars, vars2) && Unique(v) && Unique(w) && NormOf(v) == NormOf(w)
    requires v.ListV? && w.ListV? && i <= |v.items|
    ensures |v.items| == |w.items| && LikeItems(UntypedItems(vars, v, i), UntypedItems(vars2, w, i))
    decreases v, 0, |v.items| - i
  {
    hide Unique, Untyped, VarsAgree, NormOf;
    NormItems(v, w);
    UniqueItems(v);
    UniqueItems(w);
    if i < |v.items| {
      UntypedLike(vars, vars2, v.items[i], w.items[i]);
      UntypedItemsLike(vars, vars2, v, w, i + 1);
    }
  }

  lemma {:induction false} UntypedObjectLike(vars: Vars, vars2: Vars, v: Value, w: Value)
    requires VarsAgree(vars, vars2) && Unique(v) && Unique(w) && NormOf(v) == NormOf(w) && v.ObjV? && w.ObjV?
    ensures LikeFields(UntypedFields(vars, v, 0), UntypedFields(vars2, w, 0))
    decreases v, 0, |v.members| + 1
  {
    hide Unique, Untyped, VarsAgree, NormOf, UntypedFields, UntypedSpecs, JoinedFrom, Written;
    UntypedJoined(vars, v, 0);
    UntypedJoined(vars2, w, 0);
    UniqueMembers(v);
    UniqueMembers(w);
    assert v.members[0..] == v.members && w.members[0..] == w.members;
    var specs, specs2 := UntypedSpecs(vars, v, 0), UntypedSpecs(vars2, w, 0);
    forall k ensures k in specs <==> k in specs2 {
      UntypedSpecsAt(vars, v, 0, k);
      UntypedSpecsAt(vars2, w, 0, k);
      NormWritten(v, w, k);
    }
    forall k | k in specs ensures Like(specs[k], specs2[k]) {
      UntypedSpecsAt(vars, v, 0, k);
      UntypedSpecsAt(vars2, w, 0, k);
      NormWritten(v, w, k);
      WrittenIn(v.members, k);
      WrittenIn(w.members, k);
      var i :| 0 <= i < |v.members| && v.members[i].name == k && v.members[i].value == Written(v.members, k).value;
      var j :| 0 <= j < |w.members| && w.members[j].name == k && w.members[j].value == Written(w.members, k).value;
      UntypedLike(vars, vars2, v.members[i].value, w.members[j].value);
    }
    JoinedAlike(specs, UntypedFields(vars, v, 0), specs2, UntypedFields(vars2, w, 0));
  }

  // ---- Literals at a type ----

  function DefaultSpec(s: Schema, fd: InputField, n: nat): Result {
    if fd.default.Some? && fd.rank < n then Literal(s, map[], fd.typ, fd.default.value, fd.rank) else Fail(Endless)
  }

  function WrittenSpec(s: Schema, vars: Vars, fd: InputField, v: Value, n: nat): Result
    requires v.ObjV?
  {
    var written := Written(v.members, fd.name);
    if written.Some? then Literal(s, vars, fd.typ, written.value, n) else Got(None, [], [])
  }

  function SpecMap(s: Schema, vars: Vars, fields: seq<InputField>, v: Value, n: nat): map<string, Result>
    requires v.ObjV?
    decreases |fields|
  {
    if fields == [] then map[]
    else
      var fd := fields[0];
      SpecMap(s, vars, fields[1..], v, n)[fd.name := Filled(fd, WrittenSpec(s, vars, fd, v, n), DefaultSpec(s, fd, n))]
  }

  lemma {:induction false} SpecMapAt(s: Schema, vars: Vars, fields: seq<InputField>, v: Value, n: nat)
    requires v.ObjV? && Distinct(fields)
    ensures forall k :: k in SpecMap(s, vars, fields, v, n) <==> HasField(fields, k)
    ensures forall i :: 0 <= i < |fields| ==>
      && fields[i].name in SpecMap(s, vars, fields, v, n)
      && SpecMap(s, vars, fields, v, n)[fields[i].name]
        == Filled(fields[i], WrittenSpec(s, vars, fields[i], v, n), DefaultSpec(s, fields[i], n))
    decreases |fields|
  {
    hide WrittenSpec, DefaultSpec, Filled;
    if fields != [] {
      SpecMapAt(s, vars, fields[1..], v, n);
      FirstIsApart(fields);
      forall k ensures HasField(fields, k) <==> k == fields[0].name || HasField(fields[1..], k) {
        SuppliedValues.HasFieldApart(fields, k);
      }
      forall i | 0 <= i < |fields|
        ensures fields[i].name in SpecMap(s, vars, fields, v, n)
          && SpecMap(s, vars, fields, v, n)[fields[i].name]
            == Filled(fields[i], WrittenSpec(s, vars, fields[i], v, n), DefaultSpec(s, fields[i], n))
      {
        if i > 0 { assert fields[i] == fields[1..][i - 1] && fields[i].name != fields[0].name; }
      }
    }
  }

  lemma {:induction false} LiteralFieldsJoined(s: Schema, vars: Vars, fields: seq<InputField>, v: Value, n: nat)
    requires v.ObjV? && Distinct(fields)
    ensures JoinedFrom(SpecMap(s, vars, fields, v, n), LiteralFields(s, vars, fields, v, n))
    decreases |fields|
  {
    hide JoinedFrom, JoinField, Literal, Filled;
    if fields == [] {
      NothingJoins(map[]);
    } else {
      var fd := fields[0];
      FirstIsApart(fields);
      SpecMapAt(s, vars, fields[1..], v, n);
      LiteralFieldsJoined(s, vars, fields[1..], v, n);
      JoinStep(SpecMap(s, vars, fields[1..], v, n), fd.name,
               Filled(fd, WrittenSpec(s, vars, fd, v, n), DefaultSpec(s, fd, n)),
               LiteralFields(s, vars, fields[1..], v, n));
    }
  }

  lemma {:induction false} FilledLike(fd: InputField, fd2: InputField, r: Result, r2: Result, d: Result, d2: Result)
    requires FieldAgrees(fd, fd2) && Like(r, r2)
    requires r.Got? && r.value.None? && fd.default.Some? ==> Like(d, d2)
    ensures Like(Filled(fd, r, d), Filled(fd2, r2, d2))
  {}

  ghost predicate Ready(s: Schema, s2: Schema) { Agrees(s, s2) && Acyclic(s) && Acyclic(s2) }

  lemma {:induction false} LiteralLike(s: Schema, s2: Schema, vars: Vars, vars2: Vars, t: Type, v: Value, w: Value, n: nat, m: nat)
    requires Ready(s, s2) && VarsAgree(vars, vars2) && Known(s, t) && SamePlace(s, t, v, w)
    requires Below(s, t, v, n) && Below(s2, t, w, m) && Governed(s, s2, vars, vars2, n, m)
    ensures Like(Literal(s, vars, t, v, n), Literal(s2, vars2, t, w, m))
    decreases n, v, Height(t) + 1, 0
  {
    hide Unique, NormOf, LiteralItems, LiteralFields, ScalarLiteral, VarsAgree, Ready, Below, Governed, StyledIn;
    NormKinds(v, w);
    if v.Var? {
      VariableLike(vars, vars2, v.name);
    } else if v.Null? {
    } else if t.ListOf? {
      if v.ListV? {
        ItemPlaces(s, s2, t, v, w, n, m);
        LiteralItemsLike(s, s2, vars, vars2, t.elem, v, w, 0, n, m);
      } else {
        ElemPlace(s, s2, t, v, w, n, m);
        LiteralLike(s, s2, vars, vars2, t.elem, v, w, n, m);
      }
    } else {
      ReadyTypes(s, s2, t.name);
      match s.types[t.name] {
        case Scalar => ScalarLike(s, s2, vars, vars2, t.name, v, w);
        case Enum(values) =>
        case InputObject(fields, oneOf) =>
          if v.ObjV? {
            SameMembers(v, w);
            if StyledIn(s, s2, t.name, v) {
              LiteralFieldsLike(s, s2, vars, vars2, t, v, w, n, m);
            } else {
              BothIdle(s, s2, vars, vars2, t, v, w, n, m);
            }
          }
        case NotInput =>
      }
    }
  }

  /** Only constants are coerced where not every default has the same style. */
  ghost predicate Governed(s: Schema, s2: Schema, vars: Vars, vars2: Vars, n: nat, m: nat) {
    SameStyles(s, s2) || (vars == map[] && vars2 == map[] && n <= s.bound && m <= s2.bound)
  }

  /** The defaults a literal takes at this type have the same style. */
  ghost predicate StyledIn(s: Schema, s2: Schema, t: string, v: Value)
    requires v.ObjV?
  {
    forall i: nat, j: nat :: Restyled(s, s2, t, i, j) ==> !Omits(v, s.types[t].fields[i].name)
  }

  lemma {:induction false} BothIdle(s: Schema, s2: Schema, vars: Vars, vars2: Vars, t: Type, v: Value, w: Value, n: nat, m: nat)
    requires Ready(s, s2) && Governed(s, s2, vars, vars2, n, m) && t.Named? && v.ObjV? && w.ObjV?
    requires Unique(v) && Unique(w) && NormOf(v) == NormOf(w) && !StyledIn(s, s2, t.name, v)
    ensures Literal(s, vars, t, v, n).Fail? && Literal(s2, vars2, t, w, m).Fail?
  {
    hide Unique, NormOf, Written, LiteralFields, Matches, SameOneOf, Arguments.Acyclic, StyledAlike;
    var i: nat, j: nat :| Restyled(s, s2, t.name, i, j) && Omits(v, s.types[t.name].fields[i].name);
    var name := s.types[t.name].fields[i].name;
    NormWritten(v, w, name);
    if Written(v.members, name).Some? { NormKinds(Written(v.members, name).value, Written(w.members, name).value); }
    assert Omits(w, name);
    NeverSameStyles(s, s2, t.name, i, j);
    IdleObject(s, t, v, n, name);
    IdleObject(s2, t, w, m, name);
  }

  lemma {:induction false} NeverSameStyles(s: Schema, s2: Schema, t: string, i: nat, j: nat)
    requires Restyled(s, s2, t, i, j)
    ensures !SameStyles(s, s2)
  {
    hide StyledAlike;
  }

  lemma {:induction false} IdleObject(s: Schema, t: Type, v: Value, n: nat, name: string)
    requires t.Named? && Idle(s, t.name, name) && v.ObjV? && Unique(v) && n <= s.bound && Omits(v, name)
    ensures Literal(s, map[], t, v, n).Fail?
  {
    hide Unique, Omits, LiteralFields, Input;
    assert Literal(s, map[], Named(t.name, false), v, n).Fail?;
  }

  lemma {:induction false} ReadyTypes(s: Schema, s2: Schema, t: string)
    requires Ready(s, s2) && t in s.types
    ensures t in s2.types && TypeAgrees(s.types[t], s2.types[t]) && forall raw :: s.finite(raw) == s2.finite(raw)
    ensures s.types[t].InputObject? ==> s2.types[t].oneOf == s.types[t].oneOf
  {}

  lemma {:induction false} ElemPlace(s: Schema, s2: Schema, t: Type, v: Value, w: Value, n: nat, m: nat)
    requires t.ListOf? && !v.ListV? && !w.ListV? && !v.Var? && !v.Null? && !w.Var? && !w.Null?
    requires Known(s, t) && SamePlace(s, t, v, w) && Below(s, t, v, n) && Below(s2, t, w, m)
    ensures Known(s, t.elem) && SamePlace(s, t.elem, v, w) && Below(s, t.elem, v, n) && Below(s2, t.elem, w, m)
  {
    hide Unique, NormOf;
  }

  lemma {:induction false} ItemPlaces(s: Schema, s2: Schema, t: Type, v: Value, w: Value, n: nat, m: nat)
    requires t.ListOf? && v.ListV? && w.ListV?
    requires Known(s, t) && SamePlace(s, t, v, w) && Below(s, t, v, n) && Below(s2, t, w, m)
    ensures Known(s, t.elem) && |v.items| == |w.items|
    ensures forall i :: 0 <= i < |v.items| ==>
      SamePlace(s, t.elem, v.items[i], w.items[i]) && Below(s, t.elem, v.items[i], n) && Below(s2, t.elem, w.items[i], m)
  {
    NormItems(v, w);
    UniqueItems(v);
    UniqueItems(w);
    hide Unique, NormOf;
  }

  lemma {:induction false} LiteralItemsLike(s: Schema, s2: Schema, vars: Vars, vars2: Vars, elem: Type, v: Value, w: Value, i: nat, n: nat, m: nat)
    requires Ready(s, s2) && VarsAgree(vars, vars2) && Known(s, elem) && Governed(s, s2, vars, vars2, n, m)
    requires v.ListV? && w.ListV? && |v.items| == |w.items| && i <= |v.items|
    requires forall k :: 0 <= k < |v.items| ==>
      SamePlace(s, elem, v.items[k], w.items[k]) && Below(s, elem, v.items[k], n) && Below(s2, elem, w.items[k], m)
    ensures LikeItems(LiteralItems(s, vars, elem, v, i, n), LiteralItems(s2, vars2, elem, w, i, m))
    decreases n, v, 0, |v.items| - i
  {
    hide Literal, SamePlace, Below, Ready, VarsAgree, Governed;
    if i < |v.items| {
      LiteralLike(s, s2, vars, vars2, elem, v.items[i], w.items[i], n, m);
      LiteralItemsLike(s, s2, vars, vars2, elem, v, w, i + 1, n, m);
    }
  }

  /** A single member that is not null stands opposite another. */
  lemma {:induction false} SameMembers(v: Value, w: Value)
    requires v.ObjV? && w.ObjV? && Unique(v) && Unique(w) && NormOf(v) == NormOf(w)
    ensures |v.members| != 1 || v.members[0].value.Null? <==> |w.members| != 1 || w.members[0].value.Null?
  {
    ObjectNorm(v);
    ObjectNorm(w);
    UniqueMembers(v);
    UniqueMembers(w);
    hide NormOf, Unique;
    if |v.members| == 1 { OneOpposite(v, w); }
    if |w.members| == 1 { OneOpposite(w, v); }
  }

  lemma {:induction false} OneOpposite(v: Value, w: Value)
    requires v.ObjV? && w.ObjV? && FieldsOf(v.members) == FieldsOf(w.members) && |v.members| == 1
    requires forall i, j :: 0 <= i < |w.members| && 0 <= j < |w.members| && w.members[i].name == w.members[j].name ==> i == j
    ensures |w.members| == 1 && NormOf(v.members[0].value) == NormOf(w.members[0].value)
    ensures v.members[0].value.Null? <==> w.members[0].value.Null?
  {
    hide NormOf;
    var j := FieldIn(v.members, w.members, 0);
    forall i | 0 <= i < |w.members| ensures w.members[i].name == v.members[0].name {
      var k := FieldIn(w.members, v.members, i);
    }
    var last := |w.members| - 1;
    assert w.members[last].name == w.members[0].name;
    assert last == 0;
    NormKinds(v.members[0].value, w.members[0].value);
  }

  lemma {:induction false} LiteralFieldsLike(s: Schema, s2: Schema, vars: Vars, vars2: Vars, t: Type, v: Value, w: Value, n: nat, m: nat)
    requires Ready(s, s2) && VarsAgree(vars, vars2) && t.Named? && t.name in s.types && t.name in s2.types
    requires s.types[t.name].InputObject? && TypeAgrees(s.types[t.name], s2.types[t.name])
    requires v.ObjV? && w.ObjV? && SamePlace(s, t, v, w) && Below(s, t, v, n) && Below(s2, t, w, m)
    requires Governed(s, s2, vars, vars2, n, m) && StyledIn(s, s2, t.name, v)
    ensures LikeFields(LiteralFields(s, vars, s.types[t.name].fields, v, n), LiteralFields(s2, vars2, s2.types[t.name].fields, w, m))
    decreases n, v, 0, 1
  {
    hide Unique, NormOf, VarsAgree, LiteralFields, SpecMap, JoinedFrom, Filled, WrittenSpec, DefaultSpec, SameStyle;
    hide FieldBelow, FieldAgrees, FieldsAgree, Like, HasField, Governed, StyledIn, Omits, StyledAlike;
    var f, g := s.types[t.name].fields, s2.types[t.name].fields;
    AgreedDistinct(f, g);
    LiteralFieldsJoined(s, vars, f, v, n);
    LiteralFieldsJoined(s2, vars2, g, w, m);
    SpecMapAt(s, vars, f, v, n);
    SpecMapAt(s2, vars2, g, w, m);
    SameFieldNames(f, g);
    var specs, specs2 := SpecMap(s, vars, f, v, n), SpecMap(s2, vars2, g, w, m);
    forall k | k in specs ensures Like(specs[k], specs2[k]) {
      var i := FieldNamed(f, k);
      var j := Opposite(f, g, i);
      AgreedName(f[i], g[j]);
      ReadyFields(s, s2, t.name, i, j);
      PlaceOfField(s, t, v, w, i);
      FieldsBelow(s, t, v, n, i);
      FieldsBelow(s2, t, w, m, j);
      StyledField(s, s2, t.name, v, i, j);
      FieldSpecLike(s, s2, vars, vars2, f[i], g[j], v, w, n, m);
    }
    JoinedAlike(specs, LiteralFields(s, vars, f, v, n), specs2, LiteralFields(s2, vars2, g, w, m));
  }

  lemma {:induction false} StyledField(s: Schema, s2: Schema, t: string, v: Value, i: nat, j: nat)
    requires v.ObjV? && StyledIn(s, s2, t, v) && t in s.types && t in s2.types && s.types[t].InputObject? && s2.types[t].InputObject?
    requires i < |s.types[t].fields| && j < |s2.types[t].fields| && s.types[t].fields[i].name == s2.types[t].fields[j].name
    ensures var f, g := s.types[t].fields[i], s2.types[t].fields[j];
      Omits(v, f.name) ==> StyledAlike(s, f.typ, f.default, g.default)
  {
    hide StyledAlike, Omits;
    assert Restyled(s, s2, t, i, j) ==> !Omits(v, s.types[t].fields[i].name);
  }

  lemma {:induction false} FieldsBelow(s: Schema, t: Type, v: Value, n: nat, i: nat)
    requires t.Named? && t.name in s.types && s.types[t.name].InputObject? && i < |s.types[t.name].fields|
    requires v.ObjV? && Below(s, t, v, n)
    ensures FieldBelow(s, s.types[t.name].fields[i], v, n)
  {
    hide FieldBelow;
  }

  lemma {:induction false} AgreedDistinct(f: seq<InputField>, g: seq<InputField>)
    requires FieldsAgree(f, g)
    ensures Distinct(f) && Distinct(g)
  {
    hide FieldAgrees;
  }

  lemma {:induction false} FieldNamed(fields: seq<InputField>, k: string) returns (i: nat)
    requires HasField(fields, k)
    ensures i < |fields| && fields[i].name == k
  {
    i :| 0 <= i < |fields| && fields[i].name == k;
  }

  lemma {:induction false} AgreedName(f: InputField, g: InputField)
    requires FieldAgrees(f, g)
    ensures f.name == g.name && f.typ == g.typ
  {}

  lemma {:induction false} SameFieldNames(f: seq<InputField>, g: seq<InputField>)
    requires FieldsAgree(f, g)
    ensures forall k :: HasField(f, k) <==> HasField(g, k)
  {
    hide FieldAgrees, FieldsAgree;
    forall k ensures HasField(f, k) <==> HasField(g, k) {
      if i :| 0 <= i < |f| && f[i].name == k {
        var j := Opposite(f, g, i);
        AgreedName(f[i], g[j]);
        assert g[j].name == k;
      }
      if j :| 0 <= j < |g| && g[j].name == k {
        var i := OppositeBack(f, g, j);
        AgreedName(f[i], g[j]);
        assert f[i].name == k;
      }
    }
  }

  lemma {:induction false} Opposite(f: seq<InputField>, g: seq<InputField>, i: nat) returns (j: nat)
    requires FieldsAgree(f, g) && i < |f|
    ensures j < |g| && FieldAgrees(f[i], g[j])
  {
    hide FieldAgrees;
    assert IsRepeated(f[i], g);
    j :| 0 <= j < |g| && FieldAgrees(f[i], g[j]);
  }

  lemma {:induction false} OppositeBack(f: seq<InputField>, g: seq<InputField>, j: nat) returns (i: nat)
    requires FieldsAgree(f, g) && j < |g|
    ensures i < |f| && FieldAgrees(f[i], g[j])
  {
    hide FieldAgrees;
    assert Repeats(f, g[j]);
    i :| 0 <= i < |f| && FieldAgrees(f[i], g[j]);
  }

  lemma {:induction false} ReadyFields(s: Schema, s2: Schema, t: string, i: nat, j: nat)
    requires Ready(s, s2) && t in s.types && t in s2.types && s.types[t].InputObject? && s2.types[t].InputObject?
    requires i < |s.types[t].fields| && j < |s2.types[t].fields|
    requires s.types[t].fields[i].name == s2.types[t].fields[j].name
    ensures Known(s, s.types[t].fields[i].typ)
    ensures RankedDefault(s, s.types[t].fields[i]) && RankedDefault(s2, s2.types[t].fields[j])
  {
    hide TypeAgrees, Known, StyledAlike, RankedDefault;
  }

  /** The members of a field's name stand for the same value too. */
  ghost predicate MemberPlace(s: Schema, fd: InputField, v: Value, w: Value)
    requires v.ObjV? && w.ObjV?
  {
    v == w || MembersStyled(s, fd, v, w)
  }

  lemma {:induction false} PlaceOfField(s: Schema, t: Type, v: Value, w: Value, i: nat)
    requires t.Named? && t.name in s.types && s.types[t.name].InputObject? && i < |s.types[t.name].fields|
    requires v.ObjV? && w.ObjV? && SamePlace(s, t, v, w)
    ensures MemberPlace(s, s.types[t.name].fields[i], v, w)
  {
    hide Unique, NormOf;
  }

  lemma {:induction false} FieldSpecLike(s: Schema, s2: Schema, vars: Vars, vars2: Vars, fd: InputField, fd2: InputField,
                                         v: Value, w: Value, n: nat, m: nat)
    requires Ready(s, s2) && VarsAgree(vars, vars2) && FieldAgrees(fd, fd2)
    requires Known(s, fd.typ) && RankedDefault(s, fd) && RankedDefault(s2, fd2) && Governed(s, s2, vars, vars2, n, m)
    requires v.ObjV? && (Omits(v, fd.name) ==> StyledAlike(s, fd.typ, fd.default, fd2.default))
    requires w.ObjV? && Unique(v) && Unique(w) && NormOf(v) == NormOf(w) && MemberPlace(s, fd, v, w)
    requires FieldBelow(s, fd, v, n) && FieldBelow(s2, fd2, w, m)
    ensures Like(Filled(fd, WrittenSpec(s, vars, fd, v, n), DefaultSpec(s, fd, n)),
                 Filled(fd2, WrittenSpec(s2, vars2, fd2, w, m), DefaultSpec(s2, fd2, m)))
    decreases n, v, 0, 0
  {
    hide Unique, NormOf, VarsAgree, Literal, Filled, Below, SameStyle, Written, Ready;
    UniqueMembers(v);
    UniqueMembers(w);
    NormWritten(v, w, fd.name);
    WrittenIn(v.members, fd.name);
    WrittenIn(w.members, fd.name);
    var x, y := Written(v.members, fd.name), Written(w.members, fd.name);
    if x.Some? {
      NormKinds(x.value, y.value);
      var i :| 0 <= i < |v.members| && v.members[i].name == fd.name && v.members[i].value == x.value;
      var j :| 0 <= j < |w.members| && w.members[j].name == fd.name && w.members[j].value == y.value;
      LiteralLike(s, s2, vars, vars2, fd.typ, x.value, y.value, n, m);
      if !x.value.Var? { LiteralPresent(s, vars, fd.typ, x.value, n); }
    }
    if (x.None? || x.value.Var?) && fd.default.Some? {
      NoVarsAgree();
      assert Governed(s, s2, map[], map[], fd.rank, fd2.rank);
      LiteralLike(s, s2, map[], map[], fd.typ, fd.default.value, fd2.default.value, fd.rank, fd2.rank);
    }
    FilledLike(fd, fd2, WrittenSpec(s, vars, fd, v, n), WrittenSpec(s2, vars2, fd2, w, m),
               DefaultSpec(s, fd, n), DefaultSpec(s2, fd2, m));
  }

  lemma {:induction false} NoVarsAgree()
    ensures VarsAgree(map[], map[])
  {}

  // ---- Supplied values ----

  function SuppliedSpec(s: Schema, fd: InputField, v: Json): Result
    requires v.JObj?
  {
    if fd.name in v.members then Input(s, fd.typ, v.members[fd.name]) else Got(None, [], [])
  }

  function InputMap(s: Schema, fields: seq<InputField>, v: Json): map<string, Result>
    requires v.JObj?
    decreases |fields|
  {
    if fields == [] then map[]
    else
      var fd := fields[0];
      InputMap(s, fields[1..], v)[fd.name := Filled(fd, SuppliedSpec(s, fd, v), Default(s, fd))]
  }

  lemma {:induction false} InputMapAt(s: Schema, fields: seq<InputField>, v: Json)
    requires v.JObj? && Distinct(fields)
    ensures forall k :: k in InputMap(s, fields, v) <==> HasField(fields, k)
    ensures forall i :: 0 <= i < |fields| ==>
      && fields[i].name in InputMap(s, fields, v)
      && InputMap(s, fields, v)[fields[i].name] == Filled(fields[i], SuppliedSpec(s, fields[i], v), Default(s, fields[i]))
    decreases |fields|
  {
    hide SuppliedSpec, Default, Filled;
    if fields != [] {
      InputMapAt(s, fields[1..], v);
      FirstIsApart(fields);
      forall k ensures HasField(fields, k) <==> k == fields[0].name || HasField(fields[1..], k) {
        SuppliedValues.HasFieldApart(fields, k);
      }
      forall i | 0 <= i < |fields|
        ensures fields[i].name in InputMap(s, fields, v)
          && InputMap(s, fields, v)[fields[i].name] == Filled(fields[i], SuppliedSpec(s, fields[i], v), Default(s, fields[i]))
      {
        if i > 0 { assert fields[i] == fields[1..][i - 1] && fields[i].name != fields[0].name; }
      }
    }
  }

  lemma {:induction false} InputFieldsJoined(s: Schema, fields: seq<InputField>, v: Json)
    requires v.JObj? && Distinct(fields)
    ensures JoinedFrom(InputMap(s, fields, v), InputFields(s, fields, v))
    decreases |fields|
  {
    hide JoinedFrom, JoinField, Input, Filled, Default;
    if fields == [] {
      NothingJoins(map[]);
    } else {
      var fd := fields[0];
      FirstIsApart(fields);
      InputMapAt(s, fields[1..], v);
      InputFieldsJoined(s, fields[1..], v);
      JoinStep(InputMap(s, fields[1..], v), fd.name, Filled(fd, SuppliedSpec(s, fd, v), Default(s, fd)),
               InputFields(s, fields[1..], v));
    }
  }

  lemma {:induction false} InputLike(s: Schema, s2: Schema, t: Type, v: Json)
    requires Ready(s, s2) && Known(s, t)
    ensures Like(Input(s, t, v), Input(s2, t, v))
    decreases v, Height(t) + 1, 0
  {
    hide InputItems, InputFields, ScalarInput, Ready, HasField, StyledFor;
    if v.JNull? {
    } else if t.ListOf? {
      if v.JList? { InputItemsLike(s, s2, t.elem, v, 0); } else { InputLike(s, s2, t.elem, v); }
    } else {
      ReadyTypes(s, s2, t.name);
      match s.types[t.name] {
        case Scalar => ScalarInputLike(s, s2, t.name, v);
        case Enum(values) =>
        case InputObject(fields, oneOf) =>
          if v.JObj? {
            SameFieldNames(fields, s2.types[t.name].fields);
            if StyledFor(s, s2, t.name, v) { InputFieldsLike(s, s2, t.name, v); } else { BothRefuse(s, s2, t, v); }
          }
        case NotInput =>
      }
    }
  }

  /** The defaults a supplied object takes at this type have the same style. */
  ghost predicate StyledFor(s: Schema, s2: Schema, t: string, v: Json)
    requires v.JObj?
  {
    forall i: nat, j: nat :: Restyled(s, s2, t, i, j) ==> s.types[t].fields[i].name in v.members
  }

  lemma {:induction false} BothRefuse(s: Schema, s2: Schema, t: Type, v: Json)
    requires Ready(s, s2) && t.Named? && v.JObj? && !StyledFor(s, s2, t.name, v)
    ensures Input(s, t, v).Fail? && Input(s2, t, v).Fail?
  {
    hide Literal, InputFields, Matches, SameOneOf, Arguments.Acyclic, StyledAlike, Unique, Omits;
    var i: nat, j: nat :| Restyled(s, s2, t.name, i, j) && s.types[t.name].fields[i].name !in v.members;
    NeverSameStyles(s, s2, t.name, i, j);
    assert Input(s, Named(t.name, false), v).Fail? && Input(s2, Named(t.name, false), v).Fail?;
  }

  lemma {:induction false} ScalarInputLike(s: Schema, s2: Schema, name: string, v: Json)
    requires forall raw :: s.finite(raw) == s2.finite(raw)
    ensures ScalarInput(s, name, v) == ScalarInput(s2, name, v)
  {}

  lemma {:induction false} InputItemsLike(s: Schema, s2: Schema, elem: Type, v: Json, i: nat)
    requires Ready(s, s2) && Known(s, elem) && v.JList? && i <= |v.items|
    ensures LikeItems(InputItems(s, elem, v, i), InputItems(s2, elem, v, i))
    decreases v, 0, |v.items| - i
  {
    hide Input, Ready;
    if i < |v.items| {
      InputLike(s, s2, elem, v.items[i]);
      InputItemsLike(s, s2, elem, v, i + 1);
    }
  }

  lemma {:induction false} InputFieldsLike(s: Schema, s2: Schema, t: string, v: Json)
    requires Ready(s, s2) && t in s.types && t in s2.types && v.JObj?
    requires s.types[t].InputObject? && TypeAgrees(s.types[t], s2.types[t]) && StyledFor(s, s2, t, v)
    ensures LikeFields(InputFields(s, s.types[t].fields, v), InputFields(s2, s2.types[t].fields, v))
    decreases v, 0, 0
  {
    hide InputFields, InputMap, JoinedFrom, Filled, SuppliedSpec, Default, SameStyle, FieldAgrees, FieldsAgree, Like, HasField, Ready, StyledAlike;
    var f, g := s.types[t].fields, s2.types[t].fields;
    AgreedDistinct(f, g);
    InputFieldsJoined(s, f, v);
    InputFieldsJoined(s2, g, v);
    InputMapAt(s, f, v);
    InputMapAt(s2, g, v);
    SameFieldNames(f, g);
    var specs, specs2 := InputMap(s, f, v), InputMap(s2, g, v);
    forall k | k in specs ensures Like(specs[k], specs2[k]) {
      var i := FieldNamed(f, k);
      var j := Opposite(f, g, i);
      AgreedName(f[i], g[j]);
      ReadyFields(s, s2, t, i, j);
      if k !in v.members {
        assert !Restyled(s, s2, t, i, j);
        DefaultLike(s, s2, f[i], g[j]);
      }
      if k in v.members { InputLike(s, s2, f[i].typ, v.members[k]); }
      SuppliedLike(s, s2, f[i], g[j], v);
      SuppliedValue(s, f[i], v);
      FilledLike(f[i], g[j], SuppliedSpec(s, f[i], v), SuppliedSpec(s2, g[j], v), Default(s, f[i]), Default(s2, g[j]));
    }
    JoinedAlike(specs, InputFields(s, f, v), specs2, InputFields(s2, g, v));
  }

  lemma {:induction false} SuppliedValue(s: Schema, fd: InputField, v: Json)
    requires v.JObj?
    ensures fd.name in v.members && SuppliedSpec(s, fd, v).Got? ==> SuppliedSpec(s, fd, v).value.Some?
  {
    hide Input;
    if fd.name in v.members { SuppliedValues.InputPresent(s, fd.typ, v.members[fd.name]); }
  }

  lemma {:induction false} SuppliedLike(s: Schema, s2: Schema, fd: InputField, fd2: InputField, v: Json)
    requires v.JObj? && fd.name == fd2.name && fd.typ == fd2.typ
    requires fd.name in v.members ==> Like(Input(s, fd.typ, v.members[fd.name]), Input(s2, fd.typ, v.members[fd.name]))
    ensures Like(SuppliedSpec(s, fd, v), SuppliedSpec(s2, fd2, v))
  {
    hide Input;
  }

  lemma {:induction false} DefaultLike(s: Schema, s2: Schema, fd: InputField, fd2: InputField)
    requires Ready(s, s2) && FieldAgrees(fd, fd2) && Known(s, fd.typ) && StyledAlike(s, fd.typ, fd.default, fd2.default)
    requires RankedDefault(s, fd) && RankedDefault(s2, fd2)
    ensures Like(Default(s, fd), Default(s2, fd2))
  {
    hide Literal, Unique, NormOf, SameStyle, Ready, Below;
    if fd.default.Some? {
      NoVarsAgree();
      assert Governed(s, s2, map[], map[], fd.rank, fd2.rank);
      LiteralLike(s, s2, map[], map[], fd.typ, fd.default.value, fd2.default.value, fd.rank, fd2.rank);
    }
  }

  // ---- Variables and arguments ----

  lemma {:induction false} AnyPlace(s: Schema, t: Type, v: Value)
    requires Unique(v)
    ensures SamePlace(s, t, v, v)
  {}

  lemma {:induction false} CoerceOneLike(s: Schema, s2: Schema, def: VariableDef, supplied: map<string, Json>)
    requires Ready(s, s2) && Known(s, def.typ) && (def.default.Some? ==> Unique(def.default.value))
    ensures var c, c2 := CoerceOne(s, def, supplied), CoerceOne(s2, def, supplied);
      && (c.Refused? <==> c2.Refused?) && (c.Unset? <==> c2.Unset?)
      && (c.Set? ==> c.variable.value == c2.variable.value && c.variable.defaulted == c2.variable.defaulted)
  {
    hide Input, Literal, Unique, Below, Acyclic;
    if def.name in supplied {
      InputLike(s, s2, def.typ, supplied[def.name]);
    } else if def.default.Some? {
      var v := def.default.value;
      NoVarsAgree();
      AnyPlace(s, def.typ, v);
      AnyBelowBound(s, def.typ, v);
      AnyBelowBound(s2, def.typ, v);
      LiteralLike(s, s2, map[], map[], def.typ, v, v, s.bound, s2.bound);
    }
  }

  /** The variables of an operation come out alike. */
  lemma {:induction false} VariablesLike(s: Schema, s2: Schema, defs: seq<VariableDef>, supplied: map<string, Json>, vars: Vars, vars2: Vars)
    requires Ready(s, s2) && VarsAgree(vars, vars2)
    requires forall i :: 0 <= i < |defs| ==> Known(s, defs[i].typ) && (defs[i].default.Some? ==> Unique(defs[i].default.value))
    ensures var r, r2 := CoerceAll(s, defs, supplied, vars), CoerceAll(s2, defs, supplied, vars2);
      (r.Some? <==> r2.Some?) && (r.Some? ==> VarsAgree(r.value, r2.value))
    decreases |defs|
  {
    hide Ready, CoerceOne, Unique;
    if defs != [] {
      CoerceOneLike(s, s2, defs[0], supplied);
      var c, c2 := CoerceOne(s, defs[0], supplied), CoerceOne(s2, defs[0], supplied);
      assert forall i :: 0 <= i < |defs[1..]| ==> defs[1..][i] == defs[i + 1];
      match c {
        case Refused(_) =>
        case Unset => VariablesLike(s, s2, defs[1..], supplied, vars, vars2);
        case Set(x) =>
          VariablesLike(s, s2, defs[1..], supplied, vars[defs[0].name := x], vars2[defs[0].name := c2.variable]);
      }
    }
  }

  ghost predicate ArgumentAgrees(a: ArgumentDef, b: ArgumentDef) {
    a.name == b.name && a.typ == b.typ && DefaultAgrees(a.default, b.default)
  }

  /** The same value from the same origin. */
  predicate LikeArg(r: Resolved, r2: Resolved) {
    && (r.Bad? <==> r2.Bad?)
    && (r.NoValue? <==> r2.NoValue?)
    && (r.Resolved? ==> r.arg.value == r2.arg.value && r.arg.origin == r2.arg.origin)
  }

  lemma {:induction false} ArgumentLike(s: Schema, s2: Schema, vars: Vars, vars2: Vars, a: ArgumentDef, b: ArgumentDef, written: Option<Value>)
    requires Ready(s, s2) && VarsAgree(vars, vars2) && ArgumentAgrees(a, b) && Known(s, a.typ)
    requires StyledAlike(s, a.typ, a.default, b.default)
    requires written.Some? ==> Unique(written.value) && SameStyles(s, s2)
    ensures LikeArg(Argument(s, vars, a, written), Argument(s2, vars2, b, written))
  {
    hide Literal, Unique, Below, SameStyle, Coercers.NoteAll, NormOf;
    if written.Some? {
      WrittenLike(s, s2, vars, vars2, a.typ, written.value);
    }
    if a.default.Some? {
      AnyBelowBound(s, a.typ, a.default.value);
      AnyBelowBound(s2, a.typ, b.default.value);
      NoVarsAgree();
      LiteralLike(s, s2, map[], map[], a.typ, a.default.value, b.default.value, s.bound, s2.bound);
    }
  }

  lemma {:induction false} WrittenLike(s: Schema, s2: Schema, vars: Vars, vars2: Vars, t: Type, v: Value)
    requires Ready(s, s2) && VarsAgree(vars, vars2) && Known(s, t) && Unique(v) && SameStyles(s, s2)
    ensures var r, r2 := Literal(s, vars, t, v, s.bound), Literal(s2, vars2, t, v, s2.bound);
      Like(r, r2) && (r.Got? ==> OriginOf(vars, v, Coercers.NoteAll([], r.used)) == OriginOf(vars2, v, Coercers.NoteAll([], r2.used)))
  {
    hide Literal, Unique, Below, SameStyle, NormOf;
    AnyPlace(s, t, v);
    AnyBelowBound(s, t, v);
    AnyBelowBound(s2, t, v);
    LiteralLike(s, s2, vars, vars2, t, v, v, s.bound, s2.bound);
    var r, r2 := Literal(s, vars, t, v, s.bound), Literal(s2, vars2, t, v, s2.bound);
    if r.Got? {
      NotedNothing(r.used);
      NotedNothing(r2.used);
    }
    if v.Var? { assert v.name in vars.Keys <==> v.name in vars2.Keys; }
  }

  lemma {:induction false} NotedNothing(names: seq<string>)
    ensures Coercers.NoteAll([], names) == [] <==> names == []
  {
    NotedOnce([], names);
    if names != [] { assert names[0] in names; }
  }
}
