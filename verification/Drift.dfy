/** The comparison of two schemas, the one the mapper ships and the one a source
    runs (ftv-graphql-mapper/drift.go), and when it finds nothing. */
module Drift {
  import opened Base

  // ---- What is compared ----

  /** A type and a canonical default, "" when there is none. */
  datatype InputModel = InputModel(typ: string, def: string)

  datatype FieldModel = FieldModel(typ: string, args: map<string, InputModel>)

  datatype TypeModel = TypeModel(kind: string, fields: map<string, FieldModel>, inputs: map<string, InputModel>,
                                 members: seq<string>, values: seq<string>)

  datatype SchemaModel = SchemaModel(roots: map<string, string>, types: map<string, TypeModel>)

  // ---- Differences ----

  datatype InputDifference = NotInSource(name: string) | OtherType(name: string) | OtherDefault(name: string) | OnlyInSource(name: string)

  datatype Difference =
    | Root(op: string)
    | NoType(t: string)
    | OtherKind(t: string)
    | NoField(t: string, f: string)
    | OtherResult(t: string, f: string)
    | InArgument(t: string, f: string, input: InputDifference)
    | InInput(t: string, input: InputDifference)
    | OtherMembers(t: string)
    | OtherValues(t: string)

  predicate InputDiffers(b: map<string, InputModel>, s: map<string, InputModel>, d: InputDifference) {
    match d
    case NotInSource(n) => n in b && n !in s
    case OtherType(n) => n in b && n in s && b[n].typ != s[n].typ
    case OtherDefault(n) => n in b && n in s && b[n].def != s[n].def
    case OnlyInSource(n) => n !in b && n in s
  }

  /** A difference among two types of the same kind. */
  predicate TypeDiffers(name: string, b: TypeModel, s: TypeModel, d: Difference) {
    match d
    case NoField(t, f) => t == name && f in b.fields && f !in s.fields
    case OtherResult(t, f) => t == name && f in b.fields && f in s.fields && b.fields[f].typ != s.fields[f].typ
    case InArgument(t, f, input) =>
      t == name && f in b.fields && f in s.fields && InputDiffers(b.fields[f].args, s.fields[f].args, input)
    case InInput(t, input) => t == name && InputDiffers(b.inputs, s.inputs, input)
    case OtherMembers(t) => t == name && b.members != s.members
    case OtherValues(t) => t == name && b.values != s.values
    case _ => false
  }

  function RootOf(m: SchemaModel, op: string): string { if op in m.roots then m.roots[op] else "" }

  predicate Differs(b: SchemaModel, s: SchemaModel, d: Difference) {
    match d
    case Root(op) => op in b.roots && RootOf(s, op) != b.roots[op]
    case NoType(t) => t in b.types && t !in s.types
    case OtherKind(t) => t in b.types && t in s.types && b.types[t].kind != s.types[t].kind
    case _ =>
      d.t in b.types && d.t in s.types && b.types[d.t].kind == s.types[d.t].kind
      && TypeDiffers(d.t, b.types[d.t], s.types[d.t], d)
  }

  /** inputDrift */
  method InputDrift(b: map<string, InputModel>, s: map<string, InputModel>) returns (out: seq<InputDifference>)
    ensures forall d :: d in out <==> InputDiffers(b, s, d)
  {
    out := [];
    var names := b.Keys;
    while names != {}
      invariant names <= b.Keys
      invariant forall d :: d in out <==> !d.OnlyInSource? && InputDiffers(b, s, d) && d.name !in names
      decreases names
    {
      var n :| n in names;
      names := names - {n};
      if n !in s {
        out := out + [NotInSource(n)];
      } else {
        if b[n].typ != s[n].typ { out := out + [OtherType(n)]; }
        if b[n].def != s[n].def { out := out + [OtherDefault(n)]; }
      }
    }
    names := s.Keys;
    while names != {}
      invariant names <= s.Keys
      invariant forall d :: d in out <==> InputDiffers(b, s, d) && (d.OnlyInSource? ==> d.name !in names)
      decreases names
    {
      var n :| n in names;
      names := names - {n};
      if n !in b { out := out + [OnlyInSource(n)]; }
    }
  }

  /** equalStrings */
  method EqualStrings(a: seq<string>, b: seq<string>) returns (r: bool)
    ensures r <==> a == b
  {
    if |a| != |b| { return false; }
    var i := 0;
    while i < |a|
      invariant i <= |a|
      invariant a[..i] == b[..i]
    {
      if a[i] != b[i] { return false; }
      i := i + 1;
    }
    return true;
  }

  function AsArguments(t: string, f: string, ds: seq<InputDifference>): (r: seq<Difference>)
    ensures |r| == |ds| && forall i :: 0 <= i < |r| ==> r[i] == InArgument(t, f, ds[i])
  {
    seq(|ds|, i requires 0 <= i < |ds| => InArgument(t, f, ds[i]))
  }

  function AsInputs(t: string, ds: seq<InputDifference>): (r: seq<Difference>)
    ensures |r| == |ds| && forall i :: 0 <= i < |r| ==> r[i] == InInput(t, ds[i])
  {
    seq(|ds|, i requires 0 <= i < |ds| => InInput(t, ds[i]))
  }

  predicate FieldDiffers(t: string, f: string, b: FieldModel, s: FieldModel, d: Difference) {
    match d
    case OtherResult(t', f') => t' == t && f' == f && b.typ != s.typ
    case InArgument(t', f', input) => t' == t && f' == f && InputDiffers(b.args, s.args, input)
    case _ => false
  }

  method FieldDrift(t: string, f: string, b: FieldModel, s: FieldModel) returns (out: seq<Difference>)
    ensures forall d :: d in out <==> FieldDiffers(t, f, b, s, d)
  {
    hide InputDiffers;
    out := [];
    if b.typ != s.typ { out := out + [OtherResult(t, f)]; }
    var args := InputDrift(b.args, s.args);
    var more := AsArguments(t, f, args);
    forall d ensures d in more <==> d.InArgument? && d.t == t && d.f == f && d.input in args {
      if d in more { var i :| 0 <= i < |more| && more[i] == d; }
      if d.InArgument? && d.t == t && d.f == f && d.input in args {
        var i :| 0 <= i < |args| && args[i] == d.input;
        assert more[i] == d;
      }
    }
    out := out + more;
  }

  method TypeDrift(t: string, b: TypeModel, s: TypeModel) returns (out: seq<Difference>)
    ensures forall d :: d in out <==> TypeDiffers(t, b, s, d)
  {
    hide InputDiffers;
    out := FieldsDrift(t, b, s);
    var inputs := InputDrift(b.inputs, s.inputs);
    var more := AsInputs(t, inputs);
    forall d ensures d in more <==> d.InInput? && d.t == t && d.input in inputs {
      if d in more { var i :| 0 <= i < |more| && more[i] == d; }
      if d.InInput? && d.t == t && d.input in inputs {
        var i :| 0 <= i < |inputs| && inputs[i] == d.input;
        assert more[i] == d;
      }
    }
    out := out + more;
    var same := EqualStrings(b.members, s.members);
    if !same { out := out + [OtherMembers(t)]; }
    same := EqualStrings(b.values, s.values);
    if !same { out := out + [OtherValues(t)]; }
  }

  method FieldsDrift(t: string, b: TypeModel, s: TypeModel) returns (out: seq<Difference>)
    ensures forall d :: d in out <==> (d.NoField? || d.OtherResult? || d.InArgument?) && TypeDiffers(t, b, s, d)
  {
    hide InputDiffers;
    out := [];
    var names := b.fields.Keys;
    while names != {}
      invariant names <= b.fields.Keys
      invariant forall d :: d in out <==>
        (d.NoField? || d.OtherResult? || d.InArgument?) && TypeDiffers(t, b, s, d) && d.f !in names
      decreases names
    {
      var f :| f in names;
      names := names - {f};
      if f !in s.fields {
        out := out + [NoField(t, f)];
      } else {
        var more := FieldDrift(t, f, b.fields[f], s.fields[f]);
        out := out + more;
      }
    }
  }

  /** drift, up to the text and the order of its messages. */
  method DriftOf(b: SchemaModel, s: SchemaModel) returns (out: seq<Difference>)
    ensures forall d :: d in out <==> Differs(b, s, d)
    ensures out == [] <==> NoDrift(b, s)
  {
    hide TypeDiffers;
    out := [];
    var ops := b.roots.Keys;
    while ops != {}
      invariant ops <= b.roots.Keys
      invariant forall d :: d in out <==> d.Root? && Differs(b, s, d) && d.op !in ops
      decreases ops
    {
      var op :| op in ops;
      ops := ops - {op};
      if RootOf(s, op) != b.roots[op] { out := out + [Root(op)]; }
    }
    var names := b.types.Keys;
    while names != {}
      invariant names <= b.types.Keys
      invariant forall d :: d in out <==> Differs(b, s, d) && (!d.Root? ==> d.t !in names)
      decreases names
    {
      var t :| t in names;
      names := names - {t};
      if t !in s.types {
        out := out + [NoType(t)];
      } else if b.types[t].kind != s.types[t].kind {
        out := out + [OtherKind(t)];
      } else {
        var more := TypeDrift(t, b.types[t], s.types[t]);
        AboutType(t, b.types[t], s.types[t]);
        out := out + more;
      }
    }
    EmptyIffNone(b, s, out);
  }

  lemma {:induction false} AboutType(t: string, b: TypeModel, s: TypeModel)
    ensures forall d :: TypeDiffers(t, b, s, d) ==> !d.Root? && !d.NoType? && !d.OtherKind? && d.t == t
  {}

  lemma {:induction false} EmptyIffNone(b: SchemaModel, s: SchemaModel, out: seq<Difference>)
    requires forall d :: d in out <==> Differs(b, s, d)
    ensures out == [] <==> NoDrift(b, s)
  {
    hide Differs;
    if out != [] { assert out[0] in out; }
  }

  // ---- No drift ----

  ghost predicate NoDrift(b: SchemaModel, s: SchemaModel) { forall d :: !Differs(b, s, d) }

  /** The source extends the bundle: it may have more types and more fields,
      and agrees on everything the bundle names. */
  ghost predicate TypeExtends(b: TypeModel, s: TypeModel) {
    && b.kind == s.kind
    && (forall f :: f in b.fields ==> f in s.fields && s.fields[f] == b.fields[f])
    && s.inputs == b.inputs
    && s.members == b.members
    && s.values == b.values
  }

  ghost predicate Extends(b: SchemaModel, s: SchemaModel) {
    && (forall op :: op in b.roots ==> RootOf(s, op) == b.roots[op])
    && (forall t :: t in b.types ==> t in s.types && TypeExtends(b.types[t], s.types[t]))
  }

  lemma {:induction false} SameInputs(b: map<string, InputModel>, s: map<string, InputModel>)
    ensures (forall d :: !InputDiffers(b, s, d)) <==> s == b
  {
    if forall d :: !InputDiffers(b, s, d) {
      forall n ensures n in b <==> n in s {
        assert !InputDiffers(b, s, NotInSource(n)) && !InputDiffers(b, s, OnlyInSource(n));
      }
      forall n | n in b ensures b[n] == s[n] {
        assert !InputDiffers(b, s, OtherType(n)) && !InputDiffers(b, s, OtherDefault(n));
      }
    }
  }

  lemma {:induction false} TypeExtendsIff(t: string, b: TypeModel, s: TypeModel)
    requires b.kind == s.kind
    ensures (forall d :: !TypeDiffers(t, b, s, d)) <==> TypeExtends(b, s)
  {
    hide InputDiffers;
    SameInputs(b.inputs, s.inputs);
    forall f | f in b.fields && f in s.fields
      ensures (forall d :: !InputDiffers(b.fields[f].args, s.fields[f].args, d)) <==> s.fields[f].args == b.fields[f].args
    {
      SameInputs(b.fields[f].args, s.fields[f].args);
    }
    if forall d :: !TypeDiffers(t, b, s, d) {
      forall f | f in b.fields ensures f in s.fields && s.fields[f] == b.fields[f] {
        assert !TypeDiffers(t, b, s, NoField(t, f));
        assert !TypeDiffers(t, b, s, OtherResult(t, f));
        forall d ensures !InputDiffers(b.fields[f].args, s.fields[f].args, d) {
          assert !TypeDiffers(t, b, s, InArgument(t, f, d));
        }
      }
      forall d ensures !InputDiffers(b.inputs, s.inputs, d) { assert !TypeDiffers(t, b, s, InInput(t, d)); }
      assert !TypeDiffers(t, b, s, OtherMembers(t)) && !TypeDiffers(t, b, s, OtherValues(t));
    }
  }

  /** There is no drift exactly when the source extends the bundle. */
  lemma {:induction false} NoDriftIffExtends(b: SchemaModel, s: SchemaModel)
    ensures NoDrift(b, s) <==> Extends(b, s)
  {
    hide TypeDiffers, TypeExtends;
    forall t | t in b.types && t in s.types && b.types[t].kind == s.types[t].kind
      ensures (forall d :: !TypeDiffers(t, b.types[t], s.types[t], d)) <==> TypeExtends(b.types[t], s.types[t])
    {
      TypeExtendsIff(t, b.types[t], s.types[t]);
    }
    forall t | t in b.types && t in s.types && TypeExtends(b.types[t], s.types[t])
      ensures b.types[t].kind == s.types[t].kind { ExtendsKind(b.types[t], s.types[t]); }
    if NoDrift(b, s) {
      forall op | op in b.roots ensures RootOf(s, op) == b.roots[op] { assert !Differs(b, s, Root(op)); }
      forall t | t in b.types ensures t in s.types && TypeExtends(b.types[t], s.types[t]) {
        assert !Differs(b, s, NoType(t));
        assert !Differs(b, s, OtherKind(t));
        forall d ensures !TypeDiffers(t, b.types[t], s.types[t], d) {
          AboutType(t, b.types[t], s.types[t]);
          assert !Differs(b, s, d);
        }
      }
    }
  }

  lemma {:induction false} ExtendsKind(b: TypeModel, s: TypeModel)
    requires TypeExtends(b, s)
    ensures b.kind == s.kind
  {}

  /** Every root the schema has is a type with a name. */
  predicate NamesRoots(m: SchemaModel) { forall op :: op in m.roots ==> m.roots[op] != "" }

  /** Empty drift is a preorder: a schema does not drift from itself, and what
      does not drift from an extension does not drift from what it extends, for
      schemas whose roots have names. */
  lemma {:induction false} NoDriftPreorder(a: SchemaModel, b: SchemaModel, c: SchemaModel)
    ensures NoDrift(a, a)
    ensures NamesRoots(a) && NoDrift(a, b) && NoDrift(b, c) ==> NoDrift(a, c)
  {
    hide NoDrift;
    NoDriftIffExtends(a, a);
    NoDriftIffExtends(a, b);
    NoDriftIffExtends(b, c);
    NoDriftIffExtends(a, c);
  }
}
