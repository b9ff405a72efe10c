/** A source whose schema only extends the bundled one: walking a document that
    is valid against the bundle with the source's schema gives the same list. */
module WalkAgreement {
  import opened Base
  import opened Coercion
  import opened CoercionLaws
  import opened Arguments
  import opened Canonical
  import opened Documents
  import opened Walk
  import opened Coverage
  import opened CheckArguments
  import opened Agreement

  // ---- Agreeing fields ----

  ghost predicate IsGiven(a: ArgumentDef, b: seq<ArgumentDef>) { exists j :: 0 <= j < |b| && ArgumentAgrees(a, b[j]) }

  ghost predicate Gives(a: seq<ArgumentDef>, b: ArgumentDef) { exists i :: 0 <= i < |a| && ArgumentAgrees(a[i], b) }

  ghost predicate DistinctArgs(a: seq<ArgumentDef>) {
    forall i, j :: 0 <= i < j < |a| ==> a[i].name != a[j].name
  }

  ghost predicate ArgumentsAgree(a: seq<ArgumentDef>, b: seq<ArgumentDef>) {
    && DistinctArgs(a) && DistinctArgs(b)
    && (forall i :: 0 <= i < |a| ==> IsGiven(a[i], b))
    && (forall j :: 0 <= j < |b| ==> Gives(a, b[j]))
  }

  /** A field of the bundle and the source's: the same type, the same arguments
      with the same defaults, in the same style. */
  ghost predicate DefAgrees(s: Schema, d: FieldDef, e: FieldDef) {
    && d.typ == e.typ && ArgumentsAgree(d.args, e.args)
    && (forall i :: 0 <= i < |d.args| ==> Known(s, d.args[i].typ))
    && ArgumentsStyled(s, d.args, e.args)
  }

  ghost predicate ArgumentsStyled(s: Schema, a: seq<ArgumentDef>, b: seq<ArgumentDef>) {
    forall i, j :: 0 <= i < |a| && 0 <= j < |b| && a[i].name == b[j].name ==> StyledAlike(s, a[i].typ, a[i].default, b[j].default)
  }

  ghost predicate FieldIn(s: Schema, name: string, f: seq<FieldDef>, g: seq<FieldDef>) {
    FieldOf(f, name).Some? ==> FieldOf(g, name).Some? && DefAgrees(s, FieldOf(f, name).value, FieldOf(g, name).value)
  }

  /** Every type of c is a type of c2 with all its fields, and every field's
      type is a type of c. */
  ghost predicate OutputAgrees(c: Context, c2: Context) {
    && c2.fragments == c.fragments
    && (forall t :: t in c.types ==> t in c2.types)
    && (forall t, name :: t in c.types && t in c2.types ==> FieldIn(c.input, name, c.types[t], c2.types[t]))
    && (forall t, name :: t in c.types ==> ClosedField(c, c.types[t], name))
  }

  ghost predicate ClosedField(c: Context, f: seq<FieldDef>, name: string) {
    FieldOf(f, name).Some? ==> NamedType(FieldOf(f, name).value.typ) in c.types
  }

  ghost predicate ContextsAgree(c: Context, c2: Context) {
    Ready(c.input, c2.input) && SameStyles(c.input, c2.input) && VarsAgree(c.vars, c2.vars) && OutputAgrees(c, c2)
  }

  // ---- Arguments of one field ----

  function ArgMap(c: Context, defs: seq<ArgumentDef>, written: seq<Member>): map<string, Resolved>
    decreases |defs|
  {
    if defs == [] then map[]
    else ArgMap(c, defs[1..], written)[defs[0].name := Argument(c.input, c.vars, defs[0], Written(written, defs[0].name))]
  }

  lemma {:induction false} ArgMapAt(c: Context, defs: seq<ArgumentDef>, written: seq<Member>)
    requires DistinctArgs(defs)
    ensures forall k :: k in ArgMap(c, defs, written) ==> exists i :: 0 <= i < |defs| && defs[i].name == k
    ensures forall i :: 0 <= i < |defs| ==>
      && defs[i].name in ArgMap(c, defs, written)
      && ArgMap(c, defs, written)[defs[i].name] == Argument(c.input, c.vars, defs[i], Written(written, defs[i].name))
    decreases |defs|
  {
    hide Argument;
    if defs != [] {
      ArgMapAt(c, defs[1..], written);
      assert forall i :: 0 <= i < |defs[1..]| ==> defs[1..][i] == defs[i + 1];
      forall i | 0 <= i < |defs|
        ensures defs[i].name in ArgMap(c, defs, written)
          && ArgMap(c, defs, written)[defs[i].name] == Argument(c.input, c.vars, defs[i], Written(written, defs[i].name))
      {
        if i > 0 { assert defs[i] == defs[1..][i - 1] && defs[i].name != defs[0].name; }
      }
      forall k | k in ArgMap(c, defs, written) ensures exists i :: 0 <= i < |defs| && defs[i].name == k {
        if k != defs[0].name {
          var i :| 0 <= i < |defs[1..]| && defs[1..][i].name == k;
          assert defs[i + 1].name == k;
        }
      }
    }
  }

  ghost predicate ResolvedFrom(specs: map<string, Resolved>, args: map<string, Arg>, r: Resolution) {
    && (r.BadArgs? <==> exists k :: k in specs && specs[k].Bad?)
    && (r.Args? ==> r.args == args + (map k | k in specs && specs[k].Resolved? :: specs[k].arg))
  }

  lemma {:induction false} ResolveStep(specs: map<string, Resolved>, name: string, spec: Resolved, args: map<string, Arg>, r: Resolution)
    requires name !in specs && !spec.Bad?
    requires ResolvedFrom(specs, if spec.Resolved? then args[name := spec.arg] else args, r)
    ensures ResolvedFrom(specs[name := spec], args, r)
  {
    var all := specs[name := spec];
    if k :| k in specs && specs[k].Bad? { assert k in all && all[k].Bad?; }
    if r.Args? {
      var wanted := args + (map k | k in all && all[k].Resolved? :: all[k].arg);
      forall k ensures k in r.args <==> k in wanted {}
      forall k | k in wanted ensures r.args[k] == wanted[k] {}
      assert r.args == wanted;
    }
  }

  lemma {:induction false} ResolveArgsFrom(c: Context, defs: seq<ArgumentDef>, written: seq<Member>, args: map<string, Arg>)
    requires DistinctArgs(defs)
    ensures ResolvedFrom(ArgMap(c, defs, written), args, ResolveArgs(c, defs, written, args))
    decreases |defs|
  {
    hide Argument, ResolvedFrom;
    if defs == [] {
      NoArgs(map[], args);
    } else {
      var spec := Argument(c.input, c.vars, defs[0], Written(written, defs[0].name));
      assert forall i :: 0 <= i < |defs[1..]| ==> defs[1..][i] == defs[i + 1];
      ArgMapAt(c, defs[1..], written);
      if spec.Bad? {
        BadFirst(ArgMap(c, defs, written), defs[0].name, args, ResolveArgs(c, defs, written, args));
      } else {
        var next := if spec.Resolved? then args[defs[0].name := spec.arg] else args;
        ResolveArgsFrom(c, defs[1..], written, next);
        ResolveStep(ArgMap(c, defs[1..], written), defs[0].name, spec, args, ResolveArgs(c, defs, written, args));
      }
    }
  }

  lemma {:induction false} NoArgs(specs: map<string, Resolved>, args: map<string, Arg>)
    requires forall k :: k !in specs
    ensures ResolvedFrom(specs, args, Args(args))
  {}

  lemma {:induction false} BadFirst(specs: map<string, Resolved>, name: string, args: map<string, Arg>, r: Resolution)
    requires name in specs && specs[name].Bad? && r.BadArgs?
    ensures ResolvedFrom(specs, args, r)
  {}

  ghost predicate LikeArgs(a: map<string, Arg>, b: map<string, Arg>) {
    a.Keys == b.Keys && forall k :: k in a ==> a[k].value == b[k].value && a[k].origin == b[k].origin
  }

  lemma {:induction false} ResolvedAlike(specs: map<string, Resolved>, r: Resolution, specs2: map<string, Resolved>, r2: Resolution)
    requires ResolvedFrom(specs, map[], r) && ResolvedFrom(specs2, map[], r2)
    requires forall k :: k in specs <==> k in specs2
    requires forall k :: k in specs ==> LikeArg(specs[k], specs2[k])
    ensures r.BadArgs? <==> r2.BadArgs?
    ensures r.Args? ==> LikeArgs(r.args, r2.args)
  {}

  ghost predicate UniqueWritten(written: seq<Member>) { forall i :: 0 <= i < |written| ==> Unique(written[i].value) }

  lemma {:induction false} ArgsAlike(c: Context, c2: Context, a: seq<ArgumentDef>, b: seq<ArgumentDef>, written: seq<Member>)
    requires Ready(c.input, c2.input) && SameStyles(c.input, c2.input) && VarsAgree(c.vars, c2.vars) && ArgumentsAgree(a, b) && UniqueWritten(written)
    requires (forall i :: 0 <= i < |a| ==> Known(c.input, a[i].typ)) && ArgumentsStyled(c.input, a, b)
    ensures var r, r2 := ResolveArgs(c, a, written, map[]), ResolveArgs(c2, b, written, map[]);
      (r.BadArgs? <==> r2.BadArgs?) && (r.Args? ==> LikeArgs(r.args, r2.args))
  {
    hide Ready, VarsAgree, Argument, ArgMap, ResolvedFrom, ResolveArgs, LikeArg, SameStyle, ArgumentAgrees, LikeArgs, StyledAlike;
    var specs, specs2 := ArgMap(c, a, written), ArgMap(c2, b, written);
    SpecsAlike(c, c2, a, b, written);
    ResolveArgsFrom(c, a, written, map[]);
    ResolveArgsFrom(c2, b, written, map[]);
    ResolvedAlike(specs, ResolveArgs(c, a, written, map[]), specs2, ResolveArgs(c2, b, written, map[]));
  }

  lemma {:induction false} SpecsAlike(c: Context, c2: Context, a: seq<ArgumentDef>, b: seq<ArgumentDef>, written: seq<Member>)
    requires Ready(c.input, c2.input) && SameStyles(c.input, c2.input) && VarsAgree(c.vars, c2.vars) && ArgumentsAgree(a, b) && UniqueWritten(written)
    requires (forall i :: 0 <= i < |a| ==> Known(c.input, a[i].typ)) && ArgumentsStyled(c.input, a, b)
    ensures forall k :: k in ArgMap(c, a, written) ==>
      k in ArgMap(c2, b, written) && LikeArg(ArgMap(c, a, written)[k], ArgMap(c2, b, written)[k])
    ensures forall k :: k in ArgMap(c2, b, written) ==> k in ArgMap(c, a, written)
  {
    hide Ready, SameStyles, VarsAgree, UniqueWritten, Argument, ArgMap, LikeArg, IsGiven, Gives, ArgumentsStyled, Known, DistinctArgs;
    ArgMapAt(c, a, written);
    ArgMapAt(c2, b, written);
    forall k | k in ArgMap(c, a, written)
      ensures k in ArgMap(c2, b, written) && LikeArg(ArgMap(c, a, written)[k], ArgMap(c2, b, written)[k])
    {
      var i :| 0 <= i < |a| && a[i].name == k;
      SpecAlike(c, c2, a, b, written, i);
    }
    forall k | k in ArgMap(c2, b, written) ensures k in ArgMap(c, a, written) {
      var j :| 0 <= j < |b| && b[j].name == k;
      var i := SpecGiven(a, b, j);
    }
  }

  lemma {:induction false} SpecAlike(c: Context, c2: Context, a: seq<ArgumentDef>, b: seq<ArgumentDef>, written: seq<Member>, i: nat)
    requires Ready(c.input, c2.input) && SameStyles(c.input, c2.input) && VarsAgree(c.vars, c2.vars) && ArgumentsAgree(a, b) && UniqueWritten(written)
    requires i < |a| && Known(c.input, a[i].typ) && ArgumentsStyled(c.input, a, b)
    ensures a[i].name in ArgMap(c, a, written) && a[i].name in ArgMap(c2, b, written)
    ensures LikeArg(ArgMap(c, a, written)[a[i].name], ArgMap(c2, b, written)[a[i].name])
  {
    hide Ready, SameStyles, VarsAgree, UniqueWritten, Argument, ArgMap, LikeArg, SameStyle, ArgumentAgrees, StyledAlike;
    ArgMapAt(c, a, written);
    ArgMapAt(c2, b, written);
    assert IsGiven(a[i], b);
    var j :| 0 <= j < |b| && ArgumentAgrees(a[i], b[j]);
    SameName(a[i], b[j]);
    OneAlike(c, c2, a[i], b[j], written);
  }

  lemma {:induction false} SpecGiven(a: seq<ArgumentDef>, b: seq<ArgumentDef>, j: nat) returns (i: nat)
    requires ArgumentsAgree(a, b) && j < |b|
    ensures i < |a| && a[i].name == b[j].name
  {
    hide ArgumentAgrees;
    assert Gives(a, b[j]);
    i :| 0 <= i < |a| && ArgumentAgrees(a[i], b[j]);
    SameName(a[i], b[j]);
  }

  lemma {:induction false} SameName(a: ArgumentDef, b: ArgumentDef)
    requires ArgumentAgrees(a, b)
    ensures a.name == b.name
  {}

  lemma {:induction false} OneAlike(c: Context, c2: Context, a: ArgumentDef, b: ArgumentDef, written: seq<Member>)
    requires Ready(c.input, c2.input) && SameStyles(c.input, c2.input) && VarsAgree(c.vars, c2.vars) && ArgumentAgrees(a, b) && UniqueWritten(written)
    requires Known(c.input, a.typ) && StyledAlike(c.input, a.typ, a.default, b.default)
    ensures LikeArg(Argument(c.input, c.vars, a, Written(written, a.name)), Argument(c2.input, c2.vars, b, Written(written, b.name)))
  {
    hide Ready, VarsAgree, Argument, LikeArg, SameStyle, Unique;
    WrittenIn(written, a.name);
    ArgumentLike(c.input, c2.input, c.vars, c2.vars, a, b, Written(written, a.name));
  }

  // ---- Items alike ----

  ghost predicate LikeRecord(r: Record, r2: Record) { r.(args := map[]) == r2.(args := map[]) && LikeArgs(r.args, r2.args) }

  ghost predicate LikeItem(x: Item, y: Item) {
    match x
    case Step => y.Step?
    case Broken(_) => y.Broken?
    case Entry(path, aliased, outcome) =>
      y.Entry? && y.path == path && y.aliased == aliased
      && if outcome.Emit? then y.outcome.Emit? && LikeRecord(outcome.record, y.outcome.record) else y.outcome.Fault?
  }

  ghost predicate LikeSeq(a: seq<Item>, b: seq<Item>) {
    |a| == |b| && forall i :: 0 <= i < |a| ==> LikeItem(a[i], b[i])
  }

  lemma {:induction false} LikeApart(a: seq<Item>, b: seq<Item>, a2: seq<Item>, b2: seq<Item>)
    requires LikeSeq(a, a2) && LikeSeq(b, b2)
    ensures LikeSeq(a + b, a2 + b2)
  {
    hide LikeItem;
    forall i | 0 <= i < |a + b| ensures LikeItem((a + b)[i], (a2 + b2)[i]) {
      if i >= |a| { assert (a + b)[i] == b[i - |a|] && (a2 + b2)[i] == b2[i - |a|]; }
    }
  }

  /** The values written for arguments name each object field once. */
  ghost predicate UniqueArgs(sels: seq<Selection>)
    decreases sels
  {
    forall i :: 0 <= i < |sels| ==> UniqueArgsOne(sels[i])
  }

  ghost predicate UniqueArgsOne(s: Selection)
    decreases s
  {
    match s
    case Field(_, _, _, args, _, inner) => UniqueWritten(args) && UniqueArgs(inner)
    case Inline(_, inner) => UniqueArgs(inner)
    case Spread(_) => true
  }

  ghost predicate GoodFragments(c: Context) {
    forall f :: f in c.fragments ==>
      UniqueArgs(c.fragments[f].sels) && Valid(c, c.fragments[f].sels, TypeNamed(c, c.fragments[f].on))
  }

  lemma {:induction false} EntryAlike(c: Context, c2: Context, s: Selection, parent: string, path: seq<string>, on: string)
    requires ContextsAgree(c, c2) && s.Field? && parent in c.types && parent in c2.types
    requires ValidOne(c, s, parent) && UniqueWritten(s.args)
    ensures LikeItem(FieldEntry(c, s, parent, path, on), FieldEntry(c2, s, parent, path, on))
    ensures s.name != TYPENAME ==> ChildType(c, s, parent) == ChildType(c2, s, parent)
  {
    hide ResolveArgs, Ready, VarsAgree, ArgumentsAgree, UniqueWritten, Known, ArgumentsStyled;
    if s.name != TYPENAME {
      assert FieldIn(c.input, s.name, c.types[parent], c2.types[parent]);
      assert ClosedField(c, c.types[parent], s.name);
      ArgsAlike(c, c2, FieldOf(c.types[parent], s.name).value.args, FieldOf(c2.types[parent], s.name).value.args, s.args);
    }
  }

  lemma {:induction false} FlattenAlike(c: Context, c2: Context, s: Selection, parent: string, path: seq<string>, on: string, n: nat)
    requires ContextsAgree(c, c2) && GoodFragments(c) && parent in c.types && ValidOne(c, s, parent) && UniqueArgsOne(s)
    ensures LikeSeq(Flatten(c, s, Some(parent), path, on, n), Flatten(c2, s, Some(parent), path, on, n))
    decreases n, s
  {
    hide FlattenAll, FieldEntry, ChildType, Valid, UniqueArgs, UniqueWritten, Ready, LikeItem;
    assert parent in c2.types;
    match s {
      case Field(_, _, _, _, _, inner) =>
        EntryAlike(c, c2, s, parent, path, on);
        var entry, entry2 := FieldEntry(c, s, parent, path, on), FieldEntry(c2, s, parent, path, on);
        if Descends(s) {
          FlattenAllAlike(c, c2, inner, ChildType(c, s, parent), path + [s.alias], "", n);
          LikeApart([entry], FlattenAll(c, inner, ChildType(c, s, parent), path + [s.alias], "", n),
                    [entry2], FlattenAll(c2, inner, ChildType(c2, s, parent), path + [s.alias], "", n));
        } else {
          assert [entry] + [] == [entry] && [entry2] + [] == [entry2];
        }
      case Inline(cond, inner) =>
        var t := if cond == "" then Some(parent) else TypeNamed(c, cond);
        ValidParent(c, inner, t);
        assert t == if cond == "" then Some(parent) else TypeNamed(c2, cond);
        FlattenAllAlike(c, c2, inner, t, path, cond, n);
        StepAlike(FlattenAll(c, inner, t, path, cond, n), FlattenAll(c2, inner, t, path, cond, n));
      case Spread(name) =>
        if c.fragments[name].rank < n {
          var f := c.fragments[name];
          ValidParent(c, f.sels, TypeNamed(c, f.on));
          assert TypeNamed(c, f.on) == TypeNamed(c2, f.on);
          FlattenAllAlike(c, c2, f.sels, TypeNamed(c, f.on), path, f.on, f.rank);
          StepAlike(FlattenAll(c, f.sels, TypeNamed(c, f.on), path, f.on, f.rank),
                    FlattenAll(c2, f.sels, TypeNamed(c, f.on), path, f.on, f.rank));
        } else {
          BrokenAlike();
        }
    }
  }

  lemma {:induction false} BrokenAlike()
    ensures LikeSeq([Broken(InvalidQuery)], [Broken(InvalidQuery)])
  {}

  lemma {:induction false} StepAlike(a: seq<Item>, b: seq<Item>)
    requires LikeSeq(a, b)
    ensures LikeSeq([Step] + a, [Step] + b)
  {
    assert LikeItem(Step, Step);
    LikeApart([Step], a, [Step], b);
  }

  lemma {:induction false} ValidParent(c: Context, sels: seq<Selection>, parent: Option<string>)
    requires Valid(c, sels, parent)
    ensures parent.Some? && parent.value in c.types
  {}

  lemma {:induction false} FlattenAllAlike(c: Context, c2: Context, sels: seq<Selection>, parent: Option<string>, path: seq<string>, on: string, n: nat)
    requires ContextsAgree(c, c2) && GoodFragments(c) && Valid(c, sels, parent) && UniqueArgs(sels)
    ensures LikeSeq(FlattenAll(c, sels, parent, path, on, n), FlattenAll(c2, sels, parent, path, on, n))
    decreases n, sels
  {
    hide Flatten, ContextsAgree, GoodFragments, LikeItem, UniqueArgsOne, ValidOne;
    if sels != [] {
      FlattenAlike(c, c2, sels[0], parent.value, path, on, n);
      assert forall i :: 0 <= i < |sels[1..]| ==> sels[1..][i] == sels[i + 1];
      FlattenAllAlike(c, c2, sels[1..], parent, path, on, n);
      LikeApart(Flatten(c, sels[0], parent, path, on, n), FlattenAll(c, sels[1..], parent, path, on, n),
                Flatten(c2, sels[0], parent, path, on, n), FlattenAll(c2, sels[1..], parent, path, on, n));
    }
  }

  // ---- Walks alike ----

  ghost predicate LikeRecords(a: seq<Record>, b: seq<Record>) {
    |a| == |b| && forall i :: 0 <= i < |a| ==> LikeRecord(a[i], b[i])
  }

  /** Both succeed with the same list, or both fail: over the same limit, or
      each on something the other trips over too. */
  ghost predicate LikeWalks(r: Walked, r2: Walked) {
    match r
    case Ok(st) => r2.Ok? && LikeRecords(st.fields, r2.state.fields)
    case Err(why) => r2.Err? && (why == r2.why || (!IsLimit(why) && !IsLimit(r2.why)))
  }

  ghost predicate NoLimitFaults(items: seq<Item>) {
    forall x :: x in items ==>
      (x.Broken? ==> !IsLimit(x.why)) && (x.Entry? && x.outcome.Fault? ==> !IsLimit(x.outcome.why))
  }

  lemma {:induction false} RunAlike(limits: Limits, st: State, st2: State, a: seq<Item>, b: seq<Item>)
    requires LikeSeq(a, b) && NoLimitFaults(a) && NoLimitFaults(b)
    requires LikeRecords(st.fields, st2.fields) && st.aliases == st2.aliases
    ensures LikeWalks(Run(limits, st, a), Run(limits, st2, b))
    decreases |a|
  {
    hide LikeRecord;
    if a != [] {
      assert a[0] in a && b[0] in b && LikeItem(a[0], b[0]);
      var x, y := Admit(limits, st, a[0]), Admit(limits, st2, b[0]);
      assert forall i :: 0 <= i < |a[1..]| ==> a[1..][i] == a[i + 1] && b[1..][i] == b[i + 1];
      if x.Ok? { RunAlike(limits, x.state, y.state, a[1..], b[1..]); }
    }
  }

  lemma {:induction false} FlattenNoLimit(c: Context, s: Selection, parent: Option<string>, path: seq<string>, on: string, n: nat)
    ensures NoLimitFaults(Flatten(c, s, parent, path, on, n))
    decreases n, s
  {
    hide FlattenAll, FieldEntry, ChildType, ResolveArgs;
    match s {
      case Field(_, _, _, _, _, inner) =>
        if parent.Some? && parent.value in c.types {
          EntryNoLimit(c, s, parent.value, path, on);
          FlattenAllNoLimit(c, inner, ChildType(c, s, parent.value), path + [s.alias], "", n);
        }
      case Inline(cond, inner) =>
        FlattenAllNoLimit(c, inner, if cond == "" then parent else TypeNamed(c, cond), path, cond, n);
      case Spread(name) =>
        if name in c.fragments && c.fragments[name].rank < n {
          var f := c.fragments[name];
          FlattenAllNoLimit(c, f.sels, TypeNamed(c, f.on), path, f.on, f.rank);
        }
    }
  }

  lemma {:induction false} EntryNoLimit(c: Context, s: Selection, parent: string, path: seq<string>, on: string)
    requires s.Field? && parent in c.types
    ensures var x := FieldEntry(c, s, parent, path, on); x.Entry? && (x.outcome.Fault? ==> !IsLimit(x.outcome.why))
  {
    hide ResolveArgs;
    if FieldOf(c.types[parent], s.name).Some? { ResolveFault(c, FieldOf(c.types[parent], s.name).value.args, s.args, map[]); }
  }

  lemma {:induction false} FlattenAllNoLimit(c: Context, sels: seq<Selection>, parent: Option<string>, path: seq<string>, on: string, n: nat)
    ensures NoLimitFaults(FlattenAll(c, sels, parent, path, on, n))
    decreases n, sels
  {
    hide Flatten;
    if sels != [] {
      FlattenNoLimit(c, sels[0], parent, path, on, n);
      FlattenAllNoLimit(c, sels[1..], parent, path, on, n);
    }
  }

  /** A document valid against the bundle walks alike with the bundle's schema
      and with that of a source that agrees with it: the same records in the
      same order, their arguments of the same value and origin. */
  lemma {:induction false} WalksAlike(c: Context, c2: Context, limits: Limits, sels: seq<Selection>, query: string)
    requires ContextsAgree(c, c2) && c.bound == c2.bound && GoodFragments(c)
    requires Valid(c, sels, TypeNamed(c, query)) && UniqueArgs(sels)
    ensures LikeWalks(Run(limits, START, FlattenAll(c, sels, TypeNamed(c, query), [], "", c.bound)),
                      Run(limits, START, FlattenAll(c2, sels, TypeNamed(c2, query), [], "", c2.bound)))
  {
    hide FlattenAll, Run, GoodFragments, UniqueArgs, LikeItem, LikeWalks, NoLimitFaults, LikeSeq;
    ValidParent(c, sels, TypeNamed(c, query));
    assert TypeNamed(c2, query) == TypeNamed(c, query);
    FlattenAllAlike(c, c2, sels, TypeNamed(c, query), [], "", c.bound);
    FlattenAllNoLimit(c, sels, TypeNamed(c, query), [], "", c.bound);
    FlattenAllNoLimit(c2, sels, TypeNamed(c, query), [], "", c.bound);
    RunAlike(limits, START, START, FlattenAll(c, sels, TypeNamed(c, query), [], "", c.bound),
             FlattenAll(c2, sels, TypeNamed(c, query), [], "", c.bound));
  }
}
