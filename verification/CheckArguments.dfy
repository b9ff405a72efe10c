/** checkArguments (ftv-graphql-mapper/walk.go): the arguments of every field
    are resolved once, each fragment visited once, before the walk. */
module CheckArguments {
  import opened Base
  import opened Coercion
  import opened Arguments
  import opened Documents
  import opened Walk
  import opened Coverage

  /** One argument to resolve: that of a field in the document. */
  datatype Check = Check(field: Selection, argument: ArgumentDef)

  // ---- Visiting order ----

  /** The fields met, in order, and the fragments seen; a fragment seen before
      is passed over. */
  function Visit(c: Context, sels: seq<Selection>, seen: set<string>, n: nat): (seq<Selection>, set<string>)
    decreases n, sels
  {
    if sels == [] then ([], seen)
    else
      var (first, seen1) := VisitOne(c, sels[0], seen, n);
      var (rest, all) := Visit(c, sels[1..], seen1, n);
      (first + rest, all)
  }

  function VisitOne(c: Context, s: Selection, seen: set<string>, n: nat): (seq<Selection>, set<string>)
    decreases n, s
  {
    match s
    case Field(_, _, _, _, _, inner) =>
      var (below, all) := Visit(c, inner, seen, n);
      ([s] + below, all)
    case Inline(_, inner) => Visit(c, inner, seen, n)
    case Spread(name) =>
      if name in c.fragments && name !in seen && c.fragments[name].rank < n
      then Visit(c, c.fragments[name].sels, seen + {name}, c.fragments[name].rank)
      else ([], seen)
  }

  function ChecksOf(s: Selection): seq<Check> {
    if s.Field? && s.definition.Some?
    then var args := s.definition.value.args; seq(|args|, i requires 0 <= i < |args| => Check(s, args[i]))
    else []
  }

  function Checks(fields: seq<Selection>): seq<Check> {
    if fields == [] then [] else ChecksOf(fields[0]) + Checks(fields[1..])
  }

  // ---- The verdict ----

  function Outcome(c: Context, check: Check): Resolved {
    if check.field.Field? then Argument(c.input, c.vars, check.argument, Written(check.field.args, check.argument.name))
    else NoValue
  }

  predicate IsBad(c: Context, check: Check, variable: bool) {
    Outcome(c, check).Bad? && (Outcome(c, check).why.VariableError? <==> variable)
  }

  /** The first check that fails, by the fault of a variable or of the document. */
  function FirstBad(c: Context, checks: seq<Check>, variable: bool): (r: Option<Check>)
    ensures r.None? <==> forall i :: 0 <= i < |checks| ==> !IsBad(c, checks[i], variable)
  {
    if checks == [] then None
    else if IsBad(c, checks[0], variable) then Some(checks[0])
    else
      var r := FirstBad(c, checks[1..], variable);
      assert forall i :: 0 <= i < |checks[1..]| ==> checks[1..][i] == checks[i + 1];
      r
  }

  lemma {:induction false} FirstBadIsFirst(c: Context, checks: seq<Check>, variable: bool) returns (i: nat)
    requires FirstBad(c, checks, variable).Some?
    ensures i < |checks| && checks[i] == FirstBad(c, checks, variable).value && IsBad(c, checks[i], variable)
    ensures forall j :: 0 <= j < i ==> !IsBad(c, checks[j], variable)
  {
    hide IsBad;
    if IsBad(c, checks[0], variable) {
      i := 0;
    } else {
      i := FirstBadIsFirst(c, checks[1..], variable);
      assert forall j :: 0 <= j < |checks[1..]| ==> checks[1..][j] == checks[j + 1];
      i := i + 1;
    }
  }

  lemma {:induction false} FirstBadApart(c: Context, a: seq<Check>, b: seq<Check>, variable: bool)
    ensures FirstBad(c, a + b, variable) ==
      if FirstBad(c, a, variable).Some? then FirstBad(c, a, variable) else FirstBad(c, b, variable)
    decreases |a|
  {
    hide IsBad;
    if a == [] {
      assert a + b == b;
    } else {
      assert (a + b)[1..] == a[1..] + b;
      FirstBadApart(c, a[1..], b, variable);
    }
  }

  lemma {:induction false} ChecksApart(a: seq<Selection>, b: seq<Selection>)
    ensures Checks(a + b) == Checks(a) + Checks(b)
    decreases |a|
  {
    hide ChecksOf;
    if a == [] {
      assert a + b == b;
    } else {
      assert (a + b)[1..] == a[1..] + b;
      ChecksApart(a[1..], b);
    }
  }

  /** Passed, or refused for one argument: the first error of the document in
      visiting order if there is one, else the first of a variable. */
  datatype Verdict = Passed | Stopped(why: Unverifiable, check: Check)

  function VerdictOf(c: Context, checks: seq<Check>): Verdict {
    var value, variable := FirstBad(c, checks, false), FirstBad(c, checks, true);
    if value.Some? then Stopped(InvalidQuery, value.value)
    else if variable.Some? then Stopped(VariableFault, variable.value)
    else Passed
  }

  /** What resolving one argument of a selection gives. */
  function ResultOf(c: Context, check: Check): Resolved
    requires check.field.Field?
  {
    Argument(c.input, c.vars, check.argument, Written(check.field.args, check.argument.name))
  }

  predicate FailsBy(c: Context, check: Check, variable: bool) {
    check.field.Field? && ResultOf(c, check).Bad? && (ResultOf(c, check).why == VariableError <==> variable)
  }

  /** The verdict names the first argument the document is at fault for; only if
      there is none, the first a variable is at fault for; and passes only if
      every argument resolves. */
  ghost predicate Judges(c: Context, checks: seq<Check>, r: Verdict) {
    match r
    case Stopped(why, check) =>
      exists i :: 0 <= i < |checks| && checks[i] == check && FailsBy(c, check, why == VariableFault)
                  && (forall j :: 0 <= j < i ==> !FailsBy(c, checks[j], why == VariableFault))
                  && (if why == VariableFault then forall j :: 0 <= j < |checks| ==> !FailsBy(c, checks[j], false) else why == InvalidQuery)
    case Passed => forall i :: 0 <= i < |checks| ==> !FailsBy(c, checks[i], false) && !FailsBy(c, checks[i], true)
  }

  lemma {:induction false} VerdictJudges(c: Context, checks: seq<Check>)
    ensures Judges(c, checks, VerdictOf(c, checks))
  {
    forall check, variable ensures IsBad(c, check, variable) <==> FailsBy(c, check, variable) { BadFails(c, check, variable); }
    hide IsBad, FailsBy, FirstBad;
    var value, variable := FirstBad(c, checks, false), FirstBad(c, checks, true);
    if value.Some? {
      var i := FirstBadIsFirst(c, checks, false);
    } else if variable.Some? {
      var i := FirstBadIsFirst(c, checks, true);
    }
  }

  lemma BadFails(c: Context, check: Check, variable: bool)
    ensures IsBad(c, check, variable) <==> FailsBy(c, check, variable)
  {
    hide Argument, Written;
  }

  class Checker {
    const c: Context
    var seen: set<string>
    var varErr: Option<Check>

    constructor (c: Context)
      ensures this.c == c && seen == {} && varErr == None
    {
      this.c := c;
      seen, varErr := {}, None;
    }

    /** The first error of a variable is kept, the first of the document ends
        the visit. */
    ghost predicate Did(varErr0: Option<Check>, checks: seq<Check>, fail: Option<Check>)
      reads this
    {
      && fail == FirstBad(c, checks, false)
      && (fail.None? ==> varErr == if varErr0.Some? then varErr0 else FirstBad(c, checks, true))
    }

    lemma {:induction false} DidNext(varErr0: Option<Check>, a: seq<Check>, varErr1: Option<Check>, b: seq<Check>, fail: Option<Check>)
      requires FirstBad(c, a, false).None?
      requires varErr1 == if varErr0.Some? then varErr0 else FirstBad(c, a, true)
      requires Did(varErr1, b, fail)
      ensures Did(varErr0, a + b, fail)
    {
      hide FirstBad;
      FirstBadApart(c, a, b, false);
      FirstBadApart(c, a, b, true);
    }

    lemma {:induction false} DidBoth(varErr0: Option<Check>, a: seq<Check>, b: seq<Check>, fail: Option<Check>)
      requires fail.Some? && FirstBad(c, a, false) == fail
      ensures Did(varErr0, a + b, fail)
    {
      hide FirstBad;
      FirstBadApart(c, a, b, false);
    }

    method CheckField(s: Selection) returns (fail: Option<Check>)
      requires s.Field? && Arguments.Acyclic(c.input)
      modifies this`varErr
      ensures Did(old(varErr), ChecksOf(s), fail)
    {
      if s.definition.None? { return None; }
      var checks := ChecksOf(s);
      hide Argument, Arguments.Acyclic, ChecksOf, FirstBad, Written;
      var i := 0;
      while i < |checks|
        invariant i <= |checks|
        invariant forall j :: 0 <= j < i ==> !IsBad(c, checks[j], false)
        invariant varErr == if old(varErr).Some? then old(varErr) else FirstBad(c, checks[..i], true)
      {
        var check := checks[i];
        assert checks[..i + 1] == checks[..i] + [check];
        FirstBadApart(c, checks[..i], [check], true);
        OneCheck(check);
        var r := ResolveArgument(c.input, c.vars, check.argument, Written(s.args, check.argument.name));
        if r.Bad? {
          if r.why.VariableError? {
            if varErr.None? { varErr := Some(check); }
          } else {
            FirstAt(checks, i);
            return Some(check);
          }
        }
        i := i + 1;
      }
      assert checks[..i] == checks;
      return None;
    }

    lemma OneCheck(check: Check)
      ensures FirstBad(c, [check], true) == if IsBad(c, check, true) then Some(check) else None
    {
      assert [check][1..] == [];
    }

    lemma {:induction false} FirstAt(checks: seq<Check>, i: nat)
      requires i < |checks| && IsBad(c, checks[i], false) && forall j :: 0 <= j < i ==> !IsBad(c, checks[j], false)
      ensures FirstBad(c, checks, false) == Some(checks[i])
      decreases i
    {
      hide IsBad;
      if i > 0 {
        assert forall j :: 0 <= j < |checks[1..]| ==> checks[1..][j] == checks[j + 1];
        FirstAt(checks[1..], i - 1);
      }
    }

    method VisitSelection(s: Selection, ghost n: nat) returns (fail: Option<Check>)
      requires NoCycles(c) && Arguments.Acyclic(c.input) && BelowOne(c, s, n)
      modifies this
      ensures Did(old(varErr), Checks(VisitOne(c, s, old(seen), n).0), fail)
      ensures fail.None? ==> seen == VisitOne(c, s, old(seen), n).1
      decreases n, s
    {
      hide Visit, FirstBad, ChecksOf, Arguments.Acyclic, SpreadsBelow;
      match s
      case Field(_, _, _, _, _, inner) =>
        ghost var below := Visit(c, inner, seen, n).0;
        assert ([s] + below)[1..] == below;
        fail := CheckField(s);
        if fail.Some? {
          DidBoth(old(varErr), ChecksOf(s), Checks(below), fail);
          return;
        }
        ghost var varErr1 := varErr;
        fail := VisitAll(inner, n);
        DidNext(old(varErr), ChecksOf(s), varErr1, Checks(below), fail);
      case Inline(_, inner) =>
        fail := VisitAll(inner, n);
      case Spread(name) =>
        if name in c.fragments && name !in seen {
          seen := seen + {name};
          FragmentBelow(c, name);
          fail := VisitAll(c.fragments[name].sels, c.fragments[name].rank);
        } else {
          NothingChecked();
          return None;
        }
    }

    lemma NothingChecked()
      ensures FirstBad(c, Checks([]), false) == None && FirstBad(c, Checks([]), true) == None
    {}

    method VisitAll(sels: seq<Selection>, ghost n: nat) returns (fail: Option<Check>)
      requires NoCycles(c) && Arguments.Acyclic(c.input) && SpreadsBelow(c, sels, n)
      modifies this
      ensures Did(old(varErr), Checks(Visit(c, sels, old(seen), n).0), fail)
      ensures fail.None? ==> seen == Visit(c, sels, old(seen), n).1
      decreases n, sels
    {
      hide VisitOne, FirstBad, Checks, Arguments.Acyclic, BelowOne, NoCycles;
      ghost var whole := Visit(c, sels, seen, n);
      ghost var done: seq<Selection> := [];
      NothingChecked();
      assert sels[0..] == sels && done + whole.0 == whole.0;
      BelowApart(c, sels, n);
      hide SpreadsBelow;
      var i := 0;
      while i < |sels|
        invariant i <= |sels|
        invariant whole == (done + Visit(c, sels[i..], seen, n).0, Visit(c, sels[i..], seen, n).1)
        invariant Did(old(varErr), Checks(done), None)
      {
        var s := sels[i];
        ghost var one, rest := VisitOne(c, s, seen, n), Visit(c, sels[i + 1..], VisitOne(c, s, seen, n).1, n);
        assert sels[i..][0] == s && sels[i..][1..] == sels[i + 1..];
        assert whole.0 == (done + one.0) + rest.0;
        ghost var varErr1 := varErr;
        fail := VisitSelection(s, n);
        ChecksApart(done, one.0);
        DidNext(old(varErr), Checks(done), varErr1, Checks(one.0), fail);
        if fail.Some? {
          ChecksApart(done + one.0, rest.0);
          DidBoth(old(varErr), Checks(done + one.0), Checks(rest.0), fail);
          return;
        }
        done := done + one.0;
        i := i + 1;
      }
      assert done + [] == done;
      return None;
    }
  }

  /** checkArguments */
  method CheckAll(c: Context, sels: seq<Selection>) returns (r: Verdict)
    requires NoCycles(c) && Arguments.Acyclic(c.input)
    ensures r == VerdictOf(c, Checks(Visit(c, sels, {}, c.bound).0))
    ensures Judges(c, Checks(Visit(c, sels, {}, c.bound).0), r)
  {
    hide FirstBad, Visit, Checks, Arguments.Acyclic, NoCycles, Judges;
    VerdictJudges(c, Checks(Visit(c, sels, {}, c.bound).0));
    var checker := new Checker(c);
    BelowBound(c, sels);
    var fail := checker.VisitAll(sels, c.bound);
    if fail.Some? { return Stopped(InvalidQuery, fail.value); }
    return if checker.varErr.Some? then Stopped(VariableFault, checker.varErr.value) else Passed;
  }

  // ---- Checking once reaches what the expansion reaches ----

  /** Every field here, spreads left aside, is among those checked, and every
      fragment spread here is among those seen. */
  ghost predicate Covered(c: Context, sels: seq<Selection>, checked: seq<Selection>, seen: set<string>)
    decreases sels
  {
    forall i :: 0 <= i < |sels| ==> CoveredOne(c, sels[i], checked, seen)
  }

  ghost predicate CoveredOne(c: Context, s: Selection, checked: seq<Selection>, seen: set<string>)
    decreases s
  {
    match s
    case Field(_, _, _, _, _, inner) => s in checked && Covered(c, inner, checked, seen)
    case Inline(_, inner) => Covered(c, inner, checked, seen)
    case Spread(name) => name in c.fragments ==> name in seen
  }

  /** The fragments seen, but for some, are covered themselves. */
  ghost predicate Closed(c: Context, checked: seq<Selection>, seen: set<string>, open: set<string>) {
    forall g :: g in seen && g !in open && g in c.fragments ==> Covered(c, c.fragments[g].sels, checked, seen)
  }

  lemma {:induction false} CoveredMore(c: Context, sels: seq<Selection>, a: seq<Selection>, b: seq<Selection>, seen: set<string>, more: set<string>)
    requires Covered(c, sels, a, seen) && (forall x :: x in a ==> x in b) && seen <= more
    ensures Covered(c, sels, b, more)
    decreases sels
  {
    forall i | 0 <= i < |sels| ensures CoveredOne(c, sels[i], b, more) {
      if !sels[i].Spread? { CoveredMore(c, sels[i].sels, a, b, seen, more); }
    }
  }

  lemma {:induction false} CoveredOneMore(c: Context, s: Selection, a: seq<Selection>, b: seq<Selection>, seen: set<string>, more: set<string>)
    requires CoveredOne(c, s, a, seen) && (forall x :: x in a ==> x in b) && seen <= more
    ensures CoveredOne(c, s, b, more)
  {
    if !s.Spread? { CoveredMore(c, s.sels, a, b, seen, more); }
  }

  lemma {:induction false} ClosedBoth(c: Context, a: seq<Selection>, b: seq<Selection>, seen: set<string>, middle: set<string>, all: set<string>)
    requires seen <= middle <= all
    requires Closed(c, a, middle, seen) && Closed(c, b, all, middle)
    ensures Closed(c, a + b, all, seen)
  {
    hide Covered;
    forall g | g in all && g !in seen && g in c.fragments ensures Covered(c, c.fragments[g].sels, a + b, all) {
      if g in middle {
        CoveredMore(c, c.fragments[g].sels, a, a + b, middle, all);
      } else {
        CoveredMore(c, c.fragments[g].sels, b, a + b, all, all);
      }
    }
  }

  /** A visit covers its selections and closes the fragments it sees. */
  lemma {:induction false} VisitCovers(c: Context, sels: seq<Selection>, seen: set<string>, n: nat)
    requires NoCycles(c) && SpreadsBelow(c, sels, n)
    ensures var (checked, all) := Visit(c, sels, seen, n);
      seen <= all && Covered(c, sels, checked, all) && Closed(c, checked, all, seen)
    decreases n, sels
  {
    hide VisitOne, NoCycles, SpreadsBelow, BelowOne, CoveredOne, Closed;
    if sels == [] {
      assert Closed(c, [], seen, seen) by { NothingOpen(c, seen); }
    } else {
      var (first, seen1) := VisitOne(c, sels[0], seen, n);
      var (rest, all) := Visit(c, sels[1..], seen1, n);
      BelowApart(c, sels, n);
      BelowRest(c, sels, n);
      VisitOneCovers(c, sels[0], seen, n);
      VisitCovers(c, sels[1..], seen1, n);
      ClosedBoth(c, first, rest, seen, seen1, all);
      forall i | 0 <= i < |sels| ensures CoveredOne(c, sels[i], first + rest, all) {
        if i == 0 {
          CoveredOneMore(c, sels[0], first, first + rest, seen1, all);
        } else {
          assert sels[i] == sels[1..][i - 1];
          CoveredOneMore(c, sels[i], rest, first + rest, all, all);
        }
      }
    }
  }

  lemma {:induction false} NothingOpen(c: Context, seen: set<string>)
    ensures Closed(c, [], seen, seen)
  {}

  lemma {:induction false} VisitOneCovers(c: Context, s: Selection, seen: set<string>, n: nat)
    requires NoCycles(c) && BelowOne(c, s, n)
    ensures var (checked, all) := VisitOne(c, s, seen, n);
      seen <= all && CoveredOne(c, s, checked, all) && Closed(c, checked, all, seen)
    decreases n, s
  {
    hide Visit, NoCycles, SpreadsBelow, Covered;
    match s {
      case Field(_, _, _, _, _, inner) =>
        var (below, all) := Visit(c, inner, seen, n);
        VisitCovers(c, inner, seen, n);
        CoveredMore(c, inner, below, [s] + below, all, all);
        forall g | g in all && g !in seen && g in c.fragments ensures Covered(c, c.fragments[g].sels, [s] + below, all) {
          CoveredMore(c, c.fragments[g].sels, below, [s] + below, all, all);
        }
      case Inline(_, inner) => VisitCovers(c, inner, seen, n);
      case Spread(name) =>
        if name in c.fragments && name !in seen {
          FragmentBelow(c, name);
          VisitCovers(c, c.fragments[name].sels, seen + {name}, c.fragments[name].rank);
        } else {
          NothingOpen(c, seen);
        }
    }
  }

  // ---- Passing the check ----

  /** What validation grants: a field's definition is that of its parent type,
      every type and every fragment named exists, and only fields of composite
      types have selections. */
  ghost predicate Valid(c: Context, sels: seq<Selection>, parent: Option<string>)
    decreases sels
  {
    parent.Some? && parent.value in c.types && forall i :: 0 <= i < |sels| ==> ValidOne(c, sels[i], parent.value)
  }

  ghost predicate ValidOne(c: Context, s: Selection, parent: string)
    requires parent in c.types
    decreases s
  {
    match s
    case Field(_, name, _, _, definition, inner) =>
      name == TYPENAME ||
      (definition.Some? && FieldOf(c.types[parent], name) == definition
       && (inner != [] ==> Valid(c, inner, ChildType(c, s, parent))))
    case Inline(on, inner) => Valid(c, inner, if on == "" then Some(parent) else TypeNamed(c, on))
    case Spread(name) => name in c.fragments
  }

  ghost predicate ValidDocument(c: Context, sels: seq<Selection>, query: string) {
    && Valid(c, sels, TypeNamed(c, query))
    && forall f :: f in c.fragments ==> Valid(c, c.fragments[f].sels, TypeNamed(c, c.fragments[f].on))
  }

  ghost predicate Sound(c: Context, checked: seq<Selection>) {
    forall s, k :: s in checked && 0 <= k < |ChecksOf(s)| ==> !Outcome(c, ChecksOf(s)[k]).Bad?
  }

  lemma {:induction false} PassedIsSound(c: Context, checked: seq<Selection>)
    requires VerdictOf(c, Checks(checked)).Passed?
    ensures Sound(c, checked)
  {
    hide Outcome, ChecksOf;
    var checks := Checks(checked);
    forall s, k | s in checked && 0 <= k < |ChecksOf(s)| ensures !Outcome(c, ChecksOf(s)[k]).Bad? {
      CheckIn(checked, s, k);
      var i :| 0 <= i < |checks| && checks[i] == ChecksOf(s)[k];
      assert !IsBad(c, checks[i], false) && !IsBad(c, checks[i], true);
    }
  }

  lemma {:induction false} CheckIn(checked: seq<Selection>, s: Selection, k: nat)
    requires s in checked && k < |ChecksOf(s)|
    ensures ChecksOf(s)[k] in Checks(checked)
    decreases |checked|
  {
    hide ChecksOf;
    if s != checked[0] { CheckIn(checked[1..], s, k); }
  }

  lemma {:induction false} ArgsResolve(c: Context, defs: seq<ArgumentDef>, written: seq<Member>, args: map<string, Arg>)
    requires forall i :: 0 <= i < |defs| ==> !Argument(c.input, c.vars, defs[i], Written(written, defs[i].name)).Bad?
    ensures ResolveArgs(c, defs, written, args).Args?
    decreases |defs|
  {
    hide Argument;
    if defs != [] {
      var r := Argument(c.input, c.vars, defs[0], Written(written, defs[0].name));
      assert forall i :: 0 <= i < |defs[1..]| ==> defs[1..][i] == defs[i + 1];
      ArgsResolve(c, defs[1..], written, if r.Resolved? then args[defs[0].name := r.arg] else args);
    }
  }

  lemma {:induction false} CheckedEmits(c: Context, checked: seq<Selection>, s: Selection, parent: string, path: seq<string>, on: string)
    requires s.Field? && parent in c.types && ValidOne(c, s, parent) && Sound(c, checked) && s in checked
    ensures FieldEntry(c, s, parent, path, on).Entry? && FieldEntry(c, s, parent, path, on).outcome.Emit?
  {
    hide Argument;
    if s.name != TYPENAME {
      var defs := s.definition.value.args;
      forall i | 0 <= i < |defs| ensures !Argument(c.input, c.vars, defs[i], Written(s.args, defs[i].name)).Bad? {
        assert ChecksOf(s)[i] == Check(s, defs[i]);
        assert !Outcome(c, ChecksOf(s)[i]).Bad?;
      }
      ArgsResolve(c, defs, s.args, map[]);
    }
  }

  ghost predicate Checked(c: Context, checked: seq<Selection>, seen: set<string>) {
    && Sound(c, checked) && Closed(c, checked, seen, {})
    && forall f :: f in c.fragments ==> Valid(c, c.fragments[f].sels, TypeNamed(c, c.fragments[f].on))
  }

  /** Whatever the full expansion meets, its fields resolve. */
  lemma {:induction false} ExpansionEmits(c: Context, checked: seq<Selection>, seen: set<string>, sels: seq<Selection>,
                                          parent: Option<string>, path: seq<string>, on: string, n: nat)
    requires Checked(c, checked, seen) && NoCycles(c) && SpreadsBelow(c, sels, n)
    requires Covered(c, sels, checked, seen) && Valid(c, sels, parent)
    ensures Emits(FlattenAll(c, sels, parent, path, on, n))
    decreases n, sels
  {
    hide Flatten, NoCycles, SpreadsBelow, BelowOne, Checked, CoveredOne, ValidOne;
    if sels != [] {
      BelowApart(c, sels, n);
      BelowRest(c, sels, n);
      OneEmits(c, checked, seen, sels[0], parent.value, path, on, n);
      assert forall i :: 0 <= i < |sels[1..]| ==> sels[1..][i] == sels[i + 1];
      ExpansionEmits(c, checked, seen, sels[1..], parent, path, on, n);
    }
  }

  lemma {:induction false} OneEmits(c: Context, checked: seq<Selection>, seen: set<string>, s: Selection,
                                    parent: string, path: seq<string>, on: string, n: nat)
    requires Checked(c, checked, seen) && NoCycles(c) && BelowOne(c, s, n)
    requires CoveredOne(c, s, checked, seen) && parent in c.types && ValidOne(c, s, parent)
    ensures Emits(Flatten(c, s, Some(parent), path, on, n))
    decreases n, s
  {
    hide FlattenAll, NoCycles, SpreadsBelow, Covered, Valid, FieldEntry, ChildType;
    match s {
      case Field(_, name, _, _, _, inner) =>
        CheckedEmits(c, checked, s, parent, path, on);
        if Descends(s) {
          ExpansionEmits(c, checked, seen, inner, ChildType(c, s, parent), path + [s.alias], "", n);
        }
      case Inline(cond, inner) =>
        ExpansionEmits(c, checked, seen, inner, if cond == "" then Some(parent) else TypeNamed(c, cond), path, cond, n);
      case Spread(name) =>
        FragmentBelow(c, name);
        var f := c.fragments[name];
        ExpansionEmits(c, checked, seen, f.sels, TypeNamed(c, f.on), path, f.on, f.rank);
    }
  }

  /** Once every argument has been checked, a walk of the document fails with
      an exceeded limit or not at all. */
  lemma {:induction false} OnlyLimitsRemain(c: Context, limits: Limits, sels: seq<Selection>, query: string)
    requires NoCycles(c) && ValidDocument(c, sels, query)
    requires VerdictOf(c, Checks(Visit(c, sels, {}, c.bound).0)).Passed?
    ensures var r := Run(limits, START, FlattenAll(c, sels, TypeNamed(c, query), [], "", c.bound));
      r.Err? ==> IsLimit(r.why)
  {
    hide Visit, Checks, FlattenAll, NoCycles, Covered, Valid, Run, Closed, Sound, VerdictOf;
    var (checked, seen) := Visit(c, sels, {}, c.bound);
    var items := FlattenAll(c, sels, TypeNamed(c, query), [], "", c.bound);
    BelowBound(c, sels);
    VisitCovers(c, sels, {}, c.bound);
    PassedIsSound(c, checked);
    ExpansionEmits(c, checked, seen, sels, TypeNamed(c, query), [], "", c.bound);
    EmittedOffence(limits, items);
  }

  lemma {:induction false} EmittedOffence(limits: Limits, items: seq<Item>)
    requires Emits(items)
    ensures Run(limits, START, items).Err? ==> IsLimit(Run(limits, START, items).why)
  {
    hide Run;
    assert items[..0] == [] && items[0..] == items;
    RunFrom(limits, items, 0);
    var r := Run(limits, START, items);
    if r.Err? {
      var j :| 0 <= j < |items| && Offence(limits, items, j) == Some(r.why);
      assert items[j] in items;
    }
  }
}
