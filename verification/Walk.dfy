/** The walk of the GraphQL mapper (ftv-graphql-mapper/walk.go): one record per
    field of the expanded document, under limits on depth, records and
    aliases. */
module Walk {
  import opened Base
  import opened Coercion
  import opened Arguments
  import opened Documents

  // ---- Running over a flattened document ----

  datatype State = State(fields: seq<Record>, aliases: nat)

  datatype Walked = Ok(state: State) | Err(why: Unverifiable)

  const START := State([], 0)

  /** checkLimits, then the field itself. */
  function Admit(limits: Limits, st: State, item: Item): Walked {
    match item
    case Step => Ok(st)
    case Broken(why) => Err(why)
    case Entry(path, aliased, outcome) =>
      if |path| > limits.depth then Err(DepthExceeded)
      else if |st.fields| + 1 > limits.records then Err(RecordsExceeded)
      else if aliased && st.aliases + 1 > limits.aliases then Err(AliasesExceeded)
      else match outcome
        case Fault(why) => Err(why)
        case Emit(record) => Ok(State(st.fields + [record], if aliased then st.aliases + 1 else st.aliases))
  }

  function Run(limits: Limits, st: State, items: seq<Item>): Walked
    decreases |items|
  {
    if items == [] then Ok(st)
    else match Admit(limits, st, items[0])
      case Err(why) => Err(why)
      case Ok(next) => Run(limits, next, items[1..])
  }

  /** How many items are met before the run ends. */
  function Visits(limits: Limits, st: State, items: seq<Item>): nat
    decreases |items|
  {
    if items == [] then 0
    else match Admit(limits, st, items[0])
      case Err(_) => 1
      case Ok(next) => 1 + Visits(limits, next, items[1..])
  }

  lemma {:induction false} RunApart(limits: Limits, st: State, a: seq<Item>, b: seq<Item>)
    ensures Run(limits, st, a + b) ==
      match Run(limits, st, a) case Err(why) => Err(why) case Ok(next) => Run(limits, next, b)
    ensures Visits(limits, st, a + b) == Visits(limits, st, a) +
      match Run(limits, st, a) case Err(_) => 0 case Ok(next) => Visits(limits, next, b)
    decreases |a|
  {
    hide Admit;
    if a == [] {
      assert a + b == b;
    } else {
      assert (a + b)[1..] == a[1..] + b;
      var first := Admit(limits, st, a[0]);
      if first.Ok? { RunApart(limits, first.state, a[1..], b); }
    }
  }

  // ---- When the walk succeeds, and what stops it ----

  function Records(items: seq<Item>): seq<Record> {
    if items == [] then []
    else
      var first := items[0];
      (if first.Entry? && first.outcome.Emit? then [first.outcome.record] else []) + Records(items[1..])
  }

  function Entries(items: seq<Item>): nat {
    if items == [] then 0 else (if items[0].Entry? then 1 else 0) + Entries(items[1..])
  }

  function Aliased(items: seq<Item>): nat {
    if items == [] then 0
    else (if items[0].Entry? && items[0].aliased then 1 else 0) + Aliased(items[1..])
  }

  /** What is wrong with the k-th item, given only what stands before it. */
  function Offence(limits: Limits, items: seq<Item>, k: nat): Option<Unverifiable>
    requires k < |items|
  {
    match items[k]
    case Step => None
    case Broken(why) => Some(why)
    case Entry(path, aliased, outcome) =>
      if |path| > limits.depth then Some(DepthExceeded)
      else if Entries(items[..k]) + 1 > limits.records then Some(RecordsExceeded)
      else if aliased && Aliased(items[..k]) + 1 > limits.aliases then Some(AliasesExceeded)
      else match outcome case Fault(why) => Some(why) case Emit(_) => None
  }

  lemma {:induction false} CountsExtend(items: seq<Item>, item: Item)
    ensures Entries(items + [item]) == Entries(items) + if item.Entry? then 1 else 0
    ensures Aliased(items + [item]) == Aliased(items) + if item.Entry? && item.aliased then 1 else 0
    ensures Records(items + [item]) == Records(items) + if item.Entry? && item.outcome.Emit? then [item.outcome.record] else []
    decreases |items|
  {
    if items == [] {
      assert [item][1..] == [] && items + [item] == [item];
    } else {
      assert (items + [item])[1..] == items[1..] + [item];
      CountsExtend(items[1..], item);
    }
  }

  ghost predicate Clean(limits: Limits, items: seq<Item>, k: nat)
    requires k <= |items|
  {
    forall j :: 0 <= j < k ==> Offence(limits, items, j) == None
  }

  function Reached(items: seq<Item>): State { State(Records(items), Aliased(items)) }

  /** While nothing offends, the state is what the items met so far say. */
  lemma {:induction false} RunFrom(limits: Limits, items: seq<Item>, k: nat)
    requires k <= |items| && Clean(limits, items, k)
    requires |Records(items[..k])| == Entries(items[..k])
    ensures var r := Run(limits, Reached(items[..k]), items[k..]);
      match r
      case Ok(st) => Clean(limits, items, |items|) && st == Reached(items)
      case Err(why) => exists j :: k <= j < |items| && Clean(limits, items, j) && Offence(limits, items, j) == Some(why)
    decreases |items| - k
  {
    hide Records, Entries, Aliased;
    if k == |items| {
      assert items[..k] == items;
    } else {
      assert items[..k + 1] == items[..k] + [items[k]];
      CountsExtend(items[..k], items[k]);
      assert items[k..][1..] == items[k + 1..];
      if Offence(limits, items, k).None? {
        assert Admit(limits, Reached(items[..k]), items[k]) == Ok(Reached(items[..k + 1]));
        RunFrom(limits, items, k + 1);
      } else {
        assert Admit(limits, Reached(items[..k]), items[k]) == Err(Offence(limits, items, k).value);
      }
    }
  }

  /** The walk succeeds exactly when no item offends, and then its records are
      those of the document, in order; otherwise it reports what the first
      offending item offends against. */
  lemma {:induction false} RunIsFirstOffence(limits: Limits, items: seq<Item>)
    ensures Run(limits, START, items).Ok? <==> Clean(limits, items, |items|)
    ensures Run(limits, START, items).Ok? ==> Run(limits, START, items).state.fields == Records(items)
    ensures forall k :: 0 <= k < |items| && Clean(limits, items, k) && Offence(limits, items, k).Some? ==>
      Run(limits, START, items) == Err(Offence(limits, items, k).value)
  {
    hide Offence, Run;
    assert items[..0] == [] && items[0..] == items;
    RunFrom(limits, items, 0);
    var r := Run(limits, START, items);
    forall k | 0 <= k < |items| && Clean(limits, items, k) && Offence(limits, items, k).Some?
      ensures r == Err(Offence(limits, items, k).value)
    {
      if r.Err? {
        var j :| 0 <= j < |items| && Clean(limits, items, j) && Offence(limits, items, j) == Some(r.why);
        assert j == k;
      }
    }
  }

  /** Every item up to the first offending one is visited, that one included,
      and none behind it. */
  lemma {:induction false} VisitsExact(limits: Limits, st: State, items: seq<Item>)
    ensures Visits(limits, st, items) <= |items|
    ensures if Run(limits, st, items).Ok? then Visits(limits, st, items) == |items|
            else
              var n := Visits(limits, st, items);
              n > 0 && Run(limits, st, items[..n - 1]).Ok? && Run(limits, st, items[..n]) == Run(limits, st, items)
    decreases |items|
  {
    hide Admit;
    if items != [] {
      var first := Admit(limits, st, items[0]);
      if first.Ok? {
        VisitsExact(limits, first.state, items[1..]);
        var n := Visits(limits, st, items);
        if Run(limits, st, items).Err? {
          assert items[..n][1..] == items[1..][..n - 1] && items[..n - 1][1..] == items[1..][..n - 2];
        }
      } else {
        assert items[..1][1..] == [] && items[..0] == [];
      }
    }
  }

  // ---- The walker ----

  class Walker {
    const c: Context
    const limits: Limits
    var fields: seq<Record>
    var aliases: nat
    /** Selections visited; the source does not count them. */
    ghost var visits: nat

    constructor (c: Context, limits: Limits)
      ensures this.c == c && this.limits == limits && fields == [] && aliases == 0 && visits == 0
    {
      this.c, this.limits := c, limits;
      fields, aliases, visits := [], 0, 0;
    }

    /** The fields are those a run over the items leaves behind. */
    ghost predicate Ran(st0: State, visits0: nat, items: seq<Item>, fail: Option<Unverifiable>)
      reads this
    {
      && visits == visits0 + Visits(limits, st0, items)
      && match Run(limits, st0, items)
         case Err(why) => fail == Some(why)
         case Ok(st) => fail == None && fields == st.fields && aliases == st.aliases
    }

    method CheckLimits(path: seq<string>, aliased: bool) returns (fail: Option<Unverifiable>)
      modifies this`aliases
      ensures fail == if |path| > limits.depth then Some(DepthExceeded)
                      else if |fields| + 1 > limits.records then Some(RecordsExceeded)
                      else if aliased && old(aliases) + 1 > limits.aliases then Some(AliasesExceeded)
                      else None
      ensures fail.None? ==> aliases == if aliased then old(aliases) + 1 else old(aliases)
    {
      if |path| > limits.depth { return Some(DepthExceeded); }
      if |fields| + 1 > limits.records { return Some(RecordsExceeded); }
      if aliased {
        aliases := aliases + 1;
        if aliases > limits.aliases { return Some(AliasesExceeded); }
      }
      return None;
    }

    method ArgsOf(defs: seq<ArgumentDef>, written: seq<Member>) returns (r: Resolution)
      requires Acyclic(c.input)
      ensures r == ResolveArgs(c, defs, written, map[])
    {
      hide Argument, Acyclic;
      var args: map<string, Arg> := map[];
      var i := 0;
      while i < |defs|
        invariant i <= |defs|
        invariant ResolveArgs(c, defs, written, map[]) == ResolveArgs(c, defs[i..], written, args)
      {
        assert defs[i..][1..] == defs[i + 1..];
        var arg := ResolveArgument(c.input, c.vars, defs[i], Written(written, defs[i].name));
        match arg {
          case Bad(why) => return BadArgs(Failed(why));
          case NoValue =>
          case Resolved(a) => args := args[defs[i].name := a];
        }
        i := i + 1;
      }
      return Args(args);
    }

    method FieldAt(s: Selection, parent: Option<string>, path: seq<string>, on: string, ghost n: nat)
      returns (fail: Option<Unverifiable>)
      requires s.Field? && NoCycles(c) && Acyclic(c.input) && SpreadsBelow(c, s.sels, n)
      modifies this
      ensures Ran(State(old(fields), old(aliases)), old(visits), Flatten(c, s, parent, path, on, n), fail)
      decreases n, s, 0
    {
      hide Run, Visits, ResolveArgs, NoCycles, Acyclic, FlattenAll, SpreadsBelow;
      visits := visits + 1;
      ghost var st0 := State(old(fields), old(aliases));
      if parent.None? || parent.value !in c.types {
        RunBroken(limits, st0, InvalidQuery);
        return Some(InvalidQuery);
      }
      ghost var entry := FieldEntry(c, s, parent.value, path, on);
      ghost var below := if Descends(s)
        then FlattenAll(c, s.sels, ChildType(c, s, parent.value), path + [s.alias], "", n) else [];
      assert Flatten(c, s, parent, path, on, n) == [entry] + below;
      RunFirst(limits, st0, entry, below);
      var aliased := IsAliased(s);
      var fieldPath := path + [s.alias];
      var record := Record(fieldPath, if aliased then s.alias else "", parent.value, on, s.name, s.sels == [], map[]);
      fail := CheckLimits(fieldPath, aliased);
      if fail.Some? { return; }
      if s.name == TYPENAME {
        fields := fields + [record];
        return;
      }
      var def := FieldOf(c.types[parent.value], s.name);
      if def.None? { return Some(InvalidQuery); }
      var args := ArgsOf(def.value.args, s.args);
      if args.BadArgs? { return Some(args.why); }
      record := record.(args := args.args);
      fields := fields + [record];
      if s.sels == [] { return None; }
      fail := SelectionsAt(s.sels, ChildType(c, s, parent.value), fieldPath, "", n);
    }

    method SelectionsAt(sels: seq<Selection>, parent: Option<string>, path: seq<string>, on: string, ghost n: nat)
      returns (fail: Option<Unverifiable>)
      requires NoCycles(c) && Acyclic(c.input) && SpreadsBelow(c, sels, n)
      modifies this
      ensures Ran(State(old(fields), old(aliases)), old(visits), FlattenAll(c, sels, parent, path, on, n), fail)
      decreases n, sels
    {
      hide Flatten, Run, Visits, NoCycles, Acyclic;
      ghost var st0, visits0 := State(fields, aliases), visits;
      ghost var items := FlattenAll(c, sels, parent, path, on, n);
      assert sels[0..] == sels;
      RunNothing(limits, st0);
      var i := 0;
      while i < |sels|
        invariant i <= |sels|
        invariant Run(limits, st0, items) == Run(limits, State(fields, aliases), FlattenAll(c, sels[i..], parent, path, on, n))
        invariant visits0 + Visits(limits, st0, items)
          == visits + Visits(limits, State(fields, aliases), FlattenAll(c, sels[i..], parent, path, on, n))
      {
        var s := sels[i];
        assert sels[i..][1..] == sels[i + 1..];
        ghost var st := State(fields, aliases);
        RunApart(limits, st, Flatten(c, s, parent, path, on, n), FlattenAll(c, sels[i + 1..], parent, path, on, n));
        fail := SelectionAt(s, parent, path, on, n);
        if fail.Some? { return; }
        i := i + 1;
      }
      RunNothing(limits, State(fields, aliases));
      return None;
    }

    method SelectionAt(s: Selection, parent: Option<string>, path: seq<string>, on: string, ghost n: nat)
      returns (fail: Option<Unverifiable>)
      requires NoCycles(c) && Acyclic(c.input)
      requires match s
        case Field(_, _, _, _, _, inner) => SpreadsBelow(c, inner, n)
        case Inline(_, inner) => SpreadsBelow(c, inner, n)
        case Spread(name) => name in c.fragments ==> c.fragments[name].rank < n
      modifies this
      ensures Ran(State(old(fields), old(aliases)), old(visits), Flatten(c, s, parent, path, on, n), fail)
      decreases n, s, 1
    {
      hide Run, Visits, FlattenAll, Acyclic, SpreadsBelow;
      ghost var st0 := State(fields, aliases);
      match s
      case Field(_, _, _, _, _, _) =>
        fail := FieldAt(s, parent, path, on, n);
      case Inline(cond, inner) =>
        visits := visits + 1;
        var t := if cond == "" then parent else TypeNamed(c, cond);
        RunFirst(limits, st0, Step, FlattenAll(c, inner, t, path, cond, n));
        fail := SelectionsAt(inner, t, path, cond, n);
      case Spread(name) =>
        visits := visits + 1;
        if name !in c.fragments {
          RunBroken(limits, st0, InvalidQuery);
          return Some(InvalidQuery);
        }
        var f := c.fragments[name];
        RunFirst(limits, st0, Step, FlattenAll(c, f.sels, TypeNamed(c, f.on), path, f.on, f.rank));
        fail := SelectionsAt(f.sels, TypeNamed(c, f.on), path, f.on, f.rank);
    }
  }

  lemma {:induction false} RunNothing(limits: Limits, st: State)
    ensures Run(limits, st, []) == Ok(st) && Visits(limits, st, []) == 0
  {}

  lemma {:induction false} RunBroken(limits: Limits, st: State, why: Unverifiable)
    ensures Run(limits, st, [Broken(why)]) == Err(why) && Visits(limits, st, [Broken(why)]) == 1
  {}

  lemma {:induction false} RunFirst(limits: Limits, st: State, item: Item, rest: seq<Item>)
    ensures Run(limits, st, [item] + rest)
      == match Admit(limits, st, item) case Err(why) => Err(why) case Ok(next) => Run(limits, next, rest)
    ensures Visits(limits, st, [item] + rest)
      == 1 + match Admit(limits, st, item) case Err(_) => 0 case Ok(next) => Visits(limits, next, rest)
    ensures rest == [] ==> Run(limits, st, [item] + rest) == Admit(limits, st, item) && Visits(limits, st, [item] + rest) == 1
  {
    assert ([item] + rest)[1..] == rest;
  }

  /** walk: the field list of an operation, or what makes it unverifiable. */
  method WalkOperation(c: Context, sels: seq<Selection>, query: string, limits: Limits)
    returns (fields: seq<Record>, fail: Option<Unverifiable>, ghost visits: nat)
    requires NoCycles(c) && Acyclic(c.input)
    ensures var items := FlattenAll(c, sels, TypeNamed(c, query), [], "", c.bound);
      && visits == Visits(limits, START, items)
      && match Run(limits, START, items)
         case Err(why) => fail == Some(why) && fields == []
         case Ok(st) => fail == None && fields == st.fields
  {
    var w := new Walker(c, limits);
    BelowBound(c, sels);
    fail := w.SelectionsAt(sels, TypeNamed(c, query), [], "", c.bound);
    visits := w.visits;
    fields := if fail.Some? then [] else w.fields;
  }

  // ---- How many selections the walk visits ----

  /** No more than left spreads and inline fragments, nested in each other,
      stand above a field here, and no more than full below it; no selection
      set is empty. */
  ghost predicate Chained(c: Context, sels: seq<Selection>, full: nat, left: nat, n: nat)
    decreases n, sels
  {
    sels != [] && forall i :: 0 <= i < |sels| ==> ChainedOne(c, sels[i], full, left, n)
  }

  ghost predicate ChainedOne(c: Context, s: Selection, full: nat, left: nat, n: nat)
    decreases n, s
  {
    match s
    case Field(_, _, _, _, _, inner) => inner != [] ==> Chained(c, inner, full, full, n)
    case Inline(_, inner) => left > 0 && Chained(c, inner, full, left - 1, n)
    case Spread(name) =>
      name in c.fragments && c.fragments[name].rank < n ==>
        left > 0 && Chained(c, c.fragments[name].sels, full, left - 1, c.fragments[name].rank)
  }

  /** At most left steps before the first other item, full between two. */
  ghost predicate Paced(items: seq<Item>, full: nat, left: nat)
    decreases |items|
  {
    items == [] || if items[0].Step? then left > 0 && Paced(items[1..], full, left - 1) else Paced(items[1..], full, full)
  }

  ghost predicate EndsInField(items: seq<Item>) { items != [] && !items[|items| - 1].Step? }

  lemma {:induction false} PacedMore(items: seq<Item>, full: nat, left: nat, more: nat)
    requires Paced(items, full, left) && left <= more
    ensures Paced(items, full, more)
    decreases |items|
  {
    if items != [] && items[0].Step? { PacedMore(items[1..], full, left - 1, more - 1); }
  }

  lemma {:induction false} PacedApart(a: seq<Item>, b: seq<Item>, full: nat, left: nat)
    requires Paced(a, full, left) && EndsInField(a) && Paced(b, full, full)
    ensures Paced(a + b, full, left)
    decreases |a|
  {
    assert (a + b)[1..] == a[1..] + b;
    if a[1..] == [] {
      assert a[1..] + b == b;
    } else {
      assert a[1..][|a| - 2] == a[|a| - 1];
      PacedApart(a[1..], b, full, if a[0].Step? then left - 1 else full);
    }
  }

  lemma {:induction false} FlattenPaced(c: Context, s: Selection, parent: Option<string>, path: seq<string>, on: string, full: nat, left: nat, n: nat)
    requires ChainedOne(c, s, full, left, n) && left <= full
    ensures Paced(Flatten(c, s, parent, path, on, n), full, left) && EndsInField(Flatten(c, s, parent, path, on, n))
    decreases n, s
  {
    hide FieldEntry, FlattenAll, ChildType;
    match s {
      case Field(_, _, _, _, _, inner) =>
        if parent.Some? && parent.value in c.types {
          var entry := FieldEntry(c, s, parent.value, path, on);
          assert entry.Entry? by { EntryIsEntry(c, s, parent.value, path, on); }
          if Descends(s) {
            var below := FlattenAll(c, inner, ChildType(c, s, parent.value), path + [s.alias], "", n);
            FlattenAllPaced(c, inner, ChildType(c, s, parent.value), path + [s.alias], "", full, full, n);
            assert ([entry] + below)[1..] == below;
          } else {
            assert [entry][1..] == [] && [entry] + [] == [entry];
          }
        } else {
          assert [Broken(InvalidQuery)][1..] == [];
        }
      case Inline(cond, inner) =>
        var t := if cond == "" then parent else TypeNamed(c, cond);
        FlattenAllPaced(c, inner, t, path, cond, full, left - 1, n);
        StepPaced(FlattenAll(c, inner, t, path, cond, n), full, left);
      case Spread(name) =>
        if name !in c.fragments || c.fragments[name].rank >= n {
          assert [Broken(InvalidQuery)][1..] == [];
        } else {
          var f := c.fragments[name];
          FlattenAllPaced(c, f.sels, TypeNamed(c, f.on), path, f.on, full, left - 1, f.rank);
          StepPaced(FlattenAll(c, f.sels, TypeNamed(c, f.on), path, f.on, f.rank), full, left);
        }
    }
  }

  lemma {:induction false} EntryIsEntry(c: Context, s: Selection, parent: string, path: seq<string>, on: string)
    requires s.Field? && parent in c.types
    ensures FieldEntry(c, s, parent, path, on).Entry?
  {}

  lemma {:induction false} StepPaced(items: seq<Item>, full: nat, left: nat)
    requires left > 0 && Paced(items, full, left - 1) && EndsInField(items)
    ensures Paced([Step] + items, full, left) && EndsInField([Step] + items)
  {
    assert ([Step] + items)[1..] == items;
  }

  lemma {:induction false} FlattenAllPaced(c: Context, sels: seq<Selection>, parent: Option<string>, path: seq<string>, on: string, full: nat, left: nat, n: nat)
    requires sels != [] && (forall i :: 0 <= i < |sels| ==> ChainedOne(c, sels[i], full, left, n)) && left <= full
    ensures Paced(FlattenAll(c, sels, parent, path, on, n), full, left) && EndsInField(FlattenAll(c, sels, parent, path, on, n))
    decreases n, sels
  {
    hide Flatten, ChainedOne, Paced;
    var first, rest := Flatten(c, sels[0], parent, path, on, n), FlattenAll(c, sels[1..], parent, path, on, n);
    FlattenPaced(c, sels[0], parent, path, on, full, left, n);
    if sels[1..] == [] {
      assert first + rest == first;
    } else {
      assert forall i :: 0 <= i < |sels[1..]| ==> sels[1..][i] == sels[i + 1];
      FlattenAllPaced(c, sels[1..], parent, path, on, full, left, n);
      PacedMore(rest, full, left, full);
      PacedApart(first, rest, full, left);
    }
  }

  /** Visits that admit a field: at most room entries, and one more attempt,
      each behind at most full steps. */
  lemma {:induction false} VisitsBounded(limits: Limits, st: State, items: seq<Item>, full: nat, left: nat)
    requires Paced(items, full, left) && left <= full && EndsInField(items) && |st.fields| <= limits.records
    ensures Visits(limits, st, items) <= (full + 1) * (limits.records - |st.fields|) + left + 1
    decreases |items|
  {
    var first, rest := items[0], items[1..];
    var room := limits.records - |st.fields|;
    match Admit(limits, st, first) {
      case Err(_) =>
        Product(full + 1, room);
      case Ok(next) =>
        if rest == [] {
          Product(full + 1, room);
        } else {
          assert rest[|rest| - 1] == items[|items| - 1];
          if first.Step? {
            VisitsBounded(limits, next, rest, full, left - 1);
          } else {
            VisitsBounded(limits, next, rest, full, full);
            ProductStep(full + 1, room);
          }
        }
    }
  }

  lemma {:induction false} Product(a: nat, b: nat)
    ensures a * b >= 0
  {}

  lemma {:induction false} ProductStep(a: nat, b: int)
    ensures a * b == a * (b - 1) + a
  {}

  // ---- The longest chain of a document ----

  function Max(a: nat, b: nat): nat { if a < b then b else a }

  /** How many spreads and inline fragments stand directly in each other at the
      top of these selections. */
  ghost function Chain(c: Context, sels: seq<Selection>, n: nat): nat
    decreases n, sels
  {
    if sels == [] then 0 else Max(ChainOne(c, sels[0], n), Chain(c, sels[1..], n))
  }

  ghost function ChainOne(c: Context, s: Selection, n: nat): nat
    decreases n, s
  {
    match s
    case Field(_, _, _, _, _, _) => 0
    case Inline(_, inner) => 1 + Chain(c, inner, n)
    case Spread(name) =>
      if name in c.fragments && c.fragments[name].rank < n then 1 + Chain(c, c.fragments[name].sels, c.fragments[name].rank) else 0
  }

  /** The longest such chain anywhere in what the selections expand to. */
  ghost function Longest(c: Context, sels: seq<Selection>, n: nat): nat
    decreases n, sels
  {
    if sels == [] then 0 else Max(LongestOne(c, sels[0], n), Longest(c, sels[1..], n))
  }

  ghost function LongestOne(c: Context, s: Selection, n: nat): nat
    decreases n, s
  {
    match s
    case Field(_, _, _, _, _, inner) => Longest(c, inner, n)
    case Inline(_, inner) => Max(1 + Chain(c, inner, n), Longest(c, inner, n))
    case Spread(name) =>
      if name in c.fragments && c.fragments[name].rank < n then
        var f := c.fragments[name];
        Max(1 + Chain(c, f.sels, f.rank), Longest(c, f.sels, f.rank))
      else 0
  }

  /** Validation leaves no selection set empty; a field without one is a leaf. */
  ghost predicate NoneEmpty(c: Context, sels: seq<Selection>, n: nat)
    decreases n, sels
  {
    sels != [] && forall i :: 0 <= i < |sels| ==> NoneEmptyOne(c, sels[i], n)
  }

  ghost predicate NoneEmptyOne(c: Context, s: Selection, n: nat)
    decreases n, s
  {
    match s
    case Field(_, _, _, _, _, inner) => inner != [] ==> NoneEmpty(c, inner, n)
    case Inline(_, inner) => NoneEmpty(c, inner, n)
    case Spread(name) =>
      name in c.fragments && c.fragments[name].rank < n ==> NoneEmpty(c, c.fragments[name].sels, c.fragments[name].rank)
  }

  lemma {:induction false} ChainAt(c: Context, sels: seq<Selection>, n: nat, i: nat)
    requires i < |sels|
    ensures ChainOne(c, sels[i], n) <= Chain(c, sels, n) && LongestOne(c, sels[i], n) <= Longest(c, sels, n)
    decreases |sels|
  {
    hide ChainOne, LongestOne;
    if i > 0 { ChainAt(c, sels[1..], n, i - 1); }
  }

  lemma {:induction false} ChainedByLongest(c: Context, sels: seq<Selection>, full: nat, left: nat, n: nat)
    requires NoneEmpty(c, sels, n) && Longest(c, sels, n) <= full && Chain(c, sels, n) <= left && Chain(c, sels, n) <= full
    ensures Chained(c, sels, full, left, n)
    decreases n, sels
  {
    hide ChainedOne, NoneEmptyOne, ChainOne, LongestOne;
    forall i | 0 <= i < |sels| ensures ChainedOne(c, sels[i], full, left, n) {
      ChainAt(c, sels, n, i);
      ChainedOneByLongest(c, sels[i], full, left, n);
    }
  }

  lemma {:induction false} ChainedOneByLongest(c: Context, s: Selection, full: nat, left: nat, n: nat)
    requires NoneEmptyOne(c, s, n) && LongestOne(c, s, n) <= full && ChainOne(c, s, n) <= left
    ensures ChainedOne(c, s, full, left, n)
    decreases n, s
  {
    hide Chained, NoneEmpty, Chain, Longest;
    match s {
      case Field(_, _, _, _, _, inner) =>
        if inner != [] {
          ChainWithin(c, inner, n);
          ChainedByLongest(c, inner, full, full, n);
        }
      case Inline(_, inner) =>
        ChainedByLongest(c, inner, full, left - 1, n);
      case Spread(name) =>
        if name in c.fragments && c.fragments[name].rank < n {
          ChainedByLongest(c, c.fragments[name].sels, full, left - 1, c.fragments[name].rank);
        }
    }
  }

  lemma {:induction false} ChainWithin(c: Context, sels: seq<Selection>, n: nat)
    ensures Chain(c, sels, n) <= Longest(c, sels, n)
    decreases |sels|
  {
    if sels != [] { ChainWithin(c, sels[1..], n); }
  }

  lemma {:induction false} VisitsWithin(c: Context, limits: Limits, sels: seq<Selection>, query: string, full: nat)
    requires Chained(c, sels, full, full, c.bound)
    ensures Visits(limits, START, FlattenAll(c, sels, TypeNamed(c, query), [], "", c.bound)) <= (limits.records + 1) * (full + 1)
  {
    hide Visits, FlattenAll, Paced;
    var items := FlattenAll(c, sels, TypeNamed(c, query), [], "", c.bound);
    FlattenAllPaced(c, sels, TypeNamed(c, query), [], "", full, full, c.bound);
    VisitsBounded(limits, START, items, full, full);
    ProductStep(full + 1, limits.records + 1);
    assert (full + 1) * (limits.records + 1) == (limits.records + 1) * (full + 1);
  }

  /** The walk visits at most (records + 1) × (longest chain + 1) selections of
      a document without empty selection sets: the limit on records bounds its
      work, whatever the fragments expand to. */
  lemma {:induction false} VisitsAtMost(c: Context, limits: Limits, sels: seq<Selection>, query: string)
    requires NoneEmpty(c, sels, c.bound)
    ensures Visits(limits, START, FlattenAll(c, sels, TypeNamed(c, query), [], "", c.bound))
      <= (limits.records + 1) * (Longest(c, sels, c.bound) + 1)
  {
    hide Visits, FlattenAll, Chained;
    var full := Longest(c, sels, c.bound);
    ChainWithin(c, sels, c.bound);
    ChainedByLongest(c, sels, full, full, c.bound);
    VisitsWithin(c, limits, sels, query, full);
  }
}
