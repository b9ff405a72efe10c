/** The planner and the builder fit together: what Build makes of the source's
    answer to the planned query is what it would make of the full answer. */
module Adequacy {
  import opened Base
  import opened SelectionSets
  import opened AsiMapping
  import Order

  // ---- What a source answers ----

  /** Several selection sets that apply to one object select a field when one
      of them does; the sets below it are merged (section 6.3.2 of the GraphQL
      specification). */
  predicate Wanted(sets: seq<Selection>, name: string) {
    exists i :: 0 <= i < |sets| && name in sets[i].fields
  }

  function Merged(sets: seq<Selection>, name: string): seq<Selection> {
    if sets == [] then []
    else
      var first := if name in sets[0].fields then [sets[0].fields[name]] else [];
      first + Merged(sets[1..], name)
  }

  predicate Leaf(sets: seq<Selection>) {
    forall i :: 0 <= i < |sets| ==> sets[i].fields == map[]
  }

  /** The part of a full answer that a selection asks for. */
  function Project(sets: seq<Selection>, v: Json): Json
    decreases v
  {
    if Leaf(sets) then v
    else match v
      case JObj(members) =>
        JObj(map n | n in members && Wanted(sets, n) :: Project(Merged(sets, n), members[n]))
      case JList(items) => JList(seq(|items|, i requires 0 <= i < |items| => Project(sets, items[i])))
      case _ => v
  }

  function Applying(s: Selection, types: seq<string>, applies: string -> bool): seq<Selection> {
    if types == [] then []
    else
      var first := if types[0] in s.fragments && applies(types[0]) then [s.fragments[types[0]]] else [];
      first + Applying(s, types[1..], applies)
  }

  /** The sets that apply to an answer: the root, and the fragments on a type
      it has. */
  ghost function Sources(s: Selection, applies: string -> bool): seq<Selection> {
    [s] + Applying(s, Order.SortedKeys(s.fragments.Keys), applies)
  }

  ghost function Answer(s: Selection, applies: string -> bool, full: Json): Json {
    Project(Sources(s, applies), full)
  }

  // ---- Looking up in a projected answer ----

  ghost predicate Asked(sets: seq<Selection>, names: seq<string>)
    decreases |names|
  {
    names == [] || (Wanted(sets, names[0]) && Asked(Merged(sets, names[0]), names[1..]))
  }

  function Under(sets: seq<Selection>, names: seq<string>): seq<Selection>
    decreases |names|
  {
    if names == [] then sets else Under(Merged(sets, names[0]), names[1..])
  }

  function Through(sets: seq<Selection>, found: Found): Found {
    match found case Found(v) => Found(Project(sets, v)) case _ => found
  }

  /** Looking up an asked path in the projected answer finds the projected
      value. */
  lemma {:induction false} FollowProjected(sets: seq<Selection>, v: Json, names: seq<string>)
    requires Asked(sets, names)
    ensures Follow(Project(sets, v), names) == Through(Under(sets, names), Follow(v, names))
    decreases |names|
  {
    hide Merged;
    if names != [] && v.JObj? && names[0] in v.members {
      FollowProjected(Merged(sets, names[0]), v.members[names[0]], names[1..]);
    }
  }

  ghost predicate Served(sets: seq<Selection>, names: seq<string>) {
    Asked(sets, names) && Leaf(Under(sets, names))
  }

  lemma {:induction false} ServedIsKept(sets: seq<Selection>, v: Json, names: seq<string>)
    requires Served(sets, names)
    ensures Follow(Project(sets, v), names) == Follow(v, names)
  {
    FollowProjected(sets, v, names);
  }

  // A lookup that ends above a leaf is not kept.

  lemma {:induction false} Longest(s: set<string>) returns (n: nat)
    ensures forall x :: x in s ==> |x| <= n
    decreases |s|
  {
    n := 0;
    if s != {} {
      var x :| x in s;
      n := Longest(s - {x});
      if n < |x| { n := |x|; }
    }
  }

  function Blanks(n: nat): (r: string)
    ensures |r| == n
  {
    if n == 0 then "" else " " + Blanks(n - 1)
  }

  ghost function AllNames(sets: seq<Selection>): (r: set<string>)
    ensures forall n :: n in r <==> Wanted(sets, n)
  {
    if sets == [] then {}
    else
      assert forall n :: Wanted(sets, n) <==> n in sets[0].fields || Wanted(sets[1..], n) by {
        forall n ensures Wanted(sets, n) <==> n in sets[0].fields || Wanted(sets[1..], n) {
          if Wanted(sets[1..], n) {
            var i :| 0 <= i < |sets[1..]| && n in sets[1..][i].fields;
            assert n in sets[i + 1].fields;
          }
          if i :| 0 <= i < |sets| && n in sets[i].fields && i > 0 {
            assert n in sets[1..][i - 1].fields;
          }
        }
      }
      sets[0].fields.Keys + AllNames(sets[1..])
  }

  function Nested(names: seq<string>, v: Json): Json {
    if names == [] then v else JObj(map[names[0] := Nested(names[1..], v)])
  }

  lemma {:induction false} FollowNested(names: seq<string>, v: Json)
    requires !v.JNull?
    ensures Follow(Nested(names, v), names) == Found(v)
  {
    if names != [] { FollowNested(names[1..], v); }
  }

  /** Exactly the leaves of a selection can be looked up in every projected
      answer as in the full one. */
  lemma {:induction false} KeptIffLeaf(sets: seq<Selection>, names: seq<string>)
    requires Asked(sets, names)
    ensures (forall v :: Follow(Project(sets, v), names) == Follow(v, names)) <==> Leaf(Under(sets, names))
  {
    var below := Under(sets, names);
    if Leaf(below) {
      forall v ensures Follow(Project(sets, v), names) == Follow(v, names) {
        ServedIsKept(sets, v, names);
      }
    } else {
      var n := Longest(AllNames(below));
      var other := Blanks(n + 1);
      assert other !in AllNames(below);
      var x := JObj(map[other := JBool(true)]);
      FollowNested(names, x);
      FollowProjected(sets, Nested(names, x), names);
      assert Project(below, x).members == map[];
      assert other in x.members;
    }
  }

  lemma {:induction false} AskedApart(sets: seq<Selection>, a: seq<string>, b: seq<string>)
    requires Asked(sets, a + b)
    ensures Asked(sets, a) && Asked(Under(sets, a), b)
    ensures Under(sets, a + b) == Under(Under(sets, a), b)
    decreases |a|
  {
    hide Merged, Wanted;
    if a == [] {
      assert a + b == b;
    } else {
      assert (a + b)[1..] == a[1..] + b;
      AskedApart(Merged(sets, a[0]), a[1..], b);
    }
  }

  // ---- Making a member from a projected answer ----

  /** strings.Split at the slash, over a concatenation. */
  lemma {:induction false} SplitApart(a: string, b: string)
    ensures Split(a + ['/'] + b, '/') == Split(a, '/') + Split(b, '/')
    decreases |a|
  {
    var (part, rest, found) := Cut(a, '/');
    if found {
      CutParts(a);
      var tail := rest + ['/'] + b;
      assert a + ['/'] + b == part + ['/'] + tail;
      CutAtFirst(part, '/', tail);
      SplitNext(part, tail);
      SplitNext(part, rest);
      SplitApart(rest, b);
      Regroup([part], Split(rest, '/'), Split(b, '/'));
    } else {
      CutParts(a);
      CutAtFirst(a, '/', b);
      SplitNext(a, b);
    }
  }

  lemma {:induction false} CutParts(s: string)
    ensures var (part, rest, found) := Cut(s, '/');
      '/' !in part && (if found then s == part + ['/'] + rest else s == part)
  {
    if s != "" && s[0] != '/' {
      CutParts(s[1..]);
      var (part, rest, found) := Cut(s[1..], '/');
      assert s == [s[0]] + s[1..];
      if found { assert [s[0]] + (part + ['/'] + rest) == ([s[0]] + part) + ['/'] + rest; }
    } else if s != "" {
      assert s == "" + ['/'] + s[1..];
    }
  }

  lemma {:induction false} SplitNext(part: string, tail: string)
    requires '/' !in part
    ensures Split(part + ['/'] + tail, '/') == [part] + Split(tail, '/')
  {
    CutAtFirst(part, '/', tail);
  }

  lemma NamesOfEach(each: string, pointer: string)
    requires each != "" && pointer != "" && pointer[0] == '/'
    ensures Names(each + pointer) == Names(each) + Names(pointer)
  {
    var a := if each[0] == '/' then each[1..] else each;
    assert (each + pointer)[0] == each[0];
    assert pointer == ['/'] + pointer[1..];
    assert (if each[0] == '/' then (each + pointer)[1..] else each + pointer) == a + ['/'] + pointer[1..];
    SplitApart(a, pointer[1..]);
  }

  /** What the metadata schema asks of a mapping: a list's inner pointer is
      absolute, and a member without a constant names some source field. */
  predicate Mapped(f: Field) {
    !f.constant.NoConstant?
    || (f.each != "" && f.pointer != "" && f.pointer[0] == '/')
    || (f.each == "" && (f.join != [] || f.pointer != ""))
  }

  lemma {:induction false} EachProjected(sets: seq<Selection>, elements: seq<Json>, names: seq<string>)
    requires Served(sets, names)
    ensures EachValue(seq(|elements|, i requires 0 <= i < |elements| => Project(sets, elements[i])), names)
      == EachValue(elements, names)
    decreases |elements|
  {
    hide Served, Project, Follow;
    var projected := seq(|elements|, i requires 0 <= i < |elements| => Project(sets, elements[i]));
    if elements != [] {
      var rest := elements[1..];
      ServedIsKept(sets, elements[0], names);
      assert projected[1..] == seq(|rest|, i requires 0 <= i < |rest| => Project(sets, rest[i]));
      EachProjected(sets, rest, names);
    }
  }

  lemma {:induction false} TextsProjected(sets: seq<Selection>, doc: Json, pointers: seq<string>, o: Oracle)
    requires forall p :: p in pointers ==> Served(sets, Names(p))
    ensures Texts(Project(sets, doc), pointers, o) == Texts(doc, pointers, o)
    decreases |pointers|
  {
    hide Served, Project, Follow, Names;
    if pointers != [] {
      ServedIsKept(sets, doc, Names(pointers[0]));
      TextsProjected(sets, doc, pointers[1..], o);
    }
  }

  lemma {:induction false} ListProjected(sets: seq<Selection>, v: Json, names: seq<string>)
    requires Served(sets, names) && names != []
    ensures Project(sets, v).JList? <==> v.JList?
    ensures v.JList? ==> EachValue(Project(sets, v).items, names) == EachValue(v.items, names)
  {
    assert !Leaf(sets);
    if v.JList? { EachProjected(sets, v.items, names); }
  }

  lemma SomeName(pointer: string)
    ensures Names(pointer) != []
  {}

  lemma {:induction false} EachFieldSame(sets: seq<Selection>, f: Field, doc: Json, o: Oracle)
    requires f.constant.NoConstant? && f.each != "" && f.pointer != "" && f.pointer[0] == '/'
    requires Served(sets, Names(f.each + f.pointer))
    ensures Value(f, Project(sets, doc), o) == Value(f, doc, o)
  {
    hide Project, Follow, EachValue, Names, Under, Asked;
    NamesOfEach(f.each, f.pointer);
    SomeName(f.pointer);
    AskedApart(sets, Names(f.each), Names(f.pointer));
    FollowProjected(sets, doc, Names(f.each));
    var found := Follow(doc, Names(f.each));
    if found.Found? {
      ListProjected(Under(sets, Names(f.each)), found.value, Names(f.pointer));
    }
  }

  lemma {:induction false} FieldSame(sets: seq<Selection>, f: Field, doc: Json, o: Oracle)
    requires Mapped(f)
    requires forall p :: p in Pointers(f) ==> Served(sets, Names(p))
    ensures Value(f, Project(sets, doc), o) == Value(f, doc, o)
  {
    hide Project, Follow, EachValue, Texts, Names, Served, Join;
    if f.constant.NoConstant? {
      if f.each != "" {
        assert f.each + f.pointer in Pointers(f);
        EachFieldSame(sets, f, doc, o);
      } else if f.join != [] {
        TextsProjected(sets, doc, f.join, o);
      } else {
        assert f.pointer in Pointers(f);
        ServedIsKept(sets, doc, Names(f.pointer));
      }
    }
  }

  ghost predicate AllServed(sets: seq<Selection>, a: Attribute, members: seq<string>)
    requires forall m :: m in members ==> m in a.fields
  {
    forall m, p :: m in members && p in Pointers(a.fields[m]) ==> Served(sets, Names(p))
  }

  lemma {:induction false} MembersSame(sets: seq<Selection>, a: Attribute, doc: Json, schema: Schema, named: bool,
                                       members: seq<string>, made: map<string, Json>, o: Oracle)
    requires forall m :: m in members ==> m in a.fields && Mapped(a.fields[m])
    requires AllServed(sets, a, members)
    ensures Members(a, Project(sets, doc), schema, named, members, made, o)
      == Members(a, doc, schema, named, members, made, o)
    decreases |members|
  {
    hide Project, Value, Conforms, Served, Mapped, Pointers;
    if members != [] {
      var m := members[0];
      FieldSame(sets, a.fields[m], doc, o);
      var v := Value(a.fields[m], doc, o);
      MembersSame(sets, a, doc, schema, named, members[1..], made, o);
      if v.Made? { MembersSame(sets, a, doc, schema, named, members[1..], made[m := v.value], o); }
    }
  }

  // ---- What a plan asks ----

  lemma {:induction false} AskedIff(sets: seq<Selection>, names: seq<string>)
    requires names != []
    ensures Asked(sets, names) <==> exists i :: 0 <= i < |sets| && HasPath(sets[i].fields, names)
    decreases |names|
  {
    hide Merged;
    var n, rest := names[0], names[1..];
    var merged := Merged(sets, n);
    MergedFrom(sets, n);
    if rest != [] {
      AskedIff(merged, rest);
      if i :| 0 <= i < |sets| && HasPath(sets[i].fields, names) {
        assert sets[i].fields[n] in merged;
        var j :| 0 <= j < |merged| && merged[j] == sets[i].fields[n];
        assert HasPath(merged[j].fields, rest);
      }
      if j :| 0 <= j < |merged| && HasPath(merged[j].fields, rest) {
        assert merged[j] in merged;
        var i :| 0 <= i < |sets| && n in sets[i].fields && merged[j] == sets[i].fields[n];
        assert HasPath(sets[i].fields, names);
      }
    } else {
      assert Asked(merged, rest);
      if i :| 0 <= i < |sets| && n in sets[i].fields { assert HasPath(sets[i].fields, names); }
    }
  }

  lemma {:induction false} MergedFrom(sets: seq<Selection>, n: string)
    ensures forall s :: s in Merged(sets, n) <==> exists i :: 0 <= i < |sets| && n in sets[i].fields && s == sets[i].fields[n]
  {
    if sets != [] {
      MergedFrom(sets[1..], n);
      forall s ensures s in Merged(sets, n) <==> exists i :: 0 <= i < |sets| && n in sets[i].fields && s == sets[i].fields[n] {
        if i :| 0 <= i < |sets| && n in sets[i].fields && s == sets[i].fields[n] {
          if i > 0 { assert n in sets[1..][i - 1].fields && s == sets[1..][i - 1].fields[n]; }
        }
        if i :| 0 <= i < |sets[1..]| && n in sets[1..][i].fields && s == sets[1..][i].fields[n] {
          assert n in sets[i + 1].fields && s == sets[i + 1].fields[n];
        }
      }
    }
  }

  lemma {:induction false} AskedFurther(sets: seq<Selection>, names: seq<string>)
    requires Asked(sets, names) && !Leaf(Under(sets, names))
    ensures exists n :: Asked(sets, names + [n])
    decreases |names|
  {
    hide Merged;
    if names == [] {
      var i :| 0 <= i < |sets| && sets[i].fields != map[];
      var n :| n in sets[i].fields;
      assert Wanted(sets, n) && ([] + [n])[1..] == [];
      assert Asked(sets, [] + [n]);
    } else {
      AskedFurther(Merged(sets, names[0]), names[1..]);
      var n :| Asked(Merged(sets, names[0]), names[1..] + [n]);
      assert (names + [n])[1..] == names[1..] + [n];
      assert Asked(sets, names + [n]);
    }
  }

  /** The part of a selection that stands for a type, the root for "". */
  function Part(s: Selection, on: string): Selection { if on == "" then s else On(s, on) }

  predicate Within(path: seq<string>, pointers: seq<string>) {
    exists i :: 0 <= i < |pointers| && path <= Names(pointers[i])
  }

  predicate Wished(wishes: seq<Wish>, on: string, path: seq<string>) {
    exists i :: 0 <= i < |wishes| && wishes[i].on == on && Within(path, wishes[i].pointers)
  }

  lemma {:induction false} AddAllKeepsFragments(s: Selection, pointers: seq<string>)
    ensures AddAll(s, pointers).fragments == s.fragments
    decreases |pointers|
  {
    hide Names;
    if pointers != [] { AddAllKeepsFragments(Add(s, pointers[0]), pointers[1..]); }
  }

  lemma {:induction false} GrantPaths(s: Selection, w: Wish, on: string, path: seq<string>)
    ensures HasPath(Part(Grant(s, w), on).fields, path)
      <==> HasPath(Part(s, on).fields, path) || (w.on == on && Within(path, w.pointers))
  {
    hide AddAll, HasPath, Names;
    AddAllKeepsFragments(s, w.pointers);
    AddAllPaths(Part(s, w.on), w.pointers, path);
  }

  /** After granting wishes, a part holds the prefixes of its own pointers. */
  lemma {:induction false} PartPaths(s: Selection, wishes: seq<Wish>, on: string, path: seq<string>)
    ensures HasPath(Part(GrantAll(s, wishes), on).fields, path)
      <==> HasPath(Part(s, on).fields, path) || Wished(wishes, on, path)
    decreases |wishes|
  {
    hide HasPath, Part, Within, Grant;
    if wishes != [] {
      GrantPaths(s, wishes[0], on, path);
      PartPaths(Grant(s, wishes[0]), wishes[1..], on, path);
      assert forall i :: 0 <= i < |wishes[1..]| ==> wishes[1..][i] == wishes[i + 1];
      if i :| 0 <= i < |wishes| && wishes[i].on == on && Within(path, wishes[i].pointers) {
        if i > 0 { assert wishes[1..][i - 1] == wishes[i]; }
      }
    }
  }

  lemma {:induction false} NoRootFragment(s: Selection, wishes: seq<Wish>)
    requires "" !in s.fragments
    ensures "" !in GrantAll(s, wishes).fragments
    decreases |wishes|
  {
    hide AddAll;
    if wishes != [] {
      AddAllKeepsFragments(s, wishes[0].pointers);
      NoRootFragment(Grant(s, wishes[0]), wishes[1..]);
    }
  }

  lemma {:induction false} NothingYet(on: string, path: seq<string>)
    requires path != []
    ensures !HasPath(Part(NONE, on).fields, path)
  {}

  const TYPENAME_PATH := ["__typename"]

  lemma TypenamePath()
    ensures Names(TYPENAME) == TYPENAME_PATH
  {
    assert TYPENAME[1..] == "__typename";
    CutWithout("__typename", '/');
  }

  /** Which paths a plan's parts hold: those of its pointers, and the answer's
      type at the root when some fragment is asked. */
  lemma {:induction false} PlanPaths(wishes: seq<Wish>, on: string, path: seq<string>)
    requires path != []
    ensures var root := GrantAll(NONE, wishes);
      HasPath(Part(Typed(root), on).fields, path)
      <==> Wished(wishes, on, path) || (on == "" && AsksFragment(root) && path <= TYPENAME_PATH)
  {
    hide HasPath, Wished, Names;
    var root := GrantAll(NONE, wishes);
    PartPaths(NONE, wishes, on, path);
    NothingYet(on, path);
    if AsksFragment(root) {
      TypenamePath();
      AddPaths(root, Names(TYPENAME), path);
      AddAllKeepsFragments(root, [TYPENAME]);
    }
  }

  /** Every leaf of a plan is a wished pointer, or __typename. */
  lemma {:induction false} LeavesAreWished(wishes: seq<Wish>, on: string, path: seq<string>)
    requires path != []
    requires var part := Part(Typed(GrantAll(NONE, wishes)), on);
      HasPath(part.fields, path) && forall n :: !HasPath(part.fields, path + [n])
    ensures path == TYPENAME_PATH
      || exists i, j :: (0 <= i < |wishes| && wishes[i].on == on && 0 <= j < |wishes[i].pointers|
      && path == Names(wishes[i].pointers[j]))
  {
    hide HasPath, Names, GrantAll, Typed;
    PlanPaths(wishes, on, path);
    if Wished(wishes, on, path) {
      var i :| 0 <= i < |wishes| && wishes[i].on == on && Within(path, wishes[i].pointers);
      var j :| 0 <= j < |wishes[i].pointers| && path <= Names(wishes[i].pointers[j]);
      var full := Names(wishes[i].pointers[j]);
      if path != full {
        var n := full[|path|];
        assert path + [n] <= full;
        assert Within(path + [n], wishes[i].pointers);
        PlanPaths(wishes, on, path + [n]);
        assert false;
      }
    }
  }

  // ---- The sets that apply to an answer ----

  lemma {:induction false} ApplyingFrom(s: Selection, types: seq<string>, applies: string -> bool)
    ensures forall x :: (x in Applying(s, types, applies)
      <==> exists t :: t in types && t in s.fragments && applies(t) && x == s.fragments[t])
  {
    if types != [] {
      ApplyingFrom(s, types[1..], applies);
      assert types == [types[0]] + types[1..];
    }
  }

  lemma SourcesFrom(s: Selection, applies: string -> bool)
    ensures forall x :: (x in Sources(s, applies)
      <==> x == s || exists t :: t in s.fragments && applies(t) && x == s.fragments[t])
  {
    Order.SortedKeysOf(s.fragments.Keys);
    ApplyingFrom(s, Order.SortedKeys(s.fragments.Keys), applies);
  }

  /** A path is asked of an answer when the root or a fragment that applies
      holds it. */
  lemma {:induction false} SourcesAsk(s: Selection, applies: string -> bool, path: seq<string>)
    requires path != [] && "" !in s.fragments
    ensures Asked(Sources(s, applies), path)
      <==> HasPath(s.fields, path) || exists t :: t != "" && applies(t) && HasPath(On(s, t).fields, path)
  {
    hide Asked, HasPath, Sources;
    var sets := Sources(s, applies);
    AskedIff(sets, path);
    SourcesFrom(s, applies);
    if i :| 0 <= i < |sets| && HasPath(sets[i].fields, path) {
      assert sets[i] in sets;
      if sets[i] != s {
        var t :| t in s.fragments && applies(t) && sets[i] == s.fragments[t];
        assert HasPath(On(s, t).fields, path);
      }
    }
    if HasPath(s.fields, path) {
      assert s in sets;
      var i :| 0 <= i < |sets| && sets[i] == s;
    }
    if t :| t != "" && applies(t) && HasPath(On(s, t).fields, path) {
      NothingYet(t, path);
      assert t in s.fragments by { NoneHasNoPath(path); }
      assert s.fragments[t] in sets;
      var i :| 0 <= i < |sets| && sets[i] == s.fragments[t];
    }
  }

  lemma {:induction false} NoneHasNoPath(path: seq<string>)
    requires path != []
    ensures !HasPath(NONE.fields, path)
  {}

  predicate Live(on: string, applies: string -> bool) { on == "" || applies(on) }

  /** A wish stands at the root, or on a type the answer has. */
  predicate LivePath(wishes: seq<Wish>, applies: string -> bool, path: seq<string>) {
    exists i :: 0 <= i < |wishes| && Live(wishes[i].on, applies) && Within(path, wishes[i].pointers)
  }

  /** What a plan asks of an answer: the prefixes of the live pointers. */
  lemma {:induction false} PlanAsks(wishes: seq<Wish>, applies: string -> bool, path: seq<string>)
    requires path != []
    ensures var root := GrantAll(NONE, wishes);
      Asked(Sources(Typed(root), applies), path)
      <==> LivePath(wishes, applies, path) || (AsksFragment(root) && path <= TYPENAME_PATH)
  {
    hide Asked, HasPath, Sources, Within, GrantAll, Typed, AsksFragment, On;
    var root := GrantAll(NONE, wishes);
    var plan := Typed(root);
    TypedFragments(wishes);
    SourcesAsk(plan, applies, path);
    PlanPaths(wishes, "", path);
    assert Part(plan, "") == plan;
    if i :| 0 <= i < |wishes| && Live(wishes[i].on, applies) && Within(path, wishes[i].pointers) {
      var t := wishes[i].on;
      assert Wished(wishes, t, path);
      PlanPaths(wishes, t, path);
      if t != "" { assert Part(plan, t) == On(plan, t); }
    }
    if t :| t != "" && applies(t) && HasPath(On(plan, t).fields, path) {
      PlanPaths(wishes, t, path);
      assert Part(plan, t) == On(plan, t);
    }
  }

  lemma {:induction false} TypedFragments(wishes: seq<Wish>)
    ensures "" !in Typed(GrantAll(NONE, wishes)).fragments
  {
    NoRootFragment(NONE, wishes);
    AddAllKeepsFragments(GrantAll(NONE, wishes), [TYPENAME]);
  }

  /** No pointer that applies to the answer leads below another, nor below
      __typename: a field cannot be both a leaf and an object. */
  ghost predicate Selectable(wishes: seq<Wish>, applies: string -> bool) {
    forall a: seq<string>, n: string ::
      LivePath(wishes, applies, a + [n]) || a + [n] == TYPENAME_PATH ==> !IsLive(wishes, applies, a)
  }

  /** The path of a live pointer, or of the answer's type. */
  ghost predicate IsLive(wishes: seq<Wish>, applies: string -> bool, path: seq<string>) {
    path == TYPENAME_PATH
    || exists i, j :: (0 <= i < |wishes| && Live(wishes[i].on, applies) && 0 <= j < |wishes[i].pointers|
                       && path == Names(wishes[i].pointers[j]))
  }

  lemma {:induction false} PlanServes(wishes: seq<Wish>, applies: string -> bool, path: seq<string>)
    requires Selectable(wishes, applies)
    requires IsLive(wishes, applies, path) && path != []
    requires path == TYPENAME_PATH ==> LivePath(wishes, applies, path) || AsksFragment(GrantAll(NONE, wishes))
    ensures Served(Sources(Typed(GrantAll(NONE, wishes)), applies), path)
  {
    hide Asked, Sources, GrantAll, Typed, AsksFragment, Under, Leaf, Names;
    var sets := Sources(Typed(GrantAll(NONE, wishes)), applies);
    PlanAsks(wishes, applies, path);
    if path != TYPENAME_PATH {
      var i, j :| 0 <= i < |wishes| && Live(wishes[i].on, applies) && 0 <= j < |wishes[i].pointers|
                  && path == Names(wishes[i].pointers[j]);
      assert Within(path, wishes[i].pointers);
    }
    assert Asked(sets, path);
    if !Leaf(Under(sets, path)) {
      AskedFurther(sets, path);
      var n :| Asked(sets, path + [n]);
      PlanAsks(wishes, applies, path + [n]);
      assert false;
    }
  }

  // ---- Adequacy ----

  /** The answer is of type t, when it says so. */
  predicate TypeIs(doc: Json, t: string) {
    doc.JObj? && "__typename" in doc.members ==> doc.members["__typename"] == JStr(t)
  }

  lemma {:induction false} FollowTypename(doc: Json, t: string)
    requires TypeIs(doc, t)
    ensures var found := Follow(doc, Names(TYPENAME)); found.Found? ==> found.value == JStr(t)
  {
    TypenamePath();
    if doc.JObj? && "__typename" in doc.members {
      assert TYPENAME_PATH[1..] == [];
    }
  }

  lemma {:induction false} ProjectNull(sets: seq<Selection>, doc: Json)
    ensures Project(sets, doc).JNull? <==> doc.JNull?
  {}

  lemma {:induction false} PointersOfMember(a: Attribute, members: seq<string>, m: string, p: string)
    requires forall n :: n in members ==> n in a.fields
    requires m in members && p in Pointers(a.fields[m])
    ensures p in PointersOf(a, members)
  {
    hide Pointers;
    if m != members[0] {
      assert m in members[1..];
      PointersOfMember(a, members[1..], m, p);
    }
  }

  lemma {:induction false} ResolvedAt(attributes: seq<Attribute>, requests: seq<Request>, k: nat)
    requires ResolveAll(attributes, requests).Some? && k < |requests|
    ensures var wishes := ResolveAll(attributes, requests).value;
      |wishes| == |requests| && Resolve(attributes, requests[k]) == Some(wishes[k])
    decreases k
  {
    hide Resolve;
    if k > 0 { ResolvedAt(attributes, requests[1..], k - 1); }
    else { ResolvedLength(attributes, requests); }
  }

  lemma {:induction false} ResolvedLength(attributes: seq<Attribute>, requests: seq<Request>)
    requires ResolveAll(attributes, requests).Some?
    ensures |ResolveAll(attributes, requests).value| == |requests|
    decreases |requests|
  {
    hide Resolve;
    if requests != [] { ResolvedLength(attributes, requests[1..]); }
  }

  predicate AllMapped(a: Attribute) { forall m :: m in a.fields ==> Mapped(a.fields[m]) }

  /** Some wish on a type has a pointer, which makes the plan ask the type. */
  ghost predicate WishesOnType(wishes: seq<Wish>) {
    exists i :: 0 <= i < |wishes| && wishes[i].on != "" && wishes[i].pointers != []
  }

  /** The plan's answer carries its type: a pointer leads there, or the planner
      added it. */
  ghost predicate AsksType(wishes: seq<Wish>, applies: string -> bool) {
    LivePath(wishes, applies, TYPENAME_PATH) || WishesOnType(wishes)
  }

  /** What a wish leaves of a trie: fragments stand at the root only. */
  ghost predicate PlainRoot(s: Selection) {
    && (forall n :: n in s.fields ==> Plain(s.fields[n]))
    && (forall t :: t in s.fragments ==> Plain(s.fragments[t]))
  }

  lemma {:induction false} AddAllPlainRoot(s: Selection, pointers: seq<string>)
    requires PlainRoot(s)
    ensures PlainRoot(AddAll(s, pointers))
    decreases |pointers|
  {
    hide Names;
    if pointers != [] {
      AddKeepsPlain(s, Names(pointers[0]));
      AddAllPlainRoot(Add(s, pointers[0]), pointers[1..]);
    }
  }

  lemma {:induction false} GrantPlain(s: Selection, w: Wish)
    requires PlainRoot(s)
    ensures PlainRoot(Grant(s, w))
    ensures Grant(s, w).fragments.Keys == s.fragments.Keys + (if w.on == "" then {} else {w.on})
  {
    hide AddAll;
    AddAllKeepsFragments(s, w.pointers);
    if w.on == "" { AddAllPlainRoot(s, w.pointers); } else { AddAllPlain(On(s, w.on), w.pointers); }
  }

  /** The types wishes stand on. */
  function Types(wishes: seq<Wish>): (r: set<string>)
    ensures forall t :: t in r ==> exists i :: 0 <= i < |wishes| && wishes[i].on == t
  {
    if wishes == [] then {}
    else
      assert forall i :: 0 <= i < |wishes[1..]| ==> wishes[1..][i] == wishes[i + 1];
      (if wishes[0].on == "" then {} else {wishes[0].on}) + Types(wishes[1..])
  }

  lemma {:induction false} GrantAllPlain(s: Selection, wishes: seq<Wish>)
    requires PlainRoot(s)
    ensures PlainRoot(GrantAll(s, wishes)) && GrantAll(s, wishes).fragments.Keys == s.fragments.Keys + Types(wishes)
    decreases |wishes|
  {
    hide Grant, PlainRoot;
    if wishes != [] {
      GrantPlain(s, wishes[0]);
      GrantAllPlain(Grant(s, wishes[0]), wishes[1..]);
    }
  }

  lemma {:induction false} NonePlain()
    ensures PlainRoot(NONE) && Plain(NONE)
  {}

  /** Requests asking for the same paths on the same types, in any order and
      however often repeated, make the same selection. */
  lemma {:induction false} RequestOrderIsForgotten(a: seq<Wish>, b: seq<Wish>)
    requires Types(a) == Types(b)
    requires forall on, path :: Wished(a, on, path) <==> Wished(b, on, path)
    ensures GrantAll(NONE, a) == GrantAll(NONE, b)
  {
    hide GrantAll, Wished, Types, HasPath, Plain;
    var x, y := GrantAll(NONE, a), GrantAll(NONE, b);
    NonePlain();
    GrantAllPlain(NONE, a);
    GrantAllPlain(NONE, b);
    forall on, path ensures HasPath(Part(x, on).fields, path) <==> HasPath(Part(y, on).fields, path) {
      PartPaths(NONE, a, on, path);
      PartPaths(NONE, b, on, path);
    }
    RootPlain(x);
    RootPlain(y);
    SamePaths(x.(fragments := map[]), y.(fragments := map[])) by {
      assert forall path :: HasPath(x.fields, path) <==> HasPath(y.fields, path) by {
        assert Part(x, "") == x && Part(y, "") == y;
      }
    }
    NoRootFragment(NONE, a);
    forall t | t in x.fragments ensures x.fragments[t] == y.fragments[t] {
      assert Part(x, t) == x.fragments[t] && Part(y, t) == y.fragments[t];
      SamePaths(x.fragments[t], y.fragments[t]);
    }
  }

  lemma {:induction false} RootPlain(s: Selection)
    requires PlainRoot(s)
    ensures Plain(s.(fragments := map[]))
  {}

  /** A plan asks a fragment exactly when a wish on a type has a pointer. */
  lemma {:induction false} FragmentIffWished(wishes: seq<Wish>)
    ensures AsksFragment(GrantAll(NONE, wishes)) <==> WishesOnType(wishes)
  {
    hide GrantAll, Names, Plain;
    var root := GrantAll(NONE, wishes);
    NonePlain();
    GrantAllPlain(NONE, wishes);
    NoRootFragment(NONE, wishes);
    if t :| t in root.fragments && !Empty(root.fragments[t]) {
      assert root.fragments[t].fields != map[] by { assert Plain(root.fragments[t]); PlainEmpty(root.fragments[t]); }
      var n :| n in root.fragments[t].fields;
      OneStep(root.fragments[t].fields, n, []);
      PartPaths(NONE, wishes, t, [n]);
      NothingYet(t, [n]);
      assert Part(root, t) == root.fragments[t];
      var i :| 0 <= i < |wishes| && wishes[i].on == t && Within([n], wishes[i].pointers);
    }
    if i :| 0 <= i < |wishes| && wishes[i].on != "" && wishes[i].pointers != [] {
      var t, path := wishes[i].on, Names(wishes[i].pointers[0]);
      SomeName(wishes[i].pointers[0]);
      assert Within(path, wishes[i].pointers);
      PartPaths(NONE, wishes, t, path);
      assert HasPath(On(root, t).fields, path);
      assert t in root.fragments && !Empty(root.fragments[t]);
    }
  }

  lemma {:induction false} PlainEmpty(s: Selection)
    requires Plain(s)
    ensures Empty(s) <==> s.fields == map[]
  {}

  /** The members a wish asks for are served, when it is live. */
  lemma {:induction false} WishServed(wishes: seq<Wish>, k: nat, a: Attribute, members: seq<string>, applies: string -> bool)
    requires Selectable(wishes, applies)
    requires k < |wishes| && Live(wishes[k].on, applies)
    requires forall m :: m in members ==> m in a.fields
    requires wishes[k].pointers == PointersOf(a, members)
    ensures AllServed(Sources(Typed(GrantAll(NONE, wishes)), applies), a, members)
  {
    hide Served, Sources, Typed, GrantAll, Names, Selectable, Pointers, PointersOf, AsksFragment;
    forall m, p | m in members && p in Pointers(a.fields[m])
      ensures Served(Sources(Typed(GrantAll(NONE, wishes)), applies), Names(p))
    {
      PointersOfMember(a, members, m, p);
      var j :| 0 <= j < |wishes[k].pointers| && wishes[k].pointers[j] == p;
      SomeName(p);
      assert Names(p) <= Names(wishes[k].pointers[j]);
      assert Within(Names(p), wishes[k].pointers);
      assert IsLive(wishes, applies, Names(p));
      PlanServes(wishes, applies, Names(p));
    }
  }

  /** For every request of a plan and every full answer, Build on the planned
      part of the answer is Build on the whole of it, when the plan asks the
      type of an attribute on a type. */
  lemma {:induction false} Adequate(attributes: seq<Attribute>, requests: seq<Request>, wishes: seq<Wish>, plan: Selection,
                 k: nat, a: Attribute, schema: Schema, o: Oracle,
                 full: Json, typeName: string, applies: string -> bool)
    requires ResolveAll(attributes, requests) == Some(wishes) && PlanOf(attributes, requests) == Ask(plan)
    requires k < |requests| && Offered(attributes, requests[k].identifier) == Some(a) && AllMapped(a)
    requires a.on == "" || NamesConstant(a, requests[k].members) || AsksType(wishes, applies)
    requires Selectable(wishes, applies)
    requires applies(typeName) && TypeIs(full, typeName)
    ensures Build(a, Answer(plan, applies, full), schema, requests[k].members, o)
      == Build(a, full, schema, requests[k].members, o)
  {
    hide Sources, Names, Project, Selectable, Members, AsksFragment, AsksType, Follow;
    hide PointersOf, NamesConstant, Served, Requested, PlanOf, Mapped, TypeIs;
    var members, sets := requests[k].members, Sources(plan, applies);
    PlanIsTyped(attributes, requests, wishes, plan);
    ResolvedAt(attributes, requests, k);
    RequestedAreFields(a, members);
    var all := Requested(a, members).value;
    ProjectNull(sets, full);
    if NamesConstant(a, members) { return; }
    if a.on != "" {
      TypenameServed(wishes, plan, applies);
      ServedIsKept(sets, full, Names(TYPENAME));
      FollowTypename(full, typeName);
    }
    if Live(a.on, applies) {
      WishServed(wishes, k, a, all, applies);
      MembersSame(sets, a, full, schema, members != [], all, map[], o);
    }
  }

  lemma {:induction false} PlanIsTyped(attributes: seq<Attribute>, requests: seq<Request>, wishes: seq<Wish>, plan: Selection)
    requires ResolveAll(attributes, requests) == Some(wishes) && PlanOf(attributes, requests) == Ask(plan)
    ensures plan == Typed(GrantAll(NONE, wishes))
    ensures AsksFragment(plan) <==> AsksFragment(GrantAll(NONE, wishes))
  {
    hide GrantAll, ResolveAll, Empty;
    AddAllKeepsFragments(GrantAll(NONE, wishes), [TYPENAME]);
  }

  lemma {:induction false} TypenameServed(wishes: seq<Wish>, plan: Selection, applies: string -> bool)
    requires plan == Typed(GrantAll(NONE, wishes)) && AsksType(wishes, applies)
    requires Selectable(wishes, applies)
    ensures Served(Sources(plan, applies), Names(TYPENAME))
  {
    hide Sources, Names, Served, GrantAll, Typed, AsksFragment, WishesOnType, LivePath, Selectable;
    TypenamePath();
    FragmentIffWished(wishes);
    assert IsLive(wishes, applies, TYPENAME_PATH);
    PlanServes(wishes, applies, TYPENAME_PATH);
  }

  /** An attribute on a type, with a requested member that is no constant,
      makes the plan ask the answer's type. */
  lemma {:induction false} TypeIsAsked(attributes: seq<Attribute>, requests: seq<Request>, wishes: seq<Wish>,
                    k: nat, a: Attribute, m: string)
    requires ResolveAll(attributes, requests) == Some(wishes)
    requires k < |requests| && Offered(attributes, requests[k].identifier) == Some(a) && AllMapped(a)
    requires a.on != "" && Requested(a, requests[k].members).Some? && m in Requested(a, requests[k].members).value
    requires m in a.fields && a.fields[m].constant.NoConstant?
    ensures WishesOnType(wishes)
  {
    hide Requested, PointersOf;
    ResolvedAt(attributes, requests, k);
    RequestedAreFields(a, requests[k].members);
    var p := Pointers(a.fields[m])[0];
    PointersOfMember(a, Requested(a, requests[k].members).value, m, p);
    assert wishes[k].on == a.on && wishes[k].pointers != [];
  }

  // ---- Exactly when the type is asked ----

  /** A constant that Build refuses: broken JSON, or not of the value schema. */
  predicate Refused(f: Field, m: string, schema: Schema, o: Oracle) {
    match f.constant
    case NoConstant => false
    case BrokenConstant => true
    case Constant(v) => m !in schema.properties || !Conforms(schema.properties[m], v, o)
  }

  ghost predicate RefusesConstant(a: Attribute, schema: Schema, o: Oracle) {
    exists m :: m in a.fields && Refused(a.fields[m], m, schema, o)
  }

  /** Members that are all constants do not depend on the answer. */
  lemma {:induction false} ConstantMembers(a: Attribute, doc: Json, schema: Schema, members: seq<string>,
                                           made: map<string, Json>, o: Oracle)
    requires forall m :: m in members ==> m in a.fields && !a.fields[m].constant.NoConstant?
    ensures var r := Members(a, doc, schema, false, members, made, o);
      !r.NotHeld? && (r.Failed? <==> exists m :: m in members && Refused(a.fields[m], m, schema, o))
    decreases |members|
  {
    hide Follow, Conforms;
    if members != [] {
      var m, rest := members[0], members[1..];
      if Refused(a.fields[m], m, schema, o) { return; }
      assert members == [m] + rest;
      ConstantMembers(a, doc, schema, rest, made[m := a.fields[m].constant.value], o);
    }
  }

  /** A plan that does not ask the type fails every attribute on a type. The
      full answer says the attribute is not held where the type is another one,
      and fails where it is the attribute's only on a constant. */
  lemma {:induction false} TypeUnasked(attributes: seq<Attribute>, requests: seq<Request>, wishes: seq<Wish>, plan: Selection,
                    k: nat, a: Attribute, schema: Schema, o: Oracle,
                    full: Json, typeName: string, applies: string -> bool)
    requires ResolveAll(attributes, requests) == Some(wishes) && PlanOf(attributes, requests) == Ask(plan)
    requires k < |requests| && Offered(attributes, requests[k].identifier) == Some(a) && AllMapped(a)
    requires a.on != "" && !NamesConstant(a, requests[k].members) && !AsksType(wishes, applies)
    requires full.JObj? && "__typename" in full.members && full.members["__typename"] == JStr(typeName)
    ensures Build(a, Answer(plan, applies, full), schema, requests[k].members, o) == Failed
    ensures typeName != a.on ==> Build(a, full, schema, requests[k].members, o) == NotHeld
    ensures typeName == a.on ==>
      (Build(a, full, schema, requests[k].members, o) == Failed <==> RefusesConstant(a, schema, o))
  {
    hide Members, NamesConstant, Requested, Refused, WishesOnType, LivePath, Follow, PlanOf, Answer, AllMapped;
    PlanIsTyped(attributes, requests, wishes, plan);
    FragmentIffWished(wishes);
    ResolvedAt(attributes, requests, k);
    TypenamePath();
    PlanIsNotEmpty(attributes, requests, wishes, plan);
    UnaskedTypename(wishes, plan, applies, full);
    FoundTypename(full, typeName);
    RequestedAreFields(a, requests[k].members);
    OnlyConstants(attributes, requests, wishes, k, a);
    ConstantMembers(a, full, schema, Requested(a, requests[k].members).value, map[], o);
  }

  lemma {:induction false} PlanIsNotEmpty(attributes: seq<Attribute>, requests: seq<Request>, wishes: seq<Wish>, plan: Selection)
    requires ResolveAll(attributes, requests) == Some(wishes) && PlanOf(attributes, requests) == Ask(plan)
    ensures !AsksFragment(plan) ==> !Empty(plan)
  {
    hide GrantAll, ResolveAll, Empty;
    PlanIsTyped(attributes, requests, wishes, plan);
  }

  lemma SomeMember(members: seq<string>)
    ensures members == [] || exists m :: m in members
  {
    assert members == [] || members[0] in members;
  }

  /** Without a wish on a type, an attribute on one is asked for as a whole and
      is made of constants only. */
  lemma {:induction false} OnlyConstants(attributes: seq<Attribute>, requests: seq<Request>, wishes: seq<Wish>, k: nat, a: Attribute)
    requires ResolveAll(attributes, requests) == Some(wishes)
    requires k < |requests| && Offered(attributes, requests[k].identifier) == Some(a) && AllMapped(a)
    requires a.on != "" && !NamesConstant(a, requests[k].members) && !WishesOnType(wishes)
    ensures requests[k].members == [] && Requested(a, []).Some?
    ensures forall m :: m in Requested(a, []).value <==> m in a.fields
    ensures forall m :: m in a.fields ==> !a.fields[m].constant.NoConstant?
  {
    hide WishesOnType, PointersOf, AllMapped;
    ResolvedAt(attributes, requests, k);
    var members := requests[k].members;
    RequestedAreFields(a, members);
    Order.SortedKeysOf(a.fields.Keys);
    forall m | m in Requested(a, members).value ensures !a.fields[m].constant.NoConstant? {
      if a.fields[m].constant.NoConstant? { TypeIsAsked(attributes, requests, wishes, k, a, m); }
    }
    SomeMember(members);
  }

  /** The planned part of every answer whose type meets these conditions builds
      as the whole answer does. */
  ghost predicate AdequateFor(a: Attribute, plan: Selection, applies: string -> bool, schema: Schema, members: seq<string>, o: Oracle) {
    forall full, typeName :: applies(typeName) && TypeIs(full, typeName) ==>
      Build(a, Answer(plan, applies, full), schema, members, o) == Build(a, full, schema, members, o)
  }

  /** A plan serves a request exactly when the attribute stands at the root, a
      constant is named, or the plan asks the answer's type; otherwise only if
      both sides fail anyway, on a constant of the one type there can be. */
  lemma {:induction false} AdequateIff(attributes: seq<Attribute>, requests: seq<Request>, wishes: seq<Wish>, plan: Selection,
                    k: nat, a: Attribute, schema: Schema, o: Oracle, applies: string -> bool, someType: string)
    requires ResolveAll(attributes, requests) == Some(wishes) && PlanOf(attributes, requests) == Ask(plan)
    requires k < |requests| && Offered(attributes, requests[k].identifier) == Some(a) && AllMapped(a)
    requires Selectable(wishes, applies) && applies(someType)
    ensures AdequateFor(a, plan, applies, schema, requests[k].members, o)
      <==> || a.on == "" || NamesConstant(a, requests[k].members) || AsksType(wishes, applies)
           || ((forall t :: applies(t) ==> t == a.on) && RefusesConstant(a, schema, o))
  {
    hide ResolveAll, PlanOf, Build, Answer, Selectable, AllMapped, NamesConstant, AsksType, RefusesConstant;
    var members := requests[k].members;
    if a.on == "" || NamesConstant(a, members) || AsksType(wishes, applies) {
      forall full, typeName | applies(typeName) && TypeIs(full, typeName)
        ensures Build(a, Answer(plan, applies, full), schema, members, o) == Build(a, full, schema, members, o)
      {
        Adequate(attributes, requests, wishes, plan, k, a, schema, o, full, typeName, applies);
      }
    } else if (forall t :: applies(t) ==> t == a.on) && RefusesConstant(a, schema, o) {
      forall full, typeName | applies(typeName) && TypeIs(full, typeName)
        ensures Build(a, Answer(plan, applies, full), schema, members, o) == Build(a, full, schema, members, o)
      {
        BothFail(attributes, requests, wishes, plan, k, a, schema, o, full, applies);
      }
    } else {
      var other := if exists t :: applies(t) && t != a.on then var t :| applies(t) && t != a.on; t else someType;
      var full := JObj(map["__typename" := JStr(other)]);
      assert TypeIs(full, other);
      TypeUnasked(attributes, requests, wishes, plan, k, a, schema, o, full, other, applies);
    }
  }

  lemma {:induction false} BothFail(attributes: seq<Attribute>, requests: seq<Request>, wishes: seq<Wish>, plan: Selection,
                    k: nat, a: Attribute, schema: Schema, o: Oracle, full: Json, applies: string -> bool)
    requires ResolveAll(attributes, requests) == Some(wishes) && PlanOf(attributes, requests) == Ask(plan)
    requires k < |requests| && Offered(attributes, requests[k].identifier) == Some(a) && AllMapped(a)
    requires a.on != "" && !NamesConstant(a, requests[k].members) && !AsksType(wishes, applies)
    requires TypeIs(full, a.on) && RefusesConstant(a, schema, o)
    ensures Build(a, Answer(plan, applies, full), schema, requests[k].members, o) == Build(a, full, schema, requests[k].members, o)
  {
    hide ResolveAll, PlanOf, Answer, AllMapped, NamesConstant, AsksType, RefusesConstant, Requested, Members;
    TypenamePath();
    if full.JObj? && "__typename" in full.members {
      TypeUnasked(attributes, requests, wishes, plan, k, a, schema, o, full, a.on, applies);
    } else {
      NoTypename(plan, applies, full);
      ResolvedAt(attributes, requests, k);
    }
  }

  /** An answer that does not carry its type does not in a part of it either. */
  lemma {:induction false} NoTypename(plan: Selection, applies: string -> bool, full: Json)
    requires !(full.JObj? && "__typename" in full.members)
    ensures Answer(plan, applies, full).JNull? <==> full.JNull?
    ensures !Follow(full, TYPENAME_PATH).Found? && !Follow(Answer(plan, applies, full), TYPENAME_PATH).Found?
  {}

  lemma {:induction false} FoundTypename(full: Json, typeName: string)
    requires full.JObj? && "__typename" in full.members && full.members["__typename"] == JStr(typeName)
    ensures Follow(full, TYPENAME_PATH) == Found(JStr(typeName))
  {
    assert TYPENAME_PATH[1..] == [];
  }

  lemma {:induction false} UnaskedTypename(wishes: seq<Wish>, plan: Selection, applies: string -> bool, full: Json)
    requires plan == Typed(GrantAll(NONE, wishes)) && !Empty(plan)
    requires !AsksFragment(plan) && !AsksFragment(GrantAll(NONE, wishes)) && !LivePath(wishes, applies, TYPENAME_PATH)
    requires full.JObj?
    ensures Answer(plan, applies, full).JObj? && Follow(Answer(plan, applies, full), TYPENAME_PATH) == Missing
  {
    hide LivePath, Typed, GrantAll, Applying;
    var sets := Sources(plan, applies);
    PlanAsks(wishes, applies, TYPENAME_PATH);
    assert sets[0] == plan && plan.fields != map[];
    assert Asked(Merged(sets, "__typename"), TYPENAME_PATH[1..]);
    assert !Wanted(sets, "__typename");
  }

  /** Such a request exists: an attribute on a type, asked for as a whole and
      made of a constant, beside one at the root. */
  lemma {:induction false} TypeGoesUnasked(schema: Schema, o: Oracle, applies: string -> bool)
    returns (attributes: seq<Attribute>, requests: seq<Request>, wishes: seq<Wish>, plan: Selection, a: Attribute)
    requires applies("T") && applies("U")
    ensures ResolveAll(attributes, requests) == Some(wishes) && PlanOf(attributes, requests) == Ask(plan)
    ensures requests != [] && Offered(attributes, requests[0].identifier) == Some(a) && AllMapped(a)
    ensures Selectable(wishes, applies) && !AdequateFor(a, plan, applies, schema, requests[0].members, o)
  {
    a := Attribute("a", "T", map["m" := Field("", [], "", Constant(JBool(true)), "")]);
    var b := Attribute("b", "", map["m" := Field("/x", [], "", NoConstant, "")]);
    attributes, requests, wishes := [a, b], [Request("a", []), Request("b", ["m"])], [Wish("T", []), Wish("", ["/x"])];
    assert "T" != "U";
    plan := UnaskedPair(attributes, requests, a, b, wishes, schema, o, applies, "U");
  }

  lemma {:induction false} UnaskedPair(attributes: seq<Attribute>, requests: seq<Request>, a: Attribute, b: Attribute, wishes: seq<Wish>,
                                       schema: Schema, o: Oracle, applies: string -> bool, other: string)
    returns (plan: Selection)
    requires a.identifier == "a" && a.on == "T" && a.fields.Keys == {"m"} && Pointers(a.fields["m"]) == []
    requires b.identifier == "b" && b.on == "" && b.fields.Keys == {"m"} && Pointers(b.fields["m"]) == ["/x"]
    requires attributes == [a, b] && requests == [Request("a", []), Request("b", ["m"])]
    requires wishes == [Wish("T", []), Wish("", ["/x"])]
    requires AllMapped(a) && applies(other) && other != a.on
    ensures ResolveAll(attributes, requests) == Some(wishes) && PlanOf(attributes, requests) == Ask(plan)
    ensures Offered(attributes, requests[0].identifier) == Some(a)
    ensures Selectable(wishes, applies) && !AdequateFor(a, plan, applies, schema, requests[0].members, o)
  {
    ResolvedPair(attributes, requests, a, b, wishes);
    hide *;
    plan := PlannedX(attributes, requests, wishes);
    NamesOfX();
    OnlyX(wishes, applies);
    NoneNamed(a, requests[0].members);
    AdequateIff(attributes, requests, wishes, plan, 0, a, schema, o, applies, other);
  }

  lemma NoneNamed(a: Attribute, members: seq<string>)
    requires members == []
    ensures !NamesConstant(a, members)
  {}

  lemma {:induction false} PlannedX(attributes: seq<Attribute>, requests: seq<Request>, wishes: seq<Wish>) returns (plan: Selection)
    requires ResolveAll(attributes, requests) == Some(wishes) && wishes == [Wish("T", []), Wish("", ["/x"])]
    ensures PlanOf(attributes, requests) == Ask(plan)
  {
    hide GrantAll, Typed, ResolveAll, Names, HasPath;
    var root := GrantAll(NONE, wishes);
    plan := Typed(root);
    NamesOfX();
    PartPaths(NONE, wishes, "", ["x"]);
    assert Within(["x"], wishes[1].pointers) by { assert ["x"] <= Names(wishes[1].pointers[0]); }
    NothingYet("", ["x"]);
    assert Part(root, "") == root;
    assert HasPath(root.fields, ["x"]);
    OneStep(root.fields, "x", []);
  }

  lemma NamesOfX()
    ensures Names("/x") == ["x"] && TYPENAME_PATH != ["x"]
  {
    assert "/x"[1..] == "x" && |"x"| == 1 && |TYPENAME_PATH[0]| == 10;
    CutWithout("x", '/');
  }

  lemma {:induction false} ResolvedPair(attributes: seq<Attribute>, requests: seq<Request>, a: Attribute, b: Attribute, wishes: seq<Wish>)
    requires a.identifier == "a" && a.on == "T" && a.fields.Keys == {"m"} && Pointers(a.fields["m"]) == []
    requires b.identifier == "b" && b.on == "" && b.fields.Keys == {"m"} && Pointers(b.fields["m"]) == ["/x"]
    requires attributes == [a, b] && requests == [Request("a", []), Request("b", ["m"])]
    requires wishes == [Wish("T", []), Wish("", ["/x"])]
    ensures ResolveAll(attributes, requests) == Some(wishes)
    ensures Offered(attributes, "a") == Some(a)
  {
    hide Pointers, Requested, PointersOf, Resolve;
    assert attributes[1..] == [b];
    assert "a" != "b";
    ResolvedWhole(attributes, requests[0], a, "m");
    ResolvedMember(attributes, requests[1], b, "m");
    ResolvedTwo(attributes, requests, wishes);
  }

  lemma {:induction false} ResolvedTwo(attributes: seq<Attribute>, requests: seq<Request>, wishes: seq<Wish>)
    requires |requests| == |wishes| == 2
    requires Resolve(attributes, requests[0]) == Some(wishes[0]) && Resolve(attributes, requests[1]) == Some(wishes[1])
    ensures ResolveAll(attributes, requests) == Some(wishes)
  {
    hide Resolve;
    var tail := requests[1..];
    assert ResolveAll(attributes, tail[1..]) == Some([]);
    assert tail[0] == requests[1] && [wishes[1]] + [] == [wishes[1]];
    assert ResolveAll(attributes, tail) == Some([wishes[1]]);
    assert wishes == [wishes[0]] + [wishes[1]];
  }

  lemma {:induction false} PointersOfOne(a: Attribute, m: string)
    requires m in a.fields
    ensures PointersOf(a, [m]) == Pointers(a.fields[m])
  {
    hide Pointers;
    assert [m][1..] == [];
    assert PointersOf(a, [m][1..]) == [];
  }

  lemma {:induction false} ResolvedWhole(attributes: seq<Attribute>, r: Request, a: Attribute, m: string)
    requires Offered(attributes, r.identifier) == Some(a) && r.members == [] && a.fields.Keys == {m}
    ensures Resolve(attributes, r) == Some(Wish(a.on, Pointers(a.fields[m])))
  {
    hide Offered, Pointers;
    Order.SortedKeysOf(a.fields.Keys);
    var all := Requested(a, []).value;
    assert |a.fields.Keys| == 1 by { assert a.fields.Keys == {m}; }
    assert |all| == 1 && all[0] in all && all[0] in a.fields.Keys;
    assert all == [m];
    PointersOfOne(a, m);
  }

  lemma {:induction false} ResolvedMember(attributes: seq<Attribute>, r: Request, a: Attribute, m: string)
    requires Offered(attributes, r.identifier) == Some(a) && r.members == [m] && m in a.fields
    ensures Resolve(attributes, r) == Some(Wish(a.on, Pointers(a.fields[m])))
  {
    hide Offered, Pointers;
    PointersOfOne(a, m);
  }

  lemma {:induction false} OnlyX(wishes: seq<Wish>, applies: string -> bool)
    requires wishes == [Wish("T", []), Wish("", ["/x"])] && Names("/x") == ["x"] && TYPENAME_PATH != ["x"]
    ensures forall path :: LivePath(wishes, applies, path) <==> path <= ["x"]
    ensures forall path :: IsLive(wishes, applies, path) <==> path == TYPENAME_PATH || path == ["x"]
    ensures Selectable(wishes, applies) && !AsksType(wishes, applies)
  {
    hide Names;
    forall path ensures LivePath(wishes, applies, path) <==> path <= ["x"] {
      if path <= ["x"] { assert Live(wishes[1].on, applies) && path <= Names(wishes[1].pointers[0]); }
    }
    assert Live(wishes[1].on, applies) && Names(wishes[1].pointers[0]) == ["x"];
  }
}
