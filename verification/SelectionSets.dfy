/** The GraphQL selection the query planner derives (asi-mapping/plan.go): a
    trie of field names with fragments on types, built pointer by pointer,
    rendered as text, and put in place of ...Selected. */
module SelectionSets {
  import opened Base
  import Order

  /** A selection set under construction. */
  datatype Selection = Selection(fields: map<string, Selection>, fragments: map<string, Selection>)

  const NONE := Selection(map[], map[])

  /** The member names of a JSON Pointer. */
  function Names(pointer: string): seq<string> {
    Split(if pointer != "" && pointer[0] == '/' then pointer[1..] else pointer, '/')
  }

  function AddNames(s: Selection, names: seq<string>): Selection
    decreases |names|
  {
    if names == [] then s
    else
      var child := if names[0] in s.fields then s.fields[names[0]] else NONE;
      s.(fields := s.fields[names[0] := AddNames(child, names[1..])])
  }

  /** selection.add */
  function Add(s: Selection, pointer: string): Selection { AddNames(s, Names(pointer)) }

  /** selection.on, followed by changing what it returns. */
  function On(s: Selection, typeName: string): Selection {
    if typeName in s.fragments then s.fragments[typeName] else NONE
  }

  function WithFragment(s: Selection, typeName: string, fragment: Selection): Selection {
    s.(fragments := s.fragments[typeName := fragment])
  }

  predicate Empty(s: Selection) {
    s.fields == map[] && forall t :: t in s.fragments ==> Empty(s.fragments[t])
  }

  // ---- Which paths a trie holds ----

  ghost predicate HasPath(fields: map<string, Selection>, path: seq<string>)
    decreases |path|
  {
    path == [] || (path[0] in fields && HasPath(fields[path[0]].fields, path[1..]))
  }

  /** A path is there after an addition when it was there before or is a
      prefix of what was added. */
  lemma {:induction false} AddPaths(s: Selection, names: seq<string>, path: seq<string>)
    ensures HasPath(AddNames(s, names).fields, path) <==> HasPath(s.fields, path) || path <= names
    decreases |names|
  {
    if names != [] && path != [] && path[0] == names[0] {
      var child := if names[0] in s.fields then s.fields[names[0]] else NONE;
      AddPaths(child, names[1..], path[1..]);
      assert path == [path[0]] + path[1..] && names == [names[0]] + names[1..];
      assert path[1..] <= names[1..] <==> path <= names;
      if path[0] !in s.fields && HasPath(child.fields, path[1..]) { assert path[1..] == []; }
    }
  }

  /** Fragments stand at the root only. */
  ghost predicate Plain(s: Selection) {
    s.fragments == map[] && forall n :: n in s.fields ==> Plain(s.fields[n])
  }

  lemma {:induction false} AddKeepsPlain(s: Selection, names: seq<string>)
    requires forall n :: n in s.fields ==> Plain(s.fields[n])
    ensures var r := AddNames(s, names); r.fragments == s.fragments && forall n :: n in r.fields ==> Plain(r.fields[n])
    decreases |names|
  {
    if names != [] {
      var child := if names[0] in s.fields then s.fields[names[0]] else NONE;
      AddKeepsPlain(child, names[1..]);
    }
  }

  lemma {:induction false} OneStep(fields: map<string, Selection>, n: string, path: seq<string>)
    ensures HasPath(fields, [n] + path) <==> n in fields && HasPath(fields[n].fields, path)
    ensures HasPath(fields, [n]) <==> n in fields
  {
    assert ([n] + path)[1..] == path;
    assert [n][1..] == [];
  }

  /** A trie is determined by its paths, so the order and the repetition of
      additions leave no trace. */
  lemma {:induction false} SamePaths(a: Selection, b: Selection)
    requires Plain(a) && Plain(b)
    requires forall path :: HasPath(a.fields, path) <==> HasPath(b.fields, path)
    ensures a == b
    decreases a
  {
    hide HasPath;
    forall n ensures n in a.fields <==> n in b.fields {
      OneStep(a.fields, n, []);
      OneStep(b.fields, n, []);
      assert HasPath(a.fields, [n]) <==> HasPath(b.fields, [n]);
    }
    forall n | n in a.fields ensures a.fields[n] == b.fields[n] {
      forall path ensures HasPath(a.fields[n].fields, path) <==> HasPath(b.fields[n].fields, path) {
        OneStep(a.fields, n, path);
        OneStep(b.fields, n, path);
        assert HasPath(a.fields, [n] + path) <==> HasPath(b.fields, [n] + path);
      }
      SamePaths(a.fields[n], b.fields[n]);
    }
  }

  function AddAll(s: Selection, pointers: seq<string>): Selection
    decreases |pointers|
  {
    if pointers == [] then s else AddAll(Add(s, pointers[0]), pointers[1..])
  }

  /** After any additions the paths are the prefixes of the pointers added. */
  lemma {:induction false} AddAllPaths(s: Selection, pointers: seq<string>, path: seq<string>)
    ensures HasPath(AddAll(s, pointers).fields, path)
      <==> HasPath(s.fields, path) || exists i :: 0 <= i < |pointers| && path <= Names(pointers[i])
    decreases |pointers|
  {
    hide Names;
    if pointers != [] {
      AddPaths(s, Names(pointers[0]), path);
      AddAllPaths(Add(s, pointers[0]), pointers[1..], path);
      assert forall i :: 1 <= i < |pointers| ==> pointers[i] == pointers[1..][i - 1];
      if i :| 0 <= i < |pointers| && path <= Names(pointers[i]) {
        if i > 0 { assert path <= Names(pointers[1..][i - 1]); }
      }
      if i :| 0 <= i < |pointers[1..]| && path <= Names(pointers[1..][i]) {
        assert path <= Names(pointers[i + 1]);
      }
    }
  }

  lemma {:induction false} AddAllPlain(s: Selection, pointers: seq<string>)
    requires Plain(s)
    ensures Plain(AddAll(s, pointers))
    decreases |pointers|
  {
    hide Names;
    if pointers != [] {
      AddKeepsPlain(s, Names(pointers[0]));
      AddAllPlain(Add(s, pointers[0]), pointers[1..]);
    }
  }

  /** Two lists of pointers with the same elements, in any order and however
      often repeated, make the same trie. */
  lemma {:induction false} OrderIsForgotten(a: seq<string>, b: seq<string>)
    requires forall p :: p in a <==> p in b
    ensures AddAll(NONE, a) == AddAll(NONE, b)
  {
    hide AddAll, Names;
    AddAllPlain(NONE, a);
    AddAllPlain(NONE, b);
    var x, y := AddAll(NONE, a), AddAll(NONE, b);
    forall path ensures HasPath(x.fields, path) <==> HasPath(y.fields, path) {
      AddAllPaths(NONE, a, path);
      AddAllPaths(NONE, b, path);
      if i :| 0 <= i < |a| && path <= Names(a[i]) {
        assert a[i] in b;
      }
      if i :| 0 <= i < |b| && path <= Names(b[i]) {
        assert b[i] in a;
      }
    }
    SamePaths(x, y);
  }

  // ---- render, and reading it back ----

  predicate IsName(token: string) { token != "" && token != "{" && token != "}" && token != "..." && ' ' !in token }

  ghost predicate Nameable(s: Selection) {
    && (forall n :: n in s.fields ==> IsName(n) && Nameable(s.fields[n]))
    && (forall t :: t in s.fragments ==> IsName(t) && Nameable(s.fragments[t]))
  }

  /** render, as the tokens its spaces separate: sorted fields, then sorted
      fragments, empty ones left out. */
  ghost function Render(s: Selection): seq<string>
    decreases s, 1
  {
    RenderFields(s, Order.SortedKeys(s.fields.Keys)) + RenderFragments(s, Order.SortedKeys(s.fragments.Keys))
  }

  ghost function RenderFields(s: Selection, names: seq<string>): seq<string>
    decreases s, 0, |names|
  {
    if names == [] then []
    else
      (if names[0] in s.fields && !Empty(s.fields[names[0]])
       then [names[0], "{"] + Render(s.fields[names[0]]) + ["}"]
       else [names[0]])
      + RenderFields(s, names[1..])
  }

  ghost function RenderFragments(s: Selection, types: seq<string>): seq<string>
    decreases s, 0, |types|
  {
    if types == [] then []
    else
      (if types[0] in s.fragments && !Empty(s.fragments[types[0]])
       then ["...", "on", types[0], "{"] + Render(s.fragments[types[0]]) + ["}"]
       else [])
      + RenderFragments(s, types[1..])
  }

  /** What survives rendering: empty fragments vanish. */
  ghost function Pruned(s: Selection): Selection {
    Selection(map n | n in s.fields :: Pruned(s.fields[n]),
              map t | t in s.fragments && !Empty(s.fragments[t]) :: Pruned(s.fragments[t]))
  }

  /** A selection set's tokens up to its closing brace, read as GraphQL reads
      them, and the tokens behind. */
  function Parse(tokens: seq<string>, s: Selection): (r: (Selection, seq<string>))
    ensures |r.1| <= |tokens|
    decreases |tokens|
  {
    if tokens == [] || tokens[0] == "}" then (s, tokens)
    else if tokens[0] == "..." then
      if |tokens| < 4 then (s, [])
      else
        var (body, rest) := Parse(tokens[4..], NONE);
        if rest == [] then (s, []) else Parse(rest[1..], WithFragment(s, tokens[2], body))
    else if |tokens| > 1 && tokens[1] == "{" then
      var (body, rest) := Parse(tokens[2..], NONE);
      if rest == [] then (s, []) else Parse(rest[1..], s.(fields := s.fields[tokens[0] := body]))
    else Parse(tokens[1..], s.(fields := s.fields[tokens[0] := NONE]))
  }

  ghost predicate Closes(rest: seq<string>) { rest == [] || rest[0] == "}" }

  lemma {:induction false} EmptyPruned(s: Selection)
    requires Empty(s)
    ensures Pruned(s) == NONE
  {}

  // How the reader takes the three shapes a rendering is made of.

  lemma {:induction false} ReadName(n: string, tail: seq<string>, acc: Selection)
    requires IsName(n) && (tail != [] ==> tail[0] != "{")
    ensures Parse([n] + tail, acc) == Parse(tail, acc.(fields := acc.fields[n := NONE]))
  {
    assert ([n] + tail)[1..] == tail;
  }

  lemma {:induction false} ReadNested(n: string, inner: seq<string>, body: Selection, tail: seq<string>, acc: Selection)
    requires IsName(n) && Parse(inner + (["}"] + tail), NONE) == (body, ["}"] + tail)
    ensures Parse([n, "{"] + inner + ["}"] + tail, acc) == Parse(tail, acc.(fields := acc.fields[n := body]))
  {
    var tokens := [n, "{"] + inner + ["}"] + tail;
    assert tokens[2..] == inner + (["}"] + tail);
    assert (["}"] + tail)[1..] == tail;
  }

  lemma {:induction false} ReadFragment(t: string, inner: seq<string>, body: Selection, tail: seq<string>, acc: Selection)
    requires Parse(inner + (["}"] + tail), NONE) == (body, ["}"] + tail)
    ensures Parse(["...", "on", t, "{"] + inner + ["}"] + tail, acc) == Parse(tail, WithFragment(acc, t, body))
  {
    var tokens := ["...", "on", t, "{"] + inner + ["}"] + tail;
    assert tokens[4..] == inner + (["}"] + tail);
    assert (["}"] + tail)[1..] == tail;
  }

  ghost function PrunedFields(s: Selection, names: seq<string>): map<string, Selection>
    requires forall n :: n in names ==> n in s.fields
  {
    map n | n in names :: Pruned(s.fields[n])
  }

  ghost function PrunedFragments(s: Selection, types: seq<string>): map<string, Selection>
    requires forall t :: t in types ==> t in s.fragments
  {
    map t | t in types && !Empty(s.fragments[t]) :: Pruned(s.fragments[t])
  }

  lemma FieldsSplit(s: Selection, names: seq<string>, fields: map<string, Selection>)
    requires names != [] && forall n :: n in names ==> n in s.fields
    ensures fields[names[0] := Pruned(s.fields[names[0]])] + PrunedFields(s, names[1..]) == fields + PrunedFields(s, names)
  {
    hide Pruned;
    assert names == [names[0]] + names[1..];
  }

  lemma FragmentsSplit(s: Selection, types: seq<string>, fragments: map<string, Selection>)
    requires types != [] && forall t :: t in types ==> t in s.fragments
    ensures (if Empty(s.fragments[types[0]]) then fragments else fragments[types[0] := Pruned(s.fragments[types[0]])])
            + PrunedFragments(s, types[1..])
      == fragments + PrunedFragments(s, types)
  {
    hide Pruned, Empty;
    assert types == [types[0]] + types[1..];
  }

  lemma {:induction false} FieldHead(s: Selection, names: seq<string>, rest: seq<string>)
    requires Nameable(s) && forall n :: n in names ==> n in s.fields
    requires rest != [] ==> rest[0] != "{"
    ensures var tail := RenderFields(s, names) + rest; tail != [] ==> tail[0] != "{"
  {
    if names != [] {
      assert names[0] in s.fields && IsName(names[0]);
      assert RenderFields(s, names)[0] == names[0];
    }
  }

  lemma {:induction false} FragmentHead(s: Selection, types: seq<string>, rest: seq<string>)
    requires Closes(rest)
    ensures var tail := RenderFragments(s, types) + rest; tail != [] ==> tail[0] != "{"
  {
    if types != [] && !(types[0] in s.fragments && !Empty(s.fragments[types[0]])) {
      FragmentHead(s, types[1..], rest);
      assert RenderFragments(s, types) == RenderFragments(s, types[1..]);
    }
  }

  // The tokens of a list of fields or fragments, its first element apart.

  lemma {:induction false} RenderedField(s: Selection, names: seq<string>, rest: seq<string>)
    requires names != [] && names[0] in s.fields
    ensures var tail := RenderFields(s, names[1..]) + rest;
      RenderFields(s, names) + rest
      == if Empty(s.fields[names[0]]) then [names[0]] + tail
         else [names[0], "{"] + Render(s.fields[names[0]]) + ["}"] + tail
  {
    hide Empty, Render;
    var head := if Empty(s.fields[names[0]]) then [names[0]]
                else [names[0], "{"] + Render(s.fields[names[0]]) + ["}"];
    assert RenderFields(s, names) == head + RenderFields(s, names[1..]);
    Regroup(head, RenderFields(s, names[1..]), rest);
  }

  lemma {:induction false} RenderedFragment(s: Selection, types: seq<string>, rest: seq<string>)
    requires types != [] && types[0] in s.fragments
    ensures var tail := RenderFragments(s, types[1..]) + rest;
      RenderFragments(s, types) + rest
      == if Empty(s.fragments[types[0]]) then tail
         else ["...", "on", types[0], "{"] + Render(s.fragments[types[0]]) + ["}"] + tail
  {
    hide Empty, Render;
    var head := if Empty(s.fragments[types[0]]) then []
                else ["...", "on", types[0], "{"] + Render(s.fragments[types[0]]) + ["}"];
    assert RenderFragments(s, types) == head + RenderFragments(s, types[1..]);
    Regroup(head, RenderFragments(s, types[1..]), rest);
    assert [] + (RenderFragments(s, types[1..]) + rest) == RenderFragments(s, types[1..]) + rest;
  }

  /** Rendered fields followed by a token that opens nothing are read as the
      fields they are. */
  lemma {:induction false} ParseFields(s: Selection, names: seq<string>, rest: seq<string>, acc: Selection)
    requires Nameable(s) && forall n :: n in names ==> n in s.fields
    requires rest != [] ==> rest[0] != "{"
    ensures Parse(RenderFields(s, names) + rest, acc) == Parse(rest, acc.(fields := acc.fields + PrunedFields(s, names)))
    decreases s, 0, |names|
  {
    hide Parse, Pruned, IsName, Empty, Render, RenderFields, RenderFragments;
    if names == [] {
      NoFields(s, rest);
      assert acc.fields + PrunedFields(s, names) == acc.fields;
    } else {
      var n := names[0];
      var child := s.fields[n];
      var tail := RenderFields(s, names[1..]) + rest;
      assert IsName(n) && Nameable(child);
      FieldHead(s, names[1..], rest);
      RenderedField(s, names, rest);
      if Empty(child) {
        ReadName(n, tail, acc);
        EmptyPruned(child);
      } else {
        Closing(tail);
        ParseRendered(child, ["}"] + tail);
        ReadNested(n, Render(child), Pruned(child), tail, acc);
      }
      ParseFields(s, names[1..], rest, acc.(fields := acc.fields[n := Pruned(child)]));
      FieldsSplit(s, names, acc.fields);
    }
  }

  lemma {:induction false} NoFields(s: Selection, rest: seq<string>)
    ensures RenderFields(s, []) + rest == rest && RenderFragments(s, []) + rest == rest
  {
    assert [] + rest == rest;
  }

  lemma Closing(tail: seq<string>)
    ensures Closes(["}"] + tail)
  {}

  lemma {:induction false} ParseFragments(s: Selection, types: seq<string>, rest: seq<string>, acc: Selection)
    requires Nameable(s) && forall t :: t in types ==> t in s.fragments
    ensures Parse(RenderFragments(s, types) + rest, acc)
      == Parse(rest, acc.(fragments := acc.fragments + PrunedFragments(s, types)))
    decreases s, 0, |types|
  {
    hide Parse, Pruned, IsName, Empty, Render, RenderFields, RenderFragments;
    if types == [] {
      NoFields(s, rest);
      assert acc.fragments + PrunedFragments(s, types) == acc.fragments;
    } else {
      var t := types[0];
      var body := s.fragments[t];
      var tail := RenderFragments(s, types[1..]) + rest;
      assert Nameable(body);
      FragmentsSplit(s, types, acc.fragments);
      RenderedFragment(s, types, rest);
      if Empty(body) {
        ParseFragments(s, types[1..], rest, acc);
      } else {
        Closing(tail);
        ParseRendered(body, ["}"] + tail);
        ReadFragment(t, Render(body), Pruned(body), tail, acc);
        ParseFragments(s, types[1..], rest, WithFragment(acc, t, Pruned(body)));
      }
    }
  }

  lemma {:induction false} PrunedFieldsAll(s: Selection, names: seq<string>)
    requires forall n :: n in names <==> n in s.fields
    ensures Pruned(s).fields == map[] + PrunedFields(s, names)
  {
    var l, r := Pruned(s).fields, PrunedFields(s, names);
    assert l == map n | n in s.fields :: Pruned(s.fields[n]);
    hide Pruned, Empty;
    assert l.Keys == r.Keys;
    assert forall n :: n in r ==> l[n] == r[n];
    FromNothing(r);
    assert l == r;
  }

  lemma {:induction false} PrunedFragmentsAll(s: Selection, types: seq<string>)
    requires forall t :: t in types <==> t in s.fragments
    ensures Pruned(s).fragments == map[] + PrunedFragments(s, types)
  {
    var l, r := Pruned(s).fragments, PrunedFragments(s, types);
    assert l == map t | t in s.fragments && !Empty(s.fragments[t]) :: Pruned(s.fragments[t]);
    hide Pruned, Empty;
    assert l.Keys == r.Keys;
    assert forall t :: t in r ==> l[t] == r[t];
    FromNothing(r);
    assert l == r;
  }

  lemma FromNothing<K, V>(m: map<K, V>)
    ensures map[] + m == m
  {}

  lemma {:induction false} PrunedParts(s: Selection, names: seq<string>, types: seq<string>)
    requires forall n :: n in names <==> n in s.fields
    requires forall t :: t in types <==> t in s.fragments
    ensures Pruned(s) == Selection(map[] + PrunedFields(s, names), map[] + PrunedFragments(s, types))
  {
    hide Empty, Pruned, PrunedFields, PrunedFragments;
    PrunedFieldsAll(s, names);
    PrunedFragmentsAll(s, types);
  }

  /** Reading a rendered selection gives it back, up to its empty fragments. */
  lemma {:induction false} ParseRendered(s: Selection, rest: seq<string>)
    requires Nameable(s) && Closes(rest)
    ensures Parse(Render(s) + rest, NONE) == (Pruned(s), rest)
    decreases s, 1
  {
    var names, types := Order.SortedKeys(s.fields.Keys), Order.SortedKeys(s.fragments.Keys);
    Order.SortedKeysOf(s.fields.Keys);
    Order.SortedKeysOf(s.fragments.Keys);
    ParseNow(s, names, types, rest);
  }

  lemma {:induction false} ParseNow(s: Selection, names: seq<string>, types: seq<string>, rest: seq<string>)
    requires Nameable(s) && Closes(rest)
    requires forall n :: n in names <==> n in s.fields
    requires forall t :: t in types <==> t in s.fragments
    ensures Parse(RenderFields(s, names) + RenderFragments(s, types) + rest, NONE) == (Pruned(s), rest)
    decreases s, 0, |names| + |types| + 1
  {
    hide Pruned, RenderFields, RenderFragments, Nameable, PrunedFields, PrunedFragments;
    var tail := RenderFragments(s, types) + rest;
    assert RenderFields(s, names) + RenderFragments(s, types) + rest == RenderFields(s, names) + tail;
    FragmentHead(s, types, rest);
    ParseFields(s, names, tail, NONE);
    ParseFragments(s, types, rest, Selection(map[] + PrunedFields(s, names), map[]));
    PrunedParts(s, names, types);
  }

  /** Splitting joined tokens at their spaces gives the tokens back. */
  lemma {:induction false} SplitJoined(tokens: seq<string>)
    requires tokens != [] && forall i :: 0 <= i < |tokens| ==> tokens[i] != "" && ' ' !in tokens[i]
    ensures Split(Join(tokens, " "), ' ') == tokens
  {
    if |tokens| == 1 {
      CutWithout(tokens[0], ' ');
    } else {
      CutAtFirst(tokens[0], ' ', Join(tokens[1..], " "));
      SplitJoined(tokens[1..]);
    }
  }

  ghost predicate PlainTokens(tokens: seq<string>) {
    forall i :: 0 <= i < |tokens| ==> tokens[i] != "" && ' ' !in tokens[i]
  }

  lemma {:induction false} RenderedPlain(s: Selection)
    requires Nameable(s)
    ensures PlainTokens(Render(s))
    decreases s, 1
  {
    hide Nameable, PlainTokens, RenderFields, RenderFragments;
    var names, types := Order.SortedKeys(s.fields.Keys), Order.SortedKeys(s.fragments.Keys);
    Order.SortedKeysOf(s.fields.Keys);
    Order.SortedKeysOf(s.fragments.Keys);
    FieldsPlain(s, names);
    FragmentsPlain(s, types);
    PlainApart(RenderFields(s, names), RenderFragments(s, types));
  }

  lemma {:induction false} PlainApart(a: seq<string>, b: seq<string>)
    requires PlainTokens(a) && PlainTokens(b)
    ensures PlainTokens(a + b)
  {}

  lemma {:induction false} PlainWords(n: string)
    requires IsName(n)
    ensures PlainTokens([n]) && PlainTokens([n, "{"]) && PlainTokens(["...", "on", n, "{"]) && PlainTokens(["}"])
  {}

  lemma {:induction false} NoTokens()
    ensures PlainTokens([])
  {}

  lemma {:induction false} FieldsPlain(s: Selection, names: seq<string>)
    requires Nameable(s) && forall n :: n in names ==> n in s.fields
    ensures PlainTokens(RenderFields(s, names))
    decreases s, 0, |names|
  {
    hide PlainTokens, IsName, Empty, Render;
    if names != [] {
      var n := names[0];
      assert IsName(n) && Nameable(s.fields[n]);
      PlainWords(n);
      FieldsPlain(s, names[1..]);
      if Empty(s.fields[n]) {
        PlainApart([n], RenderFields(s, names[1..]));
      } else {
        RenderedPlain(s.fields[n]);
        PlainApart([n, "{"], Render(s.fields[n]));
        PlainApart([n, "{"] + Render(s.fields[n]), ["}"]);
        PlainApart([n, "{"] + Render(s.fields[n]) + ["}"], RenderFields(s, names[1..]));
      }
    } else {
      NoTokens();
    }
  }

  lemma {:induction false} FragmentsPlain(s: Selection, types: seq<string>)
    requires Nameable(s) && forall t :: t in types ==> t in s.fragments
    ensures PlainTokens(RenderFragments(s, types))
    decreases s, 0, |types|
  {
    hide PlainTokens, IsName, Empty, Render;
    if types != [] {
      var t := types[0];
      assert IsName(t) && Nameable(s.fragments[t]);
      PlainWords(t);
      FragmentsPlain(s, types[1..]);
      if Empty(s.fragments[t]) {
        assert RenderFragments(s, types) == RenderFragments(s, types[1..]);
      } else {
        RenderedPlain(s.fragments[t]);
        PlainApart(["...", "on", t, "{"], Render(s.fragments[t]));
        PlainApart(["...", "on", t, "{"] + Render(s.fragments[t]), ["}"]);
        PlainApart(["...", "on", t, "{"] + Render(s.fragments[t]) + ["}"], RenderFragments(s, types[1..]));
      }
    } else {
      NoTokens();
    }
  }

  /** Reading the text of a selection gives it back, without its empty
      fragments. */
  lemma {:induction false} RenderRoundTrip(s: Selection)
    requires Nameable(s) && Render(s) != []
    ensures Parse(Split(Join(Render(s), " "), ' '), NONE) == (Pruned(s), [])
  {
    hide Nameable, Render, Parse, Pruned, Join, Split;
    RenderedPlain(s);
    SplitJoined(Render(s));
    ParseRendered(s, []);
    assert Render(s) + [] == Render(s);
  }

  lemma {:induction false} PrunedFieldPaths(s: Selection, path: seq<string>)
    ensures HasPath(Pruned(s).fields, path) <==> HasPath(s.fields, path)
    decreases |path|
  {
    hide Empty;
    if path != [] && path[0] in s.fields { PrunedFieldPaths(s.fields[path[0]], path[1..]); }
  }

  /** What is lost in the text holds no field, at the root or on a type. */
  lemma {:induction false} PrunedPaths(s: Selection, typeName: string, path: seq<string>)
    requires path != []
    ensures HasPath(Pruned(s).fields, path) <==> HasPath(s.fields, path)
    ensures HasPath(On(Pruned(s), typeName).fields, path) <==> HasPath(On(s, typeName).fields, path)
  {
    hide HasPath, Empty;
    PrunedFieldPaths(s, path);
    assert Pruned(s).fragments == map t | t in s.fragments && !Empty(s.fragments[t]) :: Pruned(s.fragments[t]);
    hide Pruned;
    if typeName in s.fragments {
      PrunedFieldPaths(s.fragments[typeName], path);
      if Empty(s.fragments[typeName]) { EmptyFields(s.fragments[typeName]); }
    }
    NothingInside(path);
  }

  lemma {:induction false} EmptyFields(s: Selection)
    requires Empty(s)
    ensures s.fields == map[]
  {}

  lemma {:induction false} NothingInside(path: seq<string>)
    requires path != []
    ensures !HasPath(map[], path)
  {}
}
