/** What the value builder makes and what the planner asks (asi-mapping/build.go,
    plan.go), said of the source's answer and of the mapping alone. */
module MappingFacts {
  import opened Base
  import opened SelectionSets
  import opened AsiMapping
  import Order

  // ---- Pointers and where they lead ----

  /** The names of a pointer spell it, without its leading slash, and hold no
      slash themselves. */
  lemma {:induction false} NamesSpell(pointer: string)
    ensures pointer == Join(Names(pointer), "/") || pointer == "/" + Join(Names(pointer), "/")
    ensures pointer != "" && pointer[0] == '/' ==> pointer == "/" + Join(Names(pointer), "/")
    ensures forall name :: name in Names(pointer) ==> '/' !in name
  {
    hide Join, Split;
    if pointer != "" && pointer[0] == '/' {
      SplitSpells(pointer[1..], '/');
      assert pointer == "/" + pointer[1..];
    } else {
      SplitSpells(pointer, '/');
    }
  }

  /** Joining puts the separator between what is joined, and nothing else. */
  lemma {:induction false} JoinApart(a: seq<string>, b: seq<string>, separator: string)
    requires a != [] && b != []
    ensures Join(a + b, separator) == Join(a, separator) + separator + Join(b, separator)
    ensures Join(a[..1], separator) == a[0]
    decreases |a|
  {
    assert (a + b)[1..] == a[1..] + b;
    if |a| == 1 {
      assert a[1..] + b == b;
    } else {
      JoinApart(a[1..], b, separator);
      var x, y := Join(a[1..], separator), Join(b, separator);
      assert a[0] + separator + (x + separator + y) == (a[0] + separator + x) + separator + y;
    }
  }

  function Keys(names: seq<string>): Path { seq(|names|, i requires 0 <= i < |names| => Key(names[i])) }

  /** The names lead through objects to a value that is no null. */
  ghost predicate LeadsTo(doc: Json, names: seq<string>, v: Json) {
    At(doc, Keys(names)) == Some(v) && !v.JNull?
  }

  /** After k names stands a null, or an object without the next member. */
  ghost predicate EndsAfter(doc: Json, names: seq<string>, k: nat)
    requires k <= |names|
  {
    var at := At(doc, Keys(names[..k]));
    at.Some? && (at.value.JNull? || (k < |names| && at.value.JObj? && names[k] !in at.value.members))
  }

  ghost predicate LeadsNowhere(doc: Json, names: seq<string>) {
    exists k: nat :: k <= |names| && EndsAfter(doc, names, k)
  }

  lemma KeysApart(names: seq<string>)
    requires names != []
    ensures Keys(names)[0] == Key(names[0]) && Keys(names)[1..] == Keys(names[1..])
  {}

  lemma {:induction false} EndsFurther(doc: Json, names: seq<string>, k: nat)
    requires names != [] && doc.JObj? && names[0] in doc.members && k < |names|
    ensures EndsAfter(doc, names, k + 1) <==> EndsAfter(doc.members[names[0]], names[1..], k)
  {
    KeysApart(names[..k + 1]);
    assert names[..k + 1][1..] == names[1..][..k];
  }

  lemma {:induction false} EndsHere(doc: Json, names: seq<string>)
    ensures EndsAfter(doc, names, 0) <==> doc.JNull? || (names != [] && doc.JObj? && names[0] !in doc.members)
  {
    assert Keys(names[..0]) == [];
  }

  /** A lookup finds where the names lead, and misses exactly where they lead
      nowhere; everything else is an answer of another shape. */
  lemma {:induction false} FollowExact(doc: Json, names: seq<string>)
    ensures forall v :: Follow(doc, names) == Found(v) <==> LeadsTo(doc, names, v)
    ensures Follow(doc, names) == Missing <==> LeadsNowhere(doc, names)
    decreases |names|
  {
    hide EndsAfter;
    EndsHere(doc, names);
    if names == [] {
      assert Keys(names) == [];
    } else {
      KeysApart(names);
      if doc.JObj? && names[0] in doc.members {
        var next := doc.members[names[0]];
        FollowExact(next, names[1..]);
        if k: nat :| k <= |names| && EndsAfter(doc, names, k) {
          EndsFurther(doc, names, k - 1);
        }
        if k: nat :| k <= |names[1..]| && EndsAfter(next, names[1..], k) {
          EndsFurther(doc, names, k);
          assert EndsAfter(doc, names, k + 1);
        }
      } else if k: nat :| k <= |names| && EndsAfter(doc, names, k) && k > 0 {
        NotThrough(doc, names, k);
        assert false;
      }
    }
  }

  lemma {:induction false} NotThrough(doc: Json, names: seq<string>, k: nat)
    requires 0 < k <= |names| && !(doc.JObj? && names[0] in doc.members)
    ensures !EndsAfter(doc, names, k)
  {
    KeysApart(names[..k]);
  }

  // ---- What a member is ----

  /** No value: null, or an empty string or list. */
  predicate Blank(v: Json) { v == JNull || v == JStr("") || v == JList([]) }

  ghost predicate Gives(doc: Json, names: seq<string>, v: Json) { LeadsTo(doc, names, v) && !Blank(v) }

  ghost predicate GivesNone(doc: Json, names: seq<string>) {
    LeadsNowhere(doc, names) || exists v :: LeadsTo(doc, names, v) && Blank(v)
  }

  /** What is there, in order. */
  function Present<T>(found: seq<Option<T>>): seq<T> {
    if found == [] then [] else (if found[0].Some? then [found[0].value] else []) + Present(found[1..])
  }

  /** found holds, for each element, what the names give there. */
  ghost predicate FoundIn(elements: seq<Json>, names: seq<string>, found: seq<Option<Json>>) {
    |found| == |elements| && forall i :: 0 <= i < |elements| ==>
      if found[i].Some? then Gives(elements[i], names, found[i].value) else GivesNone(elements[i], names)
  }

  /** found holds, for each pointer, the text it gives. */
  ghost predicate TextsFound(doc: Json, pointers: seq<string>, o: Oracle, found: seq<Option<string>>) {
    |found| == |pointers| && forall i :: 0 <= i < |pointers| ==> TextFound(doc, pointers[i], o, found[i])
  }

  ghost predicate TextFound(doc: Json, pointer: string, o: Oracle, found: Option<string>) {
    if found.Some? then exists v :: Gives(doc, Names(pointer), v) && HasText(v, found.value, o)
    else GivesNone(doc, Names(pointer))
  }

  predicate HasText(v: Json, text: string, o: Oracle) {
    v == JStr(text) || (v.JNum? && text == o.numberText(v.text))
  }

  /** The value of a member: the constant; what the pointer leads to; the
      values its pointer gives in the elements of a list; or the texts of
      several pointers with the separator between them. */
  ghost predicate MemberIs(f: Field, doc: Json, o: Oracle, v: Json) {
    if !f.constant.NoConstant? then f.constant == Constant(v)
    else if f.each != "" then
      exists list, found :: LeadsTo(doc, Names(f.each), JList(list)) && FoundIn(list, Names(f.pointer), found)
                            && Present(found) != [] && v == JList(Present(found))
    else if f.join != [] then
      exists found :: TextsFound(doc, f.join, o, found) && Present(found) != [] && v == JStr(Join(Present(found), f.separator))
    else Gives(doc, Names(f.pointer), v)
  }

  /** There is nothing to make the member of. */
  ghost predicate MemberIsMissing(f: Field, doc: Json, o: Oracle) {
    f.constant.NoConstant? &&
    if f.each != "" then
      LeadsNowhere(doc, Names(f.each))
      || exists list, found :: LeadsTo(doc, Names(f.each), JList(list)) && FoundIn(list, Names(f.pointer), found) && Present(found) == []
    else if f.join != [] then exists found :: TextsFound(doc, f.join, o, found) && Present(found) == []
    else GivesNone(doc, Names(f.pointer))
  }

  lemma BlankIsEmpty(v: Json)
    ensures IsEmpty(v) <==> Blank(v)
  {}

  lemma {:induction false} EachExact(elements: seq<Json>, names: seq<string>)
    ensures EachValue(elements, names).Some? ==>
      exists found :: FoundIn(elements, names, found) && Present(found) == EachValue(elements, names).value
    ensures forall found :: FoundIn(elements, names, found) ==> EachValue(elements, names) == Some(Present(found))
    decreases |elements|
  {
    hide Follow, IsEmpty, Blank, LeadsTo, LeadsNowhere;
    if elements == [] {
      assert FoundIn(elements, names, []);
    } else {
      var rest := elements[1..];
      EachExact(rest, names);
      FollowExact(elements[0], names);
      var at := Follow(elements[0], names);
      if at.Found? { BlankIsEmpty(at.value); }
      if EachValue(elements, names).Some? {
        var behind :| FoundIn(rest, names, behind) && Present(behind) == EachValue(rest, names).value;
        var found := [if at.Found? && !Blank(at.value) then Some(at.value) else None] + behind;
        assert found[1..] == behind;
        assert forall i :: 1 <= i < |elements| ==> elements[i] == rest[i - 1] && found[i] == behind[i - 1];
        assert FoundIn(elements, names, found);
      }
      forall found | FoundIn(elements, names, found) ensures EachValue(elements, names) == Some(Present(found)) {
        assert forall i :: 0 <= i < |rest| ==> rest[i] == elements[i + 1] && found[1..][i] == found[i + 1];
        assert FoundIn(rest, names, found[1..]);
        assert [] + Present(found[1..]) == Present(found[1..]);
      }
    }
  }

  lemma TextIsText(v: Json, text: string, o: Oracle)
    ensures AsText(v, o) == Some(text) <==> HasText(v, text, o)
  {}

  lemma {:induction false} OneText(doc: Json, pointer: string, o: Oracle, found: Option<string>)
    ensures var at := Follow(doc, Names(pointer));
      TextFound(doc, pointer, o, found)
      <==> (if found.Some? then at.Found? && !IsEmpty(at.value) && AsText(at.value, o) == found
            else at.Missing? || (at.Found? && IsEmpty(at.value)))
  {
    hide Follow, IsEmpty, Blank, LeadsTo, LeadsNowhere, HasText, AsText, Names;
    var names := Names(pointer);
    FollowExact(doc, names);
    var at := Follow(doc, names);
    if at.Found? {
      BlankIsEmpty(at.value);
      if found.Some? { TextIsText(at.value, found.value, o); }
    }
  }

  lemma {:induction false} TextsApart(doc: Json, pointers: seq<string>, o: Oracle, found: seq<Option<string>>)
    requires pointers != [] && found != []
    ensures TextsFound(doc, pointers, o, found)
      <==> TextFound(doc, pointers[0], o, found[0]) && TextsFound(doc, pointers[1..], o, found[1..])
    ensures Present(found) == (if found[0].Some? then [found[0].value] + Present(found[1..]) else Present(found[1..]))
  {
    hide TextFound;
    assert forall i :: 0 <= i < |pointers[1..]| ==> pointers[1..][i] == pointers[i + 1];
    assert forall i :: 0 <= i < |found[1..]| ==> found[1..][i] == found[i + 1];
    if TextFound(doc, pointers[0], o, found[0]) && TextsFound(doc, pointers[1..], o, found[1..]) {
      forall i | 0 <= i < |pointers| ensures TextFound(doc, pointers[i], o, found[i]) {
        if i > 0 { assert TextFound(doc, pointers[1..][i - 1], o, found[1..][i - 1]); }
      }
    }
    assert [] + Present(found[1..]) == Present(found[1..]);
  }

  /** One pointer more. */
  lemma {:induction false} TextsStep(doc: Json, pointers: seq<string>, o: Oracle, first: Option<string>)
    requires pointers != [] && TextFound(doc, pointers[0], o, first)
    ensures Texts(doc, pointers, o) ==
      match Texts(doc, pointers[1..], o)
      case None => None
      case Some(rest) => Some(if first.Some? then [first.value] + rest else rest)
  {
    hide Follow, IsEmpty, TextFound, AsText, Names;
    OneText(doc, pointers[0], o, first);
  }

  lemma {:induction false} FirstText(doc: Json, pointers: seq<string>, o: Oracle)
    requires pointers != [] && Texts(doc, pointers, o).Some?
    ensures Texts(doc, pointers[1..], o).Some? && exists first :: TextFound(doc, pointers[0], o, first)
  {
    hide Follow, IsEmpty, TextFound, AsText, Names;
    var at := Follow(doc, Names(pointers[0]));
    OneText(doc, pointers[0], o, if at.Found? && !IsEmpty(at.value) then AsText(at.value, o) else None);
  }

  lemma {:induction false} TextsExact(doc: Json, pointers: seq<string>, o: Oracle)
    ensures Texts(doc, pointers, o).Some? ==>
      exists found :: TextsFound(doc, pointers, o, found) && Present(found) == Texts(doc, pointers, o).value
    ensures forall found :: TextsFound(doc, pointers, o, found) ==> Texts(doc, pointers, o) == Some(Present(found))
    decreases |pointers|
  {
    hide TextFound;
    if pointers == [] {
      assert TextsFound(doc, pointers, o, []);
    } else {
      hide TextsFound, Present, Texts;
      var rest := pointers[1..];
      TextsExact(doc, rest, o);
      if Texts(doc, pointers, o).Some? {
        FirstText(doc, pointers, o);
        var first :| TextFound(doc, pointers[0], o, first);
        var behind :| TextsFound(doc, rest, o, behind) && Present(behind) == Texts(doc, rest, o).value;
        TextsStep(doc, pointers, o, first);
        assert ([first] + behind)[1..] == behind;
        TextsApart(doc, pointers, o, [first] + behind);
      }
      forall found | TextsFound(doc, pointers, o, found) ensures Texts(doc, pointers, o) == Some(Present(found)) {
        SomeText(doc, pointers, o, found);
        TextsApart(doc, pointers, o, found);
        TextsStep(doc, pointers, o, found[0]);
      }
    }
  }

  lemma SomeText(doc: Json, pointers: seq<string>, o: Oracle, found: seq<Option<string>>)
    requires pointers != [] && TextsFound(doc, pointers, o, found)
    ensures found != []
  {}

  /** A member is made exactly of what the mapping points at, and left out
      exactly where there is nothing. */
  lemma {:induction false} MemberExact(f: Field, doc: Json, o: Oracle)
    ensures forall v :: Value(f, doc, o) == Made(v) <==> MemberIs(f, doc, o, v)
    ensures Value(f, doc, o) == Nothing <==> MemberIsMissing(f, doc, o)
  {
    hide Follow, EachValue, Texts, FoundIn, TextsFound, LeadsTo, LeadsNowhere, Names, Present, Join, Blank, IsEmpty;
    if f.constant.NoConstant? {
      if f.each != "" {
        FollowExact(doc, Names(f.each));
        var at := Follow(doc, Names(f.each));
        if at.Found? && at.value.JList? {
          EachExact(at.value.items, Names(f.pointer));
        }
      } else if f.join != [] {
        TextsExact(doc, f.join, o);
      } else {
        FollowExact(doc, Names(f.pointer));
        var at := Follow(doc, Names(f.pointer));
        if at.Found? { BlankIsEmpty(at.value); }
      }
    }
  }

  // ---- What the value is ----

  /** The members asked for, in the order they are made: those named, or all. */
  ghost function MembersOf(a: Attribute, members: seq<string>): seq<string> {
    if members == [] then Order.SortedKeys(a.fields.Keys) else members
  }

  /** A missing member is fatal when it was named, or is required. */
  predicate Fatal(schema: Schema, named: bool, m: string) { named || m in schema.required }

  /** The member has a value that fits its property. */
  ghost predicate Fits(a: Attribute, doc: Json, schema: Schema, o: Oracle, m: string, v: Json) {
    m in a.fields && MemberIs(a.fields[m], doc, o, v) && m in schema.properties && Conforms(schema.properties[m], v, o)
  }

  /** The member is as it should be: a fitting value, or none where none is
      allowed. */
  ghost predicate InOrder(a: Attribute, doc: Json, schema: Schema, named: bool, o: Oracle, m: string) {
    && m in a.fields
    && ((exists v :: Fits(a, doc, schema, o, m, v)) || (MemberIsMissing(a.fields[m], doc, o) && !Fatal(schema, named, m)))
  }

  /** The first k members are in order and the next is missing, and may not be. */
  ghost predicate Lacks(a: Attribute, doc: Json, schema: Schema, named: bool, members: seq<string>, o: Oracle, k: nat)
    requires k < |members|
  {
    && (forall j :: 0 <= j < k ==> InOrder(a, doc, schema, named, o, members[j]))
    && members[k] in a.fields && MemberIsMissing(a.fields[members[k]], doc, o) && Fatal(schema, named, members[k])
  }

  ghost predicate LacksSome(a: Attribute, doc: Json, schema: Schema, named: bool, members: seq<string>, o: Oracle) {
    exists k :: 0 <= k < |members| && Lacks(a, doc, schema, named, members, o, k)
  }

  /** The first k members are in order and the next has a value that does not
      fit, or one the answer's shape does not give. */
  ghost predicate Breaks(a: Attribute, doc: Json, schema: Schema, named: bool, members: seq<string>, o: Oracle, k: nat)
    requires k < |members|
  {
    && (forall j :: 0 <= j < k ==> InOrder(a, doc, schema, named, o, members[j]))
    && members[k] in a.fields && !MemberIsMissing(a.fields[members[k]], doc, o)
    && !InOrder(a, doc, schema, named, o, members[k])
  }

  /** A value of the members: each that is there holds what it should and fits;
      each that is not has no value and need not. */
  ghost predicate ValueOf(a: Attribute, doc: Json, schema: Schema, named: bool, members: seq<string>, o: Oracle,
                          value: map<string, Json>)
  {
    && (forall m :: m in value ==> m in members)
    && (forall m :: m in members ==>
          && m in a.fields
          && if m in value then Fits(a, doc, schema, o, m, value[m])
             else MemberIsMissing(a.fields[m], doc, o) && !Fatal(schema, named, m))
  }

  lemma {:induction false} OneMember(a: Attribute, doc: Json, schema: Schema, o: Oracle, m: string)
    requires m in a.fields
    ensures forall v :: Fits(a, doc, schema, o, m, v) <==>
      Value(a.fields[m], doc, o) == Made(v) && m in schema.properties && Conforms(schema.properties[m], v, o)
    ensures Value(a.fields[m], doc, o) == Nothing <==> MemberIsMissing(a.fields[m], doc, o)
  {
    hide Value, MemberIs, MemberIsMissing, Conforms;
    MemberExact(a.fields[m], doc, o);
  }

  lemma {:induction false} OneMissing(a: Attribute, doc: Json, schema: Schema, named: bool, members: seq<string>, o: Oracle,
                                      k: nat, made: map<string, Json>)
    requires k < |members| && members[k] in a.fields
    requires ValueOf(a, doc, schema, named, members[..k], o, made)
    requires MemberIsMissing(a.fields[members[k]], doc, o) && !Fatal(schema, named, members[k])
    ensures InOrder(a, doc, schema, named, o, members[k]) && ValueOf(a, doc, schema, named, members[..k + 1], o, made)
  {
    hide MemberIs, MemberIsMissing, Conforms, Fits, Fatal;
    assert members[..k + 1] == members[..k] + [members[k]];
    var m := members[k];
    NotBoth(a, doc, schema, named, o, m);
    assert m !in made;
  }

  lemma {:induction false} OneMade(a: Attribute, doc: Json, schema: Schema, named: bool, members: seq<string>, o: Oracle,
                                   k: nat, made: map<string, Json>, v: Json)
    requires k < |members| && members[k] in a.fields
    requires ValueOf(a, doc, schema, named, members[..k], o, made) && Fits(a, doc, schema, o, members[k], v)
    ensures InOrder(a, doc, schema, named, o, members[k]) && ValueOf(a, doc, schema, named, members[..k + 1], o, made[members[k] := v])
  {
    hide MemberIs, MemberIsMissing, Conforms, Fits, Fatal;
    assert members[..k + 1] == members[..k] + [members[k]];
  }

  /** The members from the k-th on, after those before it made their values. */
  lemma {:induction false} MembersFrom(a: Attribute, doc: Json, schema: Schema, named: bool, members: seq<string>, o: Oracle,
                                       k: nat, made: map<string, Json>)
    requires k <= |members| && forall m :: m in members ==> m in a.fields
    requires ValueOf(a, doc, schema, named, members[..k], o, made)
    requires forall j :: 0 <= j < k ==> InOrder(a, doc, schema, named, o, members[j])
    ensures match Members(a, doc, schema, named, members[k..], made, o)
      case Held(value) => ValueOf(a, doc, schema, named, members, o, value)
      case NotHeld => exists i :: 0 <= i < |members| && Lacks(a, doc, schema, named, members, o, i)
      case Failed => exists i :: 0 <= i < |members| && Breaks(a, doc, schema, named, members, o, i)
    decreases |members| - k
  {
    hide Value, MemberIs, MemberIsMissing, Conforms, Fits, Fatal, ValueOf, InOrder;
    if k == |members| {
      assert members[..k] == members;
    } else {
      var m := members[k];
      assert members[k..][0] == m && members[k..][1..] == members[k + 1..];
      OneMember(a, doc, schema, o, m);
      Fatally(schema, named, m);
      if !MemberIsMissing(a.fields[m], doc, o) { OutOfOrder(a, doc, schema, named, o, m); }
      match Value(a.fields[m], doc, o) {
        case Unmakeable =>
          assert Breaks(a, doc, schema, named, members, o, k);
        case Nothing =>
          if !Fatal(schema, named, m) {
            OneMissing(a, doc, schema, named, members, o, k, made);
            MembersFrom(a, doc, schema, named, members, o, k + 1, made);
          } else {
            assert Lacks(a, doc, schema, named, members, o, k);
          }
        case Made(v) =>
          if m in schema.properties && Conforms(schema.properties[m], v, o) {
            OneMade(a, doc, schema, named, members, o, k, made, v);
            MembersFrom(a, doc, schema, named, members, o, k + 1, made[m := v]);
          } else {
            assert Breaks(a, doc, schema, named, members, o, k);
          }
      }
    }
  }

  lemma OutOfOrder(a: Attribute, doc: Json, schema: Schema, named: bool, o: Oracle, m: string)
    requires m in a.fields && !MemberIsMissing(a.fields[m], doc, o)
    ensures (forall v :: !Fits(a, doc, schema, o, m, v)) ==> !InOrder(a, doc, schema, named, o, m)
  {}

  lemma Fatally(schema: Schema, named: bool, m: string)
    ensures Fatal(schema, named, m) <==> named || m in schema.required
  {}

  // ---- When there is a value ----

  /** The answer says it is of the attribute's type, if that has one. */
  ghost predicate OfItsType(a: Attribute, doc: Json) { a.on == "" || LeadsTo(doc, ["__typename"], JStr(a.on)) }

  ghost predicate OfAnotherType(a: Attribute, doc: Json) {
    a.on != "" && exists t :: LeadsTo(doc, ["__typename"], t) && t != JStr(a.on)
  }

  ghost predicate IsHeld(a: Attribute, doc: Json, schema: Schema, members: seq<string>, o: Oracle, value: map<string, Json>) {
    && !doc.JNull? && OfItsType(a, doc)
    && (forall m :: m in members ==> m in a.fields && a.fields[m].constant.NoConstant?)
    && ValueOf(a, doc, schema, members != [], MembersOf(a, members), o, value)
  }

  /** No answer; or the members named are the attribute's and one is a constant,
      or the answer is of another type, or the first member not in order is
      missing and may not be. */
  ghost predicate IsNotHeld(a: Attribute, doc: Json, schema: Schema, members: seq<string>, o: Oracle) {
    || doc.JNull?
    || (&& (forall m :: m in members ==> m in a.fields)
        && (|| (exists m :: m in members && !a.fields[m].constant.NoConstant?)
            || OfAnotherType(a, doc)
            || (OfItsType(a, doc) && LacksSome(a, doc, schema, members != [], MembersOf(a, members), o))))
  }

  lemma {:induction false} TypeFollowed(a: Attribute, doc: Json)
    ensures OfItsType(a, doc) <==> a.on == "" || Follow(doc, Names(TYPENAME)) == Found(JStr(a.on))
    ensures OfAnotherType(a, doc) <==>
      a.on != "" && Follow(doc, Names(TYPENAME)).Found? && Follow(doc, Names(TYPENAME)).value != JStr(a.on)
  {
    hide Follow, LeadsTo;
    assert TYPENAME[1..] == "__typename";
    CutWithout("__typename", '/');
    FollowExact(doc, Names(TYPENAME));
  }

  /** In order and missing what it may not miss do not go together. */
  lemma {:induction false} NotBoth(a: Attribute, doc: Json, schema: Schema, named: bool, o: Oracle, m: string)
    requires m in a.fields && MemberIsMissing(a.fields[m], doc, o)
    ensures forall v :: !Fits(a, doc, schema, o, m, v)
    ensures InOrder(a, doc, schema, named, o, m) <==> !Fatal(schema, named, m)
  {
    hide Value, MemberIs, MemberIsMissing, Conforms;
    MemberExact(a.fields[m], doc, o);
  }

  lemma {:induction false} ValueInOrder(a: Attribute, doc: Json, schema: Schema, named: bool, members: seq<string>, o: Oracle,
                                        value: map<string, Json>)
    requires ValueOf(a, doc, schema, named, members, o, value)
    ensures forall k :: 0 <= k < |members| ==>
      InOrder(a, doc, schema, named, o, members[k]) && !Lacks(a, doc, schema, named, members, o, k)
  {
    hide MemberIs, MemberIsMissing, Conforms, Fits, Fatal;
    forall k | 0 <= k < |members|
      ensures InOrder(a, doc, schema, named, o, members[k]) && !Lacks(a, doc, schema, named, members, o, k)
    {
      assert members[k] in members;
      if MemberIsMissing(a.fields[members[k]], doc, o) { NotBoth(a, doc, schema, named, o, members[k]); }
    }
  }

  lemma {:induction false} OneValue(a: Attribute, doc: Json, schema: Schema, named: bool, members: seq<string>, o: Oracle,
                                    x: map<string, Json>, y: map<string, Json>)
    requires ValueOf(a, doc, schema, named, members, o, x) && ValueOf(a, doc, schema, named, members, o, y)
    ensures x == y
  {
    hide Value, MemberIs, MemberIsMissing, Conforms, Fatal;
    forall m ensures (m in x <==> m in y) && (m in x ==> x[m] == y[m]) {
      if m in members { OneMember(a, doc, schema, o, m); }
    }
  }

  lemma {:induction false} MembersExact(a: Attribute, doc: Json, schema: Schema, named: bool, members: seq<string>, o: Oracle)
    requires forall m :: m in members ==> m in a.fields
    ensures var r := Members(a, doc, schema, named, members, map[], o);
      && (forall value :: r == Held(value) <==> ValueOf(a, doc, schema, named, members, o, value))
      && (r == NotHeld <==> LacksSome(a, doc, schema, named, members, o))
  {
    hide Members, InOrder, Fatal;
    var r := Members(a, doc, schema, named, members, map[], o);
    assert members[..0] == [] && members[0..] == members;
    assert ValueOf(a, doc, schema, named, members[..0], o, map[]);
    MembersFrom(a, doc, schema, named, members, o, 0, map[]);
    hide ValueOf, MemberIsMissing;
    forall value | ValueOf(a, doc, schema, named, members, o, value) ensures r == Held(value) {
      ValueInOrder(a, doc, schema, named, members, o, value);
      if r.Held? { OneValue(a, doc, schema, named, members, o, value, r.value); }
    }
    if k :| 0 <= k < |members| && Lacks(a, doc, schema, named, members, o, k) {
      NotBoth(a, doc, schema, named, o, members[k]);
      if r.Held? { ValueInOrder(a, doc, schema, named, members, o, r.value); }
      if r == Failed {
        var i :| 0 <= i < |members| && Breaks(a, doc, schema, named, members, o, i);
        assert false;
      }
    }
  }

  /** An attribute is held exactly with the value of its requested members, and
      is not held exactly when there is no answer, it is of another type, a
      constant is named, or a member is missing that may not be; any other
      answer has not the shape the mapping expects. */
  lemma {:induction false} BuildExact(a: Attribute, doc: Json, schema: Schema, members: seq<string>, o: Oracle)
    ensures forall value :: Build(a, doc, schema, members, o) == Held(value) <==> IsHeld(a, doc, schema, members, o, value)
    ensures Build(a, doc, schema, members, o) == NotHeld <==> IsNotHeld(a, doc, schema, members, o)
  {
    hide Members, Follow, Names, ValueOf, OfItsType, OfAnotherType, LacksSome, NamesConstant, MembersOf, Requested;
    TypeFollowed(a, doc);
    TypesApart(a, doc);
    var r := Build(a, doc, schema, members, o);
    if !doc.JNull? {
      MembersAsked(a, members);
      NamesConstantIs(a, members);
      var all := MembersOf(a, members);
      if forall m :: m in members ==> m in a.fields {
        assert forall m :: m in all ==> m in a.fields;
        MembersExact(a, doc, schema, members != [], all, o);
        if NamesConstant(a, members) {
          assert r == NotHeld;
        } else if OfItsType(a, doc) {
          assert r == Members(a, doc, schema, members != [], all, map[], o);
        } else {
          assert r == if OfAnotherType(a, doc) then NotHeld else Failed;
        }
      } else {
        assert r == Failed;
      }
    }
  }

  lemma TypesApart(a: Attribute, doc: Json)
    ensures !(OfItsType(a, doc) && OfAnotherType(a, doc))
  {}

  lemma {:induction false} MembersAsked(a: Attribute, members: seq<string>)
    ensures Requested(a, members) == if forall m :: m in members ==> m in a.fields then Some(MembersOf(a, members)) else None
    ensures (forall m :: m in members ==> m in a.fields) ==> forall m :: m in MembersOf(a, members) ==> m in a.fields
  {
    Order.SortedKeysOf(a.fields.Keys);
  }

  lemma NamesConstantIs(a: Attribute, members: seq<string>)
    ensures NamesConstant(a, members) <==> exists m :: m in members && m in a.fields && !a.fields[m].constant.NoConstant?
  {}

  // ---- What conforms ----

  /** The schema of what stands at a path. */
  function SchemaAt(s: Schema, path: Path): Option<Schema>
    decreases |path|
  {
    if path == [] then Some(s)
    else match path[0]
      case Index(_) => if s.typ == "array" && s.items.Some? then SchemaAt(s.items.value, path[1..]) else None
      case Key(name) => if s.typ == "object" && name in s.properties then SchemaAt(s.properties[name], path[1..]) else None
  }

  predicate HasShape(s: Schema, v: Json, o: Oracle) {
    || (s.typ == "object" && v.JObj?)
    || (s.typ == "array" && v.JList? && (v.items != [] ==> s.items.Some?))
    || (s.typ == "string" && v.JStr? && (s.format == "date" ==> o.isDate(v.s)))
    || (s.typ == "boolean" && v.JBool? && s.format != "date")
    || (s.typ == "number" && v.JNum? && s.format != "date")
    || (s.typ == "integer" && v.JNum? && o.isWhole(v.text) && s.format != "date")
  }

  ghost predicate ShapedAt(s: Schema, v: Json, o: Oracle, path: Path) {
    SchemaAt(s, path).Some? && At(v, path).Some? ==> HasShape(SchemaAt(s, path).value, At(v, path).value, o)
  }

  lemma {:induction false} Shaped(s: Schema, v: Json, o: Oracle, path: Path)
    requires Conforms(s, v, o)
    ensures ShapedAt(s, v, o, path)
    decreases |path|
  {
    if path != [] && SchemaAt(s, path).Some? && At(v, path).Some? {
      match path[0]
      case Index(i) => Shaped(s.items.value, v.items[i], o, path[1..]);
      case Key(name) => Shaped(s.properties[name], v.members[name], o, path[1..]);
    } else if path == [] && s.typ == "array" && v.items != [] {
      var first := v.items[0];
      assert s.items.Some?;
    }
  }

  /** A value conforms exactly when all that the schema speaks of has its
      shape. */
  lemma {:induction false} ConformsExact(s: Schema, v: Json, o: Oracle)
    ensures Conforms(s, v, o) <==> forall path :: ShapedAt(s, v, o, path)
    decreases v
  {
    if Conforms(s, v, o) {
      forall path ensures ShapedAt(s, v, o, path) { Shaped(s, v, o, path); }
    }
    if forall path :: ShapedAt(s, v, o, path) {
      assert ShapedAt(s, v, o, []);
      assert HasShape(s, v, o);
      if s.typ == "array" {
        forall i | 0 <= i < |v.items| ensures Conforms(s.items.value, v.items[i], o) {
          forall path ensures ShapedAt(s.items.value, v.items[i], o, path) {
            assert ([Index(i)] + path)[1..] == path;
            assert ShapedAt(s, v, o, [Index(i)] + path);
          }
          ConformsExact(s.items.value, v.items[i], o);
        }
        assert v.items != [] ==> s.items.Some?;
        assert Conforms(s, v, o);
      } else if s.typ == "object" {
        forall name | name in v.members && name in s.properties ensures Conforms(s.properties[name], v.members[name], o) {
          forall path ensures ShapedAt(s.properties[name], v.members[name], o, path) {
            assert ([Key(name)] + path)[1..] == path;
            assert ShapedAt(s, v, o, [Key(name)] + path);
          }
          ConformsExact(s.properties[name], v.members[name], o);
        }
        assert Conforms(s, v, o);
      } else {
        assert Conforms(s, v, o);
      }
    }
  }
}
