/** The query planner and the value builder of asi-mapping (plan.go, build.go):
    from requested attributes to the selection a source is asked, and from the
    source's answer to the attribute's value. */
module AsiMapping {
  import opened Base
  import opened SelectionSets
  import Order

  datatype Constant = NoConstant | Constant(value: Json) | BrokenConstant

  /** How one member of an attribute's value is made. */
  datatype Field = Field(pointer: string, join: seq<string>, separator: string, constant: Constant, each: string)

  datatype Attribute = Attribute(identifier: string, on: string, fields: map<string, Field>)

  datatype Request = Request(identifier: string, members: seq<string>)

  datatype Schema = Schema(typ: string, format: string, items: Option<Schema>,
                           properties: map<string, Schema>, required: seq<string>)

  /** What the standard library decides: dates, whole numbers, and a number's
      text. */
  datatype Oracle = Oracle(isDate: string -> bool, isWhole: string -> bool, numberText: string -> string)

  const TYPENAME := "/__typename"

  // ---- lookup ----

  datatype Found = Missing | Found(value: Json) | Astray

  function Follow(v: Json, names: seq<string>): Found
    decreases |names|
  {
    if v.JNull? then Missing
    else if names == [] then Found(v)
    else if !v.JObj? then Astray
    else if names[0] !in v.members then Missing
    else Follow(v.members[names[0]], names[1..])
  }

  method Lookup(document: Json, pointer: string) returns (r: Found)
    ensures r == Follow(document, Names(pointer))
  {
    hide Names;
    var names := Names(pointer);
    var at, i := document, 0;
    while i < |names|
      invariant i <= |names|
      invariant Follow(document, names) == Follow(at, names[i..])
    {
      if at.JNull? { return Missing; }
      if !at.JObj? { return Astray; }
      if names[i] !in at.members { return Missing; }
      assert names[i..][1..] == names[i + 1..];
      at := at.members[names[i]];
      i := i + 1;
    }
    return if at.JNull? then Missing else Found(at);
  }

  // ---- Field.build ----

  predicate IsEmpty(v: Json) {
    v.JNull? || (v.JStr? && v.s == "") || (v.JList? && v.items == [])
  }

  function AsText(v: Json, o: Oracle): Option<string> {
    match v
    case JStr(s) => Some(s)
    case JNum(text) => Some(o.numberText(text))
    case _ => None
  }

  datatype Made = Unmakeable | Nothing | Made(value: Json)

  /** The values below the elements of a list, None when an element has the
      wrong shape. */
  function EachValue(elements: seq<Json>, names: seq<string>): Option<seq<Json>>
    decreases |elements|
  {
    if elements == [] then Some([])
    else
      var rest := EachValue(elements[1..], names);
      match Follow(elements[0], names)
      case Astray => None
      case Missing => rest
      case Found(v) => if rest.None? || IsEmpty(v) then rest else Some([v] + rest.value)
  }

  function Texts(doc: Json, pointers: seq<string>, o: Oracle): Option<seq<string>>
    decreases |pointers|
  {
    if pointers == [] then Some([])
    else
      var rest := Texts(doc, pointers[1..], o);
      match Follow(doc, Names(pointers[0]))
      case Astray => None
      case Missing => rest
      case Found(v) =>
        if rest.None? || IsEmpty(v) then rest
        else if AsText(v, o).None? then None
        else Some([AsText(v, o).value] + rest.value)
  }

  function Value(f: Field, doc: Json, o: Oracle): Made {
    if f.constant.Constant? then Made(f.constant.value)
    else if f.constant.BrokenConstant? then Unmakeable
    else if f.each != "" then
      match Follow(doc, Names(f.each))
      case Missing => Nothing
      case Astray => Unmakeable
      case Found(list) =>
        if !list.JList? then Unmakeable
        else match EachValue(list.items, Names(f.pointer))
          case None => Unmakeable
          case Some(values) => if values == [] then Nothing else Made(JList(values))
    else if f.join != [] then
      match Texts(doc, f.join, o)
      case None => Unmakeable
      case Some(parts) => if parts == [] then Nothing else Made(JStr(Join(parts, f.separator)))
    else
      match Follow(doc, Names(f.pointer))
      case Astray => Unmakeable
      case Missing => Nothing
      case Found(v) => if IsEmpty(v) then Nothing else Made(v)
  }

  method BuildEach(elements: seq<Json>, pointer: string) returns (r: Option<seq<Json>>)
    ensures r == EachValue(elements, Names(pointer))
  {
    hide Follow, Names;
    var values: seq<Json> := [];
    ghost var names := Names(pointer);
    ghost var whole := EachValue(elements, names);
    if whole.Some? { assert [] + whole.value == whole.value; }
    assert elements[0..] == elements;
    var i := 0;
    while i < |elements|
      invariant i <= |elements|
      invariant EachValue(elements, names) ==
        match EachValue(elements[i..], names) case None => None case Some(rest) => Some(values + rest)
    {
      var found := Lookup(elements[i], pointer);
      assert elements[i..][1..] == elements[i + 1..];
      if found.Astray? { return None; }
      if found.Found? && !IsEmpty(found.value) {
        ghost var rest := EachValue(elements[i + 1..], names);
        if rest.Some? { Regroup(values, [found.value], rest.value); }
        values := values + [found.value];
      }
      i := i + 1;
    }
    assert values + [] == values;
    return Some(values);
  }

  method BuildJoin(doc: Json, pointers: seq<string>, o: Oracle) returns (r: Option<seq<string>>)
    ensures r == Texts(doc, pointers, o)
  {
    hide Follow, Names, AsText, IsEmpty;
    var parts: seq<string> := [];
    ghost var whole := Texts(doc, pointers, o);
    if whole.Some? { assert [] + whole.value == whole.value; }
    assert pointers[0..] == pointers;
    var i := 0;
    while i < |pointers|
      invariant i <= |pointers|
      invariant Texts(doc, pointers, o) ==
        match Texts(doc, pointers[i..], o) case None => None case Some(rest) => Some(parts + rest)
    {
      var found := Lookup(doc, pointers[i]);
      assert pointers[i..][1..] == pointers[i + 1..];
      if found.Astray? { return None; }
      if found.Found? && !IsEmpty(found.value) {
        var text := AsText(found.value, o);
        if text.None? { return None; }
        ghost var rest := Texts(doc, pointers[i + 1..], o);
        if rest.Some? { Regroup(parts, [text.value], rest.value); }
        parts := parts + [text.value];
      }
      i := i + 1;
    }
    assert parts + [] == parts;
    return Some(parts);
  }

  /** Field.build */
  method BuildField(f: Field, doc: Json, o: Oracle) returns (r: Made)
    ensures r == Value(f, doc, o)
  {
    hide Follow, Names, EachValue, Texts;
    match f.constant {
      case Constant(v) => return Made(v);
      case BrokenConstant => return Unmakeable;
      case NoConstant =>
    }
    if f.each != "" {
      var list := Lookup(doc, f.each);
      if list.Missing? { return Nothing; }
      if list.Astray? || !list.value.JList? { return Unmakeable; }
      var values := BuildEach(list.value.items, f.pointer);
      if values.None? { return Unmakeable; }
      return if values.value == [] then Nothing else Made(JList(values.value));
    }
    if f.join != [] {
      var parts := BuildJoin(doc, f.join, o);
      if parts.None? { return Unmakeable; }
      return if parts.value == [] then Nothing else Made(JStr(Join(parts.value, f.separator)));
    }
    var found := Lookup(doc, f.pointer);
    if found.Astray? { return Unmakeable; }
    return if found.Missing? || IsEmpty(found.value) then Nothing else Made(found.value);
  }

  // ---- ValueSchema.check ----

  predicate HasType(v: Json, typ: string, o: Oracle) {
    match v
    case JStr(_) => typ == "string"
    case JBool(_) => typ == "boolean"
    case JNum(text) => typ == "number" || (typ == "integer" && o.isWhole(text))
    case _ => false
  }

  /** A list schema without items, and a date that is no string, are ruled out
      by the catalogue; the source would stop there. */
  predicate Conforms(s: Schema, v: Json, o: Oracle)
    decreases v
  {
    if s.typ == "array" then
      v.JList? && forall i :: 0 <= i < |v.items| ==> s.items.Some? && Conforms(s.items.value, v.items[i], o)
    else if s.typ == "object" then
      v.JObj? && forall k :: k in v.members && k in s.properties ==> Conforms(s.properties[k], v.members[k], o)
    else
      HasType(v, s.typ, o) && (s.format == "date" ==> v.JStr? && o.isDate(v.s))
  }

  // ---- Attribute.Build ----

  datatype Outcome = Failed | NotHeld | Held(value: map<string, Json>)

  ghost function Requested(a: Attribute, members: seq<string>): Option<seq<string>> {
    if members == [] then Some(Order.SortedKeys(a.fields.Keys))
    else if forall m :: m in members ==> m in a.fields then Some(members)
    else None
  }

  function Members(a: Attribute, doc: Json, schema: Schema, named: bool, members: seq<string>,
                   made: map<string, Json>, o: Oracle): Outcome
    requires forall m :: m in members ==> m in a.fields
    decreases |members|
  {
    if members == [] then Held(made)
    else
      var m, rest := members[0], members[1..];
      match Value(a.fields[m], doc, o)
      case Unmakeable => Failed
      case Nothing =>
        if named || m in schema.required then NotHeld else Members(a, doc, schema, named, rest, made, o)
      case Made(v) =>
        if m in schema.properties && Conforms(schema.properties[m], v, o)
        then Members(a, doc, schema, named, rest, made[m := v], o)
        else Failed
  }

  ghost predicate NamesConstant(a: Attribute, members: seq<string>) {
    exists m :: m in members && m in a.fields && !a.fields[m].constant.NoConstant?
  }

  ghost function Build(a: Attribute, doc: Json, schema: Schema, members: seq<string>, o: Oracle): Outcome {
    if doc.JNull? then NotHeld
    else match Requested(a, members)
      case None => Failed
      case Some(all) =>
        RequestedAreFields(a, members);
        if NamesConstant(a, members) then NotHeld
        else if a.on == "" then Members(a, doc, schema, members != [], all, map[], o)
        else match Follow(doc, Names(TYPENAME))
          case Astray => Failed
          case Missing => Failed
          case Found(t) =>
            if t != JStr(a.on) then NotHeld else Members(a, doc, schema, members != [], all, map[], o)
  }

  lemma RequestedAreFields(a: Attribute, members: seq<string>)
    ensures var r := Requested(a, members); r.Some? ==> forall m :: m in r.value ==> m in a.fields
  {
    Order.SortedKeysOf(a.fields.Keys);
  }

  /** Attribute.requested: the members named, or all of them, sorted. */
  method RequestedMembers(a: Attribute, members: seq<string>) returns (r: Option<seq<string>>)
    ensures r == Requested(a, members)
  {
    if members == [] {
      var all: seq<string> := [];
      var left := a.fields.Keys;
      while left != {}
        invariant left <= a.fields.Keys
        invariant multiset(all) + multiset(left) == multiset(a.fields.Keys)
        decreases left
      {
        var m :| m in left;
        assert multiset(left) == multiset(left - {m}) + multiset{m};
        all, left := all + [m], left - {m};
      }
      Order.SortSorted(all);
      Order.SortedKeysSorted(a.fields.Keys);
      Order.SortedUnique(Order.Sort(all), Order.SortedKeys(a.fields.Keys));
      return Some(Order.Sort(all));
    }
    var i := 0;
    while i < |members|
      invariant i <= |members|
      invariant forall j :: 0 <= j < i ==> members[j] in a.fields
    {
      if members[i] !in a.fields { return None; }
      i := i + 1;
    }
    return Some(members);
  }

  method HasConstant(a: Attribute, members: seq<string>) returns (r: bool)
    requires forall m :: m in members ==> m in a.fields
    ensures r <==> NamesConstant(a, members)
  {
    var i := 0;
    while i < |members|
      invariant i <= |members|
      invariant forall j :: 0 <= j < i ==> a.fields[members[j]].constant.NoConstant?
    {
      if !a.fields[members[i]].constant.NoConstant? { return true; }
      i := i + 1;
    }
    return false;
  }

  method BuildMembers(a: Attribute, result: Json, schema: Schema, named: bool, all: seq<string>, o: Oracle)
    returns (r: Outcome)
    requires forall m :: m in all ==> m in a.fields
    ensures r == Members(a, result, schema, named, all, map[], o)
  {
    hide Value, Conforms;
    var value: map<string, Json> := map[];
    var i := 0;
    while i < |all|
      invariant i <= |all|
      invariant Members(a, result, schema, named, all, map[], o) == Members(a, result, schema, named, all[i..], value, o)
    {
      var m := all[i];
      assert all[i..][1..] == all[i + 1..];
      var made := BuildField(a.fields[m], result, o);
      match made {
        case Unmakeable => return Failed;
        case Nothing =>
          if named || m in schema.required { return NotHeld; }
        case Made(v) =>
          if m !in schema.properties || !Conforms(schema.properties[m], v, o) { return Failed; }
          value := value[m := v];
      }
      i := i + 1;
    }
    return Held(value);
  }

  /** Attribute.Build */
  method BuildValue(a: Attribute, result: Json, schema: Schema, members: seq<string>, o: Oracle)
    returns (r: Outcome)
    ensures r == Build(a, result, schema, members, o)
  {
    hide Follow, Members, Names, Requested, NamesConstant;
    if result.JNull? { return NotHeld; }
    var requested := RequestedMembers(a, members);
    RequestedAreFields(a, members);
    if requested.None? { return Failed; }
    NamedAreFields(a, members);
    var constant := HasConstant(a, members);
    if constant { return NotHeld; }
    if a.on != "" {
      var typename := Lookup(result, TYPENAME);
      if !typename.Found? { return Failed; }
      if typename.value != JStr(a.on) { return NotHeld; }
    }
    r := BuildMembers(a, result, schema, members != [], requested.value, o);
  }

  lemma NamedAreFields(a: Attribute, members: seq<string>)
    requires Requested(a, members).Some?
    ensures forall m :: m in members ==> m in a.fields
  {}

  // ---- Capability.Plan ----

  /** The source fields a member is made of. */
  function Pointers(f: Field): seq<string> {
    if f.each != "" then [f.each + f.pointer]
    else if f.join != [] then f.join
    else if f.pointer != "" then [f.pointer]
    else []
  }

  function PointersOf(a: Attribute, members: seq<string>): seq<string>
    requires forall m :: m in members ==> m in a.fields
  {
    if members == [] then [] else Pointers(a.fields[members[0]]) + PointersOf(a, members[1..])
  }

  /** The attribute a request names: the first of that identifier. */
  function Offered(attributes: seq<Attribute>, identifier: string): Option<Attribute> {
    if attributes == [] then None
    else if attributes[0].identifier == identifier then Some(attributes[0])
    else Offered(attributes[1..], identifier)
  }

  /** A request, resolved: on which type it asks for which source fields. */
  datatype Wish = Wish(on: string, pointers: seq<string>)

  ghost function Resolve(attributes: seq<Attribute>, request: Request): Option<Wish> {
    match Offered(attributes, request.identifier)
    case None => None
    case Some(a) =>
      RequestedAreFields(a, request.members);
      match Requested(a, request.members)
      case None => None
      case Some(members) => Some(Wish(a.on, PointersOf(a, members)))
  }

  ghost function ResolveAll(attributes: seq<Attribute>, requests: seq<Request>): Option<seq<Wish>> {
    if requests == [] then Some([])
    else
      var first, rest := Resolve(attributes, requests[0]), ResolveAll(attributes, requests[1..]);
      if first.None? || rest.None? then None else Some([first.value] + rest.value)
  }

  /** A wish added to the selection, at the root or in its type's fragment. */
  function Grant(s: Selection, w: Wish): Selection {
    if w.on == "" then AddAll(s, w.pointers)
    else WithFragment(s, w.on, AddAll(On(s, w.on), w.pointers))
  }

  function GrantAll(s: Selection, wishes: seq<Wish>): Selection
    decreases |wishes|
  {
    if wishes == [] then s else GrantAll(Grant(s, wishes[0]), wishes[1..])
  }

  ghost predicate AsksFragment(s: Selection) {
    exists t :: t in s.fragments && !Empty(s.fragments[t])
  }

  /** The selection with the answer's type, which an attribute on a type needs. */
  ghost function Typed(s: Selection): Selection {
    if AsksFragment(s) then Add(s, TYPENAME) else s
  }

  datatype Planned = Refused | NothingToAsk | Ask(selection: Selection)

  ghost function PlanOf(attributes: seq<Attribute>, requests: seq<Request>): Planned {
    match ResolveAll(attributes, requests)
    case None => Refused
    case Some(wishes) =>
      var root := GrantAll(NONE, wishes);
      if Empty(root) then NothingToAsk else Ask(Typed(root))
  }

  method LookupAttribute(attributes: seq<Attribute>, identifier: string) returns (r: Option<Attribute>)
    ensures r == Offered(attributes, identifier)
  {
    var i := 0;
    while i < |attributes|
      invariant i <= |attributes|
      invariant Offered(attributes, identifier) == Offered(attributes[i..], identifier)
    {
      assert attributes[i..][1..] == attributes[i + 1..];
      if attributes[i].identifier == identifier { return Some(attributes[i]); }
      i := i + 1;
    }
    return None;
  }

  lemma {:induction false} AddAllSplit(s: Selection, a: seq<string>, b: seq<string>)
    ensures AddAll(s, a + b) == AddAll(AddAll(s, a), b)
    decreases |a|
  {
    hide Add;
    if a == [] {
      assert a + b == b;
    } else {
      assert (a + b)[1..] == a[1..] + b;
      AddAllSplit(Add(s, a[0]), a[1..], b);
    }
  }

  /** What Plan does for one attribute: every pointer of every member. */
  method AddMembers(s: Selection, a: Attribute, members: seq<string>) returns (at: Selection)
    requires forall m :: m in members ==> m in a.fields
    ensures at == AddAll(s, PointersOf(a, members))
  {
    hide Add;
    at := s;
    var i := 0;
    while i < |members|
      invariant i <= |members|
      invariant AddAll(s, PointersOf(a, members)) == AddAll(at, PointersOf(a, members[i..]))
    {
      assert members[i..][1..] == members[i + 1..];
      var pointers := Pointers(a.fields[members[i]]);
      ghost var rest := PointersOf(a, members[i + 1..]);
      AddAllSplit(at, pointers, rest);
      ghost var before := at;
      var j := 0;
      while j < |pointers|
        invariant j <= |pointers|
        invariant AddAll(before, pointers) == AddAll(at, pointers[j..])
      {
        assert pointers[j..][1..] == pointers[j + 1..];
        at := Add(at, pointers[j]);
        j := j + 1;
      }
      i := i + 1;
    }
  }

  /** Every request added to one selection; None when one cannot be met. */
  method AddRequests(attributes: seq<Attribute>, requests: seq<Request>) returns (r: Option<Selection>)
    ensures r == match ResolveAll(attributes, requests)
                 case None => None
                 case Some(wishes) => Some(GrantAll(NONE, wishes))
  {
    hide Resolve, Grant;
    var root := NONE;
    var i := 0;
    while i < |requests|
      invariant i <= |requests|
      invariant ResolveAll(attributes, requests).Some? <==> ResolveAll(attributes, requests[i..]).Some?
      invariant ResolveAll(attributes, requests).Some? ==>
        GrantAll(NONE, ResolveAll(attributes, requests).value) == GrantAll(root, ResolveAll(attributes, requests[i..]).value)
    {
      assert requests[i..][1..] == requests[i + 1..];
      var next := AddRequest(root, attributes, requests[i]);
      if next.None? { return None; }
      root := next.value;
      i := i + 1;
    }
    return Some(root);
  }

  method AddRequest(root: Selection, attributes: seq<Attribute>, request: Request) returns (r: Option<Selection>)
    ensures r == match Resolve(attributes, request) case None => None case Some(w) => Some(Grant(root, w))
  {
    hide AddAll, PointersOf, Offered, Requested;
    var attribute := LookupAttribute(attributes, request.identifier);
    if attribute.None? { return None; }
    var a := attribute.value;
    var members := RequestedMembers(a, request.members);
    RequestedAreFields(a, request.members);
    if members.None? { return None; }
    var at := if a.on == "" then root else On(root, a.on);
    at := AddMembers(at, a, members.value);
    return Some(if a.on == "" then at else WithFragment(root, a.on, at));
  }

  /** Capability.Plan, up to the text of the query. */
  method Plan(attributes: seq<Attribute>, requests: seq<Request>) returns (r: Planned)
    ensures r == PlanOf(attributes, requests)
  {
    hide Add, ResolveAll, GrantAll, Empty;
    var added := AddRequests(attributes, requests);
    if added.None? { return Refused; }
    var root := added.value;
    if Empty(root) { return NothingToAsk; }
    var types := root.fragments.Keys;
    while types != {}
      invariant types <= root.fragments.Keys
      invariant forall t :: t in root.fragments && t !in types ==> Empty(root.fragments[t])
      decreases types
    {
      var t :| t in types;
      if !Empty(root.fragments[t]) {
        assert AsksFragment(root);
        return Ask(Add(root, TYPENAME));
      }
      types := types - {t};
    }
    return Ask(root);
  }
}
