/** The source's query document (asi-mapping/capability.go and plan.go): fields
    nested one in the other down to the spread ...Selected, which the derived
    selection replaces. */
module PathDocument {
  import opened Base

  datatype Node =
    | Field(name: string, directives: nat, set_: seq<Node>)
    | Spread(name: string, directives: nat)
    | Inline(on: string, set_: seq<Node>)

  const SELECTED := "Selected"

  /** A path of fields, each alone in its set, down to ...Selected. */
  ghost predicate Path(nodes: seq<Node>)
    decreases nodes
  {
    |nodes| == 1 && match nodes[0]
      case Field(_, _, inner) => Path(inner)
      case Spread(name, _) => name == SELECTED
      case Inline(_, _) => false
  }

  ghost predicate Undirected(nodes: seq<Node>)
    decreases nodes
  {
    |nodes| == 1 ==> match nodes[0]
      case Field(_, directives, inner) => directives == 0 && Undirected(inner)
      case Spread(_, directives) => directives == 0
      case Inline(_, _) => true
  }

  /** The document with fill in the place of the spread its path ends in. */
  ghost function Filled(nodes: seq<Node>, fill: seq<Node>): seq<Node>
    requires Path(nodes)
    decreases nodes
  {
    if nodes[0].Field? then [Field(nodes[0].name, nodes[0].directives, Filled(nodes[0].set_, fill))] else fill
  }

  /** validatePath: the document is such a path, without a directive on it. */
  method ValidatePath(document: seq<Node>) returns (ok: bool)
    ensures ok <==> Path(document) && Undirected(document)
  {
    var nodes := document;
    while true
      invariant Path(document) && Undirected(document) <==> Path(nodes) && Undirected(nodes)
      decreases nodes
    {
      if |nodes| != 1 { return false; }
      match nodes[0]
      case Field(_, directives, inner) =>
        if directives > 0 || |inner| == 0 { return false; }
        nodes := inner;
      case Spread(name, directives) =>
        return name == SELECTED && directives == 0;
      case Inline(_, _) =>
        return false;
    }
    return false;
  }

  function Wrap(outer: seq<Node>, inner: seq<Node>): seq<Node>
    requires forall i :: 0 <= i < |outer| ==> outer[i].Field?
    decreases |outer|
  {
    if outer == [] then inner
    else
      var last := outer[|outer| - 1];
      Wrap(outer[..|outer| - 1], [Field(last.name, last.directives, inner)])
  }

  /** replaceSelected on a parsed document. The source moves a pointer to the
      set it will overwrite; here the fields passed on the way are kept. */
  method ReplaceSelected(document: seq<Node>, fill: seq<Node>) returns (r: Option<seq<Node>>)
    ensures r == if Path(document) then Some(Filled(document, fill)) else None
  {
    var nodes := document;
    var outer: seq<Node> := [];
    while true
      invariant forall i :: 0 <= i < |outer| ==> outer[i].Field?
      invariant Path(document) <==> Path(nodes)
      invariant Path(nodes) ==> Filled(document, fill) == Wrap(outer, Filled(nodes, fill))
      decreases nodes
    {
      if |nodes| != 1 { return None; }
      match nodes[0]
      case Field(_, _, inner) =>
        assert (outer + [nodes[0]])[..|outer|] == outer;
        outer := outer + [nodes[0]];
        nodes := inner;
      case Spread(name, _) =>
        return if name == SELECTED then Some(Wrap(outer, fill)) else None;
      case Inline(_, _) =>
        return None;
    }
    return None;
  }

  /** A document that passes validation always takes a selection, and only the
      directives set the two apart. */
  method ValidThenReplaced(document: seq<Node>, fill: seq<Node>) returns (valid: bool, r: Option<seq<Node>>)
    ensures valid ==> Path(document) && r == Some(Filled(document, fill))
    ensures valid <==> r.Some? && Undirected(document)
  {
    valid := ValidatePath(document);
    r := ReplaceSelected(document, fill);
  }

  /** The fields on the path, from the root down. */
  ghost function FieldsOn(nodes: seq<Node>): seq<string>
    requires Path(nodes)
    decreases nodes
  {
    if nodes[0].Field? then [nodes[0].name] + FieldsOn(nodes[0].set_) else []
  }

  /** What stands at the end of a path of field names, each alone in its set. */
  ghost function Below(nodes: seq<Node>, names: seq<string>): Option<seq<Node>>
    decreases |names|
  {
    if names == [] then Some(nodes)
    else if |nodes| == 1 && nodes[0].Field? && nodes[0].name == names[0] then Below(nodes[0].set_, names[1..])
    else None
  }

  /** The filled document asks for the selection below the same fields, and
      for nothing beside it. */
  lemma {:induction false} FilledBelow(nodes: seq<Node>, fill: seq<Node>)
    requires Path(nodes)
    ensures Below(Filled(nodes, fill), FieldsOn(nodes)) == Some(fill)
    decreases nodes
  {
    if nodes[0].Field? {
      FilledBelow(nodes[0].set_, fill);
      assert FieldsOn(nodes)[1..] == FieldsOn(nodes[0].set_);
    }
  }

  /** Down the named fields stands the spread of the selection, alone. */
  ghost predicate EndsIn(nodes: seq<Node>, names: seq<string>, directives: nat) {
    Below(nodes, names) == Some([Spread("Selected", directives)])
  }

  /** Such a path is a chain of fields, however long, with the spread of the
      selection alone at its end. */
  lemma {:induction false} PathExact(nodes: seq<Node>)
    ensures Path(nodes) <==> exists names, directives :: EndsIn(nodes, names, directives)
    decreases nodes
  {
    if Path(nodes) {
      if nodes[0].Field? {
        PathExact(nodes[0].set_);
        var names, directives :| EndsIn(nodes[0].set_, names, directives);
        assert ([nodes[0].name] + names)[1..] == names;
        assert EndsIn(nodes, [nodes[0].name] + names, directives);
      } else {
        assert nodes == [nodes[0]];
        assert EndsIn(nodes, [], nodes[0].directives);
      }
    }
    if names, directives :| EndsIn(nodes, names, directives) {
      if names == [] {
        assert nodes == [Spread("Selected", directives)];
        assert Path(nodes);
      } else {
        assert EndsIn(nodes[0].set_, names[1..], directives);
        PathExact(nodes[0].set_);
      }
    }
  }
}
