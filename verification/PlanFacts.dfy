/** What a plan asks (asi-mapping/plan.go), said of the mapping and the requests
    alone. */
module PlanFacts {
  import opened Base
  import opened SelectionSets
  import opened AsiMapping
  import Adequacy
  import Order

  /** The attribute of that identifier, the first if there are several. */
  ghost predicate IsAttribute(attributes: seq<Attribute>, identifier: string, a: Attribute) {
    exists j :: 0 <= j < |attributes| && attributes[j] == a && a.identifier == identifier
                && forall i :: 0 <= i < j ==> attributes[i].identifier != identifier
  }

  /** Every member, or the members named. */
  predicate IsRequested(a: Attribute, members: seq<string>, m: string) { if members == [] then m in a.fields else m in members }

  ghost predicate CanBeMet(attributes: seq<Attribute>, request: Request) {
    exists a :: IsAttribute(attributes, request.identifier, a) && forall m :: m in request.members ==> m in a.fields
  }

  /** The member is read from what stands at the pointer: below each element of
      its list, at one of the pointers it joins, or at its own. */
  predicate IsReadAt(f: Field, pointer: string) {
    || (f.each != "" && pointer == f.each + f.pointer)
    || (f.each == "" && f.join != [] && pointer in f.join)
    || (f.each == "" && f.join == [] && f.pointer != "" && pointer == f.pointer)
  }

  /** The request is for something read at the pointer, on that type. */
  ghost predicate Reads(attributes: seq<Attribute>, request: Request, on: string, pointer: string) {
    exists a, m :: IsAttribute(attributes, request.identifier, a) && a.on == on && m in a.fields
                   && IsRequested(a, request.members, m) && IsReadAt(a.fields[m], pointer)
  }

  ghost predicate AnyReads(attributes: seq<Attribute>, requests: seq<Request>, on: string, pointer: string) {
    exists i :: 0 <= i < |requests| && Reads(attributes, requests[i], on, pointer)
  }

  lemma {:induction false} OfferedIs(attributes: seq<Attribute>, identifier: string)
    ensures forall a :: Offered(attributes, identifier) == Some(a) <==> IsAttribute(attributes, identifier, a)
  {
    if attributes != [] {
      var rest := attributes[1..];
      OfferedIs(rest, identifier);
      forall a ensures Offered(attributes, identifier) == Some(a) <==> IsAttribute(attributes, identifier, a) {
        if attributes[0].identifier != identifier {
          if IsAttribute(rest, identifier, a) {
            var j :| 0 <= j < |rest| && rest[j] == a && a.identifier == identifier && forall i :: 0 <= i < j ==> rest[i].identifier != identifier;
            assert attributes[j + 1] == a;
            assert forall i :: 0 < i < j + 1 ==> attributes[i] == rest[i - 1];
          }
          if IsAttribute(attributes, identifier, a) {
            var j :| 0 <= j < |attributes| && attributes[j] == a && a.identifier == identifier
              && forall i :: 0 <= i < j ==> attributes[i].identifier != identifier;
            assert rest[j - 1] == a;
            assert forall i :: 0 <= i < j - 1 ==> rest[i] == attributes[i + 1];
          }
        } else {
          assert IsAttribute(attributes, identifier, attributes[0]);
          if IsAttribute(attributes, identifier, a) {
            var j :| 0 <= j < |attributes| && attributes[j] == a && a.identifier == identifier
              && forall i :: 0 <= i < j ==> attributes[i].identifier != identifier;
            assert j == 0;
          }
        }
      }
    }
  }

  lemma {:induction false} PointersRead(a: Attribute, members: seq<string>, pointer: string)
    requires forall m :: m in members ==> m in a.fields
    ensures pointer in PointersOf(a, members) <==> exists m :: m in members && IsReadAt(a.fields[m], pointer)
  {
    if members != [] {
      PointersRead(a, members[1..], pointer);
      assert members == [members[0]] + members[1..];
      assert pointer in Pointers(a.fields[members[0]]) <==> IsReadAt(a.fields[members[0]], pointer);
    }
  }

  lemma {:induction false} ResolveReads(attributes: seq<Attribute>, request: Request)
    ensures Resolve(attributes, request).Some? <==> CanBeMet(attributes, request)
    ensures Resolve(attributes, request).Some? ==>
      forall on, pointer :: Reads(attributes, request, on, pointer) <==>
        Resolve(attributes, request).value.on == on && pointer in Resolve(attributes, request).value.pointers
  {
    hide PointersOf, IsReadAt, Offered, IsAttribute;
    OfferedIs(attributes, request.identifier);
    var offered := Offered(attributes, request.identifier);
    if offered.Some? {
      var a := offered.value;
      RequestedAreFields(a, request.members);
      var asked := Requested(a, request.members);
      if asked.Some? {
        RequestedOnes(a, request.members);
        forall on, pointer
          ensures Reads(attributes, request, on, pointer) <==> a.on == on && pointer in PointersOf(a, asked.value)
        {
          PointersRead(a, asked.value, pointer);
        }
      }
    }
  }

  lemma RequestedOnes(a: Attribute, members: seq<string>)
    requires Requested(a, members).Some?
    ensures forall m :: m in Requested(a, members).value <==> m in a.fields && IsRequested(a, members, m)
  {
    Order.SortedKeysOf(a.fields.Keys);
  }

  lemma {:induction false} ResolveAllReads(attributes: seq<Attribute>, requests: seq<Request>)
    ensures ResolveAll(attributes, requests).Some? <==> forall i :: 0 <= i < |requests| ==> CanBeMet(attributes, requests[i])
    ensures ResolveAll(attributes, requests).Some? ==>
      forall on, pointer :: AnyReads(attributes, requests, on, pointer) <==> IsWished(ResolveAll(attributes, requests).value, on, pointer)
  {
    hide Resolve, Reads, CanBeMet;
    forall i | 0 <= i < |requests| ensures Resolve(attributes, requests[i]).Some? <==> CanBeMet(attributes, requests[i]) {
      ResolveReads(attributes, requests[i]);
    }
    ResolveAllSome(attributes, requests);
    if ResolveAll(attributes, requests).Some? {
      var wishes := ResolveAll(attributes, requests).value;
      Adequacy.ResolvedLength(attributes, requests);
      forall i | 0 <= i < |requests|
        ensures forall on, pointer :: Reads(attributes, requests[i], on, pointer) <==> wishes[i].on == on && pointer in wishes[i].pointers
      {
        Adequacy.ResolvedAt(attributes, requests, i);
        ResolveReads(attributes, requests[i]);
      }
      forall on, pointer ensures AnyReads(attributes, requests, on, pointer) <==> IsWished(wishes, on, pointer) {
        if i :| 0 <= i < |requests| && Reads(attributes, requests[i], on, pointer) {
          assert wishes[i].on == on && pointer in wishes[i].pointers;
        }
        if i :| 0 <= i < |wishes| && wishes[i].on == on && pointer in wishes[i].pointers {
          assert Reads(attributes, requests[i], on, pointer);
        }
      }
    }
  }

  ghost predicate IsWished(wishes: seq<Wish>, on: string, pointer: string) {
    exists i :: 0 <= i < |wishes| && wishes[i].on == on && pointer in wishes[i].pointers
  }

  lemma {:induction false} ResolveAllSome(attributes: seq<Attribute>, requests: seq<Request>)
    ensures ResolveAll(attributes, requests).Some? <==> forall i :: 0 <= i < |requests| ==> Resolve(attributes, requests[i]).Some?
  {
    hide Resolve;
    if requests != [] {
      ResolveAllSome(attributes, requests[1..]);
      assert forall i :: 0 <= i < |requests[1..]| ==> requests[1..][i] == requests[i + 1];
      if forall i :: 0 <= i < |requests[1..]| ==> Resolve(attributes, requests[1..][i]).Some? {
        forall i | 0 < i < |requests| ensures Resolve(attributes, requests[i]).Some? {
          assert requests[i] == requests[1..][i - 1];
        }
      }
    }
  }

  lemma {:induction false} EmptyIffUnwished(wishes: seq<Wish>)
    ensures Empty(GrantAll(NONE, wishes)) <==> forall on, pointer :: !IsWished(wishes, on, pointer)
  {
    hide GrantAll, Names, Empty, Adequacy.WishesOnType;
    var root := GrantAll(NONE, wishes);
    Adequacy.FragmentIffWished(wishes);
    RootEmpty(root);
    if root.fields != map[] {
      var n :| n in root.fields;
      OneStep(root.fields, n, []);
      Adequacy.PartPaths(NONE, wishes, "", [n]);
      Adequacy.NothingYet("", [n]);
      var i :| 0 <= i < |wishes| && wishes[i].on == "" && Adequacy.Within([n], wishes[i].pointers);
      assert IsWished(wishes, "", wishes[i].pointers[0]);
    }
    if Adequacy.WishesOnType(wishes) { OnTypeIsWished(wishes); }
    if on, pointer :| IsWished(wishes, on, pointer) {
      var i :| 0 <= i < |wishes| && wishes[i].on == on && pointer in wishes[i].pointers;
      if on != "" {
        WishedOnType(wishes, i);
      } else {
        var j :| 0 <= j < |wishes[i].pointers| && wishes[i].pointers[j] == pointer;
        Adequacy.SomeName(pointer);
        assert Adequacy.Within(Names(pointer), wishes[i].pointers);
        Adequacy.PartPaths(NONE, wishes, "", Names(pointer));
        assert Adequacy.Part(root, "") == root;
        Adequacy.NoneHasNoPath(Names(pointer));
      }
    }
  }

  lemma {:induction false} RootEmpty(s: Selection)
    ensures Empty(s) <==> s.fields == map[] && !AsksFragment(s)
  {}

  lemma OnTypeIsWished(wishes: seq<Wish>)
    requires Adequacy.WishesOnType(wishes)
    ensures exists on, pointer :: on != "" && IsWished(wishes, on, pointer)
  {
    var i :| 0 <= i < |wishes| && wishes[i].on != "" && wishes[i].pointers != [];
    assert IsWished(wishes, wishes[i].on, wishes[i].pointers[0]);
  }

  lemma WishedOnType(wishes: seq<Wish>, i: nat)
    requires i < |wishes| && wishes[i].on != "" && wishes[i].pointers != []
    ensures Adequacy.WishesOnType(wishes)
  {}

  /** A plan is refused exactly when it has a request that cannot be met, and
      asks nothing exactly when nothing is read. Otherwise its part for a type
      (the root for "") holds the paths to what is read there, and the root the
      answer's type when something is read on a type; nothing else. */
  lemma {:induction false} PlanExact(attributes: seq<Attribute>, requests: seq<Request>)
    ensures var plan := PlanOf(attributes, requests);
      && (plan.Refused? <==> exists i :: 0 <= i < |requests| && !CanBeMet(attributes, requests[i]))
      && (!plan.Refused? ==> (plan.NothingToAsk? <==> forall on, pointer :: !AnyReads(attributes, requests, on, pointer)))
      && (plan.Ask? ==> forall on, path :: path != [] ==>
            (HasPath(Adequacy.Part(plan.selection, on).fields, path)
             <==> || (exists pointer :: AnyReads(attributes, requests, on, pointer) && path <= Names(pointer))
                  || (on == "" && path == ["__typename"] && exists t, pointer :: t != "" && AnyReads(attributes, requests, t, pointer))))
  {
    hide ResolveAll, GrantAll, Typed, Empty, CanBeMet, AnyReads, Names, HasPath, Adequacy.Part, AsksFragment;
    ResolveAllReads(attributes, requests);
    if ResolveAll(attributes, requests).Some? {
      var wishes := ResolveAll(attributes, requests).value;
      EmptyIffUnwished(wishes);
      forall on, path | path != []
        ensures HasPath(Adequacy.Part(Typed(GrantAll(NONE, wishes)), on).fields, path)
          <==> || (exists pointer :: AnyReads(attributes, requests, on, pointer) && path <= Names(pointer))
               || (on == "" && path == ["__typename"] && exists t, pointer :: t != "" && AnyReads(attributes, requests, t, pointer))
      {
        Adequacy.PlanPaths(wishes, on, path);
        WishedPath(wishes, on, path);
        TypeWished(wishes);
        assert path <= Adequacy.TYPENAME_PATH <==> path == ["__typename"];
      }
    }
  }

  lemma {:induction false} WishedPath(wishes: seq<Wish>, on: string, path: seq<string>)
    ensures Adequacy.Wished(wishes, on, path) <==> exists pointer :: IsWished(wishes, on, pointer) && path <= Names(pointer)
  {
    hide Names;
    if Adequacy.Wished(wishes, on, path) {
      var i :| 0 <= i < |wishes| && wishes[i].on == on && Adequacy.Within(path, wishes[i].pointers);
      var j :| 0 <= j < |wishes[i].pointers| && path <= Names(wishes[i].pointers[j]);
      assert IsWished(wishes, on, wishes[i].pointers[j]);
    }
    if pointer :| IsWished(wishes, on, pointer) && path <= Names(pointer) {
      var i :| 0 <= i < |wishes| && wishes[i].on == on && pointer in wishes[i].pointers;
      var j :| 0 <= j < |wishes[i].pointers| && wishes[i].pointers[j] == pointer;
      assert Adequacy.Within(path, wishes[i].pointers);
    }
  }

  lemma {:induction false} TypeWished(wishes: seq<Wish>)
    ensures AsksFragment(GrantAll(NONE, wishes)) <==> exists t, pointer :: t != "" && IsWished(wishes, t, pointer)
  {
    hide GrantAll, AsksFragment;
    Adequacy.FragmentIffWished(wishes);
    if Adequacy.WishesOnType(wishes) { OnTypeIsWished(wishes); }
    if t, pointer :| t != "" && IsWished(wishes, t, pointer) {
      var i :| 0 <= i < |wishes| && wishes[i].on == t && pointer in wishes[i].pointers;
      WishedOnType(wishes, i);
    }
  }
}
