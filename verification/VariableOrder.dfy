/** In which order an argument reports its variables (ftv-graphql-mapper/
    coerce.go): that of the document exactly where input objects are written
    in the order of their type's fields. */
module VariableOrder {
  import opened Base
  import opened Coercion
  import opened CoercionLaws
  import opened Arguments
  import opened Coercers

  // ---- Lists made of blocks ----

  ghost predicate Precedes(a: seq<string>, x: string, y: string) {
    exists i, j :: 0 <= i < j < |a| && a[i] == x && a[j] == y
  }

  /** Two lists of the same elements, each once, are equal when one orders them
      as the other does. */
  lemma {:induction false} SameOrder(a: seq<string>, b: seq<string>)
    requires NoRepeats(a) && NoRepeats(b) && forall x :: x in a <==> x in b
    ensures a == b <==> forall x, y :: Precedes(a, x, y) ==> Precedes(b, x, y)
  {
    if a == [] {
      assert b == [] || b[0] in b;
    } else if forall x, y :: Precedes(a, x, y) ==> Precedes(b, x, y) {
      HeadFirst(a, b);
      var c, d := a[1..], b[1..];
      OnceTail(a);
      OnceTail(b);
      forall x, y | Precedes(c, x, y) ensures Precedes(d, x, y) {
        PrecedesApart([a[0]], c, x, y);
        PrecedesApart([b[0]], d, x, y);
        assert x in c && y in c;
        assert Precedes([a[0]] + c, x, y) && a == [a[0]] + c && b == [b[0]] + d;
      }
      SameOrder(c, d);
    }
  }

  lemma {:induction false} HeadFirst(a: seq<string>, b: seq<string>)
    requires a != [] && NoRepeats(a) && NoRepeats(b) && forall x :: x in a <==> x in b
    requires forall x, y :: Precedes(a, x, y) ==> Precedes(b, x, y)
    ensures b != [] && b[0] == a[0]
  {
    assert a[0] in b;
    assert b[0] in a;
    HeadPrecedes(a, b[0]);
  }

  lemma HeadPrecedes(a: seq<string>, y: string)
    requires y in a
    ensures y == a[0] || Precedes(a, a[0], y)
  {}

  lemma {:induction false} OnceTail(a: seq<string>)
    requires a != [] && NoRepeats(a)
    ensures a == [a[0]] + a[1..] && NoRepeats(a[1..])
    ensures forall x :: x in a[1..] <==> x in a && x != a[0]
  {
    forall x | x in a && x != a[0] ensures x in a[1..] {
      var i :| 0 <= i < |a| && a[i] == x;
      assert a[1..][i - 1] == x;
    }
  }

  function Concat(blocks: seq<seq<string>>): seq<string> {
    if blocks == [] then [] else blocks[0] + Concat(blocks[1..])
  }

  lemma {:induction false} InConcat(blocks: seq<seq<string>>, x: string)
    ensures x in Concat(blocks) <==> exists p :: 0 <= p < |blocks| && x in blocks[p]
  {
    if blocks != [] {
      InConcat(blocks[1..], x);
      assert forall p :: 0 <= p < |blocks[1..]| ==> blocks[1..][p] == blocks[p + 1];
      if p :| 0 <= p < |blocks| && x in blocks[p] {
        if p > 0 { assert x in blocks[1..][p - 1]; }
      }
    }
  }

  /** x stands before y in one block, or in an earlier block than y. */
  ghost predicate BlocksPrecede(blocks: seq<seq<string>>, x: string, y: string) {
    || (exists p :: 0 <= p < |blocks| && Precedes(blocks[p], x, y))
    || (exists p, q :: 0 <= p < q < |blocks| && x in blocks[p] && y in blocks[q])
  }

  lemma {:induction false} PrecedesApart(a: seq<string>, b: seq<string>, x: string, y: string)
    ensures Precedes(a + b, x, y) <==> Precedes(a, x, y) || Precedes(b, x, y) || (x in a && y in b)
  {
    var c := a + b;
    if i, j :| 0 <= i < j < |c| && c[i] == x && c[j] == y {
      if j < |a| { assert Precedes(a, x, y); }
      else if |a| <= i { assert b[i - |a|] == x && b[j - |a|] == y; }
    }
    if i, j :| 0 <= i < j < |a| && a[i] == x && a[j] == y { assert c[i] == x && c[j] == y; }
    if i, j :| 0 <= i < j < |b| && b[i] == x && b[j] == y { assert c[|a| + i] == x && c[|a| + j] == y; }
    if x in a && y in b {
      var i :| 0 <= i < |a| && a[i] == x;
      var j :| 0 <= j < |b| && b[j] == y;
      assert c[i] == x && c[|a| + j] == y;
    }
  }

  lemma {:induction false} BlocksApart(blocks: seq<seq<string>>, x: string, y: string)
    requires blocks != []
    ensures BlocksPrecede(blocks, x, y) <==>
      || Precedes(blocks[0], x, y) || BlocksPrecede(blocks[1..], x, y)
      || (x in blocks[0] && exists q :: 0 <= q < |blocks[1..]| && y in blocks[1..][q])
  {
    hide Precedes;
    var rest := blocks[1..];
    assert forall p :: 0 <= p < |rest| ==> rest[p] == blocks[p + 1];
    if p :| 0 <= p < |blocks| && Precedes(blocks[p], x, y) {
      if p > 0 { assert Precedes(rest[p - 1], x, y); }
    }
    if p, q :| 0 <= p < q < |blocks| && x in blocks[p] && y in blocks[q] {
      assert y in rest[q - 1];
      if p > 0 { assert x in rest[p - 1]; }
    }
    if p :| 0 <= p < |rest| && Precedes(rest[p], x, y) { assert Precedes(blocks[p + 1], x, y); }
    if p, q :| 0 <= p < q < |rest| && x in rest[p] && y in rest[q] {
      assert x in blocks[p + 1] && y in blocks[q + 1];
    }
    if q :| 0 <= q < |rest| && y in rest[q] { assert y in blocks[q + 1]; }
  }

  lemma {:induction false} ConcatPrecedes(blocks: seq<seq<string>>, x: string, y: string)
    ensures Precedes(Concat(blocks), x, y) <==> BlocksPrecede(blocks, x, y)
  {
    hide BlocksPrecede;
    if blocks == [] {
      assert !BlocksPrecede([], x, y) by { NoBlocks(x, y); }
    } else {
      hide Precedes;
      PrecedesApart(blocks[0], Concat(blocks[1..]), x, y);
      InConcat(blocks[1..], y);
      BlocksApart(blocks, x, y);
      ConcatPrecedes(blocks[1..], x, y);
    }
  }

  lemma NoBlocks(x: string, y: string)
    ensures !BlocksPrecede([], x, y)
  {}

  ghost predicate BlocksOnce(blocks: seq<seq<string>>) {
    && (forall p :: 0 <= p < |blocks| ==> NoRepeats(blocks[p]))
    && (forall p, q, x :: 0 <= p < q < |blocks| && x in blocks[p] ==> x !in blocks[q])
  }

  lemma {:induction false} ConcatOnce(blocks: seq<seq<string>>)
    ensures NoRepeats(Concat(blocks)) <==> BlocksOnce(blocks)
  {
    if blocks != [] {
      var first, rest := blocks[0], blocks[1..];
      var all := Concat(rest);
      assert forall p :: 0 <= p < |rest| ==> rest[p] == blocks[p + 1];
      ConcatOnce(rest);
      OnceApart(first, all);
      forall x ensures x in all <==> exists p :: 0 <= p < |rest| && x in rest[p] { InConcat(rest, x); }
      if NoRepeats(first + all) {
        forall p, q, x | 0 <= p < q < |blocks| && x in blocks[p] ensures x !in blocks[q] {
          if p > 0 { assert x in rest[p - 1] && blocks[q] == rest[q - 1]; } else { assert blocks[q] == rest[q - 1]; }
        }
        forall p | 0 <= p < |blocks| ensures NoRepeats(blocks[p]) {
          if p > 0 { assert blocks[p] == rest[p - 1]; }
        }
      }
    }
  }

  lemma {:induction false} OnceApart(a: seq<string>, b: seq<string>)
    ensures NoRepeats(a + b) <==> NoRepeats(a) && NoRepeats(b) && forall x :: x in a ==> x !in b
  {
    var c := a + b;
    if NoRepeats(c) {
      forall x | x in a ensures x !in b {
        var i :| 0 <= i < |a| && a[i] == x;
        forall j | 0 <= j < |b| ensures b[j] != x { assert c[i] == x && c[|a| + j] == b[j]; }
      }
      forall i, j | 0 <= i < j < |a| ensures a[i] != a[j] { assert c[i] != c[j]; }
      forall i, j | 0 <= i < j < |b| ensures b[i] != b[j] { assert c[|a| + i] != c[|a| + j]; }
    }
    if NoRepeats(a) && NoRepeats(b) && forall x :: x in a ==> x !in b { OnceJoined(a, b); }
  }

  lemma {:induction false} OnceJoined(a: seq<string>, b: seq<string>)
    requires NoRepeats(a) && NoRepeats(b) && forall x :: x in a ==> x !in b
    ensures NoRepeats(a + b)
  {
    var c := a + b;
    forall i, j | 0 <= i < j < |c| ensures c[i] != c[j] {
      if i < |a| <= j {
        assert c[i] in a && c[j] == b[j - |a|] && c[j] in b;
      } else if |a| <= i {
        assert c[i] == b[i - |a|] && c[j] == b[j - |a|];
      }
    }
  }

  /** The blocks of a, in other places and each in an order of its own, are
      those of b; the other blocks of b are empty. */
  ghost predicate Moved(a: seq<seq<string>>, b: seq<seq<string>>, to: seq<nat>) {
    && |to| == |a|
    && (forall i :: 0 <= i < |a| ==> to[i] < |b| && forall x :: x in a[i] <==> x in b[to[i]])
    && (forall i, k :: 0 <= i < k < |a| ==> to[i] != to[k])
    && (forall q :: 0 <= q < |b| && b[q] != [] ==> q in to)
  }

  ghost predicate Rising(a: seq<seq<string>>, to: seq<nat>)
    requires |to| == |a|
  {
    forall i, k :: 0 <= i < k < |a| && a[i] != [] && a[k] != [] ==> to[i] < to[k]
  }

  ghost predicate Kept(a: seq<seq<string>>, b: seq<seq<string>>, to: seq<nat>)
    requires Moved(a, b, to)
  {
    forall i :: 0 <= i < |a| ==> a[i] == b[to[i]]
  }

  lemma {:induction false} MovedOnce(a: seq<seq<string>>, b: seq<seq<string>>, to: seq<nat>)
    requires Moved(a, b, to) && NoRepeats(Concat(a)) && forall q :: 0 <= q < |b| ==> NoRepeats(b[q])
    ensures NoRepeats(Concat(b)) && forall x :: x in Concat(a) <==> x in Concat(b)
  {
    hide Concat, NoRepeats;
    ConcatOnce(a);
    ConcatOnce(b);
    forall p, q, x | 0 <= p < q < |b| && x in b[p] ensures x !in b[q] {
      assert p in to && (b[q] == [] || q in to);
    }
    forall x ensures x in Concat(a) <==> x in Concat(b) {
      InConcat(a, x);
      InConcat(b, x);
      if q :| 0 <= q < |b| && x in b[q] {
        var i :| 0 <= i < |to| && to[i] == q;
        assert x in a[i];
      }
      if i :| 0 <= i < |a| && x in a[i] { assert x in b[to[i]]; }
    }
  }

  lemma {:induction false} MovedKept(a: seq<seq<string>>, b: seq<seq<string>>, to: seq<nat>)
    requires Moved(a, b, to) && BlocksOnce(b)
    requires Kept(a, b, to) && Rising(a, to)
    ensures forall x, y :: BlocksPrecede(a, x, y) ==> BlocksPrecede(b, x, y)
  {
    hide Precedes, NoRepeats;
    forall x, y | BlocksPrecede(a, x, y) ensures BlocksPrecede(b, x, y) {
      if i :| 0 <= i < |a| && Precedes(a[i], x, y) {
        assert Precedes(b[to[i]], x, y);
      } else {
        var i, k :| 0 <= i < k < |a| && x in a[i] && y in a[k];
        assert x in b[to[i]] && y in b[to[k]];
      }
    }
  }

  lemma {:induction false} MovedBack(a: seq<seq<string>>, b: seq<seq<string>>, to: seq<nat>)
    requires Moved(a, b, to) && BlocksOnce(a) && BlocksOnce(b)
    requires forall x, y :: BlocksPrecede(a, x, y) ==> BlocksPrecede(b, x, y)
    ensures Kept(a, b, to) && Rising(a, to)
  {
    forall i | 0 <= i < |a| ensures a[i] == b[to[i]] {
      forall x, y | Precedes(a[i], x, y) ensures Precedes(b[to[i]], x, y) {
        assert BlocksPrecede(a, x, y);
        OneBlock(b, to[i], x, y);
      }
      SameOrder(a[i], b[to[i]]);
    }
    forall i, k | 0 <= i < k < |a| && a[i] != [] && a[k] != [] ensures to[i] < to[k] {
      var x, y := a[i][0], a[k][0];
      assert x in a[i] && y in a[k];
      assert BlocksPrecede(a, x, y);
      TwoBlocks(b, to[i], to[k], x, y);
    }
  }

  lemma {:induction false} OneBlock(b: seq<seq<string>>, p: nat, x: string, y: string)
    requires p < |b| && BlocksOnce(b) && x in b[p] && y in b[p] && BlocksPrecede(b, x, y)
    ensures Precedes(b[p], x, y)
  {
    if q :| 0 <= q < |b| && Precedes(b[q], x, y) {
      assert x in b[q];
      assert p == q;
    }
  }

  lemma {:induction false} TwoBlocks(b: seq<seq<string>>, p: nat, q: nat, x: string, y: string)
    requires p < |b| && q < |b| && p != q && BlocksOnce(b) && x in b[p] && y in b[q] && BlocksPrecede(b, x, y)
    ensures p < q
  {
    if k :| 0 <= k < |b| && Precedes(b[k], x, y) {
      assert false;
    }
  }

  /** Moved blocks make the same list exactly when each is unchanged and those
      with elements keep their order. */
  lemma {:induction false} MovedAlike(a: seq<seq<string>>, b: seq<seq<string>>, to: seq<nat>)
    requires Moved(a, b, to) && NoRepeats(Concat(a)) && forall q :: 0 <= q < |b| ==> NoRepeats(b[q])
    ensures NoRepeats(Concat(b)) && forall x :: x in Concat(a) <==> x in Concat(b)
    ensures Concat(a) == Concat(b) <==> Kept(a, b, to) && Rising(a, to)
  {
    hide Concat, NoRepeats, Moved, Precedes, BlocksPrecede, BlocksOnce, Kept, Rising;
    MovedOnce(a, b, to);
    ConcatOnce(a);
    ConcatOnce(b);
    SameOrder(Concat(a), Concat(b));
    forall x, y ensures Precedes(Concat(a), x, y) <==> BlocksPrecede(a, x, y) { ConcatPrecedes(a, x, y); }
    forall x, y ensures Precedes(Concat(b), x, y) <==> BlocksPrecede(b, x, y) { ConcatPrecedes(b, x, y); }
    SizesOf(a, b, to);
    if Kept(a, b, to) && Rising(a, to) { MovedKept(a, b, to); }
    if Concat(a) == Concat(b) { MovedBack(a, b, to); }
  }

  lemma SizesOf(a: seq<seq<string>>, b: seq<seq<string>>, to: seq<nat>)
    requires Moved(a, b, to)
    ensures |to| == |a|
  {}

  // ---- Variables of a literal, in the order of the document ----

  function Occurrences(v: Value): seq<string>
    decreases v, 1, 0
  {
    match v
    case Var(name) => [name]
    case ListV(items) => Concat(ItemVariables(v, 0))
    case ObjV(members) => Concat(MemberVariables(v, 0))
    case _ => []
  }

  function ItemVariables(v: Value, i: nat): (r: seq<seq<string>>)
    requires v.ListV? && i <= |v.items|
    ensures |r| == |v.items| - i && forall k :: 0 <= k < |r| ==> r[k] == Occurrences(v.items[i + k])
    decreases v, 0, |v.items| - i
  {
    if i == |v.items| then [] else [Occurrences(v.items[i])] + ItemVariables(v, i + 1)
  }

  function MemberVariables(v: Value, i: nat): (r: seq<seq<string>>)
    requires v.ObjV? && i <= |v.members|
    ensures |r| == |v.members| - i && forall k :: 0 <= k < |r| ==> r[k] == Occurrences(v.members[i + k].value)
    decreases v, 0, |v.members| - i
  {
    if i == |v.members| then [] else [Occurrences(v.members[i].value)] + MemberVariables(v, i + 1)
  }

  /** Wherever an input object is written, the members that hold variables
      stand in the order of the type's fields. */
  ghost predicate InFieldOrder(s: Schema, t: Type, v: Value)
    decreases v, Height(t)
  {
    if t.ListOf? then
      if v.ListV? then forall i :: 0 <= i < |v.items| ==> InFieldOrder(s, t.elem, v.items[i])
      else InFieldOrder(s, t.elem, v)
    else t.name in s.types && s.types[t.name].InputObject? && v.ObjV? ==>
      var fields := s.types[t.name].fields;
      && MembersInOrder(fields, v)
      && (forall i, j :: 0 <= i < |v.members| && 0 <= j < |fields| && v.members[i].name == fields[j].name
            ==> InFieldOrder(s, fields[j].typ, v.members[i].value))
  }

  ghost predicate MembersInOrder(fields: seq<InputField>, v: Value)
    requires v.ObjV?
  {
    forall i, k, p, q ::
      && 0 <= i < k < |v.members| && 0 <= p < |fields| && 0 <= q < |fields|
      && v.members[i].name == fields[p].name && v.members[k].name == fields[q].name
      && Occurrences(v.members[i].value) != [] && Occurrences(v.members[k].value) != []
      ==> p < q
  }

  // ---- The variables the coercer notes ----

  /** The variables noted are those of the literal, each once; and in the
      literal's order exactly when fields are. */
  ghost predicate Ordered(used: seq<string>, v: Value, inOrder: bool) {
    && NoRepeats(used)
    && (forall x :: x in used <==> x in Occurrences(v))
    && (used == Occurrences(v) <==> inOrder)
  }

  lemma {:induction false} UsedInOrder(s: Schema, vars: Vars, t: Type, v: Value, n: nat)
    requires WellFormed(s) && Unique(v) && KnownFields(s, t, v) && NoRepeats(Occurrences(v))
    requires Literal(s, vars, t, v, n).Got?
    ensures Ordered(Literal(s, vars, t, v, n).used, v, InFieldOrder(s, t, v))
    decreases v, Height(t) + 1, 0
  {
    hide LiteralItems, LiteralFields, ScalarLiteral, WellFormed, NoRepeats, Ordered, MembersInOrder;
    if v.Var? || v.Null? {
      PlainOrdered(v);
      PlainInOrder(s, t, v);
    } else if t.ListOf? {
      if v.ListV? { ItemsInOrder(s, vars, t.elem, v, n); } else { UsedInOrder(s, vars, t.elem, v, n); }
    } else {
      match s.types[t.name] {
        case Scalar => ScalarInOrder(s, vars, t.name, v);
        case InputObject(fields, _) => FieldsInOrder(s, vars, t.name, v, n);
        case _ => PlainOrdered(v);
      }
    }
  }

  lemma {:induction false} PlainInOrder(s: Schema, t: Type, v: Value)
    requires !v.ListV? && !v.ObjV?
    ensures InFieldOrder(s, t, v)
    decreases t
  {
    if t.ListOf? { PlainInOrder(s, t.elem, v); }
  }

  lemma {:induction false} PlainOrdered(v: Value)
    requires NoRepeats(Occurrences(v))
    ensures Ordered(Occurrences(v), v, true)
  {}

  // ---- Lists ----

  function UsedBy(r: Result): seq<string> { if r.Got? then r.used else [] }

  function ItemsUsedBy(s: Schema, vars: Vars, elem: Type, v: Value, i: nat, n: nat): seq<seq<string>>
    requires v.ListV? && i <= |v.items|
  {
    seq(|v.items| - i, k requires 0 <= k < |v.items| - i => UsedBy(Literal(s, vars, elem, v.items[i + k], n)))
  }

  lemma {:induction false} ItemsNote(s: Schema, vars: Vars, elem: Type, v: Value, i: nat, n: nat)
    requires v.ListV? && i <= |v.items| && LiteralItems(s, vars, elem, v, i, n).Items?
    ensures LiteralItems(s, vars, elem, v, i, n).used == Concat(ItemsUsedBy(s, vars, elem, v, i, n))
    ensures forall k :: i <= k < |v.items| ==> Literal(s, vars, elem, v.items[k], n).Got?
    decreases |v.items| - i
  {
    hide Literal;
    if i < |v.items| {
      ItemsNote(s, vars, elem, v, i + 1, n);
      var blocks := ItemsUsedBy(s, vars, elem, v, i, n);
      assert blocks[0] == UsedBy(Literal(s, vars, elem, v.items[i], n));
      assert blocks[1..] == ItemsUsedBy(s, vars, elem, v, i + 1, n);
      assert Concat(blocks) == blocks[0] + Concat(blocks[1..]);
    } else {
      assert ItemsUsedBy(s, vars, elem, v, i, n) == [];
    }
  }

  lemma {:induction false} ItemsInOrder(s: Schema, vars: Vars, elem: Type, v: Value, n: nat)
    requires WellFormed(s) && v.ListV? && Unique(v) && NoRepeats(Occurrences(v))
    requires forall k :: 0 <= k < |v.items| ==> KnownFields(s, elem, v.items[k])
    requires LiteralItems(s, vars, elem, v, 0, n).Items?
    ensures Ordered(LiteralItems(s, vars, elem, v, 0, n).used, v, forall i :: 0 <= i < |v.items| ==> InFieldOrder(s, elem, v.items[i]))
    decreases v, 0, 0
  {
    hide Literal, LiteralItems, KnownFields, WellFormed, InFieldOrder, Concat, NoRepeats, Ordered, Moved, Kept, Rising, UsedBy;
    var a, b := ItemVariables(v, 0), ItemsUsedBy(s, vars, elem, v, 0, n);
    ItemsNote(s, vars, elem, v, 0, n);
    ItemBlocksOnce(v);
    forall i | 0 <= i < |v.items| ensures Ordered(b[i], v.items[i], InFieldOrder(s, elem, v.items[i])) {
      UsedInOrder(s, vars, elem, v.items[i], n);
      assert b[i] == UsedBy(Literal(s, vars, elem, v.items[i], n));
      UsedByGot(Literal(s, vars, elem, v.items[i], n));
    }
    var inOrder := forall i :: 0 <= i < |v.items| ==> InFieldOrder(s, elem, v.items[i]);
    var to := seq(|a|, i requires 0 <= i < |a| => i);
    ItemsStay(s, elem, v, b, to);
    MovedAlike(a, b, to);
    MadeOrdered(v, Concat(b), inOrder) by { OccursInItems(v); }
  }

  lemma {:induction false} UsedByGot(r: Result)
    requires r.Got?
    ensures UsedBy(r) == r.used
  {}

  lemma {:induction false} OccursInItems(v: Value)
    requires v.ListV?
    ensures Occurrences(v) == Concat(ItemVariables(v, 0))
  {
    hide Concat;
  }

  lemma {:induction false} ItemBlocksOnce(v: Value)
    requires v.ListV? && NoRepeats(Occurrences(v))
    ensures NoRepeats(Concat(ItemVariables(v, 0))) && forall i :: 0 <= i < |v.items| ==> NoRepeats(Occurrences(v.items[i]))
  {
    hide Concat, NoRepeats;
    var a := ItemVariables(v, 0);
    ConcatOnce(a);
    assert forall i :: 0 <= i < |v.items| ==> a[i] == Occurrences(v.items[i]);
  }

  lemma {:induction false} ItemsStay(s: Schema, elem: Type, v: Value, b: seq<seq<string>>, to: seq<nat>)
    requires v.ListV? && |b| == |to| == |v.items| && forall i :: 0 <= i < |to| ==> to[i] == i
    requires forall i :: 0 <= i < |b| ==> Ordered(b[i], v.items[i], InFieldOrder(s, elem, v.items[i]))
    ensures Moved(ItemVariables(v, 0), b, to) && Rising(ItemVariables(v, 0), to) && forall i :: 0 <= i < |b| ==> NoRepeats(b[i])
    ensures Kept(ItemVariables(v, 0), b, to) <==> forall i :: 0 <= i < |v.items| ==> InFieldOrder(s, elem, v.items[i])
  {
    hide Occurrences, InFieldOrder, NoRepeats, Ordered;
    var a := ItemVariables(v, 0);
    forall i | 0 <= i < |b|
      ensures NoRepeats(b[i]) && (forall x :: x in a[i] <==> x in b[i]) && (a[i] == b[i] <==> InFieldOrder(s, elem, v.items[i]))
    {
      OrderedBlock(b[i], v.items[i], InFieldOrder(s, elem, v.items[i]));
    }
    assert Moved(a, b, to) by {
      forall q | 0 <= q < |b| && b[q] != [] ensures q in to { assert to[q] == q; }
    }
  }

  lemma {:induction false} OrderedBlock(used: seq<string>, v: Value, inOrder: bool)
    requires Ordered(used, v, inOrder)
    ensures NoRepeats(used) && (forall x :: x in used <==> x in Occurrences(v)) && (used == Occurrences(v) <==> inOrder)
  {}

  // ---- Scalars ----

  lemma {:induction false} ScalarInOrder(s: Schema, vars: Vars, name: string, v: Value)
    requires !v.Var? && ScalarLiteral(s, vars, name, v).Got? && NoRepeats(Occurrences(v))
    ensures Ordered(ScalarLiteral(s, vars, name, v).used, v, true)
  {
    hide Untyped, NoRepeats, ParseInt32;
    UntypedNotes(vars, v);
    PlainOrdered(v);
  }

  lemma {:induction false} UntypedNotes(vars: Vars, v: Value)
    ensures Untyped(vars, v).used == Occurrences(v)
    decreases v, 1, 0
  {
    hide UntypedItems, UntypedFields, Concat;
    if v.ListV? { UntypedItemsNote(vars, v, 0); }
    if v.ObjV? { UntypedFieldsNote(vars, v, 0); }
  }

  lemma {:induction false} UntypedItemsNote(vars: Vars, v: Value, i: nat)
    requires v.ListV? && i <= |v.items|
    ensures UntypedItems(vars, v, i).used == Concat(ItemVariables(v, i))
    decreases v, 0, |v.items| - i
  {
    hide Untyped, Occurrences;
    if i < |v.items| {
      UntypedNotes(vars, v.items[i]);
      UntypedItemsNote(vars, v, i + 1);
    }
  }

  lemma {:induction false} UntypedFieldsNote(vars: Vars, v: Value, i: nat)
    requires v.ObjV? && i <= |v.members|
    ensures UntypedFields(vars, v, i).used == Concat(MemberVariables(v, i))
    decreases v, 0, |v.members| - i
  {
    hide Untyped, Occurrences;
    if i < |v.members| {
      UntypedNotes(vars, v.members[i].value);
      UntypedFieldsNote(vars, v, i + 1);
    }
  }

  // ---- Input objects ----

  function FieldUsedBy(s: Schema, vars: Vars, fd: InputField, v: Value, n: nat): seq<string>
    requires v.ObjV?
  {
    var written := Written(v.members, fd.name);
    if written.None? then [] else UsedBy(Literal(s, vars, fd.typ, written.value, n))
  }

  function FieldsUsedBy(s: Schema, vars: Vars, fields: seq<InputField>, v: Value, n: nat): seq<seq<string>>
    requires v.ObjV?
  {
    seq(|fields|, p requires 0 <= p < |fields| => FieldUsedBy(s, vars, fields[p], v, n))
  }

  lemma {:induction false} FieldsNote(s: Schema, vars: Vars, fields: seq<InputField>, v: Value, n: nat)
    requires v.ObjV? && LiteralFields(s, vars, fields, v, n).Fields?
    ensures LiteralFields(s, vars, fields, v, n).used == Concat(FieldsUsedBy(s, vars, fields, v, n))
    ensures forall p :: 0 <= p < |fields| && Written(v.members, fields[p].name).Some? ==>
      Literal(s, vars, fields[p].typ, Written(v.members, fields[p].name).value, n).Got?
    decreases |fields|
  {
    hide Literal, Written;
    if fields != [] {
      var rest := fields[1..];
      FieldsNote(s, vars, rest, v, n);
      assert FieldsUsedBy(s, vars, fields, v, n)[1..] == FieldsUsedBy(s, vars, rest, v, n);
      assert forall p :: 0 <= p < |rest| ==> rest[p] == fields[p + 1];
    }
  }

  /** Where the fields of the members stand. */
  ghost function Places(fields: seq<InputField>, members: seq<Member>): (to: seq<nat>)
    requires forall i :: 0 <= i < |members| ==> HasField(fields, members[i].name)
    ensures |to| == |members|
    ensures forall i :: 0 <= i < |to| ==> to[i] < |fields| && fields[to[i]].name == members[i].name
  {
    if members == [] then []
    else
      assert HasField(fields, members[0].name);
      var p :| 0 <= p < |fields| && fields[p].name == members[0].name;
      assert forall i :: 0 <= i < |members[1..]| ==> members[1..][i] == members[i + 1];
      [p] + Places(fields, members[1..])
  }

  lemma {:induction false} WrittenAt(members: seq<Member>, i: nat)
    requires i < |members| && forall j, k :: 0 <= j < k < |members| ==> members[j].name != members[k].name
    ensures Written(members, members[i].name) == Some(members[i].value)
  {
    WrittenIn(members, members[i].name);
  }

  ghost predicate At(fields: seq<InputField>, members: seq<Member>, to: seq<nat>) {
    |to| == |members| && forall i :: 0 <= i < |to| ==> to[i] < |fields| && fields[to[i]].name == members[i].name
  }

  lemma {:induction false} MembersMove(s: Schema, vars: Vars, fields: seq<InputField>, v: Value, n: nat, to: seq<nat>)
    requires v.ObjV? && Unique(v) && Distinct(fields) && At(fields, v.members, to)
    requires forall i :: 0 <= i < |to| ==> Ordered(FieldUsedBy(s, vars, fields[to[i]], v, n), v.members[i].value,
                                                   InFieldOrder(s, fields[to[i]].typ, v.members[i].value))
    ensures var a, b := MemberVariables(v, 0), FieldsUsedBy(s, vars, fields, v, n);
      Moved(a, b, to) && forall q :: 0 <= q < |b| ==> NoRepeats(b[q])
  {
    hide Literal, Occurrences, InFieldOrder, Written, NoRepeats;
    var b := FieldsUsedBy(s, vars, fields, v, n);
    forall q | 0 <= q < |b| && b[q] != [] ensures q in to && NoRepeats(b[q]) {
      WrittenIn(v.members, fields[q].name);
      var i :| 0 <= i < |v.members| && v.members[i].name == fields[q].name;
      assert to[i] == q;
    }
    NothingOnce();
  }

  lemma NothingOnce()
    ensures NoRepeats<string>([])
  {}

  lemma {:induction false} RisingIffInOrder(fields: seq<InputField>, v: Value, to: seq<nat>)
    requires v.ObjV? && Distinct(fields) && At(fields, v.members, to)
    ensures Rising(MemberVariables(v, 0), to) <==> MembersInOrder(fields, v)
  {
    hide Occurrences;
    var a := MemberVariables(v, 0);
    if Rising(a, to) {
      forall i, k, p, q |
        && 0 <= i < k < |v.members| && 0 <= p < |fields| && 0 <= q < |fields|
        && v.members[i].name == fields[p].name && v.members[k].name == fields[q].name
        && Occurrences(v.members[i].value) != [] && Occurrences(v.members[k].value) != []
        ensures p < q
      {
        assert to[i] == p && to[k] == q;
      }
    }
    if MembersInOrder(fields, v) {
      forall i, k | 0 <= i < k < |a| && a[i] != [] && a[k] != [] ensures to[i] < to[k] {
        assert v.members[i].name == fields[to[i]].name && v.members[k].name == fields[to[k]].name;
      }
    }
  }

  lemma {:induction false} KeptIffInOrder(s: Schema, vars: Vars, fields: seq<InputField>, v: Value, n: nat, to: seq<nat>)
    requires v.ObjV? && Distinct(fields) && At(fields, v.members, to)
    requires Moved(MemberVariables(v, 0), FieldsUsedBy(s, vars, fields, v, n), to)
    requires forall i :: 0 <= i < |to| ==> Ordered(FieldUsedBy(s, vars, fields[to[i]], v, n), v.members[i].value,
                                                   InFieldOrder(s, fields[to[i]].typ, v.members[i].value))
    ensures Kept(MemberVariables(v, 0), FieldsUsedBy(s, vars, fields, v, n), to)
      <==> forall i, j :: (0 <= i < |v.members| && 0 <= j < |fields| && v.members[i].name == fields[j].name
                           ==> InFieldOrder(s, fields[j].typ, v.members[i].value))
  {
    hide Literal, Occurrences, InFieldOrder, Written, NoRepeats, FieldUsedBy;
    var a, b := MemberVariables(v, 0), FieldsUsedBy(s, vars, fields, v, n);
    forall i | 0 <= i < |to| ensures a[i] == b[to[i]] <==> InFieldOrder(s, fields[to[i]].typ, v.members[i].value) {
      assert Ordered(b[to[i]], v.members[i].value, InFieldOrder(s, fields[to[i]].typ, v.members[i].value));
    }
    forall i, j | 0 <= i < |v.members| && 0 <= j < |fields| && v.members[i].name == fields[j].name ensures j == to[i] {}
    if !Kept(a, b, to) {
      var i :| 0 <= i < |a| && a[i] != b[to[i]];
      assert v.members[i].name == fields[to[i]].name;
    }
  }

  lemma {:induction false} FieldsInOrder(s: Schema, vars: Vars, name: string, v: Value, n: nat)
    requires WellFormed(s) && name in s.types && s.types[name].InputObject?
    requires v.ObjV? && Unique(v) && KnownFields(s, Named(name, false), v) && NoRepeats(Occurrences(v))
    requires LiteralFields(s, vars, s.types[name].fields, v, n).Fields?
    ensures Ordered(LiteralFields(s, vars, s.types[name].fields, v, n).used, v, InFieldOrder(s, Named(name, false), v))
    decreases v, 0, 0
  {
    var fields := s.types[name].fields;
    assert Distinct(fields) by { assert FieldsWellFormed(fields, s.types[name].oneOf); }
    hide Literal, LiteralFields, Concat, NoRepeats, Written, Ordered, MembersInOrder, Moved, Kept, Rising, FieldUsedBy;
    var a, b := MemberVariables(v, 0), FieldsUsedBy(s, vars, fields, v, n);
    var to := Places(fields, v.members);
    FieldsNote(s, vars, fields, v, n);
    BlocksAreOnce(v);
    forall i | 0 <= i < |v.members|
      ensures Ordered(FieldUsedBy(s, vars, fields[to[i]], v, n), v.members[i].value, InFieldOrder(s, fields[to[i]].typ, v.members[i].value))
    {
      WrittenAt(v.members, i);
      FieldUsed(s, vars, fields[to[i]], v, n);
      UsedInOrder(s, vars, fields[to[i]].typ, v.members[i].value, n);
    }
    FieldsJoined(s, vars, name, v, n, to);
  }

  lemma {:induction false} FieldsJoined(s: Schema, vars: Vars, name: string, v: Value, n: nat, to: seq<nat>)
    requires name in s.types && s.types[name].InputObject? && Distinct(s.types[name].fields)
    requires v.ObjV? && Unique(v) && At(s.types[name].fields, v.members, to) && NoRepeats(Concat(MemberVariables(v, 0)))
    requires var fields := s.types[name].fields; forall i :: 0 <= i < |to| ==>
      Ordered(FieldUsedBy(s, vars, fields[to[i]], v, n), v.members[i].value, InFieldOrder(s, fields[to[i]].typ, v.members[i].value))
    ensures Ordered(Concat(FieldsUsedBy(s, vars, s.types[name].fields, v, n)), v, InFieldOrder(s, Named(name, false), v))
  {
    hide Concat, NoRepeats, Ordered, MembersInOrder, Moved, Kept, Rising, FieldUsedBy, FieldsUsedBy, Unique, At, Occurrences;
    var fields := s.types[name].fields;
    var a, b := MemberVariables(v, 0), FieldsUsedBy(s, vars, fields, v, n);
    MembersMove(s, vars, fields, v, n, to);
    MovedAlike(a, b, to);
    RisingIffInOrder(fields, v, to);
    KeptIffInOrder(s, vars, fields, v, n, to);
    OccursInMembers(v);
    MadeOrdered(v, Concat(b), InFieldOrder(s, Named(name, false), v));
  }

  lemma {:induction false} OccursInMembers(v: Value)
    requires v.ObjV?
    ensures Occurrences(v) == Concat(MemberVariables(v, 0))
  {
    hide Concat;
  }

  lemma {:induction false} BlocksAreOnce(v: Value)
    requires v.ObjV? && NoRepeats(Occurrences(v))
    ensures NoRepeats(Concat(MemberVariables(v, 0))) && forall i :: 0 <= i < |v.members| ==> NoRepeats(Occurrences(v.members[i].value))
  {
    hide Concat, NoRepeats;
    var a := MemberVariables(v, 0);
    ConcatOnce(a);
    assert forall i :: 0 <= i < |v.members| ==> a[i] == Occurrences(v.members[i].value);
  }

  lemma {:induction false} FieldUsed(s: Schema, vars: Vars, fd: InputField, v: Value, n: nat)
    requires v.ObjV?
    ensures var w := Written(v.members, fd.name);
      w.Some? && Literal(s, vars, fd.typ, w.value, n).Got? ==>
        FieldUsedBy(s, vars, fd, v, n) == Literal(s, vars, fd.typ, w.value, n).used
  {}

  lemma {:induction false} MadeOrdered(v: Value, used: seq<string>, inOrder: bool)
    requires NoRepeats(used) && (forall x :: x in used <==> x in Occurrences(v)) && (used == Occurrences(v) <==> inOrder)
    ensures Ordered(used, v, inOrder)
  {}

  // ---- What an argument reports ----

  lemma {:induction false} NotedAsIs(used: seq<string>, names: seq<string>)
    requires NoRepeats(used + names)
    ensures NoteAll(used, names) == used + names
    decreases |names|
  {
    if names != [] {
      assert names[0] == (used + names)[|used|];
      assert forall k :: 0 <= k < |used| ==> used[k] == (used + names)[k];
      assert (used + [names[0]]) + names[1..] == used + names;
      NotedAsIs(used + [names[0]], names[1..]);
    } else {
      assert used + names == used;
    }
  }

  /** An argument in which each variable is written once reports them in the
      order of the document exactly when, in every input object, the members
      that hold variables stand in the order of the type's fields. */
  lemma {:induction false} DocumentOrderIff(s: Schema, vars: Vars, def: ArgumentDef, written: Value)
    requires WellFormed(s) && Unique(written) && KnownFields(s, def.typ, written) && NoRepeats(Occurrences(written))
    requires Literal(s, vars, def.typ, written, s.bound).Got? && Literal(s, vars, def.typ, written, s.bound).value.Some?
    ensures var r := Argument(s, vars, def, Some(written));
      r.Resolved? && (r.arg.variables == Occurrences(written) <==> InFieldOrder(s, def.typ, written))
  {
    hide Literal, InFieldOrder, Occurrences, NoteAll, Unique, KnownFields, WellFormed;
    var used := Literal(s, vars, def.typ, written, s.bound).used;
    UsedInOrder(s, vars, def.typ, written, s.bound);
    assert [] + used == used;
    NotedAsIs([], used);
  }
}
