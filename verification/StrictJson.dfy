/** Strict decoding of a request body (body.go): duplicate member names,
    nesting and trailing data over JSON tokens, and lone surrogates over the
    body's text. */
module StrictJson {
  import opened Base

  /** What encoding/json's Decoder.Token returns. */
  datatype Token =
    | OpenList | CloseList | OpenObj | CloseObj
    | TNull | TBool(b: bool) | TNum(text: string) | TStr(s: string)

  datatype DecodeError = NotJson | Duplicate | TooDeep | TrailingData

  datatype Result<+T> = Ok(value: T) | Fail(error: DecodeError)

  predicate Scalar(t: Token) { t.TNull? || t.TBool? || t.TNum? || t.TStr? }

  function ScalarValue(t: Token): Json
    requires Scalar(t)
  {
    match t
    case TNull => JNull
    case TBool(b) => JBool(b)
    case TNum(n) => JNum(n)
    case TStr(s) => JStr(s)
  }

  /** A decoded value and the tokens behind it. */
  datatype Read = Read(v: Json, rest: seq<Token>)

  // ---- What decodeValue computes, on the tokens still to come ----

  function Value(ts: seq<Token>, depth: nat, maxDepth: nat): (r: Result<Read>)
    ensures r.Ok? ==> |r.value.rest| < |ts|
    decreases |ts|, 1
  {
    if ts == [] then Fail(NotJson)
    else if Scalar(ts[0]) then Ok(Read(ScalarValue(ts[0]), ts[1..]))
    else if ts[0].CloseList? || ts[0].CloseObj? then Fail(NotJson)
    else if depth + 1 > maxDepth then Fail(TooDeep)
    else if ts[0].OpenList? then Items(ts[1..], [], depth + 1, maxDepth)
    else Members(ts[1..], map[], depth + 1, maxDepth)
  }

  function Items(ts: seq<Token>, list: seq<Json>, depth: nat, maxDepth: nat): (r: Result<Read>)
    ensures r.Ok? ==> |r.value.rest| < |ts|
    decreases |ts|, 2
  {
    if ts == [] || ts[0].CloseObj? then Fail(NotJson)
    else if ts[0].CloseList? then Ok(Read(JList(list), ts[1..]))
    else match Value(ts, depth, maxDepth)
      case Fail(e) => Fail(e)
      case Ok(item) => Items(item.rest, list + [item.v], depth, maxDepth)
  }

  function Members(ts: seq<Token>, obj: map<string, Json>, depth: nat, maxDepth: nat): (r: Result<Read>)
    ensures r.Ok? ==> |r.value.rest| < |ts|
    decreases |ts|, 2
  {
    if ts == [] then Fail(NotJson)
    else if ts[0].CloseObj? then Ok(Read(JObj(obj), ts[1..]))
    else if !ts[0].TStr? then Fail(NotJson)
    else if ts[0].s in obj then Fail(Duplicate)
    else match Value(ts[1..], depth, maxDepth)
      case Fail(e) => Fail(e)
      case Ok(member) => Members(member.rest, obj[ts[0].s := member.v], depth, maxDepth)
  }

  /** encoding/json's Decoder over one body. Token and More fail at the end of
      the tokens, which is the end of the body or its first syntax error. */
  class Decoder {
    const toks: seq<Token>
    var pos: nat

    ghost predicate Valid()
      reads this
    {
      pos <= |toks|
    }

    function Rest(): seq<Token>
      requires Valid()
      reads this
    {
      toks[pos..]
    }

    constructor (toks: seq<Token>)
      ensures Valid() && this.toks == toks && Rest() == toks
    {
      this.toks, pos := toks, 0;
    }

    method Token() returns (r: Result<Token>)
      requires Valid()
      modifies this
      ensures Valid()
      ensures old(Rest()) == [] ==> r == Fail(NotJson) && Rest() == []
      ensures old(Rest()) != [] ==> r == Ok(old(Rest())[0]) && Rest() == old(Rest())[1..]
    {
      if pos == |toks| { return Fail(NotJson); }
      r := Ok(toks[pos]);
      pos := pos + 1;
    }

    predicate More()
      requires Valid()
      reads this
    {
      pos < |toks| && !toks[pos].CloseList? && !toks[pos].CloseObj?
    }

    /** decodeValue: reads one value, or reports the first thing wrong with it. */
    method DecodeValue(depth: nat, maxDepth: nat) returns (r: Result<Json>)
      requires Valid()
      modifies this
      ensures Valid()
      ensures match Value(old(Rest()), depth, maxDepth)
        case Ok(read) => r == Ok(read.v) && Rest() == read.rest
        case Fail(e) => r == Fail(e)
      decreases |Rest()|, 1
    {
      var tok := Token();
      if tok.Fail? { return Fail(NotJson); }
      if Scalar(tok.value) { return Ok(ScalarValue(tok.value)); }
      if tok.value.CloseList? || tok.value.CloseObj? { return Fail(NotJson); }
      if depth + 1 > maxDepth { return Fail(TooDeep); }
      if tok.value.OpenList? {
        r := DecodeItems(depth + 1, maxDepth);
      } else {
        r := DecodeMembers(depth + 1, maxDepth);
      }
    }

    method DecodeItems(depth: nat, maxDepth: nat) returns (r: Result<Json>)
      requires Valid()
      modifies this
      ensures Valid()
      ensures match Items(old(Rest()), [], depth, maxDepth)
        case Ok(read) => r == Ok(read.v) && Rest() == read.rest
        case Fail(e) => r == Fail(e)
      decreases |Rest()|, 2
    {
      var list := [];
      while More()
        invariant Valid() && |Rest()| <= |old(Rest())|
        invariant Items(old(Rest()), [], depth, maxDepth) == Items(Rest(), list, depth, maxDepth)
        decreases |Rest()|
      {
        var item := DecodeValue(depth, maxDepth);
        if item.Fail? { return Fail(item.error); }
        list := list + [item.value];
      }
      var close := Token();
      if close != Ok(CloseList) { return Fail(NotJson); }
      return Ok(JList(list));
    }

    method DecodeMembers(depth: nat, maxDepth: nat) returns (r: Result<Json>)
      requires Valid()
      modifies this
      ensures Valid()
      ensures match Members(old(Rest()), map[], depth, maxDepth)
        case Ok(read) => r == Ok(read.v) && Rest() == read.rest
        case Fail(e) => r == Fail(e)
      decreases |Rest()|, 2
    {
      var obj: map<string, Json> := map[];
      while More()
        invariant Valid() && |Rest()| <= |old(Rest())|
        invariant Members(old(Rest()), map[], depth, maxDepth) == Members(Rest(), obj, depth, maxDepth)
        decreases |Rest()|
      {
        var key := Token();
        if key.Fail? || !key.value.TStr? { return Fail(NotJson); }
        if key.value.s in obj { return Fail(Duplicate); }
        var member := DecodeValue(depth, maxDepth);
        if member.Fail? { return Fail(member.error); }
        obj := obj[key.value.s := member.value];
      }
      var close := Token();
      if close != Ok(CloseObj) { return Fail(NotJson); }
      return Ok(JObj(obj));
    }
  }

  /** decodeStrictJSON: one value and nothing behind it. clean says that the
      tokens end with the body rather than at a syntax error. */
  method DecodeStrictJson(toks: seq<Token>, clean: bool, maxDepth: nat) returns (r: Result<Json>)
    ensures r == Strict(toks, clean, maxDepth)
  {
    var dec := new Decoder(toks);
    r := dec.DecodeValue(0, maxDepth);
    if r.Fail? { return; }
    var after := dec.Token();
    if after.Ok? || !clean { return Fail(TrailingData); }
  }

  function Strict(toks: seq<Token>, clean: bool, maxDepth: nat): Result<Json> {
    match Value(toks, 0, maxDepth)
    case Fail(e) => Fail(e)
    case Ok(read) => if read.rest == [] && clean then Ok(read.v) else Fail(TrailingData)
  }

  // ---- The JSON texts the tokens come from ----

  /** A JSON text as written: members in order, names possibly repeated. */
  datatype Tree = Leaf(tok: Token) | Arr(items: seq<Tree>) | Obj(members: seq<Member>)
  datatype Member = Member(name: string, tree: Tree)

  ghost predicate WellFormed(t: Tree) {
    match t
    case Leaf(tok) => Scalar(tok)
    case Arr(items) => forall i :: 0 <= i < |items| ==> WellFormed(items[i])
    case Obj(members) => forall i :: 0 <= i < |members| ==> WellFormed(members[i].tree)
  }

  ghost function Tokens(t: Tree): seq<Token> {
    match t
    case Leaf(tok) => [tok]
    case Arr(items) => [OpenList] + ItemTokens(items) + [CloseList]
    case Obj(members) => [OpenObj] + MemberTokens(members) + [CloseObj]
  }

  ghost function ItemTokens(items: seq<Tree>): seq<Token> {
    if items == [] then [] else Tokens(items[0]) + ItemTokens(items[1..])
  }

  ghost function MemberTokens(members: seq<Member>): seq<Token> {
    if members == [] then []
    else [TStr(members[0].name)] + Tokens(members[0].tree) + MemberTokens(members[1..])
  }

  /** No object at any depth repeats a member name. */
  ghost predicate DistinctNames(t: Tree) {
    match t
    case Leaf(_) => true
    case Arr(items) => forall i :: 0 <= i < |items| ==> DistinctNames(items[i])
    case Obj(members) =>
      && (forall i, j :: 0 <= i < j < |members| ==> members[i].name != members[j].name)
      && (forall i :: 0 <= i < |members| ==> DistinctNames(members[i].tree))
  }

  /** Nested at most n lists and objects deep. */
  ghost predicate NestedWithin(t: Tree, n: int) {
    match t
    case Leaf(_) => true
    case Arr(items) => n >= 1 && forall i :: 0 <= i < |items| ==> NestedWithin(items[i], n - 1)
    case Obj(members) => n >= 1 && forall i :: 0 <= i < |members| ==> NestedWithin(members[i].tree, n - 1)
  }

  /** The value a text means; a repeated name would keep its last value. */
  ghost function Meaning(t: Tree): Json
    requires WellFormed(t)
  {
    match t
    case Leaf(tok) =>
      if tok.TNum? then JNum(tok.text)
      else if tok.TStr? then JStr(tok.s)
      else if tok.TBool? then JBool(tok.b)
      else JNull
    case Arr(items) => JList(seq(|items|, i requires 0 <= i < |items| => Meaning(items[i])))
    case Obj(members) => JObj(MembersMeaning(members, map[]))
  }

  ghost function MembersMeaning(members: seq<Member>, obj: map<string, Json>): map<string, Json>
    requires forall i :: 0 <= i < |members| ==> WellFormed(members[i].tree)
    decreases members
  {
    if members == [] then obj
    else MembersMeaning(members[1..], obj[members[0].name := Meaning(members[0].tree)])
  }

  /** A text is accepted at this depth exactly when it repeats no name and
      stays within the limit. */
  ghost predicate Acceptable(t: Tree, depth: nat, maxDepth: nat) {
    DistinctNames(t) && NestedWithin(t, maxDepth - depth)
  }

  /** Decoding the tokens of a text: its meaning, or a failure that is about
      a repeated name or the nesting, never about the syntax. */
  lemma {:induction false} ValueOfTree(t: Tree, rest: seq<Token>, depth: nat, maxDepth: nat)
    requires WellFormed(t)
    ensures var r := Value(Tokens(t) + rest, depth, maxDepth);
      if Acceptable(t, depth, maxDepth) then r == Ok(Read(Meaning(t), rest))
      else r.Fail? && (r.error == Duplicate || r.error == TooDeep)
    decreases t
  {
    var ts := Tokens(t) + rest;
    match t
    case Leaf(tok) =>
    case Arr(items) =>
      assert ts[1..] == ItemTokens(items) + ([CloseList] + rest);
      if depth + 1 <= maxDepth {
        ItemsOfTrees(items, [], rest, depth + 1, maxDepth);
        assert [] + Meanings(items) == Meaning(t).items;
      }
    case Obj(members) =>
      assert ts[1..] == MemberTokens(members) + ([CloseObj] + rest);
      if depth + 1 <= maxDepth { MembersOfTrees(members, map[], rest, depth + 1, maxDepth); }
  }

  ghost function Meanings(items: seq<Tree>): seq<Json>
    requires forall i :: 0 <= i < |items| ==> WellFormed(items[i])
  {
    seq(|items|, i requires 0 <= i < |items| => Meaning(items[i]))
  }

  lemma {:induction false} ItemsOfTrees(items: seq<Tree>, list: seq<Json>, rest: seq<Token>, depth: nat, maxDepth: nat)
    requires forall i :: 0 <= i < |items| ==> WellFormed(items[i])
    ensures var r := Items(ItemTokens(items) + ([CloseList] + rest), list, depth, maxDepth);
      if forall i :: 0 <= i < |items| ==> Acceptable(items[i], depth, maxDepth)
      then r == Ok(Read(JList(list + Meanings(items)), rest))
      else r.Fail? && (r.error == Duplicate || r.error == TooDeep)
    decreases items
  {
    var ts := ItemTokens(items) + ([CloseList] + rest);
    if items == [] {
      assert ts == [CloseList] + rest;
      assert list + Meanings(items) == list;
    } else {
      var after := ItemTokens(items[1..]) + ([CloseList] + rest);
      assert ts == Tokens(items[0]) + after;
      TokensStart(items[0], after);
      ValueOfTree(items[0], after, depth, maxDepth);
      if Acceptable(items[0], depth, maxDepth) {
        ItemsOfTrees(items[1..], list + [Meaning(items[0])], rest, depth, maxDepth);
        assert list + [Meaning(items[0])] + Meanings(items[1..]) == list + Meanings(items);
        assert (forall i :: 0 <= i < |items| ==> Acceptable(items[i], depth, maxDepth))
          <==> (forall i :: 0 <= i < |items[1..]| ==> Acceptable(items[1..][i], depth, maxDepth)) by {
          assert forall i :: 1 <= i < |items| ==> items[i] == items[1..][i - 1];
        }
      }
    }
  }

  /** The members still to come are acceptable behind the names already read. */
  ghost predicate AcceptableMembers(members: seq<Member>, seen: set<string>, depth: nat, maxDepth: nat) {
    && (forall i, j :: 0 <= i < j < |members| ==> members[i].name != members[j].name)
    && (forall i :: 0 <= i < |members| ==>
          members[i].name !in seen && Acceptable(members[i].tree, depth, maxDepth))
  }

  lemma AcceptableTail(members: seq<Member>, seen: set<string>, depth: nat, maxDepth: nat)
    requires members != []
    ensures AcceptableMembers(members, seen, depth, maxDepth)
      <==> members[0].name !in seen && Acceptable(members[0].tree, depth, maxDepth)
           && AcceptableMembers(members[1..], seen + {members[0].name}, depth, maxDepth)
  {
    var tail := members[1..];
    assert forall i :: 1 <= i < |members| ==> members[i] == tail[i - 1];
  }

  lemma {:induction false} MembersOfTrees(
      members: seq<Member>, obj: map<string, Json>, rest: seq<Token>, depth: nat, maxDepth: nat)
    requires forall i :: 0 <= i < |members| ==> WellFormed(members[i].tree)
    ensures var r := Members(MemberTokens(members) + ([CloseObj] + rest), obj, depth, maxDepth);
      if AcceptableMembers(members, obj.Keys, depth, maxDepth)
      then r == Ok(Read(JObj(MembersMeaning(members, obj)), rest))
      else r.Fail? && (r.error == Duplicate || r.error == TooDeep)
    decreases members
  {
    var ts := MemberTokens(members) + ([CloseObj] + rest);
    if members == [] {
      assert ts == [CloseObj] + rest;
    } else {
      var m := members[0];
      var after := MemberTokens(members[1..]) + ([CloseObj] + rest);
      assert ts == [TStr(m.name)] + (Tokens(m.tree) + after);
      assert ts[1..] == Tokens(m.tree) + after;
      ValueOfTree(m.tree, after, depth, maxDepth);
      AcceptableTail(members, obj.Keys, depth, maxDepth);
      if m.name !in obj && Acceptable(m.tree, depth, maxDepth) {
        var next := obj[m.name := Meaning(m.tree)];
        assert next.Keys == obj.Keys + {m.name};
        MembersOfTrees(members[1..], next, rest, depth, maxDepth);
      }
    }
  }

  lemma {:induction false} TokensStart(t: Tree, after: seq<Token>)
    requires WellFormed(t)
    ensures var ts := Tokens(t) + after;
      ts != [] && !ts[0].CloseList? && !ts[0].CloseObj?
  {}

  // ---- Only texts decode ----

  /** Whatever decodes is a text's tokens, and that text is acceptable. */
  lemma {:induction false} ValueIsTree(ts: seq<Token>, depth: nat, maxDepth: nat) returns (t: Tree)
    requires Value(ts, depth, maxDepth).Ok?
    ensures WellFormed(t) && ts == Tokens(t) + Value(ts, depth, maxDepth).value.rest
    decreases |ts|, 1
  {
    if Scalar(ts[0]) {
      t := Leaf(ts[0]);
    } else if ts[0].OpenList? {
      var items := ItemsAreTrees(ts[1..], [], depth + 1, maxDepth);
      t := Arr(items);
      assert ts == [ts[0]] + ts[1..];
    } else {
      var members := MembersAreTrees(ts[1..], map[], depth + 1, maxDepth);
      t := Obj(members);
      assert ts == [ts[0]] + ts[1..];
    }
  }

  lemma {:induction false} ItemsAreTrees(ts: seq<Token>, list: seq<Json>, depth: nat, maxDepth: nat)
    returns (items: seq<Tree>)
    requires Items(ts, list, depth, maxDepth).Ok?
    ensures forall i :: 0 <= i < |items| ==> WellFormed(items[i])
    ensures ts == ItemTokens(items) + [CloseList] + Items(ts, list, depth, maxDepth).value.rest
    decreases |ts|, 2
  {
    if ts[0].CloseList? {
      items := [];
    } else {
      var t := ValueIsTree(ts, depth, maxDepth);
      var item := Value(ts, depth, maxDepth).value;
      var more := ItemsAreTrees(item.rest, list + [item.v], depth, maxDepth);
      items := [t] + more;
      assert items[1..] == more;
    }
  }

  lemma {:induction false} MembersAreTrees(ts: seq<Token>, obj: map<string, Json>, depth: nat, maxDepth: nat)
    returns (members: seq<Member>)
    requires Members(ts, obj, depth, maxDepth).Ok?
    ensures forall i :: 0 <= i < |members| ==> WellFormed(members[i].tree)
    ensures ts == MemberTokens(members) + [CloseObj] + Members(ts, obj, depth, maxDepth).value.rest
    decreases |ts|, 2
  {
    if ts[0].CloseObj? {
      members := [];
    } else {
      var t := ValueIsTree(ts[1..], depth, maxDepth);
      var member := Value(ts[1..], depth, maxDepth).value;
      var more := MembersAreTrees(member.rest, obj[ts[0].s := member.v], depth, maxDepth);
      members := [Member(ts[0].s, t)] + more;
      assert members[1..] == more;
      assert ts == [ts[0]] + ts[1..];
    }
  }

  /** decodeStrictJSON accepts a body exactly when it is one JSON text, with
      nothing behind it, that repeats no member name in any object and nests
      no deeper than the limit. */
  lemma StrictAccepts(toks: seq<Token>, clean: bool, maxDepth: nat)
    ensures Strict(toks, clean, maxDepth).Ok?
      <==> clean && exists t :: WellFormed(t) && toks == Tokens(t) && Acceptable(t, 0, maxDepth)
  {
    if Strict(toks, clean, maxDepth).Ok? {
      var t := ValueIsTree(toks, 0, maxDepth);
      assert Tokens(t) + [] == Tokens(t);
      ValueOfTree(t, [], 0, maxDepth);
    }
    forall t | WellFormed(t) && toks == Tokens(t) && Acceptable(t, 0, maxDepth)
      ensures Value(toks, 0, maxDepth) == Ok(Read(Meaning(t), []))
    {
      assert Tokens(t) + [] == Tokens(t);
      ValueOfTree(t, [], 0, maxDepth);
    }
  }

  /** What it returns for a text is what the text means; what it refuses a
      text for is a repeated name or the nesting. */
  lemma {:induction false} StrictReturns(t: Tree, maxDepth: nat)
    requires WellFormed(t)
    ensures var r := Strict(Tokens(t), true, maxDepth);
      if Acceptable(t, 0, maxDepth) then r == Ok(Meaning(t)) else r == Fail(Duplicate) || r == Fail(TooDeep)
  {
    assert Tokens(t) + [] == Tokens(t);
    ValueOfTree(t, [], 0, maxDepth);
  }
}
