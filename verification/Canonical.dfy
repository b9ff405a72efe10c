/** The texts the schema comparison works on (ftv-graphql-mapper/drift.go):
    the text canonicalValue gives a default, and that of a type in SDL. */
module Canonical {
  import opened Base
  import opened Coercion
  import CoercionLaws
  import Order

  // ---- json.Marshal of a string ----

  /** The letter of a two-character escape. */
  function Letter(c: char): Option<char> {
    if c == '\"' then Some('\"')
    else if c == '\\' then Some('\\')
    else if c == '\n' then Some('n')
    else if c == '\r' then Some('r')
    else if c == '\t' then Some('t')
    else if c == 8 as char then Some('b')
    else if c == 12 as char then Some('f')
    else None
  }

  /** Characters written as \u and four hexadecimal digits. */
  predicate IsCoded(c: char) {
    c < ' ' || c == '<' || c == '>' || c == '&' || c == 0x2028 as char || c == 0x2029 as char
  }

  function Code(c: char): (r: string)
    requires c as int < 0x10000
    ensures |r| == 4
  {
    var n := c as int;
    [HexDigit(n / 4096), HexDigit(n / 256 % 16), HexDigit(n / 16 % 16), HexDigit(n % 16)]
  }

  function Escape(c: char): (r: string)
    ensures r != "" && r[0] != '\"'
  {
    if Letter(c).Some? then ['\\', Letter(c).value]
    else if IsCoded(c) then ['\\', 'u'] + Code(c)
    else [c]
  }

  function EscapeAll(s: string): string {
    if s == "" then "" else Escape(s[0]) + EscapeAll(s[1..])
  }

  function Quote(s: string): string { ['\"'] + EscapeAll(s) + ['\"'] }

  lemma {:induction false} DigitsInjective(m: int, n: int)
    requires 0 <= m < 0x10000 && 0 <= n < 0x10000
    requires m / 4096 == n / 4096 && m / 256 % 16 == n / 256 % 16 && m / 16 % 16 == n / 16 % 16 && m % 16 == n % 16
    ensures m == n
  {
    assert m == 16 * (m / 16) + m % 16 && n == 16 * (n / 16) + n % 16;
    assert m / 16 / 16 == m / 256 && n / 16 / 16 == n / 256;
    assert m / 256 / 16 == m / 4096 && n / 256 / 16 == n / 4096;
  }

  lemma {:induction false} CodeInjective(c: char, d: char)
    requires c as int < 0x10000 && d as int < 0x10000 && Code(c) == Code(d)
    ensures c == d
  {
    var m, n := c as int, d as int;
    assert Code(c)[0] == Code(d)[0] && Code(c)[1] == Code(d)[1] && Code(c)[2] == Code(d)[2] && Code(c)[3] == Code(d)[3];
    DigitsInjective(m, n);
  }

  /** No escape is the beginning of another. */
  lemma {:induction false} EscapeApart(c: char, u: string, d: char, w: string)
    requires Escape(c) + u == Escape(d) + w
    ensures c == d && u == w
  {
    hide Code;
    var s := Escape(c) + u;
    assert s[0] == Escape(c)[0] && s[0] == Escape(d)[0];
    if s[0] == '\\' {
      assert s[1] == Escape(c)[1] && s[1] == Escape(d)[1];
      if s[1] == 'u' {
        assert s[2..6] == Code(c) && s[2..6] == Code(d);
        CodeInjective(c, d);
      }
    }
    assert s[|Escape(c)|..] == u && s[|Escape(d)|..] == w;
  }

  lemma {:induction false} EscapeNext(s: string, x: string)
    requires s != ""
    ensures EscapeAll(s) + ['\"'] + x == Escape(s[0]) + (EscapeAll(s[1..]) + ['\"'] + x)
  {}

  lemma {:induction false} EscapesStart(s: string, x: string)
    ensures (EscapeAll(s) + ['\"'] + x)[0] == '\"' <==> s == ""
    ensures s == "" ==> (EscapeAll(s) + ['\"'] + x)[1..] == x
  {
    hide Escape;
    if s != "" { EscapeNext(s, x); }
  }

  /** A quoted string can be read off the front of a text. */
  lemma {:induction false} EscapesApart(s: string, x: string, t: string, y: string)
    requires EscapeAll(s) + ['\"'] + x == EscapeAll(t) + ['\"'] + y
    ensures s == t && x == y
    decreases |s|
  {
    hide Escape, EscapeAll;
    EscapesStart(s, x);
    EscapesStart(t, y);
    if s != "" {
      EscapeNext(s, x);
      EscapeNext(t, y);
      EscapeApart(s[0], EscapeAll(s[1..]) + ['\"'] + x, t[0], EscapeAll(t[1..]) + ['\"'] + y);
      EscapesApart(s[1..], x, t[1..], y);
      assert s == [s[0]] + s[1..] && t == [t[0]] + t[1..];
    }
  }

  lemma {:induction false} QuotesApart(s: string, x: string, t: string, y: string)
    requires Quote(s) + x == Quote(t) + y
    ensures s == t && x == y
  {
    hide EscapeAll;
    assert (Quote(s) + x)[1..] == EscapeAll(s) + ['\"'] + x;
    assert (Quote(t) + y)[1..] == EscapeAll(t) + ['\"'] + y;
    EscapesApart(s, x, t, y);
  }

  // ---- Words ----

  predicate IsWordChar(c: char) {
    'a' <= c <= 'z' || 'A' <= c <= 'Z' || '0' <= c <= '9' || c == '_' || c == '-' || c == '+' || c == '.'
  }

  predicate Word(s: string) { s != "" && forall i :: 0 <= i < |s| ==> IsWordChar(s[i]) }

  /** What may follow a word without belonging to it. */
  predicate Ends(x: string) { x == "" || !IsWordChar(x[0]) }

  /** How many characters of a word a text begins with. */
  function WordLength(t: string): nat {
    if t == "" || !IsWordChar(t[0]) then 0 else 1 + WordLength(t[1..])
  }

  lemma {:induction false} WordLengthOf(r: string, x: string)
    requires (forall i :: 0 <= i < |r| ==> IsWordChar(r[i])) && Ends(x)
    ensures WordLength(r + x) == |r|
    decreases |r|
  {
    if r == "" {
      assert r + x == x;
    } else {
      assert (r + x)[0] == r[0] && (r + x)[1..] == r[1..] + x;
      WordLengthOf(r[1..], x);
    }
  }

  lemma {:induction false} WordsApart(r: string, x: string, s: string, y: string)
    requires Word(r) && Word(s) && Ends(x) && Ends(y) && r + x == s + y
    ensures r == s && x == y
  {
    hide WordLength;
    WordLengthOf(r, x);
    WordLengthOf(s, y);
    assert (r + x)[..|r|] == r && (s + y)[..|s|] == s && (r + x)[|r|..] == x && (s + y)[|s|..] == y;
  }

  // ---- canonicalValue ----

  /** The text of a value; "" stands for no value. */
  function Canon(v: Value): string
    decreases v
  {
    match v
    case StrV(raw) => Quote(raw)
    case BlockV(raw) => Quote(raw)
    case ListV(items) => ['['] + Join(Texts(items), ",") + [']']
    case ObjV(members) => ['{'] + Join(Order.Sort(Parts(members)), ",") + ['}']
    case Var(name) => ['$'] + name
    case Null => "null"
    case IntV(raw) => raw
    case FloatV(raw) => raw
    case BoolV(raw) => raw
    case EnumV(raw) => raw
  }

  function Texts(items: seq<Value>): (r: seq<string>)
    ensures |r| == |items|
    decreases items
  {
    if items == [] then [] else [Canon(items[0])] + Texts(items[1..])
  }

  function PartOf(m: Member): string
    decreases m
  {
    m.name + ([':'] + Canon(m.value))
  }

  function Parts(members: seq<Member>): (r: seq<string>)
    ensures |r| == |members|
    decreases members
  {
    if members == [] then [] else [PartOf(members[0])] + Parts(members[1..])
  }

  // ---- What a value is, apart from its spelling ----

  datatype Kind_ = KNull | KInt | KFloat | KBool | KEnum

  /** A value without the order of its object fields and without the style of
      its strings. */
  datatype Norm =
    | NText(text: string)
    | NRaw(kind: Kind_, raw: string)
    | NVar(name: string)
    | NList(items: seq<Norm>)
    | NObj(fields: set<(string, Norm)>)

  ghost function NormOf(v: Value): Norm
    decreases v
  {
    match v
    case StrV(raw) => NText(raw)
    case BlockV(raw) => NText(raw)
    case ListV(items) => NList(seq(|items|, i requires 0 <= i < |items| => NormOf(items[i])))
    case ObjV(members) => NObj(set i | 0 <= i < |members| :: (members[i].name, NormOf(members[i].value)))
    case Var(name) => NVar(name)
    case Null => NRaw(KNull, "null")
    case IntV(raw) => NRaw(KInt, raw)
    case FloatV(raw) => NRaw(KFloat, raw)
    case BoolV(raw) => NRaw(KBool, raw)
    case EnumV(raw) => NRaw(KEnum, raw)
  }

  /** Tokens as the GraphQL lexer yields them (section 2 of the GraphQL
      specification): names, integers, and floats are words, told apart by
      their characters. */
  predicate NumberStart(raw: string) { raw != "" && (raw[0] == '-' || '0' <= raw[0] <= '9') }

  predicate HasFloatMark(raw: string) { '.' in raw || 'e' in raw || 'E' in raw }

  ghost predicate Lexed(v: Value)
    decreases v
  {
    match v
    case IntV(raw) => Word(raw) && NumberStart(raw) && !HasFloatMark(raw)
    case FloatV(raw) => Word(raw) && NumberStart(raw) && HasFloatMark(raw)
    case BoolV(raw) => raw == "true" || raw == "false"
    case EnumV(raw) => Word(raw) && !NumberStart(raw) && raw != "true" && raw != "false" && raw != "null"
    case Var(name) => Word(name)
    case ListV(items) => forall i :: 0 <= i < |items| ==> Lexed(items[i])
    case ObjV(members) => forall i :: 0 <= i < |members| ==> Word(members[i].name) && Lexed(members[i].value)
    case _ => true
  }

  /** Values written as one word. */
  predicate IsWordly(v: Value) { v.IntV? || v.FloatV? || v.BoolV? || v.EnumV? || v.Null? }

  lemma {:induction false} WordlyText(v: Value)
    requires IsWordly(v) && Lexed(v)
    ensures Word(Canon(v))
  {}

  lemma {:induction false} WordlySame(a: Value, b: Value)
    requires IsWordly(a) && IsWordly(b) && Lexed(a) && Lexed(b) && Canon(a) == Canon(b)
    ensures NormOf(a) == NormOf(b)
  {}

  /** How a text begins says what it is the text of. */
  lemma {:induction false} CanonHead(v: Value)
    requires Lexed(v)
    ensures Canon(v) != ""
    ensures (v.StrV? || v.BlockV?) <==> Canon(v)[0] == '\"'
    ensures v.ListV? <==> Canon(v)[0] == '['
    ensures v.ObjV? <==> Canon(v)[0] == '{'
    ensures v.Var? <==> Canon(v)[0] == '$'
    ensures IsWordly(v) <==> IsWordChar(Canon(v)[0])
  {
    hide EscapeAll, Join, Texts, Parts;
    if IsWordly(v) {
      hide Canon;
      WordlyText(v);
    }
  }

  // ---- Reading a text back ----

  function Depth(v: Value): nat
    decreases v
  {
    match v
    case ListV(items) => 1 + DepthOfAll(items)
    case ObjV(members) => 1 + DepthOfMembers(members)
    case _ => 0
  }

  function DepthOfAll(items: seq<Value>): nat
    decreases items
  {
    if items == [] then 0
    else var d, rest := Depth(items[0]), DepthOfAll(items[1..]);
      if d > rest then d else rest
  }

  function DepthOfMembers(members: seq<Member>): nat
    decreases members
  {
    if members == [] then 0
    else var d, rest := Depth(members[0].value), DepthOfMembers(members[1..]);
      if d > rest then d else rest
  }

  lemma {:induction false} DepthOfMember(members: seq<Member>)
    ensures forall m :: m in members ==> Depth(m.value) <= DepthOfMembers(members)
    decreases |members|
  {
    if members != [] {
      DepthOfMember(members[1..]);
      assert members == [members[0]] + members[1..];
    }
  }

  /** Sorting the parts of an object is sorting its members by their parts. */
  function InsertMember(m: Member, members: seq<Member>): (r: seq<Member>)
    ensures multiset(r) == multiset(members) + multiset{m}
  {
    if members == [] || Order.Leq(PartOf(m), PartOf(members[0])) then [m] + members
    else
      assert members == [members[0]] + members[1..];
      [members[0]] + InsertMember(m, members[1..])
  }

  function SortMembers(members: seq<Member>): (r: seq<Member>)
    ensures multiset(r) == multiset(members)
  {
    if members == [] then []
    else
      assert members == [members[0]] + members[1..];
      InsertMember(members[0], SortMembers(members[1..]))
  }

  lemma {:induction false} PartsFirst(m: Member, members: seq<Member>)
    ensures Parts([m] + members) == [PartOf(m)] + Parts(members)
  {
    assert ([m] + members)[1..] == members;
  }

  lemma {:induction false} InsertedParts(m: Member, members: seq<Member>)
    ensures Parts(InsertMember(m, members)) == Order.Insert(PartOf(m), Parts(members))
    decreases |members|
  {
    hide PartOf, Order.Leq;
    if members == [] || Order.Leq(PartOf(m), PartOf(members[0])) {
      PartsFirst(m, members);
    } else {
      InsertedParts(m, members[1..]);
      PartsFirst(members[0], InsertMember(m, members[1..]));
    }
  }

  lemma {:induction false} SortedParts(members: seq<Member>)
    ensures Parts(SortMembers(members)) == Order.Sort(Parts(members))
    decreases |members|
  {
    hide PartOf, Order.Insert, InsertMember;
    if members != [] {
      SortedParts(members[1..]);
      InsertedParts(members[0], SortMembers(members[1..]));
    }
  }

  /** Joined parts before a closing bracket: the first, and what is behind it. */
  function Behind(parts: seq<string>, close: char, x: string): string
    requires parts != []
  {
    if |parts| == 1 then [close] + x else [','] + (Join(parts[1..], ",") + [close] + x)
  }

  lemma {:induction false} JoinFirst(parts: seq<string>, close: char, x: string)
    requires parts != []
    ensures Join(parts, ",") + [close] + x == parts[0] + Behind(parts, close, x)
  {}

  lemma {:induction false} BehindSame(p: seq<string>, q: seq<string>, close: char, x: string, y: string)
    requires p != [] && q != [] && close != ',' && Behind(p, close, x) == Behind(q, close, y)
    ensures |p| == 1 <==> |q| == 1
    ensures |p| == 1 ==> x == y
    ensures |p| > 1 ==> Join(p[1..], ",") + [close] + x == Join(q[1..], ",") + [close] + y
  {
    var l, r := Behind(p, close, x), Behind(q, close, y);
    assert l[0] == r[0] && l[1..] == r[1..];
    hide Join;
    if |p| == 1 { assert l[1..] == x; } else { assert l[1..] == Join(p[1..], ",") + [close] + x; }
    if |q| == 1 { assert r[1..] == y; } else { assert r[1..] == Join(q[1..], ",") + [close] + y; }
  }

  lemma {:induction false} BehindEnds(parts: seq<string>, close: char, x: string)
    requires parts != [] && !IsWordChar(close)
    ensures Ends(Behind(parts, close, x))
  {}

  lemma {:induction false} NothingJoined(close: char, x: string)
    ensures Join([], ",") + [close] + x == [close] + x && ([close] + x)[0] == close && ([close] + x)[1..] == x
  {}

  /** Canonical texts can be told apart: one that stands before something that
      is no word can be read off the front, up to spelling. */
  lemma {:induction false} CanonApart(a: Value, x: string, b: Value, y: string)
    requires Lexed(a) && Lexed(b) && Ends(x) && Ends(y)
    requires Canon(a) + x == Canon(b) + y
    ensures NormOf(a) == NormOf(b) && x == y
    decreases Depth(a), 1, 0
  {
    hide Canon, NormOf, Lexed, Join, Parts, Texts, Depth;
    CanonHead(a);
    CanonHead(b);
    assert (Canon(a) + x)[0] == Canon(a)[0] && (Canon(b) + y)[0] == Canon(b)[0];
    if IsWordly(a) {
      WordlyText(a);
      WordlyText(b);
      WordsApart(Canon(a), x, Canon(b), y);
      WordlySame(a, b);
    } else if a.ListV? {
      ListApart(a, x, b, y);
    } else if a.ObjV? {
      ObjectApart(a, x, b, y);
    } else if a.Var? {
      VariableApart(a, x, b, y);
    } else {
      StringApart(a, x, b, y);
    }
  }

  lemma {:induction false} StringApart(a: Value, x: string, b: Value, y: string)
    requires (a.StrV? || a.BlockV?) && (b.StrV? || b.BlockV?) && Canon(a) + x == Canon(b) + y
    ensures NormOf(a) == NormOf(b) && x == y
  {
    hide Quote;
    QuotesApart(a.raw, x, b.raw, y);
  }

  lemma {:induction false} VariableText(v: Value, x: string)
    requires v.Var?
    ensures (Canon(v) + x)[1..] == v.name + x
  {
    assert Canon(v) == ['$'] + v.name;
  }

  lemma {:induction false} ListText(v: Value, x: string)
    requires v.ListV?
    ensures (Canon(v) + x)[1..] == Join(Texts(v.items), ",") + [']'] + x
  {
    hide Join, Texts;
    assert Canon(v) == ['['] + Join(Texts(v.items), ",") + [']'];
  }

  lemma {:induction false} ObjectText(v: Value, x: string)
    requires v.ObjV?
    ensures (Canon(v) + x)[1..] == Join(Parts(SortMembers(v.members)), ",") + ['}'] + x
  {
    hide Join, Parts, SortMembers, Order.Sort;
    SortedParts(v.members);
    assert Canon(v) == ['{'] + Join(Parts(SortMembers(v.members)), ",") + ['}'];
  }

  lemma {:induction false} VariableApart(a: Value, x: string, b: Value, y: string)
    requires a.Var? && b.Var? && Lexed(a) && Lexed(b) && Ends(x) && Ends(y) && Canon(a) + x == Canon(b) + y
    ensures NormOf(a) == NormOf(b) && x == y
  {
    hide Canon, Word;
    VariableText(a, x);
    VariableText(b, y);
    WordsApart(a.name, x, b.name, y);
  }

  lemma {:induction false} ListApart(a: Value, x: string, b: Value, y: string)
    requires a.ListV? && b.ListV? && Lexed(a) && Lexed(b) && Canon(a) + x == Canon(b) + y
    ensures NormOf(a) == NormOf(b) && x == y
    decreases Depth(a), 0, 0
  {
    hide Join, Texts, Lexed, Canon;
    ListText(a, x);
    ListText(b, y);
    LexedItems(a);
    LexedItems(b);
    ItemsApart(a.items, x, b.items, y);
  }

  lemma {:induction false} LexedItems(v: Value)
    requires Lexed(v)
    ensures v.ListV? ==> forall i :: 0 <= i < |v.items| ==> Lexed(v.items[i])
    ensures v.ObjV? ==> forall i :: 0 <= i < |v.members| ==> Word(v.members[i].name) && Lexed(v.members[i].value)
  {}

  lemma {:induction false} ItemsApart(a: seq<Value>, x: string, b: seq<Value>, y: string)
    requires forall i :: 0 <= i < |a| ==> Lexed(a[i])
    requires forall i :: 0 <= i < |b| ==> Lexed(b[i])
    requires Join(Texts(a), ",") + [']'] + x == Join(Texts(b), ",") + [']'] + y
    ensures |a| == |b| && (forall i :: 0 <= i < |a| ==> NormOf(a[i]) == NormOf(b[i])) && x == y
    decreases DepthOfAll(a), 2, |a|
  {
    hide Join, NormOf, Lexed, Canon, Behind;
    var p, q := Texts(a), Texts(b);
    EmptyJoin(a, x);
    EmptyJoin(b, y);
    if a != [] && b != [] {
      JoinFirst(p, ']', x);
      JoinFirst(q, ']', y);
      BehindEnds(p, ']', x);
      BehindEnds(q, ']', y);
      CanonApart(a[0], Behind(p, ']', x), b[0], Behind(q, ']', y));
      BehindSame(p, q, ']', x, y);
      assert p[1..] == Texts(a[1..]) && q[1..] == Texts(b[1..]);
      if |a| > 1 {
        ItemsApart(a[1..], x, b[1..], y);
        forall i | 0 <= i < |a| ensures NormOf(a[i]) == NormOf(b[i]) {
          if i > 0 { assert a[i] == a[1..][i - 1] && b[i] == b[1..][i - 1]; }
        }
      }
    }
  }

  /** An empty list closes at once, another one does not. */
  lemma {:induction false} EmptyJoin(a: seq<Value>, x: string)
    requires forall i :: 0 <= i < |a| ==> Lexed(a[i])
    ensures var t := Join(Texts(a), ",") + [']'] + x;
      t != "" && (t[0] == ']' <==> a == []) && (a == [] ==> t[1..] == x)
  {
    hide Lexed, Canon, Behind, Join;
    if a == [] {
      NothingJoined(']', x);
    } else {
      CanonHead(a[0]);
      JoinFirst(Texts(a), ']', x);
    }
  }

  lemma {:induction false} ObjectApart(a: Value, x: string, b: Value, y: string)
    requires a.ObjV? && b.ObjV? && Lexed(a) && Lexed(b) && Canon(a) + x == Canon(b) + y
    ensures NormOf(a) == NormOf(b) && x == y
    decreases Depth(a), 0, 0
  {
    hide Join, Parts, Lexed, NormOf, SortMembers, Canon, FieldsOf, Word;
    var p, q := SortMembers(a.members), SortMembers(b.members);
    ObjectText(a, x);
    ObjectText(b, y);
    LexedItems(a);
    LexedItems(b);
    SameElements(a.members, p);
    SameElements(b.members, q);
    DepthOfMember(a.members);
    MembersApart(p, x, q, y, DepthOfMembers(a.members));
    SameFields(a.members, p);
    SameFields(b.members, q);
    PairwiseSameFields(p, q);
    ObjectNorm(a);
    ObjectNorm(b);
  }

  ghost function FieldsOf(members: seq<Member>): set<(string, Norm)> {
    set i | 0 <= i < |members| :: (members[i].name, NormOf(members[i].value))
  }

  lemma {:induction false} ObjectNorm(v: Value)
    requires v.ObjV?
    ensures NormOf(v) == NObj(FieldsOf(v.members))
  {}

  lemma {:induction false} SameElements(a: seq<Member>, b: seq<Member>)
    requires multiset(a) == multiset(b)
    ensures forall m :: m in a <==> m in b
  {
    forall m ensures m in a <==> m in b {
      assert m in a <==> m in multiset(a);
      assert m in b <==> m in multiset(b);
    }
  }

  lemma {:induction false} SameFields(a: seq<Member>, b: seq<Member>)
    requires forall m :: m in a <==> m in b
    ensures FieldsOf(a) == FieldsOf(b)
  {
    hide NormOf;
    forall f ensures f in FieldsOf(a) <==> f in FieldsOf(b) {
      if f in FieldsOf(a) {
        var i :| 0 <= i < |a| && f == (a[i].name, NormOf(a[i].value));
        assert a[i] in b;
      }
      if f in FieldsOf(b) {
        var i :| 0 <= i < |b| && f == (b[i].name, NormOf(b[i].value));
        assert b[i] in a;
      }
    }
  }

  lemma {:induction false} PairwiseSameFields(a: seq<Member>, b: seq<Member>)
    requires |a| == |b| && forall i :: 0 <= i < |a| ==> a[i].name == b[i].name && NormOf(a[i].value) == NormOf(b[i].value)
    ensures FieldsOf(a) == FieldsOf(b)
  {
    hide NormOf;
  }

  lemma {:induction false} PartApart(m: Member, u: string, k: Member, w: string, d: nat)
    requires Word(m.name) && Lexed(m.value) && Word(k.name) && Lexed(k.value) && Ends(u) && Ends(w)
    requires Depth(m.value) <= d && PartOf(m) + u == PartOf(k) + w
    ensures m.name == k.name && NormOf(m.value) == NormOf(k.value) && u == w
    decreases d, 2, 0
  {
    hide Canon, NormOf, Lexed, Word;
    var l, r := [':'] + Canon(m.value) + u, [':'] + Canon(k.value) + w;
    assert PartOf(m) + u == m.name + l && PartOf(k) + w == k.name + r;
    WordsApart(m.name, l, k.name, r);
    assert l[1..] == Canon(m.value) + u && r[1..] == Canon(k.value) + w;
    CanonApart(m.value, u, k.value, w);
  }

  lemma {:induction false} MembersApart(a: seq<Member>, x: string, b: seq<Member>, y: string, d: nat)
    requires forall m :: m in a ==> Word(m.name) && Lexed(m.value) && Depth(m.value) <= d
    requires forall m :: m in b ==> Word(m.name) && Lexed(m.value)
    requires Join(Parts(a), ",") + ['}'] + x == Join(Parts(b), ",") + ['}'] + y
    ensures |a| == |b| && x == y
    ensures forall i :: 0 <= i < |a| ==> a[i].name == b[i].name && NormOf(a[i].value) == NormOf(b[i].value)
    decreases d, 3, |a|
  {
    hide Join, NormOf, Lexed, PartOf, Behind, Word, Depth;
    var p, q := Parts(a), Parts(b);
    EmptyParts(a, x);
    EmptyParts(b, y);
    if a != [] && b != [] {
      JoinFirst(p, '}', x);
      JoinFirst(q, '}', y);
      BehindEnds(p, '}', x);
      BehindEnds(q, '}', y);
      assert a[0] in a && b[0] in b;
      PartApart(a[0], Behind(p, '}', x), b[0], Behind(q, '}', y), d);
      BehindSame(p, q, '}', x, y);
      assert p[1..] == Parts(a[1..]) && q[1..] == Parts(b[1..]);
      if |a| > 1 {
        MembersApart(a[1..], x, b[1..], y, d);
        forall i | 0 <= i < |a| ensures a[i].name == b[i].name && NormOf(a[i].value) == NormOf(b[i].value) {
          if i > 0 { assert a[i] == a[1..][i - 1] && b[i] == b[1..][i - 1]; }
        }
      }
    }
  }

  lemma {:induction false} EmptyParts(a: seq<Member>, x: string)
    requires forall m :: m in a ==> Word(m.name)
    ensures var t := Join(Parts(a), ",") + ['}'] + x;
      t != "" && (t[0] == '}' <==> a == []) && (a == [] ==> t[1..] == x)
  {
    hide Canon, Behind, Join;
    if a == [] {
      NothingJoined('}', x);
    } else {
      assert a[0] in a;
      JoinFirst(Parts(a), '}', x);
      assert PartOf(a[0])[0] == a[0].name[0];
    }
  }

  // ---- Equal values have equal texts ----

  lemma {:induction false} PartsAt(members: seq<Member>, i: nat)
    requires i < |members|
    ensures Parts(members)[i] == PartOf(members[i])
    decreases i
  {
    hide PartOf;
    if i > 0 { PartsAt(members[1..], i - 1); }
  }

  lemma {:induction false} TextsAt(items: seq<Value>, i: nat)
    requires i < |items|
    ensures Texts(items)[i] == Canon(items[i])
    decreases i
  {
    hide Canon;
    if i > 0 { TextsAt(items[1..], i - 1); }
  }

  lemma {:induction false} PartsDiffer(m: Member, k: Member)
    requires Word(m.name) && Word(k.name) && m.name != k.name
    ensures PartOf(m) != PartOf(k)
  {
    hide Canon, Word;
    if PartOf(m) == PartOf(k) { WordsApart(m.name, [':'] + Canon(m.value), k.name, [':'] + Canon(k.value)); }
  }

  /** Lists without repetition that hold the same are permutations. */
  lemma {:induction false} SameDistinct(a: seq<string>, b: seq<string>)
    requires forall i, j :: 0 <= i < j < |a| ==> a[i] != a[j]
    requires forall i, j :: 0 <= i < j < |b| ==> b[i] != b[j]
    requires forall x :: x in a <==> x in b
    ensures multiset(a) == multiset(b)
  {
    forall x ensures multiset(a)[x] == multiset(b)[x] {
      OnceOrNever(a, x);
      OnceOrNever(b, x);
    }
  }

  lemma {:induction false} OnceOrNever(a: seq<string>, x: string)
    requires forall i, j :: 0 <= i < j < |a| ==> a[i] != a[j]
    ensures multiset(a)[x] == if x in a then 1 else 0
    decreases |a|
  {
    if a != [] {
      assert a == [a[0]] + a[1..];
      OnceOrNever(a[1..], x);
      if x == a[0] { assert x !in a[1..]; }
    }
  }

  lemma {:induction false} CanonOfNorm(a: Value, b: Value)
    requires Lexed(a) && Lexed(b) && CoercionLaws.Unique(a) && CoercionLaws.Unique(b) && NormOf(a) == NormOf(b)
    ensures Canon(a) == Canon(b)
    decreases Depth(a), 1
  {
    hide Join, Texts, Quote, Depth;
    if a.ListV? {
      ItemsOfNorm(a, b);
    } else if a.ObjV? {
      MembersOfNorm(a, b);
    }
  }

  lemma {:induction false} DepthOfItem(items: seq<Value>, i: nat)
    requires i < |items|
    ensures Depth(items[i]) <= DepthOfAll(items)
    decreases i
  {
    if i > 0 { DepthOfItem(items[1..], i - 1); }
  }

  lemma {:induction false} ItemsOfNorm(a: Value, b: Value)
    requires a.ListV? && b.ListV? && Lexed(a) && Lexed(b) && CoercionLaws.Unique(a) && CoercionLaws.Unique(b)
    requires NormOf(a) == NormOf(b)
    ensures Texts(a.items) == Texts(b.items)
    decreases Depth(a), 0
  {
    var p, q := NormOf(a).items, NormOf(b).items;
    assert |p| == |a.items| && |q| == |b.items|;
    assert forall i :: 0 <= i < |p| ==> p[i] == NormOf(a.items[i]) && q[i] == NormOf(b.items[i]);
    hide Canon, NormOf, Texts;
    forall i | 0 <= i < |a.items| ensures Texts(a.items)[i] == Texts(b.items)[i] {
      DepthOfItem(a.items, i);
      CanonOfNorm(a.items[i], b.items[i]);
      TextsAt(a.items, i);
      TextsAt(b.items, i);
    }
  }

  lemma {:induction false} MembersOfNorm(a: Value, b: Value)
    requires a.ObjV? && b.ObjV? && Lexed(a) && Lexed(b) && CoercionLaws.Unique(a) && CoercionLaws.Unique(b)
    requires NormOf(a) == NormOf(b)
    ensures Order.Sort(Parts(a.members)) == Order.Sort(Parts(b.members))
    decreases Depth(a), 0
  {
    ObjectNorm(a);
    ObjectNorm(b);
    hide Canon, NormOf, Parts, PartOf, Order.Sort, Lexed, CoercionLaws.Unique;
    UniqueMembers(a);
    UniqueMembers(b);
    LexedItems(a);
    LexedItems(b);
    DepthOfMember(a.members);
    DistinctParts(a.members);
    DistinctParts(b.members);
    var p, q := Parts(a.members), Parts(b.members);
    forall x ensures x in p <==> x in q {
      if x in p {
        var i :| 0 <= i < |p| && p[i] == x;
        PartsAt(a.members, i);
        var j := FieldIn(a.members, b.members, i);
        assert a.members[i] in a.members;
        CanonOfNorm(a.members[i].value, b.members[j].value);
        PartsAt(b.members, j);
        SamePart(a.members[i], b.members[j]);
      }
      if x in q {
        var j :| 0 <= j < |q| && q[j] == x;
        PartsAt(b.members, j);
        var i := FieldIn(b.members, a.members, j);
        assert a.members[i] in a.members;
        CanonOfNorm(a.members[i].value, b.members[j].value);
        PartsAt(a.members, i);
        SamePart(a.members[i], b.members[j]);
      }
    }
    SameDistinct(p, q);
    Order.SortSame(p, q);
  }

  lemma {:induction false} SamePart(m: Member, k: Member)
    requires m.name == k.name && Canon(m.value) == Canon(k.value)
    ensures PartOf(m) == PartOf(k)
  {}

  lemma {:induction false} FieldIn(a: seq<Member>, b: seq<Member>, i: nat) returns (j: nat)
    requires FieldsOf(a) == FieldsOf(b) && i < |a|
    ensures j < |b| && b[j].name == a[i].name && NormOf(b[j].value) == NormOf(a[i].value)
  {
    hide NormOf;
    assert (a[i].name, NormOf(a[i].value)) in FieldsOf(b);
    j :| 0 <= j < |b| && (b[j].name, NormOf(b[j].value)) == (a[i].name, NormOf(a[i].value));
  }

  lemma {:induction false} UniqueMembers(v: Value)
    requires v.ObjV? && CoercionLaws.Unique(v)
    ensures forall i, j :: 0 <= i < j < |v.members| ==> v.members[i].name != v.members[j].name
    ensures forall i :: 0 <= i < |v.members| ==> CoercionLaws.Unique(v.members[i].value)
  {}

  lemma {:induction false} DistinctParts(members: seq<Member>)
    requires forall i :: 0 <= i < |members| ==> Word(members[i].name)
    requires forall i, j :: 0 <= i < j < |members| ==> members[i].name != members[j].name
    ensures forall i, j :: 0 <= i < j < |members| ==> Parts(members)[i] != Parts(members)[j]
  {
    hide Parts, PartOf, Word;
    forall i, j | 0 <= i < j < |members| ensures Parts(members)[i] != Parts(members)[j] {
      PartsAt(members, i);
      PartsAt(members, j);
      PartsDiffer(members[i], members[j]);
    }
  }

  /** Two values have the same canonical text exactly when they are the same
      up to the order of object fields and the style of strings. */
  lemma {:induction false} CanonSame(a: Value, b: Value)
    requires Lexed(a) && Lexed(b) && CoercionLaws.Unique(a) && CoercionLaws.Unique(b)
    ensures Canon(a) == Canon(b) <==> NormOf(a) == NormOf(b)
  {
    hide Canon, NormOf, Lexed;
    if Canon(a) == Canon(b) { CanonApart(a, "", b, ""); }
    if NormOf(a) == NormOf(b) { CanonOfNorm(a, b); }
  }

  // ---- Types ----

  /** A type as SDL writes it: [Aangifte!]!. */
  function TypeText(t: Type): string
    decreases t
  {
    var bare := if t.ListOf? then ['['] + TypeText(t.elem) + [']'] else t.name;
    if t.nonNull then bare + ['!'] else bare
  }

  ghost predicate NamedByWord(t: Type)
    decreases t
  {
    if t.ListOf? then NamedByWord(t.elem) else Word(t.name)
  }

  /** Behind a type's text: nothing, or a closing bracket. */
  predicate TypeEnds(x: string) { x == "" || x[0] == ']' }

  lemma {:induction false} TypeHead(t: Type)
    requires NamedByWord(t)
    ensures TypeText(t) != "" && (TypeText(t)[0] == '[' <==> t.ListOf?)
  {}

  lemma {:induction false} MarkApart(m: bool, x: string, n: bool, y: string)
    requires TypeEnds(x) && TypeEnds(y)
    requires (if m then ['!'] else []) + x == (if n then ['!'] else []) + y
    ensures m == n && x == y
  {
    var l, r := (if m then ['!'] else []) + x, (if n then ['!'] else []) + y;
    if m { assert l[0] == '!' && l[1..] == x; } else { assert l == x; }
    if n { assert r[0] == '!' && r[1..] == y; } else { assert r == y; }
  }

  lemma {:induction false} TypeParts(t: Type, x: string)
    ensures var mark := (if t.nonNull then ['!'] else []) + x;
      && (t.Named? ==> TypeText(t) + x == t.name + mark)
      && (t.ListOf? ==> (TypeText(t) + x)[1..] == TypeText(t.elem) + ([']'] + mark))
  {
    var bare := if t.ListOf? then ['['] + TypeText(t.elem) + [']'] else t.name;
    hide TypeText;
    assert TypeText(t) == bare + (if t.nonNull then ['!'] else []) by { TypeTextOf(t); }
    if t.ListOf? {
      var mark := (if t.nonNull then ['!'] else []) + x;
      assert TypeText(t) + x == ['['] + (TypeText(t.elem) + ([']'] + mark));
    }
  }

  lemma {:induction false} TypeTextOf(t: Type)
    ensures TypeText(t) == (if t.ListOf? then ['['] + TypeText(t.elem) + [']'] else t.name) + (if t.nonNull then ['!'] else [])
  {
    var bare := if t.ListOf? then ['['] + TypeText(t.elem) + [']'] else t.name;
    assert bare + [] == bare;
  }

  lemma {:induction false} MarkEnds(m: bool, x: string)
    requires TypeEnds(x)
    ensures Ends((if m then ['!'] else []) + x)
  {}

  lemma {:induction false} TypesApart(t: Type, x: string, u: Type, y: string)
    requires NamedByWord(t) && NamedByWord(u) && TypeEnds(x) && TypeEnds(y)
    requires TypeText(t) + x == TypeText(u) + y
    ensures t == u && x == y
    decreases t
  {
    hide TypeText, Word;
    TypeHead(t);
    TypeHead(u);
    TypeParts(t, x);
    TypeParts(u, y);
    assert (TypeText(t) + x)[0] == TypeText(t)[0] && (TypeText(u) + y)[0] == TypeText(u)[0];
    var l, r := (if t.nonNull then ['!'] else []) + x, (if u.nonNull then ['!'] else []) + y;
    if t.Named? {
      MarkEnds(t.nonNull, x);
      MarkEnds(u.nonNull, y);
      WordsApart(t.name, l, u.name, r);
    } else {
      TypesApart(t.elem, [']'] + l, u.elem, [']'] + r);
      assert ([']'] + l)[1..] == l && ([']'] + r)[1..] == r;
    }
    MarkApart(t.nonNull, x, u.nonNull, y);
  }

  /** Different types have different texts. */
  lemma {:induction false} TypeTextInjective(t: Type, u: Type)
    requires NamedByWord(t) && NamedByWord(u)
    ensures TypeText(t) == TypeText(u) <==> t == u
  {
    hide TypeText;
    if TypeText(t) == TypeText(u) {
      assert TypeText(t) + "" == TypeText(u) + "";
      TypesApart(t, "", u, "");
    }
  }

  // ---- Type references of an introspection ----

  /** What introspection reports of a type, down to so many levels of ofType. */
  datatype TypeRef = TypeRef(kind: string, name: string, ofType: Option<TypeRef>)

  /** typeRef.String */
  function RefText(r: TypeRef): string
    decreases r
  {
    if r.kind == "NON_NULL" && r.ofType.Some? then RefText(r.ofType.value) + ['!']
    else if r.kind == "LIST" && r.ofType.Some? then ['['] + RefText(r.ofType.value) + [']']
    else r.name
  }

  /** A server's answer to the TypeRef fragment that nests ofType levels deep. */
  function Reported(t: Type, kind: string, levels: nat): TypeRef
    decreases levels
  {
    if t.nonNull then
      TypeRef("NON_NULL", "", if levels == 0 then None else Some(Reported(t.(nonNull := false), kind, levels - 1)))
    else if t.ListOf? then
      TypeRef("LIST", "", if levels == 0 then None else Some(Reported(t.elem, kind, levels - 1)))
    else TypeRef(kind, t.name, None)
  }

  /** How many lists and non-nulls wrap the name. */
  function Wrappers(t: Type): nat
    decreases t
  {
    (if t.nonNull then 1 else 0) + if t.ListOf? then 1 + Wrappers(t.elem) else 0
  }

  /** A reported type reads as SDL writes it exactly when the query goes deep
      enough for its wrappers. */
  lemma {:induction false} ReportedText(t: Type, kind: string, levels: nat)
    requires NamedByWord(t) && kind != "NON_NULL" && kind != "LIST"
    ensures RefText(Reported(t, kind, levels)) == TypeText(t) <==> Wrappers(t) <= levels
    decreases levels
  {
    hide TypeText, Word;
    TypeHead(t);
    TypeTextOf(t);
    if levels > 0 {
      if t.nonNull {
        var bare := t.(nonNull := false);
        TypeTextOf(bare);
        ReportedText(bare, kind, levels - 1);
        SameBefore(RefText(Reported(bare, kind, levels - 1)), TypeText(bare), "!");
        assert TypeText(bare) + [] == TypeText(bare);
      } else if t.ListOf? {
        ReportedText(t.elem, kind, levels - 1);
        SameBetween(RefText(Reported(t.elem, kind, levels - 1)), TypeText(t.elem));
      }
    }
  }

  lemma {:induction false} SameBefore(a: string, b: string, x: string)
    ensures a + x == b + x <==> a == b
  {
    if a + x == b + x { assert |a| == |b| && (a + x)[..|a|] == a && (b + x)[..|b|] == b; }
  }

  lemma {:induction false} SameBetween(a: string, b: string)
    ensures ['['] + a + [']'] == ['['] + b + [']'] <==> a == b
  {
    var l, r := ['['] + a + [']'], ['['] + b + [']'];
    if l == r { assert |a| == |b| && l[1..|a| + 1] == a && r[1..|b| + 1] == b; }
  }
}
