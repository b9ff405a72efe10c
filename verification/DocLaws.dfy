/** What the recognised definitions are, in terms of the tokens alone
    (ftv-graphql-mapper/docscan.go): how each begins and where it ends, which
    tokens describe it and its variables, and that nothing of a document is
    left out. */
module DocLaws {
  import opened Base
  import opened DocGrammar

  // ---- Brackets ----

  lemma {:induction false} OpenApart(toks: seq<Token>, a: nat, b: nat, c: nat)
    requires a <= b <= c <= |toks|
    ensures Open(toks, a, c) == Open(toks, a, b) + Open(toks, b, c)
    decreases c
  {
    if b < c { OpenApart(toks, a, b, c - 1); }
  }

  /** A stretch that closes what it opens and nothing else, with no text, brace
      or dangling equals sign outside its brackets. */
  ghost predicate Level(toks: seq<Token>, a: nat, b: nat) {
    && a <= b < |toks| && Open(toks, a, b) == 0
    && (a < b ==> !toks[b - 1].kind.Equals?)
    && (forall k :: a <= k <= b ==> Open(toks, a, k) >= 0)
    && (forall k :: a <= k < b && (IsText(toks[k]) || toks[k].kind.BraceL?) ==> Open(toks, a, k) > 0)
  }

  lemma {:induction false} LevelNothing(toks: seq<Token>, a: nat)
    requires a < |toks|
    ensures Level(toks, a, a)
  {}

  lemma {:induction false} LevelOne(toks: seq<Token>, a: nat)
    requires a + 1 < |toks| && Bracket(toks[a].kind) == 0 && !IsText(toks[a]) && !toks[a].kind.Equals?
    ensures Level(toks, a, a + 1)
  {
    assert Open(toks, a, a) == 0 && Open(toks, a, a + 1) == 0;
  }

  lemma {:induction false} LevelJoin(toks: seq<Token>, a: nat, b: nat, c: nat)
    requires Level(toks, a, b) && Level(toks, b, c)
    ensures Level(toks, a, c)
  {
    hide Open, IsText;
    OpenApart(toks, a, b, c);
    forall k | b <= k <= c ensures Open(toks, a, k) == Open(toks, b, k) { OpenApart(toks, a, b, k); }
    forall k | a <= k <= c ensures Open(toks, a, k) >= 0 {}
    forall k | a <= k < c && (IsText(toks[k]) || toks[k].kind.BraceL?) ensures Open(toks, a, k) > 0 {}
    if b == c {} else { assert !toks[c - 1].kind.Equals?; }
  }

  /** A level stretch between an opening and a closing bracket is level. */
  lemma {:induction false} LevelNested(toks: seq<Token>, a: nat, b: nat)
    requires Level(toks, a + 1, b) && b + 1 < |toks|
    requires toks[a].kind.BracketL? && toks[b].kind.BracketR?
    ensures Level(toks, a, b + 1)
  {
    assert Open(toks, a, a) == 0 && Open(toks, a, a + 1) == 1;
    forall k | a + 1 <= k <= b ensures Open(toks, a, k) == 1 + Open(toks, a + 1, k) { OpenApart(toks, a, a + 1, k); }
    assert Open(toks, a, b + 1) == 0;
  }

  /** A group opens something up to its end. */
  ghost predicate Closed(toks: seq<Token>, from: nat, to: nat) {
    from < to < |toks| && Open(toks, from, to) == 0 && Bracket(toks[to - 1].kind) == -1
    && forall j :: from < j < to ==> Open(toks, from, j) > 0
  }

  lemma {:induction false} GroupCloses(toks: seq<Token>, from: nat, i: nat)
    requires from <= i < |toks| && Bracket(toks[from].kind) == 1 && GroupFrom(toks, from, i).ok
    requires forall j :: from < j <= i ==> Open(toks, from, j) > 0
    ensures Closed(toks, from, GroupFrom(toks, from, i).at)
    decreases |toks| - i
  {
    assert Open(toks, from, i + 1) == Open(toks, from, i) + Bracket(toks[i].kind);
    assert Open(toks, from, from) == 0;
    if Open(toks, from, i + 1) > 0 { GroupCloses(toks, from, i + 1); }
  }

  lemma {:induction false} GroupIsClosed(toks: seq<Token>, i: nat)
    requires i < |toks| && Bracket(toks[i].kind) == 1 && GroupAt(toks, i).ok
    ensures Closed(toks, i, GroupAt(toks, i).at)
  {
    GroupCloses(toks, i, i);
  }

  lemma {:induction false} GroupLevel(toks: seq<Token>, i: nat)
    requires i < |toks| && toks[i].kind.ParenL? && GroupAt(toks, i).ok
    ensures Level(toks, i, GroupAt(toks, i).at)
  {
    hide GroupFrom;
    GroupIsClosed(toks, i);
    assert Open(toks, i, i) == 0;
  }

  // ---- Types and directives ----

  lemma {:induction false} PastLevel(toks: seq<Token>, i: nat, kind: Kind)
    requires i < |toks| && (kind.Bang? || kind.Name?)
    ensures Level(toks, i, Past(toks, i, kind))
  {
    hide Level;
    if Is(toks, i, kind) { LevelOne(toks, i); } else { LevelNothing(toks, i); }
  }

  lemma {:induction false} TypeRefLevel(toks: seq<Token>, i: nat)
    requires i < |toks| && TypeRefAt(toks, i).ok
    ensures Level(toks, i, TypeRefAt(toks, i).at)
    decreases |toks| - i
  {
    hide Level, Open;
    if Is(toks, i, BracketL) {
      var elem := TypeRefAt(toks, i + 1);
      TypeRefLevel(toks, i + 1);
      LevelNested(toks, i, elem.at);
      PastLevel(toks, elem.at + 1, Bang);
      LevelJoin(toks, i, elem.at + 1, TypeRefAt(toks, i).at);
    } else {
      LevelOne(toks, i);
      PastLevel(toks, i + 1, Bang);
      LevelJoin(toks, i, i + 1, TypeRefAt(toks, i).at);
    }
  }

  lemma {:induction false} DirectivesLevel(toks: seq<Token>, i: nat)
    requires i < |toks| && DirectivesAt(toks, i).ok
    ensures Level(toks, i, DirectivesAt(toks, i).at)
    decreases |toks| - i
  {
    hide Level, Open, GroupFrom;
    if !Is(toks, i, At_) {
      LevelNothing(toks, i);
    } else {
      var args := OptionalGroupAt(toks, i + 2, ParenL);
      LevelOne(toks, i);
      LevelOne(toks, i + 1);
      LevelJoin(toks, i, i + 1, i + 2);
      if Is(toks, i + 2, ParenL) { GroupLevel(toks, i + 2); } else { LevelNothing(toks, i + 2); }
      LevelJoin(toks, i, i + 2, args.at);
      DirectivesLevel(toks, args.at);
      LevelJoin(toks, i, args.at, DirectivesAt(toks, i).at);
    }
  }

  // ---- Texts among an operation's variables ----

  /** A text that stands directly in the group of variables at g, and not as a
      default value. */
  ghost predicate Loose(toks: seq<Token>, g: nat, k: nat) {
    0 < k < |toks| && IsText(toks[k]) && Open(toks, g, k) == 1 && !toks[k - 1].kind.Equals?
  }

  /** From a to b the group at g stays open, and is as open as before at b. */
  ghost predicate Stays(toks: seq<Token>, g: nat, a: nat, b: nat) {
    g < a <= b < |toks| && Open(toks, g, b) == 1 && !toks[b - 1].kind.Equals? && forall j :: a <= j <= b ==> Open(toks, g, j) > 0
  }

  ghost predicate NoneLoose(toks: seq<Token>, g: nat, a: nat, b: nat) { forall k :: a <= k < b ==> !Loose(toks, g, k) }

  lemma {:induction false} LevelStays(toks: seq<Token>, g: nat, a: nat, b: nat)
    requires g < a && Level(toks, a, b) && Open(toks, g, a) == 1 && !toks[a - 1].kind.Equals?
    ensures Stays(toks, g, a, b) && NoneLoose(toks, g, a, b)
  {
    hide Open, IsText;
    forall k | a <= k <= b ensures Open(toks, g, k) == 1 + Open(toks, a, k) { OpenApart(toks, g, a, k); }
  }

  lemma {:induction false} StaysJoin(toks: seq<Token>, g: nat, a: nat, b: nat, c: nat)
    requires Stays(toks, g, a, b) && Stays(toks, g, b, c) && NoneLoose(toks, g, a, b) && NoneLoose(toks, g, b, c)
    ensures Stays(toks, g, a, c) && NoneLoose(toks, g, a, c)
  {
    hide Open, Loose;
  }

  /** A default value brings no loose text. */
  lemma {:induction false} DefaultStays(toks: seq<Token>, g: nat, i: nat)
    requires g < i < |toks| && DefaultAt(toks, i).ok && Open(toks, g, i) == 1 && !toks[i - 1].kind.Equals?
    ensures Stays(toks, g, i, DefaultAt(toks, i).at) && NoneLoose(toks, g, i, DefaultAt(toks, i).at)
  {
    hide GroupFrom;
    if Is(toks, i, Equals) {
      assert Open(toks, g, i + 1) == 1;
      ValueStays(toks, g, i + 1);
    }
  }

  lemma {:induction false} ValueStays(toks: seq<Token>, g: nat, i: nat)
    requires 0 < g + 1 < i < |toks| && ValueAt(toks, i).ok && Open(toks, g, i) == 1 && toks[i - 1].kind.Equals?
    ensures var e := ValueAt(toks, i).at;
      Open(toks, g, e) == 1 && !toks[e - 1].kind.Equals? && e < |toks|
      && (forall j :: i <= j <= e ==> Open(toks, g, j) > 0) && NoneLoose(toks, g, i, e)
  {
    hide GroupFrom;
    var e := ValueAt(toks, i).at;
    if toks[i].kind.BracketL? || toks[i].kind.BraceL? {
      GroupIsClosed(toks, i);
      hide Open;
      forall k | i <= k <= e ensures Open(toks, g, k) == 1 + Open(toks, i, k) { OpenApart(toks, g, i, k); }
      StartsShut(toks, i);
    } else {
      assert Open(toks, g, i + 1) == 1;
      if toks[i].kind.Dollar? { assert Open(toks, g, i + 2) == 1; }
    }
  }

  lemma {:induction false} StartsShut(toks: seq<Token>, i: nat)
    requires i < |toks|
    ensures Open(toks, i, i) == 0
  {}

  /** Of the tokens of a variable exactly its description is loose. */
  lemma {:induction false} VariableLoose(toks: seq<Token>, g: nat, i: nat)
    requires g < i < |toks| && VariableAt(toks, i).ok && Open(toks, g, i) == 1 && !toks[i - 1].kind.Equals?
    ensures var e := VariableAt(toks, i).at;
      Stays(toks, g, i, e) && forall k :: i <= k < e ==> (Loose(toks, g, k) <==> k in Described(toks, i))
  {
    hide TypeRefAt, DefaultAt, DirectivesAt, Stays;
    var n := VariableNameAt(toks, i).at;
    var t := TypeRefAt(toks, n).at;
    var d := DefaultAt(toks, t).at;
    var e := DirectivesAt(toks, d).at;
    NameLoose(toks, g, i);
    TypeRefLevel(toks, n);
    DirectivesLevel(toks, d);
    hide Open, Level, VariableNameAt, Loose, IsTextAt;
    StaysAt(toks, g, i, n);
    LevelStays(toks, g, n, t);
    StaysAt(toks, g, n, t);
    DefaultStays(toks, g, t);
    StaysJoin(toks, g, n, t, d);
    StaysAt(toks, g, t, d);
    LevelStays(toks, g, d, e);
    StaysJoin(toks, g, n, d, e);
    StaysBehind(toks, g, i, n, e);
    forall k | i <= k < e ensures Loose(toks, g, k) <==> k in Described(toks, i) {
      if n <= k { OnlyFirst(toks, i, k); }
    }
  }

  lemma {:induction false} OnlyFirst(toks: seq<Token>, i: nat, k: nat)
    requires i < k
    ensures k !in Described(toks, i)
  {}

  lemma {:induction false} StaysAt(toks: seq<Token>, g: nat, a: nat, b: nat)
    requires Stays(toks, g, a, b)
    ensures g < b < |toks| && Open(toks, g, b) == 1 && !toks[b - 1].kind.Equals?
  {
    hide Open;
  }

  lemma {:induction false} StaysBehind(toks: seq<Token>, g: nat, a: nat, b: nat, c: nat)
    requires Stays(toks, g, a, b) && Stays(toks, g, b, c)
    ensures Stays(toks, g, a, c)
  {
    hide Open;
  }

  lemma {:induction false} NameLoose(toks: seq<Token>, g: nat, i: nat)
    requires g < i < |toks| && VariableNameAt(toks, i).ok && Open(toks, g, i) == 1 && !toks[i - 1].kind.Equals?
    ensures var e := VariableNameAt(toks, i).at;
      Stays(toks, g, i, e) && i < e && forall k :: i <= k < e ==> (Loose(toks, g, k) <==> k in Described(toks, i))
  {
    var s := if IsTextAt(toks, i) then i + 1 else i;
    assert Open(toks, g, s) == 1;
    assert Open(toks, g, s + 1) == 1;
    assert Open(toks, g, s + 2) == 1;
    assert Open(toks, g, s + 3) == 1;
  }

  ghost predicate Ascends(ks: seq<nat>, from: nat, to: nat) {
    && (forall i :: 0 <= i < |ks| ==> from <= ks[i] < to)
    && (forall i, j :: 0 <= i < j < |ks| ==> ks[i] < ks[j])
  }

  /** The descriptions found among the variables are exactly the loose texts of
      their group, in order. */
  lemma {:induction false} VariablesLoose(toks: seq<Token>, g: nat, i: nat)
    requires g < i < |toks| && VariablesFrom(toks, i).read.ok && Open(toks, g, i) == 1 && !toks[i - 1].kind.Equals?
    ensures var r := VariablesFrom(toks, i);
      && i < r.read.at < |toks| && Open(toks, g, r.read.at) == 0 && !toks[r.read.at - 1].kind.Equals?
      && (forall j :: i <= j < r.read.at ==> Open(toks, g, j) > 0)
      && (forall k :: i <= k < r.read.at ==> (Loose(toks, g, k) <==> k in r.texts))
      && Ascends(r.texts, i, r.read.at)
    decreases |toks| - i
  {
    hide VariableAt, Stays, IsTextAt, IsText;
    if Is(toks, i, ParenR) {
      assert Open(toks, g, i + 1) == 0;
      NotLoose(toks, g, i);
    } else {
      var v := VariableAt(toks, i);
      VariableLoose(toks, g, i);
      hide Open, Loose;
      StaysAt(toks, g, i, v.at);
      VariablesLoose(toks, g, v.at);
      StaysOpen(toks, g, i, v.at);
      DescribedFirst(toks, i);
      var rest := VariablesFrom(toks, v.at);
      AscendsJoin(Described(toks, i), rest.texts, i, v.at, rest.read.at);
      InEither(Described(toks, i), rest.texts, i, v.at);
    }
  }

  lemma {:induction false} NotLoose(toks: seq<Token>, g: nat, i: nat)
    requires i < |toks| && toks[i].kind.ParenR?
    ensures !Loose(toks, g, i)
  {}

  lemma {:induction false} StaysOpen(toks: seq<Token>, g: nat, a: nat, b: nat)
    requires Stays(toks, g, a, b)
    ensures forall j :: a <= j <= b ==> Open(toks, g, j) > 0
  {
    hide Open;
  }

  lemma {:induction false} DescribedFirst(toks: seq<Token>, i: nat)
    ensures Ascends(Described(toks, i), i, i + 1)
  {}

  lemma {:induction false} AscendsJoin(a: seq<nat>, b: seq<nat>, from: nat, mid: nat, to: nat)
    requires Ascends(a, from, from + 1) && from < mid <= to && Ascends(b, mid, to)
    ensures Ascends(a + b, from, to)
  {}

  lemma {:induction false} InEither(a: seq<nat>, b: seq<nat>, from: nat, mid: nat)
    requires Ascends(a, from, from + 1) && from < mid && forall x :: x in b ==> mid <= x
    ensures forall k :: k < mid ==> (k in a + b <==> k in a)
    ensures forall k :: mid <= k ==> (k in a + b <==> k in b)
  {}

  // ---- Regions ----

  ghost predicate Rising(toks: seq<Token>, ks: seq<nat>, from: nat, to: nat) {
    && (forall i :: 0 <= i < |ks| ==> from <= ks[i] < to && ks[i] < |toks| && IsText(toks[ks[i]]))
    && (forall i, j :: 0 <= i < j < |ks| ==> ks[i] < ks[j])
  }

  ghost predicate RegionOk(toks: seq<Token>, r: Region) {
    && r.from < r.to < |toks|
    && (r.Executable? ==>
          && r.from <= r.body && IsBody(toks, r.body, r.to)
          && Rising(toks, r.inner, r.from + 1, r.to)
          && (r.own.Some? ==> r.own.value == r.from && IsText(toks[r.from])))
  }

  /** Regions follow each other. */
  ghost predicate RegionsOk(toks: seq<Token>, regions: seq<Region>, end: nat) {
    && (forall k :: 0 <= k < |regions| ==> RegionOk(toks, regions[k]) && regions[k].to <= end)
    && (forall k, l :: 0 <= k < l < |regions| ==> regions[k].to <= regions[l].from)
  }

  /** The keyword of a definition stands behind its description. */
  function HeadOf(toks: seq<Token>, from: nat): nat { if IsTextAt(toks, from) then from + 1 else from }

  /** A definition begins with its keyword, or with the brace of a shorthand
      query, and is described exactly when it begins with a text. */
  ghost predicate HeadOk(toks: seq<Token>, r: Region) {
    var head := HeadOf(toks, r.from);
    if r.Typed? then IsKeyword(toks, head)
    else
      && (r.own.Some? <==> IsTextAt(toks, r.from))
      && (IsOperation(toks, head) || IsWord(toks, head, "fragment") || (head == r.from == r.body))
  }

  /** Nothing is left open from a to b, and no brace stands outside brackets. */
  ghost predicate Shut(toks: seq<Token>, a: nat, b: nat) {
    && a <= b < |toks| && Open(toks, a, b) == 0
    && forall k :: a <= k < b && toks[k].kind.BraceL? ==> Open(toks, a, k) > 0
  }

  /** The selection set is the first one behind the head. */
  ghost predicate BodyFirst(toks: seq<Token>, r: Region) {
    r.Executable? ==> Shut(toks, HeadOf(toks, r.from), r.body)
  }

  /** A text that describes a variable of the operation with this head: one
      that stands directly in its group of variables and is no default. */
  ghost predicate IsVariableText(toks: seq<Token>, head: nat, k: nat) {
    var g := GroupStart(toks, head);
    && IsOperation(toks, head) && Is(toks, g, ParenL) && g < k && Loose(toks, g, k)
    && forall j :: g < j <= k ==> Open(toks, g, j) > 0
  }

  /** The descriptions of variables are all of them, and nothing else. */
  ghost predicate InnerExact(toks: seq<Token>, r: Region) {
    r.Executable? ==> forall k :: k in r.inner <==> IsVariableText(toks, HeadOf(toks, r.from), k)
  }

  ghost predicate Defines(toks: seq<Token>, r: Region) {
    RegionOk(toks, r) && HeadOk(toks, r) && BodyFirst(toks, r) && InnerExact(toks, r)
  }

  lemma {:induction false} ShutJoin(toks: seq<Token>, a: nat, b: nat, c: nat)
    requires Shut(toks, a, b) && Shut(toks, b, c)
    ensures Shut(toks, a, c)
  {
    hide Open;
    OpenApart(toks, a, b, c);
    forall k | b <= k < c ensures Open(toks, a, k) == Open(toks, b, k) { OpenApart(toks, a, b, k); }
  }

  lemma {:induction false} LevelShut(toks: seq<Token>, a: nat, b: nat)
    requires Level(toks, a, b)
    ensures Shut(toks, a, b)
  {
    hide Open;
  }

  lemma {:induction false} BodyCloses(toks: seq<Token>, i: nat)
    requires i < |toks| && SelectionSetAt(toks, i).ok
    ensures IsBody(toks, i, SelectionSetAt(toks, i).at) && i < SelectionSetAt(toks, i).at < |toks|
  {
    hide GroupFrom;
    GroupIsClosed(toks, i);
    hide Open;
  }

  lemma {:induction false} VariablesOf(toks: seq<Token>, head: nat)
    requires head + 1 < |toks| && IsOperation(toks, head) && VariablesAt(toks, GroupStart(toks, head)).read.ok
    ensures var r := VariablesAt(toks, GroupStart(toks, head));
      && GroupStart(toks, head) <= r.read.at < |toks| && Shut(toks, GroupStart(toks, head), r.read.at)
      && (forall k :: k in r.texts <==> IsVariableText(toks, head, k))
      && Ascends(r.texts, head + 1, r.read.at)
  {
    hide VariablesFrom, IsOperation;
    var g := GroupStart(toks, head);
    var r := VariablesAt(toks, g);
    if Is(toks, g, ParenL) {
      assert Open(toks, g, g) == 0 && Open(toks, g, g + 1) == 1;
      VariablesLoose(toks, g, g + 1);
      hide Open;
      forall k: nat ensures k in r.texts <==> IsVariableText(toks, head, k) {
        if k in r.texts {
          var i :| 0 <= i < |r.texts| && r.texts[i] == k;
        } else if g < k < r.read.at {
        } else if r.read.at <= k {
          assert Open(toks, g, r.read.at) == 0;
        }
      }
    } else {
      assert Open(toks, g, g) == 0;
    }
  }

  lemma {:induction false} TextsRise(toks: seq<Token>, head: nat, ks: seq<nat>, from: nat, to: nat)
    requires Ascends(ks, head + 1, to) && from <= head && to < |toks| && forall k :: k in ks ==> IsVariableText(toks, head, k)
    ensures Rising(toks, ks, from + 1, to)
  {
    hide Open;
    forall i | 0 <= i < |ks| ensures IsText(toks[ks[i]]) { assert ks[i] in ks; }
  }

  lemma {:induction false} RisesUpTo(toks: seq<Token>, ks: seq<nat>, from: nat, mid: nat, to: nat)
    requires Rising(toks, ks, from, mid) && mid <= to
    ensures Rising(toks, ks, from, to)
  {}

  lemma {:induction false} NoVariables(toks: seq<Token>, head: nat)
    requires !IsOperation(toks, head)
    ensures forall k :: !IsVariableText(toks, head, k)
  {}

  lemma {:induction false} OperationDefines(toks: seq<Token>, i: nat, head: nat, own: Option<nat>)
    requires i + 1 < |toks| && head == HeadOf(toks, i) && own == (if IsTextAt(toks, i) then Some(i) else None)
    requires IsOperation(toks, head) && OperationAt(toks, i, head, own).Met?
    ensures Defines(toks, OperationAt(toks, i, head, own).region)
  {
    hide VariablesAt, DirectivesAt, SelectionSetAt, IsBody, Shut, Level, Rising, IsVariableText, Ascends, Open;
    var r := OperationAt(toks, i, head, own).region;
    var g := GroupStart(toks, head);
    var vars := VariablesAt(toks, g);
    VariablesOf(toks, head);
    LevelOne(toks, head);
    PastLevel(toks, head + 1, Name);
    LevelJoin(toks, head, head + 1, g);
    LevelShut(toks, head, g);
    ShutJoin(toks, head, g, vars.read.at);
    DirectivesLevel(toks, vars.read.at);
    LevelShut(toks, vars.read.at, r.body);
    ShutJoin(toks, head, vars.read.at, r.body);
    BodyCloses(toks, r.body);
    TextsRise(toks, head, r.inner, i, vars.read.at);
    RisesUpTo(toks, r.inner, i + 1, vars.read.at, r.to);
  }

  lemma {:induction false} FragmentLevel(toks: seq<Token>, head: nat)
    requires IsWord(toks, head, "fragment") && FragmentHeadAt(toks, head).ok
    ensures Level(toks, head, FragmentHeadAt(toks, head).at)
  {
    hide Level, DirectivesAt;
    LevelOne(toks, head);
    LevelOne(toks, head + 1);
    LevelOne(toks, head + 2);
    LevelOne(toks, head + 3);
    LevelJoin(toks, head, head + 1, head + 2);
    LevelJoin(toks, head, head + 2, head + 3);
    LevelJoin(toks, head, head + 3, head + 4);
    DirectivesLevel(toks, head + 4);
    LevelJoin(toks, head, head + 4, FragmentHeadAt(toks, head).at);
  }

  /** A definition that is met is what its tokens say it is. */
  lemma {:induction false} MetDefines(toks: seq<Token>, i: nat)
    requires i + 1 < |toks| && DefinitionAt(toks, i).Met?
    ensures Defines(toks, DefinitionAt(toks, i).region)
  {
    hide OperationAt, FragmentHeadAt, SelectionSetAt, TypeSystemAt, IsBody, Level, IsVariableText, Shut;
    var r := DefinitionAt(toks, i).region;
    var head := HeadOf(toks, i);
    var own := if IsTextAt(toks, i) then Some(i) else None;
    if Is(toks, head, BraceL) && !IsTextAt(toks, i) {
      BodyCloses(toks, i);
      LevelNothing(toks, i);
      LevelShut(toks, i, i);
      NoVariables(toks, head);
    } else if IsOperation(toks, head) {
      OperationDefines(toks, i, head, own);
    } else if IsWord(toks, head, "fragment") {
      FragmentLevel(toks, head);
      LevelShut(toks, head, r.body);
      BodyCloses(toks, r.body);
      NoVariables(toks, head);
    }
  }

  lemma {:induction false} SameRise(a: seq<nat>, b: seq<nat>)
    requires (forall i, j :: 0 <= i < j < |a| ==> a[i] < a[j]) && (forall i, j :: 0 <= i < j < |b| ==> b[i] < b[j])
    requires forall k :: k in a <==> k in b
    ensures a == b
  {
    FirstIn(a);
    FirstIn(b);
    if a != [] && b != [] {
      assert a[0] in b && b[0] in a;
      assert a == [a[0]] + a[1..] && b == [b[0]] + b[1..];
      forall k ensures k in a[1..] <==> k in b[1..] {
        assert k in a[1..] ==> k in a && k != a[0];
        assert k in b[1..] ==> k in b && k != b[0];
      }
      SameRise(a[1..], b[1..]);
    }
  }

  lemma FirstIn(a: seq<nat>)
    ensures a == [] || a[0] in a
  {}

  /** An executable definition is determined by where it begins. */
  lemma {:induction false} DefinesOnce(toks: seq<Token>, r: Region, s: Region)
    requires Defines(toks, r) && Defines(toks, s) && r.Executable? && s.Executable? && r.from == s.from
    ensures r == s
  {
    hide Open, IsVariableText, Loose, IsOperation;
    SameRise(r.inner, s.inner);
  }

  // ---- The whole document ----

  /** The definitions follow each other, and each is what its tokens say. */
  lemma {:induction false} RegionsDefine(toks: seq<Token>, i: nat)
    requires i < |toks| && RegionsFrom(toks, i).Some?
    ensures var regions := RegionsFrom(toks, i).value;
      && RegionsOk(toks, regions, |toks| - 1)
      && (forall k :: 0 <= k < |regions| ==> i <= regions[k].from && Defines(toks, regions[k]))
    decreases |toks| - i
  {
    hide DefinitionAt, RegionOk, HeadOk, BodyFirst, InnerExact;
    if i + 1 < |toks| {
      DefinitionIn(toks, i);
      match DefinitionAt(toks, i) {
        case PassedOver(at) => RegionsDefine(toks, at);
        case Met(r) =>
          MetDefines(toks, i);
          RegionsDefine(toks, r.to);
          var rest := RegionsFrom(toks, r.to).value;
          var all := [r] + rest;
          forall k | 0 <= k < |all| ensures i <= all[k].from && Defines(toks, all[k]) && all[k].to <= |toks| - 1 {
            if k > 0 { assert all[k] == rest[k - 1]; }
          }
          forall k, l | 0 <= k < l < |all| ensures all[k].to <= all[l].from {
            assert all[l] == rest[l - 1];
            if k > 0 { assert all[k] == rest[k - 1]; }
          }
      }
    }
  }

  lemma {:induction false} DefinitionIn(toks: seq<Token>, i: nat)
    requires i + 1 < |toks|
    ensures match DefinitionAt(toks, i)
      case Unread => true
      case PassedOver(at) => i < at < |toks| && IsKeyword(toks, HeadOf(toks, i))
      case Met(r) => r.from == i && i < r.to < |toks|
  {
    hide OperationAt, FragmentHeadAt, SelectionSetAt, TypeSystemAt;
  }

  /** The token belongs to a type-system definition, begun at g behind an
      optional description, that did not read and was passed over. */
  ghost predicate InPassed(toks: seq<Token>, g: nat, k: nat) {
    g <= k && g + 1 < |toks| && IsKeyword(toks, HeadOf(toks, g))
    && DefinitionAt(toks, g).PassedOver? && k < DefinitionAt(toks, g).at
  }

  ghost predicate InRegion(regions: seq<Region>, k: nat) { exists r :: r in regions && r.from <= k < r.to }

  /** Every token but the end token belongs to a definition met or to one passed
      over. */
  lemma {:induction false} Accounted(toks: seq<Token>, i: nat, k: nat)
    requires i <= k < |toks| - 1 && RegionsFrom(toks, i).Some?
    ensures InRegion(RegionsFrom(toks, i).value, k) || exists g :: InPassed(toks, g, k)
    decreases |toks| - i
  {
    hide DefinitionAt;
    DefinitionIn(toks, i);
    match DefinitionAt(toks, i) {
      case PassedOver(at) =>
        if k < at { assert InPassed(toks, i, k); } else { Accounted(toks, at, k); }
      case Met(r) =>
        if k < r.to {
          assert r in RegionsFrom(toks, i).value;
        } else {
          Accounted(toks, r.to, k);
          if InRegion(RegionsFrom(toks, r.to).value, k) {
            var x :| x in RegionsFrom(toks, r.to).value && x.from <= k < x.to;
            assert x in RegionsFrom(toks, i).value;
          }
        }
    }
  }
}
