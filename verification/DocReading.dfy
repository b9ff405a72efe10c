/** The grammar of what the document scanner reads (ftv-graphql-mapper/
    docscan.go), as relations between where a construct begins and where it
    ends, and that the recognisers read exactly that. Where a construct may go
    on, it does. */
module DocReading {
  import opened Base
  import opened DocGrammar
  import opened DocLaws

  // ---- Counting brackets ----

  predicate Opens(k: Kind) { k.BraceL? || k.BracketL? || k.ParenL? }

  predicate Shuts(k: Kind) { k.BraceR? || k.BracketR? || k.ParenR? }

  /** How many tokens of [from, end) are of such a kind. */
  ghost function Count(toks: seq<Token>, from: nat, end: nat, which: Kind -> bool): nat
    requires end <= |toks|
  {
    |set k | from <= k < end && which(toks[k].kind)|
  }

  lemma CountNext(toks: seq<Token>, from: nat, end: nat, which: Kind -> bool)
    requires from < end <= |toks|
    ensures Count(toks, from, end, which) == Count(toks, from, end - 1, which) + if which(toks[end - 1].kind) then 1 else 0
  {
    var before, after := set k | from <= k < end - 1 && which(toks[k].kind), set k | from <= k < end && which(toks[k].kind);
    assert after == before + if which(toks[end - 1].kind) then {end - 1} else {};
  }

  /** Open counts the brackets that open less those that close, of all kinds;
      Parens counts only parentheses. */
  lemma {:induction false} CountsExact(toks: seq<Token>, from: nat, end: nat)
    requires from <= end <= |toks|
    ensures Open(toks, from, end) == Count(toks, from, end, k => Opens(k)) - Count(toks, from, end, k => Shuts(k))
    ensures Parens(toks, from, end) == Count(toks, from, end, (k: Kind) => k.ParenL?) - Count(toks, from, end, (k: Kind) => k.ParenR?)
    decreases end
  {
    if from < end {
      CountsExact(toks, from, end - 1);
      CountNext(toks, from, end, k => Opens(k));
      CountNext(toks, from, end, k => Shuts(k));
      CountNext(toks, from, end, (k: Kind) => k.ParenL?);
      CountNext(toks, from, end, (k: Kind) => k.ParenR?);
    }
  }

  // ---- Groups ----

  lemma {:induction false} ClosedReads(toks: seq<Token>, from: nat, i: nat, j: nat)
    requires Closed(toks, from, j) && from <= i < j
    ensures GroupFrom(toks, from, i) == Read(true, j)
    decreases j - i
  {
    if i + 1 < j {
      assert Open(toks, from, i + 1) > 0;
      ClosedReads(toks, from, i + 1, j);
    }
  }

  /** A group reads exactly up to the bracket that closes it. */
  lemma {:induction false} GroupExact(toks: seq<Token>, i: nat)
    requires i < |toks| && Bracket(toks[i].kind) == 1
    ensures forall j :: GroupAt(toks, i) == Read(true, j) <==> Closed(toks, i, j)
  {
    hide GroupFrom;
    if GroupAt(toks, i).ok { GroupIsClosed(toks, i); }
    forall j: nat | Closed(toks, i, j) ensures GroupAt(toks, i) == Read(true, j) { ClosedReads(toks, i, i, j); }
  }

  // ---- Heads ----

  predicate TextAt(toks: seq<Token>, i: nat) { i + 1 < |toks| && (toks[i].kind == StringTok || toks[i].kind == BlockTok) }

  /** Behind the description, if there is one. */
  function HeadAt(toks: seq<Token>, i: nat): nat { if TextAt(toks, i) then i + 1 else i }

  predicate KeywordAt(toks: seq<Token>, i: nat) {
    Is(toks, i, Name) && toks[i].value in {"schema", "scalar", "type", "interface", "union", "enum", "input", "directive", "extend"}
  }

  lemma HeadsAre(toks: seq<Token>, i: nat)
    ensures TextAt(toks, i) <==> IsTextAt(toks, i)
    ensures HeadAt(toks, i) == HeadOf(toks, i)
    ensures KeywordAt(toks, i) <==> IsKeyword(toks, i)
  {}

  // ---- Types, values and directives ----

  predicate Maybe(toks: seq<Token>, kind: Kind, i: nat, j: nat) { j == if Is(toks, i, kind) then i + 1 else i }

  ghost predicate MaybeGroup(toks: seq<Token>, kind: Kind, i: nat, j: nat) {
    if Is(toks, i, kind) then Closed(toks, i, j) else j == i
  }

  ghost predicate IsTypeRef(toks: seq<Token>, i: nat, j: nat)
    decreases |toks| - i
  {
    if Is(toks, i, BracketL) then exists m: nat :: IsTypeRef(toks, i + 1, m) && Is(toks, m, BracketR) && Maybe(toks, Bang, m + 1, j)
    else Is(toks, i, Name) && Maybe(toks, Bang, i + 1, j)
  }

  ghost predicate IsValue(toks: seq<Token>, i: nat, j: nat) {
    i + 1 < |toks| &&
    match toks[i].kind
    case BracketL => Closed(toks, i, j)
    case BraceL => Closed(toks, i, j)
    case Dollar => Is(toks, i + 1, Name) && j == i + 2
    case Name => j == i + 1
    case IntTok => j == i + 1
    case FloatTok => j == i + 1
    case StringTok => j == i + 1
    case BlockTok => j == i + 1
    case _ => false
  }

  ghost predicate IsDirective(toks: seq<Token>, i: nat, j: nat) {
    Is(toks, i, At_) && Is(toks, i + 1, Name) && MaybeGroup(toks, ParenL, i + 2, j)
  }

  ghost predicate IsDirectives(toks: seq<Token>, i: nat, j: nat)
    decreases |toks| - i
  {
    if Is(toks, i, At_) then exists m: nat :: i < m && IsDirective(toks, i, m) && IsDirectives(toks, m, j) else j == i
  }

  lemma {:induction false} MaybeGroupExact(toks: seq<Token>, i: nat, kind: Kind)
    requires Bracket(kind) == 1
    ensures forall j :: OptionalGroupAt(toks, i, kind) == Read(true, j) <==> MaybeGroup(toks, kind, i, j)
  {
    hide GroupAt, Closed;
    if Is(toks, i, kind) { GroupExact(toks, i); }
  }

  lemma {:induction false} TypeRefExact(toks: seq<Token>, i: nat)
    ensures forall j :: TypeRefAt(toks, i) == Read(true, j) <==> IsTypeRef(toks, i, j)
    decreases |toks| - i
  {
    if Is(toks, i, BracketL) { TypeRefExact(toks, i + 1); }
  }

  lemma {:induction false} ValueExact(toks: seq<Token>, i: nat)
    ensures forall j :: ValueAt(toks, i) == Read(true, j) <==> IsValue(toks, i, j)
  {
    hide GroupAt, Closed;
    if i + 1 < |toks| && (toks[i].kind.BracketL? || toks[i].kind.BraceL?) { GroupExact(toks, i); }
  }

  lemma {:induction false} DirectivesExact(toks: seq<Token>, i: nat)
    ensures forall j :: DirectivesAt(toks, i) == Read(true, j) <==> IsDirectives(toks, i, j)
    decreases |toks| - i
  {
    hide OptionalGroupAt, MaybeGroup;
    if Is(toks, i, At_) {
      MaybeGroupExact(toks, i + 2, ParenL);
      var args := OptionalGroupAt(toks, i + 2, ParenL);
      if Is(toks, i + 1, Name) && args.ok { DirectivesExact(toks, args.at); }
    }
  }

  // ---- Type-system definitions ----

  ghost predicate IsNames(toks: seq<Token>, i: nat, sep: Kind, j: nat)
    decreases |toks| - i
  {
    Is(toks, i, Name) && if Is(toks, i + 1, sep) then IsNames(toks, i + 2, sep, j) else j == i + 1
  }

  ghost predicate IsNameList(toks: seq<Token>, i: nat, sep: Kind, j: nat) {
    IsNames(toks, if Is(toks, i, sep) then i + 1 else i, sep, j)
  }

  /** Directives and a block, both optional. */
  ghost predicate IsRest(toks: seq<Token>, i: nat, j: nat) {
    exists m: nat :: IsDirectives(toks, i, m) && MaybeGroup(toks, BraceL, m, j)
  }

  ghost predicate IsScalar(toks: seq<Token>, i: nat, j: nat) { Is(toks, i, Name) && IsDirectives(toks, i + 1, j) }

  ghost predicate IsUnion(toks: seq<Token>, i: nat, j: nat) {
    exists m: nat :: IsScalar(toks, i, m) && if Is(toks, m, Equals) then IsNameList(toks, m + 1, Pipe, j) else j == m
  }

  ghost predicate IsObject(toks: seq<Token>, i: nat, j: nat) {
    Is(toks, i, Name) &&
    if IsWord(toks, i + 1, "implements") then exists m: nat :: IsNameList(toks, i + 2, Amp, m) && IsRest(toks, m, j)
    else IsRest(toks, i + 1, j)
  }

  ghost predicate IsNamedRest(toks: seq<Token>, i: nat, j: nat) { Is(toks, i, Name) && IsRest(toks, i + 1, j) }

  ghost predicate IsDirectiveDefinition(toks: seq<Token>, i: nat, j: nat) {
    && Is(toks, i, At_) && Is(toks, i + 1, Name)
    && exists m: nat :: MaybeGroup(toks, ParenL, i + 2, m) && IsLocated(toks, if IsWord(toks, m, "repeatable") then m + 1 else m, j)
  }

  ghost predicate IsLocated(toks: seq<Token>, i: nat, j: nat) { IsWord(toks, i, "on") && IsNameList(toks, i + 1, Pipe, j) }

  ghost predicate IsDefined(toks: seq<Token>, keyword: string, i: nat, j: nat) {
    || (keyword == "schema" && IsRest(toks, i, j))
    || (keyword == "scalar" && IsScalar(toks, i, j))
    || (keyword in {"type", "interface"} && IsObject(toks, i, j))
    || (keyword == "union" && IsUnion(toks, i, j))
    || (keyword in {"enum", "input"} && IsNamedRest(toks, i, j))
    || (keyword == "directive" && IsDirectiveDefinition(toks, i, j))
  }

  /** A definition or, of anything but a directive, an extension. */
  ghost predicate IsTypeSystem(toks: seq<Token>, i: nat, j: nat) {
    || (Is(toks, i, Name) && IsDefined(toks, toks[i].value, i + 1, j))
    || (IsWord(toks, i, "extend") && Is(toks, i + 1, Name) && toks[i + 1].value != "directive" && IsDefined(toks, toks[i + 1].value, i + 2, j))
  }

  lemma {:induction false} NamesExact(toks: seq<Token>, i: nat, sep: Kind)
    ensures forall j :: NamesFrom(toks, i, sep) == Read(true, j) <==> IsNames(toks, i, sep, j)
    decreases |toks| - i
  {
    if Is(toks, i, Name) && Is(toks, i + 1, sep) { NamesExact(toks, i + 2, sep); }
  }

  lemma NameListExact(toks: seq<Token>, i: nat, sep: Kind)
    ensures forall j :: NameListAt(toks, i, sep) == Read(true, j) <==> IsNameList(toks, i, sep, j)
  {
    hide NamesFrom, IsNames;
    NamesExact(toks, if Is(toks, i, sep) then i + 1 else i, sep);
  }

  lemma RestExact(toks: seq<Token>, i: nat)
    ensures forall j :: OptionalBodyAt(toks, i) == Read(true, j) <==> IsRest(toks, i, j)
  {
    hide DirectivesAt, IsDirectives, OptionalGroupAt, MaybeGroup;
    DirectivesExact(toks, i);
    var d := DirectivesAt(toks, i);
    if d.ok { MaybeGroupExact(toks, d.at, BraceL); }
  }

  lemma ScalarExact(toks: seq<Token>, i: nat)
    ensures forall j :: ScalarAt(toks, i) == Read(true, j) <==> IsScalar(toks, i, j)
  {
    hide DirectivesAt, IsDirectives;
    DirectivesExact(toks, i + 1);
  }

  lemma UnionExact(toks: seq<Token>, i: nat)
    ensures forall j :: UnionAt(toks, i) == Read(true, j) <==> IsUnion(toks, i, j)
  {
    hide ScalarAt, IsScalar, NameListAt, IsNameList;
    ScalarExact(toks, i);
    var d := ScalarAt(toks, i);
    if d.ok && Is(toks, d.at, Equals) { NameListExact(toks, d.at + 1, Pipe); }
  }

  lemma ObjectExact(toks: seq<Token>, i: nat)
    ensures forall j :: ObjectAt(toks, i) == Read(true, j) <==> IsObject(toks, i, j)
  {
    hide OptionalBodyAt, IsRest, NameListAt, IsNameList;
    if IsWord(toks, i + 1, "implements") {
      NameListExact(toks, i + 2, Amp);
      var list := NameListAt(toks, i + 2, Amp);
      if list.ok { RestExact(toks, list.at); }
    } else {
      RestExact(toks, i + 1);
    }
  }

  lemma DirectiveExact(toks: seq<Token>, i: nat)
    ensures forall j :: DirectiveAt(toks, i) == Read(true, j) <==> IsDirectiveDefinition(toks, i, j)
  {
    hide OptionalGroupAt, MaybeGroup, NameListAt, IsNameList;
    MaybeGroupExact(toks, i + 2, ParenL);
    var args := OptionalGroupAt(toks, i + 2, ParenL);
    if args.ok { NameListExact(toks, (if IsWord(toks, args.at, "repeatable") then args.at + 1 else args.at) + 1, Pipe); }
  }

  lemma DefinedExact(toks: seq<Token>, keyword: string, i: nat)
    requires keyword in TYPE_SYSTEM_KEYWORDS && keyword != "extend"
    ensures forall j :: DefinedBy(toks, keyword, i) == Read(true, j) <==> IsDefined(toks, keyword, i, j)
  {
    hide OptionalBodyAt, IsRest, ScalarAt, IsScalar, ObjectAt, IsObject, UnionAt, IsUnion, DirectiveAt, IsDirectiveDefinition;
    RestExact(toks, i);
    RestExact(toks, i + 1);
    ScalarExact(toks, i);
    ObjectExact(toks, i);
    UnionExact(toks, i);
    DirectiveExact(toks, i);
  }

  /** A type-system definition reads exactly as the grammar has it. */
  lemma TypeSystemExact(toks: seq<Token>, i: nat)
    requires IsKeyword(toks, i)
    ensures forall j :: TypeSystemAt(toks, i) == Read(true, j) <==> IsTypeSystem(toks, i, j)
  {
    hide DefinedBy, IsDefined;
    DefinedKeyword(toks, i + 1);
    DefinedKeyword(toks, i + 2);
    if toks[i].value != "extend" {
      DefinedExact(toks, toks[i].value, i + 1);
    } else if IsKeyword(toks, i + 1) && toks[i + 1].value != "directive" && toks[i + 1].value != "extend" {
      DefinedExact(toks, toks[i + 1].value, i + 2);
    }
  }

  lemma DefinedKeyword(toks: seq<Token>, i: nat)
    ensures forall keyword, j :: IsDefined(toks, keyword, i, j) ==> keyword in TYPE_SYSTEM_KEYWORDS && keyword != "extend"
  {
    hide IsRest, IsScalar, IsObject, IsUnion, IsNamedRest, IsDirectiveDefinition;
    assert "extend"[0] == 'e' && "extend"[1] == 'x' && "enum"[1] == 'n' && "schema"[0] == 's' && "scalar"[0] == 's' && "type"[0] == 't'
           && "interface"[0] == 'i' && "union"[0] == 'u' && "input"[0] == 'i' && "directive"[0] == 'd';
  }

  // ---- Where a type-system definition breaks off ----

  // Each relation gives the first token that does not fit: a missing one, or
  // the end of the document inside brackets.

  ghost predicate GroupBreaks(toks: seq<Token>, kind: Kind, i: nat, at: nat) {
    Is(toks, i, kind) && (forall j :: !Closed(toks, i, j)) && at == |toks| - 1
  }

  ghost predicate DirectivesBreak(toks: seq<Token>, i: nat, at: nat)
    decreases |toks| - i
  {
    Is(toks, i, At_) &&
    if !Is(toks, i + 1, Name) then at == i + 1
    else GroupBreaks(toks, ParenL, i + 2, at) || exists m: nat :: i < m && IsDirective(toks, i, m) && DirectivesBreak(toks, m, at)
  }

  ghost predicate NamesBreak(toks: seq<Token>, i: nat, sep: Kind, at: nat)
    decreases |toks| - i
  {
    if !Is(toks, i, Name) then at == i else Is(toks, i + 1, sep) && NamesBreak(toks, i + 2, sep, at)
  }

  ghost predicate NameListBreaks(toks: seq<Token>, i: nat, sep: Kind, at: nat) {
    NamesBreak(toks, if Is(toks, i, sep) then i + 1 else i, sep, at)
  }

  ghost predicate RestBreaks(toks: seq<Token>, i: nat, at: nat) {
    DirectivesBreak(toks, i, at) || exists m: nat :: IsDirectives(toks, i, m) && GroupBreaks(toks, BraceL, m, at)
  }

  ghost predicate ScalarBreaks(toks: seq<Token>, i: nat, at: nat) {
    if !Is(toks, i, Name) then at == i else DirectivesBreak(toks, i + 1, at)
  }

  ghost predicate UnionBreaks(toks: seq<Token>, i: nat, at: nat) {
    || ScalarBreaks(toks, i, at)
    || exists m: nat :: IsScalar(toks, i, m) && Is(toks, m, Equals) && NameListBreaks(toks, m + 1, Pipe, at)
  }

  ghost predicate ObjectBreaks(toks: seq<Token>, i: nat, at: nat) {
    if !Is(toks, i, Name) then at == i
    else if IsWord(toks, i + 1, "implements") then
      NameListBreaks(toks, i + 2, Amp, at) || exists m: nat :: IsNameList(toks, i + 2, Amp, m) && RestBreaks(toks, m, at)
    else RestBreaks(toks, i + 1, at)
  }

  ghost predicate NamedRestBreaks(toks: seq<Token>, i: nat, at: nat) {
    if !Is(toks, i, Name) then at == i else RestBreaks(toks, i + 1, at)
  }

  ghost predicate LocatedBreaks(toks: seq<Token>, i: nat, at: nat) {
    if !IsWord(toks, i, "on") then at == i else NameListBreaks(toks, i + 1, Pipe, at)
  }

  ghost predicate DirectiveDefinitionBreaks(toks: seq<Token>, i: nat, at: nat) {
    if !Is(toks, i, At_) then at == i
    else if !Is(toks, i + 1, Name) then at == i + 1
    else
      || GroupBreaks(toks, ParenL, i + 2, at)
      || exists m: nat :: MaybeGroup(toks, ParenL, i + 2, m) && LocatedBreaks(toks, if IsWord(toks, m, "repeatable") then m + 1 else m, at)
  }

  ghost predicate DefinedBreaks(toks: seq<Token>, keyword: string, i: nat, at: nat) {
    || (keyword == "schema" && RestBreaks(toks, i, at))
    || (keyword == "scalar" && ScalarBreaks(toks, i, at))
    || (keyword in {"type", "interface"} && ObjectBreaks(toks, i, at))
    || (keyword == "union" && UnionBreaks(toks, i, at))
    || (keyword in {"enum", "input"} && NamedRestBreaks(toks, i, at))
    || (keyword == "directive" && DirectiveDefinitionBreaks(toks, i, at))
  }

  /** The definition or extension at i breaks off at that token. */
  ghost predicate TypeSystemBreaks(toks: seq<Token>, i: nat, at: nat) {
    Is(toks, i, Name) &&
    if toks[i].value != "extend" then DefinedBreaks(toks, toks[i].value, i + 1, at)
    else if KeywordAt(toks, i + 1) && toks[i + 1].value !in {"directive", "extend"} then DefinedBreaks(toks, toks[i + 1].value, i + 2, at)
    else at == i + 1
  }

  lemma {:induction false} UnclosedEnds(toks: seq<Token>, from: nat, i: nat)
    requires from <= i < |toks| && Bracket(toks[from].kind) == 1 && !GroupFrom(toks, from, i).ok
    requires forall j :: from < j <= i ==> Open(toks, from, j) > 0
    ensures GroupFrom(toks, from, i).at == |toks| - 1
    decreases |toks| - i
  {
    assert Open(toks, from, from) == 0;
    if i + 1 < |toks| {
      assert Open(toks, from, i + 1) == Open(toks, from, i) + Bracket(toks[i].kind);
      UnclosedEnds(toks, from, i + 1);
    }
  }

  lemma {:induction false} GroupBreakExact(toks: seq<Token>, i: nat, kind: Kind)
    requires Bracket(kind) == 1
    ensures forall at :: OptionalGroupAt(toks, i, kind) == Read(false, at) <==> GroupBreaks(toks, kind, i, at)
  {
    hide Closed, GroupFrom, Open;
    if Is(toks, i, kind) {
      GroupExact(toks, i);
      var g := GroupAt(toks, i);
      if g.ok { assert Closed(toks, i, g.at); } else { UnclosedEnds(toks, i, i); }
    }
  }

  lemma {:induction false} DirectivesBreakExact(toks: seq<Token>, i: nat)
    ensures forall at :: DirectivesAt(toks, i) == Read(false, at) <==> DirectivesBreak(toks, i, at)
    decreases |toks| - i
  {
    hide OptionalGroupAt, MaybeGroup, GroupBreaks;
    if Is(toks, i, At_) {
      MaybeGroupExact(toks, i + 2, ParenL);
      GroupBreakExact(toks, i + 2, ParenL);
      var args := OptionalGroupAt(toks, i + 2, ParenL);
      if Is(toks, i + 1, Name) && args.ok { DirectivesBreakExact(toks, args.at); }
    }
  }

  lemma {:induction false} NamesBreakExact(toks: seq<Token>, i: nat, sep: Kind)
    ensures forall at :: NamesFrom(toks, i, sep) == Read(false, at) <==> NamesBreak(toks, i, sep, at)
    decreases |toks| - i
  {
    if Is(toks, i, Name) && Is(toks, i + 1, sep) { NamesBreakExact(toks, i + 2, sep); }
  }

  lemma NameListBreakExact(toks: seq<Token>, i: nat, sep: Kind)
    ensures forall at :: NameListAt(toks, i, sep) == Read(false, at) <==> NameListBreaks(toks, i, sep, at)
  {
    hide NamesFrom, NamesBreak;
    NamesBreakExact(toks, if Is(toks, i, sep) then i + 1 else i, sep);
  }

  lemma RestBreakExact(toks: seq<Token>, i: nat)
    ensures forall at :: OptionalBodyAt(toks, i) == Read(false, at) <==> RestBreaks(toks, i, at)
  {
    hide DirectivesAt, IsDirectives, DirectivesBreak, OptionalGroupAt, GroupBreaks;
    DirectivesExact(toks, i);
    DirectivesBreakExact(toks, i);
    var d := DirectivesAt(toks, i);
    if d.ok { GroupBreakExact(toks, d.at, BraceL); }
  }

  lemma ScalarBreakExact(toks: seq<Token>, i: nat)
    ensures forall at :: ScalarAt(toks, i) == Read(false, at) <==> ScalarBreaks(toks, i, at)
  {
    hide DirectivesAt, DirectivesBreak;
    DirectivesBreakExact(toks, i + 1);
  }

  lemma UnionBreakExact(toks: seq<Token>, i: nat)
    ensures forall at :: UnionAt(toks, i) == Read(false, at) <==> UnionBreaks(toks, i, at)
  {
    hide ScalarAt, IsScalar, ScalarBreaks, NameListAt, NameListBreaks;
    ScalarExact(toks, i);
    ScalarBreakExact(toks, i);
    var d := ScalarAt(toks, i);
    if d.ok && Is(toks, d.at, Equals) { NameListBreakExact(toks, d.at + 1, Pipe); }
  }

  lemma ObjectBreakExact(toks: seq<Token>, i: nat)
    ensures forall at :: ObjectAt(toks, i) == Read(false, at) <==> ObjectBreaks(toks, i, at)
  {
    hide OptionalBodyAt, RestBreaks, NameListAt, IsNameList, NameListBreaks;
    if IsWord(toks, i + 1, "implements") {
      NameListExact(toks, i + 2, Amp);
      NameListBreakExact(toks, i + 2, Amp);
      var list := NameListAt(toks, i + 2, Amp);
      if list.ok { RestBreakExact(toks, list.at); }
    } else {
      RestBreakExact(toks, i + 1);
    }
  }

  lemma DirectiveBreakExact(toks: seq<Token>, i: nat)
    ensures forall at :: DirectiveAt(toks, i) == Read(false, at) <==> DirectiveDefinitionBreaks(toks, i, at)
  {
    hide OptionalGroupAt, MaybeGroup, GroupBreaks, NameListAt, NameListBreaks;
    MaybeGroupExact(toks, i + 2, ParenL);
    GroupBreakExact(toks, i + 2, ParenL);
    var args := OptionalGroupAt(toks, i + 2, ParenL);
    if args.ok { NameListBreakExact(toks, (if IsWord(toks, args.at, "repeatable") then args.at + 1 else args.at) + 1, Pipe); }
  }

  lemma DefinedBreakExact(toks: seq<Token>, keyword: string, i: nat)
    requires keyword in TYPE_SYSTEM_KEYWORDS && keyword != "extend"
    ensures forall at :: DefinedBy(toks, keyword, i) == Read(false, at) <==> DefinedBreaks(toks, keyword, i, at)
  {
    hide OptionalBodyAt, RestBreaks, ScalarAt, ScalarBreaks, ObjectAt, ObjectBreaks, UnionAt, UnionBreaks, DirectiveAt, DirectiveDefinitionBreaks;
    RestBreakExact(toks, i);
    RestBreakExact(toks, i + 1);
    ScalarBreakExact(toks, i);
    ObjectBreakExact(toks, i);
    UnionBreakExact(toks, i);
    DirectiveBreakExact(toks, i);
  }

  /** One that does not read stops exactly at the first token that does not fit. */
  lemma TypeSystemBreakExact(toks: seq<Token>, i: nat)
    requires IsKeyword(toks, i)
    ensures forall at :: TypeSystemAt(toks, i) == Read(false, at) <==> TypeSystemBreaks(toks, i, at)
  {
    hide DefinedBy, DefinedBreaks, KeywordAt;
    HeadsAre(toks, i + 1);
    if toks[i].value != "extend" {
      DefinedBreakExact(toks, toks[i].value, i + 1);
    } else if IsKeyword(toks, i + 1) && toks[i + 1].value != "directive" && toks[i + 1].value != "extend" {
      DefinedBreakExact(toks, toks[i + 1].value, i + 2);
    }
  }

  // ---- Executable definitions ----

  ghost predicate IsVariable(toks: seq<Token>, i: nat, j: nat) {
    var n := HeadAt(toks, i);
    && Is(toks, n, Dollar) && Is(toks, n + 1, Name) && Is(toks, n + 2, Colon)
    && IsTypedPart(toks, n + 3, j)
  }

  /** A type, a default if there is one, and directives. */
  ghost predicate IsTypedPart(toks: seq<Token>, i: nat, j: nat) {
    exists t: nat, d: nat :: IsTypeRef(toks, i, t) && IsDefault(toks, t, d) && IsDirectives(toks, d, j)
  }

  ghost predicate IsDefault(toks: seq<Token>, i: nat, j: nat) { if Is(toks, i, Equals) then IsValue(toks, i + 1, j) else j == i }

  /** Variables up to the closing parenthesis. */
  ghost predicate IsVariables(toks: seq<Token>, i: nat, j: nat)
    decreases |toks| - i
  {
    if Is(toks, i, ParenR) then j == i + 1
    else i < |toks| && exists m: nat :: i < m && IsVariable(toks, i, m) && IsVariables(toks, m, j)
  }

  ghost predicate IsVariableGroup(toks: seq<Token>, i: nat, j: nat) { if Is(toks, i, ParenL) then IsVariables(toks, i + 1, j) else j == i }

  ghost predicate IsSelectionSet(toks: seq<Token>, i: nat, j: nat) { Is(toks, i, BraceL) && Closed(toks, i, j) }

  /** An operation up to its selection set. */
  ghost predicate IsOperationHead(toks: seq<Token>, head: nat, body: nat) {
    (IsWord(toks, head, "query") || IsWord(toks, head, "mutation") || IsWord(toks, head, "subscription"))
    && exists g: nat, v: nat :: Maybe(toks, Name, head + 1, g) && IsVariableGroup(toks, g, v) && IsDirectives(toks, v, body)
  }

  ghost predicate IsFragmentHead(toks: seq<Token>, head: nat, body: nat) {
    && IsWord(toks, head, "fragment") && Is(toks, head + 1, Name) && IsWord(toks, head + 2, "on") && Is(toks, head + 3, Name)
    && IsDirectives(toks, head + 4, body)
  }

  ghost predicate IsDefinition(toks: seq<Token>, r: Region) {
    var head := HeadAt(toks, r.from);
    match r
    case Typed(from, to) => IsTypeSystem(toks, head, to)
    case Executable(from, to, body, inner, own) =>
      && (IsOperationHead(toks, head, body) || IsFragmentHead(toks, head, body) || head == from == body)
      && IsSelectionSet(toks, body, to)
      && own == (if TextAt(toks, from) then Some(from) else None)
      && (forall k :: k in inner <==> IsVariableText(toks, head, k))
      && (forall a, b :: 0 <= a < b < |inner| ==> inner[a] < inner[b])
  }

  lemma {:induction false} DefaultExact(toks: seq<Token>, i: nat)
    ensures forall j :: DefaultAt(toks, i) == Read(true, j) <==> IsDefault(toks, i, j)
  {
    hide ValueAt, IsValue;
    ValueExact(toks, i + 1);
  }

  lemma {:induction false} TypedPartExact(toks: seq<Token>, i: nat)
    ensures forall j :: IsTypedPart(toks, i, j) <==>
      && TypeRefAt(toks, i).ok && DefaultAt(toks, TypeRefAt(toks, i).at).ok
      && DirectivesAt(toks, DefaultAt(toks, TypeRefAt(toks, i).at).at) == Read(true, j)
  {
    hide TypeRefAt, IsTypeRef, DefaultAt, IsDefault, DirectivesAt, IsDirectives;
    var t := TypeRefAt(toks, i);
    TypeRefExact(toks, i);
    if t.ok {
      var d := DefaultAt(toks, t.at);
      DefaultExact(toks, t.at);
      if d.ok { DirectivesExact(toks, d.at); }
    }
  }

  lemma {:induction false} VariableExact(toks: seq<Token>, i: nat)
    ensures forall j :: VariableAt(toks, i) == Read(true, j) <==> IsVariable(toks, i, j)
  {
    hide TypeRefAt, DefaultAt, DirectivesAt, IsTypedPart;
    TypedPartExact(toks, (if IsTextAt(toks, i) then i + 1 else i) + 3);
  }

  lemma {:induction false} VariablesExact(toks: seq<Token>, i: nat)
    ensures forall j :: VariablesFrom(toks, i).read == Read(true, j) <==> IsVariables(toks, i, j)
    decreases |toks| - i
  {
    hide VariableAt, IsVariable;
    if !Is(toks, i, ParenR) {
      VariableExact(toks, i);
      var v := VariableAt(toks, i);
      if v.ok { VariablesExact(toks, v.at); }
    }
  }

  lemma {:induction false} SelectionSetExact(toks: seq<Token>, i: nat)
    ensures forall j :: SelectionSetAt(toks, i) == Read(true, j) <==> IsSelectionSet(toks, i, j)
  {
    hide GroupAt, Closed;
    if Is(toks, i, BraceL) { GroupExact(toks, i); }
  }

  /** Where the head of an operation ends, if it reads. */
  function OperationHeadAt(toks: seq<Token>, head: nat): Read {
    var vars := VariablesAt(toks, GroupStart(toks, head));
    if vars.read.ok then DirectivesAt(toks, vars.read.at) else vars.read
  }

  lemma {:induction false} OperationHeadExact(toks: seq<Token>, head: nat)
    requires IsOperation(toks, head)
    ensures forall body :: OperationHeadAt(toks, head) == Read(true, body) <==> IsOperationHead(toks, head, body)
  {
    hide VariablesFrom, IsVariables, DirectivesAt, IsDirectives;
    var g := GroupStart(toks, head);
    VariablesExact(toks, g + 1);
    var vars := VariablesAt(toks, g);
    assert forall v :: vars.read == Read(true, v) <==> IsVariableGroup(toks, g, v);
    if vars.read.ok { DirectivesExact(toks, vars.read.at); }
  }

  lemma {:induction false} FragmentHeadExact(toks: seq<Token>, head: nat)
    requires IsWord(toks, head, "fragment")
    ensures forall body :: FragmentHeadAt(toks, head) == Read(true, body) <==> IsFragmentHead(toks, head, body)
  {
    hide DirectivesAt, IsDirectives;
    DirectivesExact(toks, head + 4);
  }

  // ---- The whole document ----

  lemma KeywordsApart(toks: seq<Token>, head: nat)
    requires IsKeyword(toks, head)
    ensures !IsOperation(toks, head) && !IsWord(toks, head, "fragment")
  {
    assert "query"[0] == 'q' && "mutation"[0] == 'm' && "fragment"[0] == 'f';
    assert |"subscription"| == 12 && |"schema"| == 6 && |"scalar"| == 6 && |"type"| == 4 && |"interface"| == 9 && |"union"| == 5
           && |"enum"| == 4 && |"input"| == 5 && |"directive"| == 9 && |"extend"| == 6;
    assert "schema"[0] == 's' && "scalar"[0] == 's' && "type"[0] == 't' && "interface"[0] == 'i' && "union"[0] == 'u'
           && "enum"[0] == 'e' && "input"[0] == 'i' && "directive"[0] == 'd' && "extend"[0] == 'e';
  }

  lemma OperationsApart(toks: seq<Token>, head: nat)
    requires IsOperation(toks, head)
    ensures !IsWord(toks, head, "fragment")
  {
    assert "query"[0] == 'q' && "mutation"[0] == 'm' && "subscription"[0] == 's' && "fragment"[0] == 'f';
  }

  /** The executable definition that begins at i with this head, body and end. */
  ghost predicate Begins(toks: seq<Token>, i: nat, body: nat, j: nat) {
    var head := HeadOf(toks, i);
    (IsOperationHead(toks, head, body) || IsFragmentHead(toks, head, body) || head == i == body) && IsSelectionSet(toks, body, j)
  }

  lemma {:induction false} ExecutableExact(toks: seq<Token>, i: nat)
    requires i + 1 < |toks|
    ensures var d := DefinitionAt(toks, i);
      && (d.Met? && d.region.Executable? ==> Begins(toks, i, d.region.body, d.region.to))
      && (forall body, j :: Begins(toks, i, body, j) ==> d.Met? && d.region.Executable? && d.region.body == body && d.region.to == j)
  {
    hide VariablesAt, DirectivesAt, SelectionSetAt, FragmentHeadAt, TypeSystemAt, IsOperation, IsKeyword, IsDirectives, IsSelectionSet;
    hide IsVariableGroup, GroupStart, IsOperationHead, IsFragmentHead;
    var head := HeadOf(toks, i);
    HeadKinds(toks, head);
    SelectionSetHead(toks);
    if Is(toks, head, BraceL) {
      SelectionSetExact(toks, i);
    } else if IsOperation(toks, head) {
      OperationHeadExact(toks, head);
      var h := OperationHeadAt(toks, head);
      if h.ok { SelectionSetExact(toks, h.at); }
    } else if IsWord(toks, head, "fragment") {
      FragmentHeadExact(toks, head);
      var h := FragmentHeadAt(toks, head);
      if h.ok { SelectionSetExact(toks, h.at); }
    }
  }

  lemma HeadKinds(toks: seq<Token>, head: nat)
    ensures IsOperation(toks, head) ==> Is(toks, head, Name) && !IsWord(toks, head, "fragment") && !IsKeyword(toks, head)
    ensures IsWord(toks, head, "fragment") ==> Is(toks, head, Name) && !IsKeyword(toks, head)
    ensures IsKeyword(toks, head) ==> Is(toks, head, Name)
    ensures forall body :: IsOperationHead(toks, head, body) ==> IsOperation(toks, head)
    ensures forall body :: IsFragmentHead(toks, head, body) ==> IsWord(toks, head, "fragment")
  {
    hide IsDirectives, IsVariableGroup;
    if IsOperation(toks, head) { OperationsApart(toks, head); }
    if IsKeyword(toks, head) { KeywordsApart(toks, head); }
  }

  lemma SelectionSetHead(toks: seq<Token>)
    ensures forall i, j :: IsSelectionSet(toks, i, j) ==> Is(toks, i, BraceL)
  {
    hide Closed;
  }

  lemma {:induction false} TypedExact(toks: seq<Token>, i: nat)
    requires i + 1 < |toks|
    ensures var d, head := DefinitionAt(toks, i), HeadOf(toks, i);
      && (forall j :: d == Met(Typed(i, j)) <==> IsTypeSystem(toks, head, j))
      && (forall at :: d == PassedOver(at) <==> IsKeyword(toks, head) && TypeSystemBreaks(toks, head, at))
  {
    hide VariablesAt, DirectivesAt, FragmentHeadAt, SelectionSetAt, TypeSystemAt, IsOperation, IsDefined;
    var head := HeadOf(toks, i);
    HeadKinds(toks, head);
    TypeSystemHead(toks, head);
    if IsKeyword(toks, head) {
      TypeSystemExact(toks, head);
      TypeSystemBreakExact(toks, head);
    }
  }

  lemma TypeSystemHead(toks: seq<Token>, head: nat)
    ensures forall j :: IsTypeSystem(toks, head, j) ==> IsKeyword(toks, head)
  {
    hide IsDefined;
    DefinedKeyword(toks, head + 1);
  }

  /** A definition is met exactly where one stands, as it stands there. */
  lemma {:induction false} DefinitionExact(toks: seq<Token>, i: nat)
    requires i + 1 < |toks|
    ensures forall r: Region :: DefinitionAt(toks, i) == Met(r) <==> r.from == i && IsDefinition(toks, r)
  {
    hide DefinitionAt, IsTypeSystem, IsOperationHead, IsFragmentHead, IsSelectionSet, IsVariableText, HeadAt, TextAt;
    HeadsAre(toks, i);
    TypedExact(toks, i);
    ExecutableExact(toks, i);
    var d := DefinitionAt(toks, i);
    DefinitionIn(toks, i);
    if d.Met? { MetDefines(toks, i); }
    forall r: Region | r.from == i && IsDefinition(toks, r) ensures d == Met(r) {
      if r.Executable? {
        assert Begins(toks, i, r.body, r.to);
        MetIs(toks, d.region, r);
      }
    }
    forall r: Region | d == Met(r) ensures r.from == i && IsDefinition(toks, r) {
      if r.Executable? {
        assert Begins(toks, i, r.body, r.to);
        DefinedIs(toks, r);
      } else {
        assert d == Met(Typed(i, r.to));
      }
    }
  }

  lemma {:induction false} MetIs(toks: seq<Token>, d: Region, r: Region)
    requires Defines(toks, d) && IsDefinition(toks, r) && d.Executable? && r.Executable?
    requires d.from == r.from && d.body == r.body && d.to == r.to
    ensures d == r
  {
    hide IsVariableText, IsBody, IsOperationHead, IsFragmentHead, IsSelectionSet, IsOperation, Shut, HeadAt, TextAt;
    HeadsAre(toks, r.from);
    SameRise(d.inner, r.inner);
  }

  lemma {:induction false} DefinedIs(toks: seq<Token>, r: Region)
    requires Defines(toks, r) && r.Executable? && Begins(toks, r.from, r.body, r.to)
    ensures IsDefinition(toks, r)
  {
    hide IsVariableText, IsBody, IsOperationHead, IsFragmentHead, IsSelectionSet, IsOperation, Shut, HeadAt, TextAt;
    HeadsAre(toks, r.from);
  }

  /** The tokens from i on are these definitions, one behind the other, save
      type-system definitions that break off. Such a one is passed over up to the
      token that does not fit. */
  ghost predicate AreDefinitions(toks: seq<Token>, i: nat, regions: seq<Region>)
    decreases |toks| - i
  {
    if i + 1 >= |toks| then regions == []
    else
      || (regions != [] && regions[0].from == i < regions[0].to && IsDefinition(toks, regions[0])
          && AreDefinitions(toks, regions[0].to, regions[1..]))
      || (KeywordAt(toks, HeadAt(toks, i)) && exists at: nat ::
            i < at && TypeSystemBreaks(toks, HeadAt(toks, i), at) && AreDefinitions(toks, at, regions))
  }

  /** A document is split exactly into the definitions the grammar finds, and
      refused exactly when it is not made of them. */
  lemma {:induction false} DocumentExact(toks: seq<Token>, i: nat)
    ensures forall regions :: RegionsFrom(toks, i) == Some(regions) <==> AreDefinitions(toks, i, regions)
    decreases |toks| - i
  {
    hide DefinitionAt, TypeSystemAt, IsDefinition, IsTypeSystem, TypeSystemBreaks, IsKeyword, KeywordAt, HeadAt;
    if i + 1 < |toks| {
      HeadsAre(toks, i);
      HeadsAre(toks, HeadOf(toks, i));
      DefinitionExact(toks, i);
      TypedExact(toks, i);
      var d := DefinitionAt(toks, i);
      match d {
        case Unread =>
          forall regions ensures !AreDefinitions(toks, i, regions) {}
        case PassedOver(at) =>
          DefinitionIn(toks, i);
          DocumentExact(toks, at);
        case Met(r) =>
          DocumentExact(toks, r.to);
          forall regions ensures RegionsFrom(toks, i) == Some(regions) <==> AreDefinitions(toks, i, regions) {
            if regions != [] && regions[0] == r { assert regions == [r] + regions[1..]; }
          }
      }
    }
  }
}
