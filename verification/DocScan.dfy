/** The document scanner (ftv-graphql-mapper/docscan.go): it splits a GraphQL
    document into what the query parser reads, what the schema parser reads,
    and descriptions, and blanks each text rune by rune. */
module DocScan {
  import opened Base
  import opened DocGrammar
  import opened DocLaws

  datatype Span = Span(start: nat, end: nat)

  // ---- Blanking ----

  predicate Covers(spans: seq<Span>, p: nat) {
    exists k :: 0 <= k < |spans| && spans[k].start <= p < spans[k].end
  }

  predicate IsNewline(c: char) { c == '\n' || c == '\r' }

  /** What becomes of one rune. */
  function Blanked(c: char, covered: bool, inside: bool): char {
    if covered == inside && !IsNewline(c) then ' ' else c
  }

  /** blank */
  method Blank(runes: seq<char>, a: seq<Span>, b: seq<Span>, inside: bool) returns (text: seq<char>)
    ensures |text| == |runes|
    ensures forall p :: 0 <= p < |runes| ==> text[p] == Blanked(runes[p], Covers(a + b, p), inside)
  {
    var marked := new bool[|runes|](_ => false);
    var spans := a + b;
    var k := 0;
    while k < |spans|
      invariant k <= |spans|
      invariant forall p :: 0 <= p < |runes| ==> (marked[p] <==> Covers(spans[..k], p))
    {
      var p := spans[k].start;
      while p < spans[k].end && p < |runes|
        invariant spans[k].start <= p
        invariant forall q :: 0 <= q < |runes| ==> (marked[q] <==> Covers(spans[..k], q) || (spans[k].start <= q < p && q < spans[k].end))
      {
        marked[p] := true;
        p := p + 1;
      }
      forall q | 0 <= q < |runes| ensures marked[q] <==> Covers(spans[..k + 1], q) {
        CoversMore(spans, k, q);
      }
      k := k + 1;
    }
    assert spans[..k] == spans;
    text := seq(|runes|, p requires 0 <= p < |runes| reads marked => Blanked(runes[p], marked[p], inside));
  }

  lemma {:induction false} CoversMore(spans: seq<Span>, k: nat, q: nat)
    requires k < |spans|
    ensures Covers(spans[..k + 1], q) <==> Covers(spans[..k], q) || spans[k].start <= q < spans[k].end
  {
    assert spans[..k + 1] == spans[..k] + [spans[k]];
    CoversApart(spans[..k], spans[k], q);
  }

  lemma {:induction false} CoversApart(spans: seq<Span>, last: Span, q: nat)
    ensures Covers(spans + [last], q) <==> Covers(spans, q) || last.start <= q < last.end
  {
    var all := spans + [last];
    if Covers(spans, q) {
      var j :| 0 <= j < |spans| && spans[j].start <= q < spans[j].end;
      assert all[j] == spans[j];
    }
    if last.start <= q < last.end { assert all[|spans|] == last; }
  }

  // ---- Regions of a scanned document ----

  function TokenSpan(t: Token): Span { Span(t.start, t.end) }

  /** The type-system definitions, from the start of the first token to the end
      of the last. */
  function TypedSpans(toks: seq<Token>, regions: seq<Region>): seq<Span>
    requires forall k :: 0 <= k < |regions| ==> regions[k].from < regions[k].to < |toks|
  {
    if regions == [] then []
    else
      var last, before := regions[|regions| - 1], TypedSpans(toks, regions[..|regions| - 1]);
      if last.Typed? then before + [Span(toks[last.from].start, toks[last.to - 1].end)] else before
  }

  /** The described tokens of one region, in the order they are recorded. */
  function RegionTexts(r: Region): seq<nat> {
    if r.Typed? then [] else r.inner + (if r.own.Some? then [r.own.value] else [])
  }

  function Texts(regions: seq<Region>): seq<nat> {
    if regions == [] then []
    else Texts(regions[..|regions| - 1]) + RegionTexts(regions[|regions| - 1])
  }

  function SpansOf(toks: seq<Token>, ks: seq<nat>): (r: seq<Span>)
    requires forall i :: 0 <= i < |ks| ==> ks[i] < |toks|
    ensures |r| == |ks| && forall i :: 0 <= i < |r| ==> r[i] == TokenSpan(toks[ks[i]])
  {
    seq(|ks|, i requires 0 <= i < |ks| => TokenSpan(toks[ks[i]]))
  }

  /** The aliases of every selection set. */
  function AllAliases(toks: seq<Token>, regions: seq<Region>): set<(nat, nat)>
    requires forall k :: 0 <= k < |regions| ==> regions[k].from < regions[k].to < |toks|
  {
    if regions == [] then {}
    else
      var last, before := regions[|regions| - 1], AllAliases(toks, regions[..|regions| - 1]);
      if last.Executable? then before + AliasesIn(toks, last.body, last.to) else before
  }

  ghost predicate InTyped(regions: seq<Region>, t: nat) {
    exists k :: 0 <= k < |regions| && regions[k].Typed? && regions[k].from <= t < regions[k].to
  }

  ghost predicate IsDescription(regions: seq<Region>, t: nat) {
    exists k :: 0 <= k < |regions| && t in RegionTexts(regions[k])
  }

  lemma {:induction false} TextsFrom(regions: seq<Region>)
    ensures forall t :: t in Texts(regions) <==> IsDescription(regions, t)
    decreases |regions|
  {
    hide RegionTexts;
    if regions != [] {
      var n := |regions| - 1;
      TextsFrom(regions[..n]);
      forall t ensures t in Texts(regions) <==> IsDescription(regions, t) {
        if t in Texts(regions[..n]) {
          var k :| 0 <= k < n && t in RegionTexts(regions[..n][k]);
          assert t in RegionTexts(regions[k]);
        }
        if k :| 0 <= k < |regions| && t in RegionTexts(regions[k]) {
          if k < n { assert regions[..n][k] == regions[k]; }
        }
      }
    }
  }

  lemma {:induction false} PrefixOk(toks: seq<Token>, regions: seq<Region>, end: nat)
    requires RegionsOk(toks, regions, end) && regions != []
    ensures RegionsOk(toks, regions[..|regions| - 1], end)
  {
    hide RegionOk;
  }

  /** A rune of a token is blanked with the type system exactly when the token
      belongs to one of its definitions. */
  lemma {:induction false} TypedCovers(toks: seq<Token>, regions: seq<Region>, end: nat, t: nat, p: nat)
    requires TokensOk(toks) && RegionsOk(toks, regions, end) && t < |toks| - 1 && toks[t].start <= p < toks[t].end
    ensures Covers(TypedSpans(toks, regions), p) <==> InTyped(regions, t)
    decreases |regions|
  {
    if regions != [] {
      var n := |regions| - 1;
      var last, spans, before := regions[n], TypedSpans(toks, regions), TypedSpans(toks, regions[..n]);
      PrefixOk(toks, regions, end);
      TypedCovers(toks, regions[..n], end, t, p);
      InTypedMore(regions, t);
      if last.Typed? {
        CoversMore(spans, |spans| - 1, p);
        assert spans[..|spans| - 1] == before && spans[..|spans| - 1 + 1] == spans;
        SpanHolds(toks, last.from, last.to, t, p);
      }
    }
  }

  lemma {:induction false} InTypedMore(regions: seq<Region>, t: nat)
    requires regions != []
    ensures var last := regions[|regions| - 1];
      InTyped(regions, t) <==> InTyped(regions[..|regions| - 1], t) || (last.Typed? && last.from <= t < last.to)
  {
    var n := |regions| - 1;
    if k :| 0 <= k < n && regions[..n][k].Typed? && regions[..n][k].from <= t < regions[..n][k].to {
      assert regions[k] == regions[..n][k];
    }
    if k :| 0 <= k < |regions| && regions[k].Typed? && regions[k].from <= t < regions[k].to {
      if k < n { assert regions[..n][k] == regions[k]; }
    }
  }

  lemma {:induction false} SpanHolds(toks: seq<Token>, from: nat, to: nat, t: nat, p: nat)
    requires TokensOk(toks) && from < to < |toks| && t < |toks| - 1 && toks[t].start <= p < toks[t].end
    ensures toks[from].start <= p < toks[to - 1].end <==> from <= t < to
  {}

  /** A rune of a token is blanked as a description exactly when the token is
      one. */
  lemma {:induction false} TextCovers(toks: seq<Token>, ks: seq<nat>, t: nat, p: nat)
    requires TokensOk(toks) && t < |toks| - 1 && toks[t].start <= p < toks[t].end
    requires forall i :: 0 <= i < |ks| ==> ks[i] < |toks| - 1
    ensures Covers(SpansOf(toks, ks), p) <==> t in ks
  {
    var spans := SpansOf(toks, ks);
    if k :| 0 <= k < |spans| && spans[k].start <= p < spans[k].end {
      SpanHolds(toks, ks[k], ks[k] + 1, t, p);
    }
    if t in ks {
      var k :| 0 <= k < |ks| && ks[k] == t;
      assert spans[k] == TokenSpan(toks[t]);
    }
  }

  lemma {:induction false} DescriptionApart(toks: seq<Token>, regions: seq<Region>, end: nat, t: nat)
    requires RegionsOk(toks, regions, end) && IsDescription(regions, t)
    ensures !InTyped(regions, t) && t < |toks| && IsText(toks[t])
  {
    hide RegionTexts;
    var k :| 0 <= k < |regions| && t in RegionTexts(regions[k]);
    var r := regions[k];
    assert r.Executable? && r.from <= t < r.to && IsText(toks[t]) by { TextIn(toks, r, t); }
    forall l | 0 <= l < |regions| && regions[l].Typed? ensures !(regions[l].from <= t < regions[l].to) {
      if l < k { assert regions[l].to <= regions[k].from; } else { assert regions[k].to <= regions[l].from; }
    }
  }

  lemma {:induction false} TextIn(toks: seq<Token>, r: Region, t: nat)
    requires RegionOk(toks, r) && t in RegionTexts(r)
    ensures r.Executable? && r.from <= t < r.to && IsText(toks[t])
  {
    if t in r.inner { var i :| 0 <= i < |r.inner| && r.inner[i] == t; }
  }

  // ---- Order of the recorded spans ----

  lemma {:induction false} InOrder(toks: seq<Token>, k: nat, l: nat)
    requires TokensOk(toks) && k < l < |toks| - 1
    ensures toks[k].end <= toks[l].start <= toks[l].end
  {}

  ghost predicate SpansOrdered(spans: seq<Span>) {
    forall k, l :: 0 <= k < l < |spans| ==> spans[k].end <= spans[l].start
  }

  ghost predicate EndBy(spans: seq<Span>, p: nat) { forall k :: 0 <= k < |spans| ==> spans[k].end <= p }

  /** Where the last region ends, in runes. */
  ghost function LastEnd(toks: seq<Token>, regions: seq<Region>): nat
    requires forall k :: 0 <= k < |regions| ==> regions[k].from < regions[k].to < |toks|
  {
    if regions == [] then 0 else toks[regions[|regions| - 1].to - 1].end
  }

  /** Type-system spans are recorded in order and do not overlap. */
  lemma {:induction false} TypedSpansOrdered(toks: seq<Token>, regions: seq<Region>, end: nat)
    requires TokensOk(toks) && RegionsOk(toks, regions, end)
    ensures SpansOrdered(TypedSpans(toks, regions)) && EndBy(TypedSpans(toks, regions), LastEnd(toks, regions))
    decreases |regions|
  {
    if regions != [] {
      var n := |regions| - 1;
      var last, prev := regions[n], regions[..n];
      PrefixOk(toks, regions, end);
      TypedSpansOrdered(toks, prev, end);
      assert RegionOk(toks, last);
      if n > 0 {
        assert prev[n - 1] == regions[n - 1] && RegionOk(toks, prev[n - 1]) && prev[n - 1].to <= last.from;
        InOrder(toks, prev[n - 1].to - 1, last.from);
        InOrder(toks, prev[n - 1].to - 1, last.to - 1);
      }
    }
  }

  ghost predicate Ascending(ks: seq<nat>) { forall i, j :: 0 <= i < j < |ks| ==> ks[i] < ks[j] }

  /** No definition is described itself and on its variables too. */
  ghost predicate DescribedOnce(regions: seq<Region>) {
    forall k :: 0 <= k < |regions| && regions[k].Executable? && regions[k].own.Some? ==> regions[k].inner == []
  }

  lemma {:induction false} TextsWithin(toks: seq<Token>, regions: seq<Region>, end: nat)
    requires RegionsOk(toks, regions, end)
    ensures forall t :: t in Texts(regions) ==> regions != [] && t < regions[|regions| - 1].to
  {
    TextsFrom(regions);
    forall t | t in Texts(regions) ensures regions != [] && t < regions[|regions| - 1].to {
      var k :| 0 <= k < |regions| && t in RegionTexts(regions[k]);
      TextIn(toks, regions[k], t);
      if k < |regions| - 1 { assert regions[k].to <= regions[|regions| - 1].from; }
    }
  }

  lemma {:induction false} RegionsOrdered(toks: seq<Token>, regions: seq<Region>, end: nat)
    requires RegionsOk(toks, regions, end)
    ensures Ascending(Texts(regions)) <==> DescribedOnce(regions)
    decreases |regions|
  {
    hide RegionOk, RegionTexts, Ascending;
    if regions == [] {
      NothingAscends(Texts(regions));
    } else {
      var n := |regions| - 1;
      var last, prev := regions[n], regions[..n];
      PrefixOk(toks, regions, end);
      RegionsOrdered(toks, prev, end);
      TextsWithin(toks, prev, end);
      RegionAscending(toks, last);
      forall i, j | 0 <= i < |Texts(prev)| && 0 <= j < |RegionTexts(last)| ensures Texts(prev)[i] < RegionTexts(last)[j] {
        assert Texts(prev)[i] in Texts(prev) && RegionTexts(last)[j] in RegionTexts(last);
        TextIn(toks, last, RegionTexts(last)[j]);
        assert prev[n - 1] == regions[n - 1] && regions[n - 1].to <= last.from;
      }
      AscendingApart(Texts(prev), RegionTexts(last));
      DescribedOnceMore(regions);
    }
  }

  /** No token is recorded twice as a description. */
  lemma {:induction false} TextsApart(toks: seq<Token>, regions: seq<Region>, end: nat)
    requires RegionsOk(toks, regions, end)
    ensures NoRepeats(Texts(regions))
    decreases |regions|
  {
    hide RegionOk, RegionTexts;
    if regions != [] {
      var n := |regions| - 1;
      var last, prev := regions[n], regions[..n];
      PrefixOk(toks, regions, end);
      TextsApart(toks, prev, end);
      TextsWithin(toks, prev, end);
      RegionApart(toks, last);
      var a, b := Texts(prev), RegionTexts(last);
      forall i, j | 0 <= i < j < |a + b| ensures (a + b)[i] != (a + b)[j] {
        if i < |a| <= j {
          assert a[i] in a && b[j - |a|] in b;
          TextIn(toks, last, b[j - |a|]);
          assert prev[n - 1] == regions[n - 1] && regions[n - 1].to <= last.from;
        } else if |a| <= i {
          assert (a + b)[i] == b[i - |a|] && (a + b)[j] == b[j - |a|];
        }
      }
    }
  }

  lemma {:induction false} RegionApart(toks: seq<Token>, r: Region)
    requires RegionOk(toks, r)
    ensures NoRepeats(RegionTexts(r))
  {}

  predicate Disjoint(a: Span, b: Span) { a.end <= b.start || b.end <= a.start }

  /** All spans recorded are disjoint: those of descriptions from each other and
      from those of the type system. */
  lemma {:induction false} SpansDisjoint(toks: seq<Token>, regions: seq<Region>, end: nat)
    requires TokensOk(toks) && RegionsOk(toks, regions, end)
    ensures forall i :: 0 <= i < |Texts(regions)| ==> Texts(regions)[i] < |toks|
    ensures var spans := SpansOf(toks, Texts(regions));
      && (forall i, j :: 0 <= i < j < |spans| ==> Disjoint(spans[i], spans[j]))
      && (forall i, j :: 0 <= i < |spans| && 0 <= j < |TypedSpans(toks, regions)| ==> Disjoint(spans[i], TypedSpans(toks, regions)[j]))
  {
    RegionsFit(toks, regions, end);
    hide Texts, TypedSpans, RegionsOk;
    TextsInside(toks, regions, end);
    TextsApart(toks, regions, end);
    TextsFrom(regions);
    var ks := Texts(regions);
    hide NoRepeats, TokensOk, InTyped;
    forall i, j | 0 <= i < j < |ks| ensures Disjoint(TokenSpan(toks[ks[i]]), TokenSpan(toks[ks[j]])) {
      TokensApart(toks, ks, i, j);
    }
    forall i, j | 0 <= i < |ks| && 0 <= j < |TypedSpans(toks, regions)|
      ensures Disjoint(TokenSpan(toks[ks[i]]), TypedSpans(toks, regions)[j])
    {
      assert ks[i] in ks;
      DescriptionApart(toks, regions, end, ks[i]);
      TypedSpanApart(toks, regions, end, ks[i], j);
    }
  }

  lemma {:induction false} TokensApart(toks: seq<Token>, ks: seq<nat>, i: nat, j: nat)
    requires TokensOk(toks) && NoRepeats(ks) && i < j < |ks| && forall k :: 0 <= k < |ks| ==> ks[k] < |toks| - 1
    ensures Disjoint(TokenSpan(toks[ks[i]]), TokenSpan(toks[ks[j]]))
  {
    if ks[i] < ks[j] { InOrder(toks, ks[i], ks[j]); } else { InOrder(toks, ks[j], ks[i]); }
  }

  lemma {:induction false} TypedSpanApart(toks: seq<Token>, regions: seq<Region>, end: nat, t: nat, j: nat)
    requires TokensOk(toks) && RegionsOk(toks, regions, end) && t < |toks| - 1 && !InTyped(regions, t)
    requires j < |TypedSpans(toks, regions)|
    ensures Disjoint(TokenSpan(toks[t]), TypedSpans(toks, regions)[j])
    decreases |regions|
  {
    hide RegionOk;
    var n := |regions| - 1;
    var prev, last := regions[..n], regions[n];
    PrefixOk(toks, regions, end);
    RegionsFit(toks, regions, end);
    RegionsFit(toks, prev, end);
    InTypedMore(regions, t);
    if j < |TypedSpans(toks, prev)| {
      TypedSpanApart(toks, prev, end, t, j);
    } else {
      FromBeforeTo(toks, last);
      if t < last.from { InOrder(toks, t, last.from); } else { InOrder(toks, last.to - 1, t); }
    }
  }

  /** The definition that begins here is described, and so is a variable of it. */
  ghost predicate DescribedTwice(toks: seq<Token>, from: nat) {
    IsTextAt(toks, from) && HasVariableText(toks, HeadOf(toks, from))
  }

  ghost predicate HasVariableText(toks: seq<Token>, head: nat) { exists k :: IsVariableText(toks, head, k) }

  lemma {:induction false} DescribedTwiceIff(toks: seq<Token>, r: Region)
    requires Defines(toks, r)
    ensures DescribedTwice(toks, r.from) <==> r.Executable? && r.own.Some? && r.inner != []
  {
    hide Loose, IsBody, Shut;
    if r.Typed? {
      KeywordsApart(toks, HeadOf(toks, r.from));
    } else {
      hide IsVariableText;
      SomeIn(r.inner);
      if HasVariableText(toks, HeadOf(toks, r.from)) {
        var k :| IsVariableText(toks, HeadOf(toks, r.from), k);
        assert k in r.inner;
      }
    }
  }

  lemma SomeIn(ks: seq<nat>)
    ensures ks == [] || exists k :: k in ks
  {
    assert ks == [] || ks[0] in ks;
  }

  /** A type-system keyword begins no operation. */
  lemma KeywordsApart(toks: seq<Token>, i: nat)
    requires IsKeyword(toks, i)
    ensures !IsOperation(toks, i)
  {
  }

  /** The descriptions of a document are recorded in its order exactly when no
      definition that begins with a text has a text standing directly in its
      group of variables, other than as a default: its own description is
      recorded behind those of its variables. */
  lemma {:induction false} DescriptionsOrdered(toks: seq<Token>)
    requires toks != [] && RegionsOf(toks).Some?
    ensures var regions := RegionsOf(toks).value;
      Ascending(Texts(regions)) <==> forall k :: 0 <= k < |regions| ==> !DescribedTwice(toks, regions[k].from)
  {
    hide RegionsFrom, Ascending, Defines, DescribedTwice;
    var regions := RegionsOf(toks).value;
    RegionsDefine(toks, 0);
    RegionsOrdered(toks, regions, |toks| - 1);
    forall k | 0 <= k < |regions|
      ensures DescribedTwice(toks, regions[k].from) <==> regions[k].Executable? && regions[k].own.Some? && regions[k].inner != []
    {
      DescribedTwiceIff(toks, regions[k]);
    }
  }

  /** The kinds of the tokens of "o" query ("v" $x: T) {f}. */
  function KindOf(k: nat): Kind {
    match k
    case 0 => StringTok case 1 => Name
    case 2 => ParenL case 3 => StringTok case 4 => Dollar case 5 => Name case 6 => Colon case 7 => Name case 8 => ParenR
    case 9 => BraceL case 10 => Name case 11 => BraceR
    case _ => EndTok
  }

  ghost predicate IsSmall(toks: seq<Token>) {
    |toks| == 13 && toks[1].value == "query" && forall k :: 0 <= k < 13 ==> toks[k].kind == KindOf(k)
  }

  /** A document whose descriptions are recorded out of order: a described query
      with a described variable. */
  lemma {:induction false} DescriptionsOutOfOrder() returns (toks: seq<Token>)
    ensures IsSmall(toks) && TokensOk(toks) && RegionsOf(toks).Some?
    ensures Texts(RegionsOf(toks).value) == [3, 0] && !Ascending([3, 0])
  {
    toks := SmallTokens();
    SmallRegions(toks);
    hide *;
    OneRegion(Executable(0, 12, 9, [3], Some(0)));
    NotAscending();
  }

  lemma NotAscending()
    ensures !Ascending([3, 0])
  {
    assert [3, 0][0] > [3, 0][1];
  }

  lemma SmallTokens() returns (toks: seq<Token>)
    ensures IsSmall(toks) && TokensOk(toks)
  {
    toks := seq(13, k requires 0 <= k < 13 => Token(KindOf(k), if k == 1 then "query" else "", 2 * k, 2 * k + 1, 1, 2 * k + 1));
  }

  lemma {:induction false} OneRegion(r: Region)
    requires r == Executable(0, 12, 9, [3], Some(0))
    ensures Texts([r]) == [3, 0]
  {
    TextsGrow([], r);
    assert [] + [r] == [r] && Texts([]) + RegionTexts(r) == RegionTexts(r);
  }

  lemma {:induction false} SmallRegions(toks: seq<Token>)
    requires IsSmall(toks)
    ensures RegionsOf(toks) == Some([Executable(0, 12, 9, [3], Some(0))])
  {
    SmallBody(toks);
    SmallVariables(toks);
    SmallKinds(toks);
    hide VariablesFrom, GroupFrom, KindOf;
    assert VariablesAt(toks, GroupStart(toks, 1)) == Variables(Read(true, 9), [3]);
    assert DirectivesAt(toks, 9) == Read(true, 9);
    assert SelectionSetAt(toks, 9) == Read(true, 12);
    assert OperationAt(toks, 0, 1, Some(0)) == Met(Executable(0, 12, 9, [3], Some(0)));
    hide OperationAt;
    assert DefinitionAt(toks, 0) == Met(Executable(0, 12, 9, [3], Some(0)));
    hide DefinitionAt;
    assert RegionsFrom(toks, 12) == Some([]);
    assert [Executable(0, 12, 9, [3], Some(0))] + [] == [Executable(0, 12, 9, [3], Some(0))];
  }

  lemma {:induction false} SmallKinds(toks: seq<Token>)
    requires IsSmall(toks)
    ensures |toks| == 13 && IsText(toks[0]) && IsWord(toks, 1, "query") && toks[2].kind.ParenL? && toks[9].kind.BraceL?
  {}

  lemma {:induction false} SmallVariables(toks: seq<Token>)
    requires IsSmall(toks)
    ensures VariablesFrom(toks, 3) == Variables(Read(true, 9), [3])
  {
    assert toks[3].kind.StringTok? && toks[4].kind.Dollar? && toks[5].kind.Name? && toks[6].kind.Colon? && toks[7].kind.Name?;
    assert toks[8].kind.ParenR?;
    hide IsSmall, KindOf;
    assert VariableNameAt(toks, 3) == Read(true, 7);
    assert TypeRefAt(toks, 7) == Read(true, 8);
    assert DefaultAt(toks, 8) == Read(true, 8) && DirectivesAt(toks, 8) == Read(true, 8);
    hide VariableNameAt, TypeRefAt, DefaultAt, DirectivesAt;
    assert VariableAt(toks, 3) == Read(true, 8);
    hide VariableAt;
    assert VariablesFrom(toks, 8) == Variables(Read(true, 9), []);
    assert [3] + [] == [3];
  }

  lemma {:induction false} SmallBody(toks: seq<Token>)
    requires IsSmall(toks)
    ensures GroupAt(toks, 9) == Read(true, 12)
  {
    assert toks[9].kind.BraceL? && toks[10].kind.Name? && toks[11].kind.BraceR?;
    assert Open(toks, 9, 9) == 0;
    assert Open(toks, 9, 10) == 1;
    assert Open(toks, 9, 11) == 1;
    assert Open(toks, 9, 12) == 0;
    assert GroupFrom(toks, 9, 11) == Read(true, 12);
    assert GroupFrom(toks, 9, 10) == Read(true, 12);
  }

  lemma {:induction false} NothingAscends(ks: seq<nat>)
    requires ks == []
    ensures Ascending(ks)
  {}

  lemma {:induction false} DescribedOnceMore(regions: seq<Region>)
    requires regions != []
    ensures var last := regions[|regions| - 1];
      DescribedOnce(regions) <==>
        DescribedOnce(regions[..|regions| - 1]) && (last.Executable? && last.own.Some? ==> last.inner == [])
  {
    var n := |regions| - 1;
    assert forall k :: 0 <= k < n ==> regions[..n][k] == regions[k];
    if !DescribedOnce(regions[..n]) {
      var k :| 0 <= k < n && !(regions[..n][k].Executable? && regions[..n][k].own.Some? ==> regions[..n][k].inner == []);
      assert regions[k] == regions[..n][k];
    }
  }

  lemma {:induction false} RegionAscending(toks: seq<Token>, r: Region)
    requires RegionOk(toks, r)
    ensures Ascending(RegionTexts(r)) <==> (r.Executable? && r.own.Some? ==> r.inner == [])
  {
    var ks := RegionTexts(r);
    if r.Executable? && r.own.Some? && r.inner != [] {
      assert ks[0] == r.inner[0] && ks[|r.inner|] == r.own.value;
    }
  }

  lemma {:induction false} AscendingApart(a: seq<nat>, b: seq<nat>)
    requires forall i, j :: 0 <= i < |a| && 0 <= j < |b| ==> a[i] < b[j]
    ensures Ascending(a + b) <==> Ascending(a) && Ascending(b)
  {
    if Ascending(a + b) {
      forall i, j | 0 <= i < j < |a| ensures a[i] < a[j] { assert (a + b)[i] < (a + b)[j]; }
      forall i, j | 0 <= i < j < |b| ensures b[i] < b[j] { assert (a + b)[|a| + i] < (a + b)[|a| + j]; }
    }
  }

  // ---- Keywords and positions ----

  /** Where a token begins: the column of a string stands behind its quotes. */
  function TokenStart(t: Token): (nat, int) {
    (t.line, if t.kind.StringTok? then t.column - 1 else if t.kind.BlockTok? then t.column - 3 else t.column)
  }

  function FirstTyped(regions: seq<Region>): Option<nat> {
    if regions == [] then None
    else if regions[0].Typed? then Some(regions[0].from)
    else FirstTyped(regions[1..])
  }

  /** The position of a token, if it is one of the document. */
  function StartOf(toks: seq<Token>, k: Option<nat>): Option<(nat, int)> {
    if k.Some? && k.value < |toks| then Some(TokenStart(toks[k.value])) else None
  }

  // ---- What grows with the regions ----

  lemma {:induction false} TextsGrow(regions: seq<Region>, r: Region)
    ensures Texts(regions + [r]) == Texts(regions) + RegionTexts(r)
  {
    assert (regions + [r])[..|regions|] == regions;
  }

  lemma {:induction false} TypedGrow(toks: seq<Token>, regions: seq<Region>, r: Region)
    requires r.from < r.to < |toks| && forall k :: 0 <= k < |regions| ==> regions[k].from < regions[k].to < |toks|
    ensures TypedSpans(toks, regions + [r])
      == TypedSpans(toks, regions) + if r.Typed? then [Span(toks[r.from].start, toks[r.to - 1].end)] else []
  {
    assert (regions + [r])[..|regions|] == regions;
    assert TypedSpans(toks, regions) + [] == TypedSpans(toks, regions);
  }

  lemma {:induction false} AliasesGrowBy(toks: seq<Token>, regions: seq<Region>, r: Region)
    requires r.from < r.to < |toks| && forall k :: 0 <= k < |regions| ==> regions[k].from < regions[k].to < |toks|
    ensures AllAliases(toks, regions + [r])
      == AllAliases(toks, regions) + if r.Executable? then AliasesIn(toks, r.body, r.to) else {}
  {
    hide AliasesIn;
    assert (regions + [r])[..|regions|] == regions;
  }

  lemma {:induction false} FirstGrow(regions: seq<Region>, r: Region)
    ensures FirstTyped(regions + [r]) ==
      if FirstTyped(regions).Some? then FirstTyped(regions) else if r.Typed? then Some(r.from) else None
    decreases |regions|
  {
    if regions == [] {
      assert ([] + [r])[1..] == [];
    } else {
      assert (regions + [r])[1..] == regions[1..] + [r];
      FirstGrow(regions[1..], r);
    }
  }

  lemma {:induction false} SpansGrow(toks: seq<Token>, a: seq<nat>, b: seq<nat>)
    requires (forall i :: 0 <= i < |a| ==> a[i] < |toks|) && (forall i :: 0 <= i < |b| ==> b[i] < |toks|)
    ensures SpansOf(toks, a + b) == SpansOf(toks, a) + SpansOf(toks, b)
  {
    var l, r := SpansOf(toks, a + b), SpansOf(toks, a) + SpansOf(toks, b);
    forall i | 0 <= i < |l| ensures l[i] == r[i] {}
  }

  lemma {:induction false} RegionsGrow(toks: seq<Token>, regions: seq<Region>, r: Region, end: nat)
    requires RegionsOk(toks, regions, r.from) && RegionOk(toks, r) && r.to <= end
    ensures RegionsOk(toks, regions + [r], end)
  {
    hide RegionOk;
    var all := regions + [r];
    forall k | 0 <= k < |all| ensures RegionOk(toks, all[k]) && all[k].to <= end {
      if k < |regions| { FromBeforeTo(toks, r); }
    }
  }

  lemma {:induction false} FromBeforeTo(toks: seq<Token>, r: Region)
    requires RegionOk(toks, r)
    ensures r.from < r.to < |toks|
  {}

  lemma {:induction false} TextsInside(toks: seq<Token>, regions: seq<Region>, end: nat)
    requires RegionsOk(toks, regions, end)
    ensures forall i :: 0 <= i < |Texts(regions)| ==> Texts(regions)[i] < |toks| - 1
  {
    TextsFrom(regions);
    forall i | 0 <= i < |Texts(regions)| ensures Texts(regions)[i] < |toks| - 1 {
      var t := Texts(regions)[i];
      assert t in Texts(regions);
      var k :| 0 <= k < |regions| && t in RegionTexts(regions[k]);
      TextIn(toks, regions[k], t);
      FromBeforeTo(toks, regions[k]);
    }
  }

  // ---- The scanner ----

  class DocScanner {
    const toks: seq<Token>
    var i: nat
    var aliases: set<(nat, nat)>
    var descriptions: seq<Span>
    var typeSystem: seq<Span>
    var typeSystemAt: Option<(nat, int)>
    /** The definitions met so far; the source keeps only their spans. */
    ghost var regions: seq<Region>

    constructor (toks: seq<Token>)
      requires TokensOk(toks)
      ensures this.toks == toks && Ready() && i == 0 && aliases == {} && descriptions == [] && typeSystem == []
      ensures typeSystemAt == None && regions == []
    {
      this.toks := toks;
      i, aliases, descriptions, typeSystem, typeSystemAt, regions := 0, {}, [], [], None, [];
    }

    ghost predicate Ready() reads this { TokensOk(toks) && i < |toks| }

    function Peek(): Token
      requires i < |toks|
      reads this
    {
      toks[i]
    }

    predicate At(kind: Kind)
      requires i < |toks|
      reads this
    {
      toks[i].kind == kind
    }

    predicate AtName(value: string)
      requires i < |toks|
      reads this
    {
      toks[i].kind.Name? && toks[i].value == value
    }

    method Next() returns (t: Token)
      requires Ready()
      modifies this`i
      ensures Ready() && t == toks[old(i)]
      ensures i == if t.kind.EndTok? then old(i) else old(i) + 1
    {
      t := toks[i];
      if !t.kind.EndTok? { i := i + 1; }
    }

    /** skip, and expect when the answer is an error. */
    method Skip(kind: Kind) returns (r: bool)
      requires Ready() && !kind.EndTok?
      modifies this`i
      ensures Ready() && Read(r, i) == One(toks, old(i), kind)
    {
      r := At(kind);
      if r { var _ := Next(); }
    }

    method SkipName(value: string) returns (r: bool)
      requires Ready()
      modifies this`i
      ensures Ready() && Read(r, i) == Word(toks, old(i), value)
    {
      r := AtName(value);
      if r { var _ := Next(); }
    }

    method TypeRef() returns (ok: bool)
      requires Ready()
      modifies this`i
      ensures Ready() && Read(ok, i) == TypeRefAt(toks, old(i))
      decreases |toks| - i
    {
      hide TokensOk;
      var list := Skip(BracketL);
      if list {
        ok := TypeRef();
        if !ok { return; }
        ok := Skip(BracketR);
        if !ok { return; }
      } else {
        ok := Skip(Name);
        if !ok { return; }
      }
      var _ := Skip(Bang);
      return true;
    }

    method Value() returns (ok: bool)
      requires Ready()
      modifies this`i
      ensures Ready() && Read(ok, i) == ValueAt(toks, old(i))
    {
      hide GroupFrom;
      match Peek().kind
      case BracketL => ok := Group();
      case BraceL => ok := Group();
      case Dollar =>
        var _ := Next();
        ok := Skip(Name);
      case Name => var _ := Next(); return true;
      case IntTok => var _ := Next(); return true;
      case FloatTok => var _ := Next(); return true;
      case StringTok => var _ := Next(); return true;
      case BlockTok => var _ := Next(); return true;
      case _ => return false;
    }

    method OptionalGroup(kind: Kind) returns (ok: bool)
      requires Ready() && Bracket(kind) == 1
      modifies this`i
      ensures Ready() && Read(ok, i) == OptionalGroupAt(toks, old(i), kind)
    {
      hide GroupFrom;
      ok := true;
      if At(kind) { ok := Group(); }
    }

    method Directives() returns (ok: bool)
      requires Ready()
      modifies this`i
      ensures Ready() && Read(ok, i) == DirectivesAt(toks, old(i))
    {
      hide OptionalGroupAt;
      while At(At_)
        invariant Ready() && old(i) <= i && DirectivesAt(toks, old(i)) == DirectivesAt(toks, i)
        decreases |toks| - i
      {
        var _ := Next();
        ok := Skip(Name);
        if !ok { return; }
        ok := OptionalGroup(ParenL);
        if !ok { return; }
      }
      return true;
    }

    /** Skips a balanced group, starting at its opener. */
    method Group() returns (ok: bool)
      requires Ready() && Bracket(toks[i].kind) == 1
      modifies this`i
      ensures Ready() && Read(ok, i) == GroupAt(toks, old(i))
    {
      ghost var from := i;
      var depth := 0;
      while true
        invariant Ready() && from <= i && depth == Open(toks, from, i)
        invariant GroupAt(toks, from) == GroupFrom(toks, from, i)
        decreases |toks| - i
      {
        var t := Next();
        match t.kind {
          case ParenL => depth := depth + 1;
          case BracketL => depth := depth + 1;
          case BraceL => depth := depth + 1;
          case ParenR => depth := depth - 1;
          case BracketR => depth := depth - 1;
          case BraceR => depth := depth - 1;
          case EndTok => return false;
          case _ =>
        }
        if depth == 0 { return true; }
        if depth < 0 { return false; }
      }
      return false;
    }

    /** One token of a selection set: it opens or closes a bracket, or may be an
        alias. False at the end of the document. */
    method SelectionToken(depth: int, parens: int, ghost from: nat) returns (ok: bool, depth': int, parens': int)
      requires Ready() && from <= i && depth == Open(toks, from, i) && parens == Parens(toks, from, i)
      modifies this`i, this`aliases
      ensures Ready() && ok == (old(i) + 1 < |toks|) && i == if ok then old(i) + 1 else old(i)
      ensures ok ==> depth' == Open(toks, from, i) && parens' == Parens(toks, from, i)
      ensures ok ==> aliases == old(aliases) + if IsAlias(toks, from, old(i)) then {Place(toks[old(i)])} else {}
    {
      hide Open, Parens, Place;
      CountsGrow(from, i);
      depth', parens' := depth, parens;
      var t := Next();
      match t.kind
      case BraceL => depth' := depth + 1; return true, depth', parens';
      case BracketL => depth' := depth + 1; return true, depth', parens';
      case BraceR => depth' := depth - 1; return true, depth', parens';
      case BracketR => depth' := depth - 1; return true, depth', parens';
      case ParenL => depth', parens' := depth + 1, parens + 1; return true, depth', parens';
      case ParenR => depth', parens' := depth - 1, parens - 1; return true, depth', parens';
      case Name =>
        if parens == 0 && At(Colon) { aliases := aliases + {Place(t)}; }
        return true, depth', parens';
      case EndTok => return false, depth', parens';
      case _ => return true, depth', parens';
    }

    /** Skips a selection set. A name with a colon behind it, not enclosed in
        parentheses, can only be an alias, and is recorded. */
    method SelectionSet() returns (ok: bool)
      requires Ready()
      modifies this`i, this`aliases
      ensures Ready() && Read(ok, i) == SelectionSetAt(toks, old(i))
      ensures ok ==> aliases == old(aliases) + AliasesIn(toks, old(i), i)
    {
      if !At(BraceL) { return false; }
      ghost var from := i;
      ghost var had := aliases;
      var depth, parens := 0, 0;
      hide AliasesIn, TokensOk, Open, Parens, Place, IsAlias, SelectionSetAt, GroupFrom;
      SetStart(from);
      CountsStart(from);
      NoAliases(had, from);
      NeverBelow(from, from);
      while true
        invariant Ready() && from <= i && depth == Open(toks, from, i) && parens == Parens(toks, from, i)
        invariant i == from || depth > 0
        invariant SelectionSetAt(toks, from) == GroupFrom(toks, from, i)
        invariant aliases == had + AliasesIn(toks, from, i)
        decreases |toks| - i
      {
        AliasesGrow(had, from, i);
        NeverBelow(from, i);
        ok, depth, parens := SelectionToken(depth, parens, from);
        if !ok { return; }
        if depth == 0 { return true; }
      }
      return false;
    }

    lemma {:induction false} SetStart(from: nat)
      requires from < |toks| && toks[from].kind.BraceL?
      ensures SelectionSetAt(toks, from) == GroupFrom(toks, from, from)
    {}

    lemma {:induction false} CountsStart(from: nat)
      requires from <= |toks|
      ensures Open(toks, from, from) == 0 && Parens(toks, from, from) == 0
    {}

    lemma {:induction false} CountsGrow(from: nat, k: nat)
      requires from <= k < |toks|
      ensures Open(toks, from, k + 1) == Open(toks, from, k) + Bracket(toks[k].kind)
      ensures Parens(toks, from, k + 1) == Parens(toks, from, k)
        + if toks[k].kind.ParenL? then 1 else if toks[k].kind.ParenR? then -1 else 0
    {}

    /** Brackets close one at a time, so a set is closed before it is overrun. */
    lemma {:induction false} NeverBelow(from: nat, k: nat)
      requires from <= k < |toks| && toks[from].kind.BraceL? && (k == from || Open(toks, from, k) > 0)
      ensures Open(toks, from, k + 1) >= 0
      ensures GroupFrom(toks, from, k) ==
        if k + 1 >= |toks| then Read(false, k)
        else if Open(toks, from, k + 1) == 0 then Read(true, k + 1) else GroupFrom(toks, from, k + 1)
    {
      CountsStart(from);
    }

    lemma {:induction false} AliasesGrow(had: set<(nat, nat)>, from: nat, k: nat)
      requires from <= k < |toks|
      ensures had + AliasesIn(toks, from, k + 1)
        == (had + AliasesIn(toks, from, k)) + if IsAlias(toks, from, k) then {Place(toks[k])} else {}
    {}

    lemma {:induction false} NoAliases(had: set<(nat, nat)>, from: nat)
      requires from <= |toks|
      ensures had + AliasesIn(toks, from, from) == had
    {}

    /** One variable definition; its description is recorded. */
    method VariableDefinition() returns (ok: bool)
      requires Ready()
      modifies this`i, this`descriptions
      ensures Ready() && Read(ok, i) == VariableAt(toks, old(i))
      ensures descriptions == old(descriptions) + SpansOf(toks, Described(toks, old(i)))
    {
      hide TypeRefAt, DefaultAt, DirectivesAt, TokensOk;
      DescribedSpan(toks, i, descriptions);
      ok := VariableName();
      if !ok { return; }
      ok := TypeRef();
      if !ok { return; }
      ok := Default();
      if !ok { return; }
      ok := Directives();
    }

    method VariableName() returns (ok: bool)
      requires Ready()
      modifies this`i, this`descriptions
      ensures Ready() && Read(ok, i) == VariableNameAt(toks, old(i))
      ensures descriptions == old(descriptions) + if IsTextAt(toks, old(i)) then [TokenSpan(toks[old(i)])] else []
    {
      if IsText(Peek()) {
        var d := Next();
        descriptions := descriptions + [TokenSpan(d)];
      }
      ok := Skip(Dollar);
      if !ok { return; }
      ok := Skip(Name);
      if !ok { return; }
      ok := Skip(Colon);
    }

    method Default() returns (ok: bool)
      requires Ready()
      modifies this`i
      ensures Ready() && Read(ok, i) == DefaultAt(toks, old(i))
    {
      hide ValueAt;
      ok := true;
      var equals := Skip(Equals);
      if equals { ok := Value(); }
    }

    /** The definitions of an operation's variables: the descriptions recorded
        are all of theirs. */
    method VariableDefinitions() returns (ok: bool)
      requires Ready() && toks[i].kind.ParenL?
      modifies this`i, this`descriptions
      ensures Ready() && Read(ok, i) == VariablesAt(toks, old(i)).read
      ensures ok ==> Inside(toks, VariablesAt(toks, old(i)).texts)
      ensures ok ==> descriptions == old(descriptions) + SpansOf(toks, VariablesAt(toks, old(i)).texts)
    {
      hide VariableAt, SpansOf, Described;
      var _ := Next();
      ghost var start := i;
      ghost var inner: seq<nat> := [];
      NothingAdded(toks, descriptions);
      NothingBehind(VariablesFrom(toks, start));
      var end := Skip(ParenR);
      while !end
        invariant Ready() && start <= i && Inside(toks, inner)
        invariant descriptions == old(descriptions) + SpansOf(toks, inner)
        invariant VariablesFrom(toks, start) ==
          Behind(inner, if end then Variables(Read(true, i), []) else VariablesFrom(toks, i))
        invariant !end ==> !Is(toks, i, ParenR)
        decreases |toks| - i + if end then 0 else 1
      {
        ghost var at := i;
        MoreDescribed(toks, inner, at);
        ok := VariableDefinition();
        if !ok { return; }
        BehindBoth(inner, Described(toks, at), VariablesFrom(toks, i));
        inner := inner + Described(toks, at);
        end := Skip(ParenR);
      }
      assert inner + [] == inner;
      ok := true;
    }

    method Operation(ghost from: nat, ghost described: bool) returns (ok: bool)
      requires Ready() && IsOperation(toks, i)
      modifies this`i, this`aliases, this`descriptions
      ensures Ready()
      ensures var d := OperationAt(toks, from, old(i), if described then Some(from) else None);
        if ok then Recognised(d, old(aliases), old(descriptions)) else d.Unread?
    {
      hide VariablesFrom, DirectivesAt, GroupFrom, AliasesIn, SpansOf;
      NothingAdded(toks, descriptions);
      var _ := Next();
      var _ := Skip(Name);
      ok := true;
      if At(ParenL) { ok := VariableDefinitions(); }
      if !ok { return; }
      ok := Directives();
      if !ok { return; }
      ok := SelectionSet();
    }

    /** The scanner stands behind the definition met, and has recorded its
        aliases and the descriptions of its variables. */
    ghost predicate Recognised(d: Defined, aliases0: set<(nat, nat)>, descriptions0: seq<Span>)
      reads this
    {
      && d.Met? && d.region.Executable? && d.region.to == i && i < |toks|
      && aliases == aliases0 + AliasesIn(toks, d.region.body, i)
      && Inside(toks, d.region.inner) && descriptions == descriptions0 + SpansOf(toks, d.region.inner)
    }

    method Fragment() returns (ok: bool)
      requires Ready() && IsWord(toks, i, "fragment")
      modifies this`i, this`aliases
      ensures Ready()
      ensures var f := FragmentHeadAt(toks, old(i));
        if f.ok then Read(ok, i) == SelectionSetAt(toks, f.at) && (ok ==> aliases == old(aliases) + AliasesIn(toks, f.at, i)) else !ok
    {
      hide DirectivesAt, GroupFrom, AliasesIn;
      var _ := Next();
      ok := Skip(Name);
      if !ok { return; }
      ok := SkipName("on");
      if !ok { return; }
      ok := Skip(Name);
      if !ok { return; }
      ok := Directives();
      if !ok { return; }
      ok := SelectionSet();
    }

    method OptionalBody() returns (ok: bool)
      requires Ready()
      modifies this`i
      ensures Ready() && Read(ok, i) == OptionalBodyAt(toks, old(i))
    {
      hide DirectivesAt, OptionalGroupAt;
      ok := Directives();
      if !ok { return; }
      ok := OptionalGroup(BraceL);
    }

    /** A name, and whether a separator stands behind it. */
    method NameOf(sep: Kind) returns (ok: bool, more: bool)
      requires Ready() && !sep.EndTok?
      modifies this`i
      ensures Ready() && old(i) <= i && (more ==> old(i) < i)
      ensures NamesFrom(toks, old(i), sep) == if more then NamesFrom(toks, i, sep) else Read(ok, i)
    {
      hide TokensOk;
      NamesStep(toks, i, sep);
      hide NamesFrom;
      ok := Skip(Name);
      more := false;
      if ok { more := Skip(sep); }
    }

    method NameList(sep: Kind) returns (ok: bool)
      requires Ready() && !sep.EndTok?
      modifies this`i
      ensures Ready() && Read(ok, i) == NameListAt(toks, old(i), sep)
    {
      hide NamesFrom, TokensOk;
      var _ := Skip(sep);
      ghost var start := i;
      var more;
      ok, more := NameOf(sep);
      while more
        invariant Ready()
        invariant NamesFrom(toks, start, sep) == if more then NamesFrom(toks, i, sep) else Read(ok, i)
        decreases |toks| - i + if more then 1 else 0
      {
        ok, more := NameOf(sep);
      }
    }

    method Scalar() returns (ok: bool)
      requires Ready()
      modifies this`i
      ensures Ready() && Read(ok, i) == ScalarAt(toks, old(i))
    {
      hide DirectivesAt;
      ok := Skip(Name);
      if !ok { return; }
      ok := Directives();
    }

    method Union() returns (ok: bool)
      requires Ready()
      modifies this`i
      ensures Ready() && Read(ok, i) == UnionAt(toks, old(i))
    {
      hide ScalarAt, NamesFrom;
      ok := Scalar();
      if !ok { return; }
      var equals := Skip(Equals);
      if equals { ok := NameList(Pipe); }
    }

    method ObjectType() returns (ok: bool)
      requires Ready()
      modifies this`i
      ensures Ready() && Read(ok, i) == ObjectAt(toks, old(i))
    {
      hide OptionalBodyAt, NamesFrom;
      ok := Skip(Name);
      if !ok { return; }
      var implements := SkipName("implements");
      if implements {
        ok := NameList(Amp);
        if !ok { return; }
      }
      ok := OptionalBody();
    }

    method NamedBody() returns (ok: bool)
      requires Ready()
      modifies this`i
      ensures Ready() && Read(ok, i) == NamedBodyAt(toks, old(i))
    {
      hide OptionalBodyAt;
      ok := Skip(Name);
      if !ok { return; }
      ok := OptionalBody();
    }

    method Directive() returns (ok: bool)
      requires Ready()
      modifies this`i
      ensures Ready() && Read(ok, i) == DirectiveAt(toks, old(i))
    {
      hide OptionalGroupAt, NamesFrom;
      ok := Skip(At_);
      if !ok { return; }
      ok := Skip(Name);
      if !ok { return; }
      ok := OptionalGroup(ParenL);
      if !ok { return; }
      var _ := SkipName("repeatable");
      ok := SkipName("on");
      if !ok { return; }
      ok := NameList(Pipe);
    }

    /** A type-system definition or extension, from its keyword on. */
    method TypeSystemDefinition() returns (ok: bool)
      requires Ready() && toks[i].kind.Name?
      modifies this`i
      ensures Ready() && Read(ok, i) == TypeSystemAt(toks, old(i))
    {
      hide OptionalBodyAt, ScalarAt, UnionAt, ObjectAt, NamedBodyAt, DirectiveAt;
      var t := Next();
      var keyword := t.value;
      if keyword == "extend" {
        t := Peek();
        if !t.kind.Name? || t.value !in TYPE_SYSTEM_KEYWORDS || t.value == "directive" || t.value == "extend" { return false; }
        t := Next();
        keyword := t.value;
      }
      if keyword == "schema" {
        ok := OptionalBody();
      } else if keyword == "scalar" {
        ok := Scalar();
      } else if keyword == "type" || keyword == "interface" {
        ok := ObjectType();
      } else if keyword == "union" {
        ok := Union();
      } else if keyword == "enum" || keyword == "input" {
        ok := NamedBody();
      } else {
        ok := Directive();
      }
    }

    /** The type-system spans recorded are those of the regions met, which end
        by the given token. */
    ghost predicate Kept(end: nat)
      reads `regions, `typeSystem, `typeSystemAt
    {
      && RegionsOk(toks, regions, end)
      && typeSystem == TypedSpans(toks, regions)
      && typeSystemAt == StartOf(toks, FirstTyped(regions))
    }

    /** These are the described tokens of the regions met. */
    ghost predicate Noted(spans: seq<Span>)
      reads `regions
    {
      Inside(toks, Texts(regions)) && spans == SpansOf(toks, Texts(regions))
    }

    /** These are the aliases of the regions met. */
    ghost predicate Aliased(places: set<(nat, nat)>)
      reads `regions
    {
      && (forall k :: 0 <= k < |regions| ==> regions[k].from < regions[k].to < |toks|)
      && places == AllAliases(toks, regions)
    }

    ghost predicate Recorded()
      reads this
    {
      Kept(i) && Noted(descriptions) && Aliased(aliases)
    }

    method AddTypeSystem(start: nat)
      requires Ready() && start < i && Kept(start) && Noted(descriptions) && Aliased(aliases)
      modifies this`typeSystem, this`typeSystemAt, this`regions
      ensures Ready() && Recorded() && regions == old(regions) + [Typed(start, i)]
    {
      hide TypedSpans, Texts, FirstTyped, RegionsOk, AllAliases;
      ghost var r := Typed(start, i);
      AliasesGrowBy(toks, regions, r);
      RegionsFit(toks, regions, start);
      RegionsGrow(toks, regions, r, i);
      TypedGrow(toks, regions, r);
      TextsGrow(regions, r);
      FirstGrow(regions, r);
      FirstFits(toks, regions, start);
      assert Texts(regions) + [] == Texts(regions);
      typeSystem := typeSystem + [Span(toks[start].start, toks[i - 1].end)];
      if typeSystemAt.None? { typeSystemAt := Some(TokenStart(toks[start])); }
      regions := regions + [r];
    }

    method AddExecutable(start: nat, own: Option<Token>, ghost r: Region)
      requires Ready() && Kept(start) && RegionOk(toks, r) && r.Executable? && r.from == start && r.to == i
      requires r.own == if own.Some? then Some(start) else None
      requires own.Some? ==> own.value == toks[start]
      requires exists before :: Noted(before) && descriptions == before + SpansOf(toks, r.inner)
      requires exists places :: Aliased(places) && aliases == places + AliasesIn(toks, r.body, i)
      modifies this`descriptions, this`regions
      ensures Ready() && Recorded() && regions == old(regions) + [r]
    {
      hide TypedSpans, Texts, FirstTyped, RegionsOk, SpansOf, AllAliases, AliasesIn, IsBody;
      RegionsFit(toks, regions, start);
      RegionsGrow(toks, regions, r, i);
      TypedGrow(toks, regions, r);
      assert TypedSpans(toks, regions) + [] == TypedSpans(toks, regions);
      FirstGrow(regions, r);
      AliasesGrowBy(toks, regions, r);
      DescribedGrow(toks, regions, r, i);
      if own.Some? { descriptions := descriptions + [TokenSpan(own.value)]; }
      regions := regions + [r];
    }

    /** An operation, a fragment or a shorthand query, its description read. */
    method ExecutableDefinition(ghost from: nat, described: bool) returns (ok: bool)
      requires Ready() && from < |toks| - 1 && described == IsText(toks[from]) && i == if described then from + 1 else from
      requires (Is(toks, i, BraceL) && !described) || IsOperation(toks, i) || IsWord(toks, i, "fragment")
      modifies this`i, this`aliases, this`descriptions
      ensures Ready()
      ensures if ok then Recognised(DefinitionAt(toks, from), old(aliases), old(descriptions)) else DefinitionAt(toks, from).Unread?
    {
      hide GroupFrom, OperationAt, FragmentHeadAt, TypeSystemAt, AliasesIn, SpansOf;
      NothingAdded(toks, descriptions);
      if At(BraceL) {
        ok := SelectionSet();
      } else if AtName("fragment") {
        ok := Fragment();
      } else {
        ok := Operation(from, described);
      }
    }

    /** One definition. A type-system definition that does not read is passed
        over, its error dropped. */
    method Definition() returns (ok: bool)
      requires Ready() && Recorded() && !toks[i].kind.EndTok?
      modifies this
      ensures Ready()
      ensures match DefinitionAt(toks, old(i))
        case Unread => !ok
        case PassedOver(at) => ok && Recorded() && i == at && regions == old(regions)
        case Met(r) => ok && Recorded() && i == r.to && regions == old(regions) + [r]
    {
      hide TypedSpans, Texts, FirstTyped, RegionsOk, RegionOk, SpansOf, AliasesIn, AllAliases, GroupFrom, OperationAt, FragmentHeadAt, TypeSystemAt;
      var start := i;
      var desc: Option<Token> := None;
      if IsText(Peek()) {
        var d := Next();
        desc := Some(d);
      }
      var t := Peek();
      if (t.kind.BraceL? && desc.None?)
        || (t.kind.Name? && (t.value == "query" || t.value == "mutation" || t.value == "subscription" || t.value == "fragment"))
      {
        ghost var before, places := descriptions, aliases;
        assert Noted(before) && Aliased(places);
        ok := ExecutableDefinition(start, desc.Some?);
        if !ok { return; }
        MetIsOwn(toks, start);
        AddExecutable(start, desc, DefinitionAt(toks, start).region);
      } else if t.kind.Name? && t.value in TYPE_SYSTEM_KEYWORDS {
        ok := TypeSystemDefinition();
        if ok { AddTypeSystem(start); } else { Later(start); }
        return true;
      } else {
        return false;
      }
    }

    /** The whole document: one definition after the other. */
    method Document() returns (ok: bool)
      requires Ready() && i == 0 && regions == [] && descriptions == [] && typeSystem == [] && typeSystemAt == None && aliases == {}
      modifies this
      ensures Ready() && ok == RegionsOf(toks).Some?
      ensures ok ==> Recorded() && toks[i].kind.EndTok? && regions == RegionsOf(toks).value
    {
      hide DefinitionAt;
      NothingMet(toks, 0);
      while !At(EndTok)
        invariant Ready() && Recorded()
        invariant RegionsOf(toks) == BehindRegions(regions, RegionsFrom(toks, i))
        decreases |toks| - i
      {
        DefinitionIn(toks, i);
        MoreMet(toks, regions, i);
        ok := Definition();
        if !ok { return; }
      }
      assert regions + [] == regions;
      return true;
    }

    lemma {:induction false} Later(start: nat)
      requires Kept(start) && start <= i
      ensures Kept(i)
    {
      hide RegionOk;
    }
  }

  // ---- What the scanner's loops add up to ----

  lemma {:induction false} MetIsOwn(toks: seq<Token>, i: nat)
    requires i + 1 < |toks| && DefinitionAt(toks, i).Met? && DefinitionAt(toks, i).region.Executable?
    ensures var r := DefinitionAt(toks, i).region;
      RegionOk(toks, r) && r.from == i && r.own == if IsText(toks[i]) then Some(i) else None
  {
    MetDefines(toks, i);
    hide Open, IsVariableText, IsBody;
    OwnIs(toks, DefinitionAt(toks, i).region);
  }

  lemma {:induction false} OwnIs(toks: seq<Token>, r: Region)
    requires Defines(toks, r) && r.Executable?
    ensures r.own == if IsTextAt(toks, r.from) then Some(r.from) else None
  {
    hide Open, IsVariableText, IsBody;
  }

  lemma {:induction false} NamesStep(toks: seq<Token>, i: nat, sep: Kind)
    ensures NamesFrom(toks, i, sep) ==
      if !Is(toks, i, Name) then Read(false, i)
      else if Is(toks, i + 1, sep) then NamesFrom(toks, i + 2, sep)
      else Read(true, i + 1)
  {}

  predicate Inside(toks: seq<Token>, ks: seq<nat>) { forall k :: 0 <= k < |ks| ==> ks[k] < |toks| }

  function BehindRegions(regions: seq<Region>, rest: Option<seq<Region>>): Option<seq<Region>> {
    if rest.None? then None else Some(regions + rest.value)
  }

  lemma {:induction false} NothingMet(toks: seq<Token>, i: nat)
    ensures RegionsFrom(toks, i) == BehindRegions([], RegionsFrom(toks, i))
  {
    hide RegionsFrom;
    var rest := RegionsFrom(toks, i);
    if rest.Some? { assert [] + rest.value == rest.value; }
  }

  lemma {:induction false} MoreMet(toks: seq<Token>, regions: seq<Region>, i: nat)
    requires i + 1 < |toks|
    ensures BehindRegions(regions, RegionsFrom(toks, i)) ==
      match DefinitionAt(toks, i)
      case Unread => None
      case PassedOver(at) => BehindRegions(regions, RegionsFrom(toks, at))
      case Met(r) => BehindRegions(regions + [r], RegionsFrom(toks, r.to))
  {
    hide DefinitionAt;
    match DefinitionAt(toks, i) {
      case Met(r) =>
        var rest := RegionsFrom(toks, r.to);
        if rest.Some? { Regroup(regions, [r], rest.value); }
      case _ =>
    }
  }

  lemma {:induction false} DescribedSpan(toks: seq<Token>, i: nat, spans: seq<Span>)
    requires i < |toks|
    ensures Inside(toks, Described(toks, i))
    ensures SpansOf(toks, Described(toks, i)) == if IsTextAt(toks, i) then [TokenSpan(toks[i])] else []
    ensures spans + [] == spans
  {}

  lemma {:induction false} NothingBehind(v: Variables)
    ensures Behind([], v) == v
  {}

  lemma {:induction false} BehindBoth(a: seq<nat>, b: seq<nat>, v: Variables)
    ensures Behind(a, Behind(b, v)) == Behind(a + b, v)
  {
    Regroup(a, b, v.texts);
  }

  lemma {:induction false} MoreDescribed(toks: seq<Token>, inner: seq<nat>, i: nat)
    requires Inside(toks, inner) && i < |toks|
    ensures Inside(toks, inner + Described(toks, i)) && Inside(toks, Described(toks, i))
    ensures SpansOf(toks, inner + Described(toks, i)) == SpansOf(toks, inner) + SpansOf(toks, Described(toks, i))
  {
    SpansGrow(toks, inner, Described(toks, i));
  }

  lemma {:induction false} RegionsFit(toks: seq<Token>, regions: seq<Region>, end: nat)
    requires RegionsOk(toks, regions, end)
    ensures forall k :: 0 <= k < |regions| ==> regions[k].from < regions[k].to < |toks|
  {}

  lemma {:induction false} FirstFits(toks: seq<Token>, regions: seq<Region>, end: nat)
    requires RegionsOk(toks, regions, end)
    ensures FirstTyped(regions).Some? ==> FirstTyped(regions).value < |toks|
    decreases |regions|
  {
    if regions != [] {
      assert RegionOk(toks, regions[0]);
      forall k | 0 <= k < |regions[1..]| ensures regions[1..][k] == regions[k + 1] {}
      FirstFits(toks, regions[1..], end);
    }
  }

  lemma {:induction false} NothingAdded(toks: seq<Token>, spans: seq<Span>)
    ensures spans + SpansOf(toks, []) == spans
  {}

  lemma {:induction false} DescribedGrow(toks: seq<Token>, regions: seq<Region>, r: Region, end: nat)
    requires r.Executable? && RegionsOk(toks, regions + [r], end)
    requires forall k :: 0 <= k < |Texts(regions)| ==> Texts(regions)[k] < |toks|
    requires forall k :: 0 <= k < |r.inner| ==> r.inner[k] < |toks|
    ensures forall k :: 0 <= k < |Texts(regions + [r])| ==> Texts(regions + [r])[k] < |toks|
    ensures SpansOf(toks, Texts(regions + [r])) == SpansOf(toks, Texts(regions)) + SpansOf(toks, r.inner)
      + if r.own.Some? && r.own.value < |toks| then [TokenSpan(toks[r.own.value])] else []
  {
    hide Texts, RegionsOk;
    TextsInside(toks, regions + [r], end);
    TextsGrow(regions, r);
    if r.own.Some? {
      OwnInside(toks, regions, r, end);
      SpansGrow(toks, r.inner, [r.own.value]);
      SpansGrow(toks, Texts(regions), r.inner + [r.own.value]);
      assert SpansOf(toks, [r.own.value]) == [TokenSpan(toks[r.own.value])];
    } else {
      assert r.inner + [] == r.inner;
      SpansGrow(toks, Texts(regions), r.inner);
    }
  }

  lemma {:induction false} OwnInside(toks: seq<Token>, regions: seq<Region>, r: Region, end: nat)
    requires r.Executable? && r.own.Some? && RegionsOk(toks, regions + [r], end)
    ensures r.own.value < |toks|
  {
    assert (regions + [r])[|regions|] == r;
    assert RegionOk(toks, r);
  }

  // ---- scanDocument ----

  /** The two texts a document is split into, "" for a type system it has none
      of. */
  datatype Scanned = Scanned(executable: seq<char>, typeSystem: seq<char>, typeSystemAt: Option<(nat, int)>, aliases: set<(nat, nat)>)

  lemma {:induction false} CoversBoth(a: seq<Span>, b: seq<Span>, p: nat)
    ensures Covers(a + b, p) <==> Covers(a, p) || Covers(b, p)
  {
    var all := a + b;
    if Covers(a, p) {
      var k :| 0 <= k < |a| && a[k].start <= p < a[k].end;
      assert all[k] == a[k];
    }
    if Covers(b, p) {
      var k :| 0 <= k < |b| && b[k].start <= p < b[k].end;
      assert all[|a| + k] == b[k];
    }
  }

  /** A token stands in the text as in the document. */
  ghost predicate Intact(text: seq<char>, runes: seq<char>, t: Token) {
    |text| == |runes| && forall p :: t.start <= p < t.end && p < |runes| ==> text[p] == runes[p]
  }

  /** Of a token nothing but its line breaks is left. */
  ghost predicate Gone(text: seq<char>, runes: seq<char>, t: Token) {
    |text| == |runes| && forall p :: t.start <= p < t.end && p < |runes| ==> text[p] == if IsNewline(runes[p]) then runes[p] else ' '
  }

  /** A text keeps the rune count and every line break, and what it does not
      keep it blanks. */
  ghost predicate Masks(text: seq<char>, runes: seq<char>) {
    |text| == |runes| && forall p :: 0 <= p < |runes| ==> text[p] == runes[p] || (text[p] == ' ' && !IsNewline(runes[p]))
  }

  /** Each token survives in exactly one place: in the type-system text, blanked
      as a description, or in the executable text. */
  ghost predicate Placed(s: Scanned, runes: seq<char>, toks: seq<Token>, regions: seq<Region>, t: nat)
    requires t < |toks|
  {
    if InTyped(regions, t) then
      Intact(s.typeSystem, runes, toks[t]) && Gone(s.executable, runes, toks[t]) && !IsDescription(regions, t)
    else
      && (if IsDescription(regions, t) then IsText(toks[t]) && Gone(s.executable, runes, toks[t]) else Intact(s.executable, runes, toks[t]))
      && (s.typeSystem == [] || Gone(s.typeSystem, runes, toks[t]))
  }

  // ---- The result, rune by rune ----

  /** The rune lies in a definition, between its first token and its last. */
  predicate Holds(toks: seq<Token>, r: Region, p: nat) {
    r.from < r.to < |toks| && toks[r.from].start <= p < toks[r.to - 1].end
  }

  ghost predicate InDefinition(toks: seq<Token>, regions: seq<Region>, p: nat) {
    exists k :: 0 <= k < |regions| && regions[k].Typed? && Holds(toks, regions[k], p)
  }

  ghost predicate InDescription(toks: seq<Token>, regions: seq<Region>, p: nat) {
    exists t :: 0 <= t < |toks| && IsDescription(regions, t) && toks[t].start <= p < toks[t].end
  }

  lemma {:induction false} TypedHold(toks: seq<Token>, regions: seq<Region>, p: nat)
    requires forall k :: 0 <= k < |regions| ==> regions[k].from < regions[k].to < |toks|
    ensures Covers(TypedSpans(toks, regions), p) <==> InDefinition(toks, regions, p)
    ensures TypedSpans(toks, regions) == [] <==> forall k :: 0 <= k < |regions| ==> !regions[k].Typed?
    decreases |regions|
  {
    hide Covers;
    if regions == [] {
      NothingCovered(p);
    } else {
      var n := |regions| - 1;
      var last, before := regions[n], regions[..n];
      TypedHold(toks, before, p);
      CoversApart(TypedSpans(toks, before), Span(toks[last.from].start, toks[last.to - 1].end), p);
      if k :| 0 <= k < |before| && before[k].Typed? && Holds(toks, before[k], p) { assert regions[k] == before[k]; }
      if k :| 0 <= k < |regions| && regions[k].Typed? && Holds(toks, regions[k], p) {
        if k < n { assert before[k] == regions[k]; }
      }
      if forall k :: 0 <= k < |regions| ==> !regions[k].Typed? {
        forall k | 0 <= k < n ensures !before[k].Typed? { assert before[k] == regions[k]; }
      }
      if forall k :: 0 <= k < n ==> !before[k].Typed? {
        forall k | 0 <= k < n ensures !regions[k].Typed? { assert before[k] == regions[k]; }
      }
    }
  }

  lemma NothingCovered(p: nat)
    ensures !Covers([], p)
  {}

  lemma {:induction false} TextsHold(toks: seq<Token>, regions: seq<Region>, p: nat)
    requires forall i :: 0 <= i < |Texts(regions)| ==> Texts(regions)[i] < |toks|
    ensures Covers(SpansOf(toks, Texts(regions)), p) <==> InDescription(toks, regions, p)
  {
    hide Texts, IsDescription;
    TextsFrom(regions);
    var texts := Texts(regions);
    var spans := SpansOf(toks, texts);
    if k :| 0 <= k < |spans| && spans[k].start <= p < spans[k].end { assert texts[k] in texts; }
    if t :| 0 <= t < |toks| && IsDescription(regions, t) && toks[t].start <= p < toks[t].end {
      var k :| 0 <= k < |texts| && texts[k] == t;
      assert spans[k] == TokenSpan(toks[t]);
    }
  }

  /** The executable text without definitions of the type system and
      descriptions, and the type-system text without anything else. */
  ghost predicate Splits(s: Scanned, runes: seq<char>, toks: seq<Token>, regions: seq<Region>) {
    && |s.executable| == |runes|
    && (forall p :: 0 <= p < |runes| ==>
          s.executable[p] ==
            if runes[p] != '\n' && runes[p] != '\r' && (InDefinition(toks, regions, p) || InDescription(toks, regions, p)) then ' ' else runes[p])
    && if forall k :: 0 <= k < |regions| ==> !regions[k].Typed? then s.typeSystem == []
       else
         && |s.typeSystem| == |runes|
         && forall p :: 0 <= p < |runes| ==>
              s.typeSystem[p] == if runes[p] == '\n' || runes[p] == '\r' || InDefinition(toks, regions, p) then runes[p] else ' '
  }

  /** An alias is a name in a selection set, with a colon behind it and outside
      parentheses. */
  ghost predicate AliasAt(toks: seq<Token>, regions: seq<Region>, place: (nat, nat)) {
    exists r, k :: r in regions && r.Executable? && r.body <= k < r.to && NamesAlias(toks, r.body, k) && place == (toks[k].line, toks[k].column)
  }

  predicate NamesAlias(toks: seq<Token>, from: nat, k: nat) {
    k + 1 < |toks| && toks[k].kind == Name && toks[k + 1].kind == Colon && Parens(toks, from, k) == 0
  }

  lemma {:induction false} AliasesExact(toks: seq<Token>, regions: seq<Region>)
    requires forall k :: 0 <= k < |regions| ==> regions[k].from < regions[k].to < |toks|
    ensures forall place :: place in AllAliases(toks, regions) <==> AliasAt(toks, regions, place)
    decreases |regions|
  {
    hide Parens;
    if regions != [] {
      var n := |regions| - 1;
      AliasesExact(toks, regions[..n]);
      assert regions == regions[..n] + [regions[n]];
      forall r ensures r in regions <==> r in regions[..n] || r == regions[n] {}
      if regions[n].Executable? {
        forall k: nat ensures IsAlias(toks, regions[n].body, k) <==> NamesAlias(toks, regions[n].body, k) {}
      }
    }
  }

  /** Where the first type-system definition begins: a string and a block string
      begin before their quotes. */
  ghost predicate FirstAt(toks: seq<Token>, regions: seq<Region>, at: Option<(nat, int)>) {
    match at
    case None => forall k :: 0 <= k < |regions| ==> !regions[k].Typed?
    case Some(place) => exists k: nat :: BeginsAt(toks, regions, k, place)
  }

  ghost predicate BeginsAt(toks: seq<Token>, regions: seq<Region>, k: nat, place: (nat, int)) {
    && k < |regions| && regions[k].Typed? && regions[k].from < |toks| && (forall j :: 0 <= j < k ==> !regions[j].Typed?)
    && var t := toks[regions[k].from];
       place.0 == t.line && t.column == place.1 + if t.kind == StringTok then 1 else if t.kind == BlockTok then 3 else 0
  }

  lemma {:induction false} FirstExact(toks: seq<Token>, regions: seq<Region>)
    requires forall k :: 0 <= k < |regions| ==> regions[k].from < regions[k].to < |toks|
    ensures FirstAt(toks, regions, StartOf(toks, FirstTyped(regions)))
    decreases |regions|
  {
    if regions != [] {
      if regions[0].Typed? {
        assert BeginsAt(toks, regions, 0, StartOf(toks, FirstTyped(regions)).value);
      } else {
        var rest := regions[1..];
        assert forall k :: 0 <= k < |rest| ==> rest[k] == regions[k + 1];
        FirstExact(toks, rest);
        FirstBehind(toks, regions, StartOf(toks, FirstTyped(rest)));
      }
    }
  }

  lemma {:induction false} FirstBehind(toks: seq<Token>, regions: seq<Region>, at: Option<(nat, int)>)
    requires regions != [] && !regions[0].Typed? && FirstAt(toks, regions[1..], at)
    ensures FirstAt(toks, regions, at)
  {
    var rest := regions[1..];
    assert forall k :: 0 < k < |regions| ==> regions[k] == rest[k - 1];
    if at.Some? {
      hide BeginsAt;
      var k: nat :| BeginsAt(toks, rest, k, at.value);
      BeginsBehind(toks, regions, k, at.value);
    }
  }

  lemma {:induction false} BeginsBehind(toks: seq<Token>, regions: seq<Region>, k: nat, place: (nat, int))
    requires regions != [] && !regions[0].Typed? && BeginsAt(toks, regions[1..], k, place)
    ensures BeginsAt(toks, regions, k + 1, place)
  {
    assert forall j :: 0 < j < |regions| ==> regions[j] == regions[1..][j - 1];
  }

  /** scanDocument, over the tokens of the document. It succeeds exactly when
      every definition does; the definitions decide where each token stands,
      which aliases there are and where the type system begins. */
  method ScanDocument(runes: seq<char>, toks: seq<Token>) returns (r: Option<Scanned>)
    requires TokensOk(toks) && forall k :: 0 <= k < |toks| - 1 ==> toks[k].end <= |runes|
    ensures r.Some? <==> RegionsOf(toks).Some?
    ensures r.Some? ==> Fits(toks, RegionsOf(toks).value)
    ensures r.Some? ==> r.value.aliases == AllAliases(toks, RegionsOf(toks).value)
    ensures r.Some? ==> r.value.typeSystemAt == StartOf(toks, FirstTyped(RegionsOf(toks).value))
    ensures r.Some? ==> Masks(r.value.executable, runes)
    ensures r.Some? ==>
      if TypedSpans(toks, RegionsOf(toks).value) == [] then r.value.typeSystem == [] else Masks(r.value.typeSystem, runes)
    ensures r.Some? ==> forall t :: 0 <= t < |toks| - 1 ==> Placed(r.value, runes, toks, RegionsOf(toks).value, t)
    ensures r.Some? ==> Splits(r.value, runes, toks, RegionsOf(toks).value)
    ensures r.Some? ==> forall place :: place in r.value.aliases <==> AliasAt(toks, RegionsOf(toks).value, place)
    ensures r.Some? ==> FirstAt(toks, RegionsOf(toks).value, r.value.typeSystemAt)
  {
    hide RegionsOk, TypedSpans, Texts, SpansOf, FirstTyped, Covers, AllAliases, RegionsOf, Splits, FirstAt, AliasAt, Placed;
    var s := new DocScanner(toks);
    var ok := s.Document();
    if !ok { return None; }
    ghost var regions := RegionsOf(toks).value;
    assert s.i == |toks| - 1 by { OneEnd(toks, s.i); }
    var executable := Blank(runes, s.descriptions, s.typeSystem, true);
    var typeSystem: seq<char> := [];
    if |s.typeSystem| > 0 { typeSystem := Blank(runes, s.typeSystem, [], false); }
    r := Some(Scanned(executable, typeSystem, s.typeSystemAt, s.aliases));
    forall t | 0 <= t < |toks| - 1 ensures Placed(r.value, runes, toks, regions, t) {
      TokenPlaced(r.value, runes, toks, regions, s.typeSystem, s.descriptions, t);
    }
    RegionsFit(toks, regions, |toks| - 1);
    RunesSplit(r.value, runes, toks, regions, s.typeSystem, s.descriptions);
    AliasesExact(toks, regions);
    FirstExact(toks, regions);
  }

  lemma {:induction false} RunesSplit(s: Scanned, runes: seq<char>, toks: seq<Token>, regions: seq<Region>, typed: seq<Span>, texts: seq<Span>)
    requires (forall k :: 0 <= k < |regions| ==> regions[k].from < regions[k].to < |toks|) && typed == TypedSpans(toks, regions)
    requires (forall k :: 0 <= k < |Texts(regions)| ==> Texts(regions)[k] < |toks|) && texts == SpansOf(toks, Texts(regions))
    requires |s.executable| == |runes|
    requires forall p :: 0 <= p < |runes| ==> s.executable[p] == Blanked(runes[p], Covers(texts + typed, p), true)
    requires typed == [] ==> s.typeSystem == []
    requires typed != [] ==>
      |s.typeSystem| == |runes| && forall p :: 0 <= p < |runes| ==> s.typeSystem[p] == Blanked(runes[p], Covers(typed + [], p), false)
    ensures Splits(s, runes, toks, regions)
  {
    hide TypedSpans, Texts, SpansOf, Covers, InDefinition, InDescription;
    assert typed + [] == typed;
    TypedHold(toks, regions, 0);
    forall p: nat
      ensures Covers(typed, p) <==> InDefinition(toks, regions, p)
      ensures Covers(texts + typed, p) <==> InDefinition(toks, regions, p) || InDescription(toks, regions, p)
    {
      TypedHold(toks, regions, p);
      TextsHold(toks, regions, p);
      CoversBoth(texts, typed, p);
    }
  }

  ghost predicate Fits(toks: seq<Token>, regions: seq<Region>) {
    forall k :: 0 <= k < |regions| ==> regions[k].from < regions[k].to < |toks|
  }

  lemma {:induction false} OneEnd(toks: seq<Token>, i: nat)
    requires TokensOk(toks) && i < |toks| && toks[i].kind.EndTok?
    ensures i == |toks| - 1
  {}

  lemma {:induction false} TokenPlaced(s: Scanned, runes: seq<char>, toks: seq<Token>, regions: seq<Region>,
                                       typed: seq<Span>, texts: seq<Span>, t: nat)
    requires TokensOk(toks) && RegionsOk(toks, regions, |toks| - 1) && t < |toks| - 1
    requires typed == TypedSpans(toks, regions)
    requires (forall k :: 0 <= k < |Texts(regions)| ==> Texts(regions)[k] < |toks|) && texts == SpansOf(toks, Texts(regions))
    requires |s.executable| == |runes|
    requires forall p :: 0 <= p < |runes| ==> s.executable[p] == Blanked(runes[p], Covers(texts + typed, p), true)
    requires typed == [] ==> s.typeSystem == []
    requires typed != [] ==>
      && |s.typeSystem| == |runes|
      && (forall p :: 0 <= p < |runes| ==> s.typeSystem[p] == Blanked(runes[p], Covers(typed + [], p), false))
    ensures Placed(s, runes, toks, regions, t)
  {
    hide RegionsOk, TypedSpans, Texts, SpansOf, Covers, InTyped, IsDescription;
    TextsInside(toks, regions, |toks| - 1);
    TextsFrom(regions);
    if IsDescription(regions, t) { DescriptionApart(toks, regions, |toks| - 1, t); }
    assert typed + [] == typed;
    if typed == [] { NoTyped(toks, regions, |toks| - 1, t); }
    forall p | toks[t].start <= p < toks[t].end && p < |runes|
      ensures Covers(typed, p) <==> InTyped(regions, t)
      ensures Covers(texts + typed, p) <==> IsDescription(regions, t) || InTyped(regions, t)
    {
      CoversBoth(texts, typed, p);
      TypedCovers(toks, regions, |toks| - 1, t, p);
      TextCovers(toks, Texts(regions), t, p);
    }
  }

  lemma {:induction false} NoTyped(toks: seq<Token>, regions: seq<Region>, end: nat, t: nat)
    requires TokensOk(toks) && RegionsOk(toks, regions, end) && t < |toks| - 1 && TypedSpans(toks, regions) == []
    ensures !InTyped(regions, t)
  {
    TypedCovers(toks, regions, end, t, toks[t].start);
  }
}
