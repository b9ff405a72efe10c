/** Which error strict decoding reports (ftv-graphql-mapper/body.go): that of an
    automaton that reads one token after the other and stops at the first that
    does not fit. */
module StrictFaults {
  import opened Base
  import opened StrictJson

  /** A list or object that is open. Of an object, the names read so far, and
      whether a name or its value comes next. */
  datatype Frame = InList | AwaitsName(names: set<string>) | AwaitsValue(names: set<string>)

  /** The open lists and objects, innermost last; or the end of the text. */
  datatype Place = Within(open: seq<Frame>) | Finished

  datatype Stop = Stopped(error: DecodeError) | At(place: Place)

  /** Where a value leads, that stood in these. */
  function Behind(open: seq<Frame>): Place {
    if open == [] then Finished
    else
      var outer, last := open[..|open| - 1], open[|open| - 1];
      match last
      case AwaitsValue(names) => Within(outer + [AwaitsName(names)])
      case _ => Within(open)
  }

  /** What the next token does. Only a name already read repeats, and only an
      opening token nests too deep. */
  function Advance(open: seq<Frame>, t: Token, maxDepth: nat): Stop {
    var innermost := if open == [] then None else Some(open[|open| - 1]);
    if innermost.Some? && innermost.value.AwaitsName? then
      var outer := open[..|open| - 1];
      match t
      case CloseObj => At(Behind(outer))
      case TStr(name) =>
        if name in innermost.value.names then Stopped(Duplicate)
        else At(Within(outer + [AwaitsValue(innermost.value.names + {name})]))
      case _ => Stopped(NotJson)
    else
      match t
      case OpenList => if |open| == maxDepth then Stopped(TooDeep) else At(Within(open + [InList]))
      case OpenObj => if |open| == maxDepth then Stopped(TooDeep) else At(Within(open + [AwaitsName({})]))
      case CloseList => if innermost == Some(InList) then At(Behind(open[..|open| - 1])) else Stopped(NotJson)
      case CloseObj => Stopped(NotJson)
      case _ => At(Behind(open))
  }

  /** Reading on: the text may not end inside, nor go on behind its end. clean
      says that it ends with the body. */
  function Judge(place: Place, ts: seq<Token>, clean: bool, maxDepth: nat): Option<DecodeError>
    decreases |ts|
  {
    match place
    case Finished => if ts == [] && clean then None else Some(TrailingData)
    case Within(open) =>
      if ts == [] then Some(NotJson)
      else match Advance(open, ts[0], maxDepth)
        case Stopped(error) => Some(error)
        case At(next) => Judge(next, ts[1..], clean, maxDepth)
  }

  // ---- The decoder goes the same way ----

  /** A value may stand here. */
  predicate AwaitsOne(open: seq<Frame>) { open == [] || !open[|open| - 1].AwaitsName? }

  lemma {:induction false} JudgeNext(open: seq<Frame>, ts: seq<Token>, clean: bool, maxDepth: nat)
    ensures Judge(Within(open), ts, clean, maxDepth) ==
      if ts == [] then Some(NotJson)
      else match Advance(open, ts[0], maxDepth)
        case Stopped(error) => Some(error)
        case At(next) => Judge(next, ts[1..], clean, maxDepth)
  {}

  /** A closing bracket where a list may end is no value, and yet it fits. */
  predicate EndsList(open: seq<Frame>, ts: seq<Token>) {
    ts != [] && ts[0].CloseList? && open != [] && open[|open| - 1].InList?
  }

  lemma {:induction false} ValueJudged(ts: seq<Token>, open: seq<Frame>, clean: bool, maxDepth: nat)
    requires |open| <= maxDepth && AwaitsOne(open) && !EndsList(open, ts)
    ensures match Value(ts, |open|, maxDepth)
      case Ok(read) => Judge(Within(open), ts, clean, maxDepth) == Judge(Behind(open), read.rest, clean, maxDepth)
      case Fail(e) => Judge(Within(open), ts, clean, maxDepth) == Some(e)
    decreases |ts|, 1
  {
    hide Judge, Items, Members, Behind;
    JudgeNext(open, ts, clean, maxDepth);
    if ts != [] && |open| < maxDepth {
      if ts[0].OpenList? {
        ItemsJudged(ts[1..], [], open, clean, maxDepth);
      } else if ts[0].OpenObj? {
        NoKeys();
        MembersJudged(ts[1..], map[], open, clean, maxDepth);
      }
    }
  }

  lemma NoKeys()
    ensures var none: map<string, Json> := map[]; none.Keys == {}
  {}

  lemma {:induction false} ItemsJudged(ts: seq<Token>, list: seq<Json>, open: seq<Frame>, clean: bool, maxDepth: nat)
    requires |open| < maxDepth
    ensures var here := open + [InList];
      match Items(ts, list, |open| + 1, maxDepth)
      case Ok(read) => Judge(Within(here), ts, clean, maxDepth) == Judge(Behind(open), read.rest, clean, maxDepth)
      case Fail(e) => Judge(Within(here), ts, clean, maxDepth) == Some(e)
    decreases |ts|, 2
  {
    hide Judge, Value, Behind;
    var here := open + [InList];
    assert here[..|open|] == open && here[|here| - 1] == InList;
    BehindInner(open, InList);
    JudgeNext(here, ts, clean, maxDepth);
    if ts != [] && !ts[0].CloseObj? && !ts[0].CloseList? {
      ValueJudged(ts, here, clean, maxDepth);
      var item := Value(ts, |here|, maxDepth);
      if item.Ok? { ItemsJudged(item.value.rest, list + [item.value.v], open, clean, maxDepth); }
    }
  }

  lemma BehindInner(open: seq<Frame>, inner: Frame)
    requires !inner.AwaitsName?
    ensures Behind(open + [inner]) == Within(open + [if inner.AwaitsValue? then AwaitsName(inner.names) else inner])
  {
    assert (open + [inner])[..|open|] == open;
  }

  lemma {:induction false} MembersJudged(ts: seq<Token>, obj: map<string, Json>, open: seq<Frame>, clean: bool, maxDepth: nat)
    requires |open| < maxDepth
    ensures var here := open + [AwaitsName(obj.Keys)];
      match Members(ts, obj, |open| + 1, maxDepth)
      case Ok(read) => Judge(Within(here), ts, clean, maxDepth) == Judge(Behind(open), read.rest, clean, maxDepth)
      case Fail(e) => Judge(Within(here), ts, clean, maxDepth) == Some(e)
    decreases |ts|, 2
  {
    var here := open + [AwaitsName(obj.Keys)];
    assert here[..|open|] == open && here[|here| - 1] == AwaitsName(obj.Keys);
    hide Judge, Value, Behind;
    JudgeNext(here, ts, clean, maxDepth);
    if ts != [] && ts[0].TStr? && ts[0].s !in obj {
      var inside := open + [AwaitsValue(obj.Keys + {ts[0].s})];
      BehindInner(open, AwaitsValue(obj.Keys + {ts[0].s}));
      assert inside[|inside| - 1] == AwaitsValue(obj.Keys + {ts[0].s});
      ValueJudged(ts[1..], inside, clean, maxDepth);
      var member := Value(ts[1..], |inside|, maxDepth);
      if member.Ok? {
        var next := obj[ts[0].s := member.value.v];
        assert next.Keys == obj.Keys + {ts[0].s};
        MembersJudged(member.value.rest, next, open, clean, maxDepth);
      }
    }
  }

  /** Strict decoding fails exactly as the automaton stops: with a repeated name
      or too deep a nesting where that is the first thing wrong, as trailing data
      where the text is over, and as no JSON otherwise. */
  lemma {:induction false} StrictFaultsExact(toks: seq<Token>, clean: bool, maxDepth: nat)
    ensures match Judge(Within([]), toks, clean, maxDepth)
      case None => Strict(toks, clean, maxDepth).Ok?
      case Some(e) => Strict(toks, clean, maxDepth) == Fail(e)
  {
    hide Value, Advance;
    ValueJudged(toks, [], clean, maxDepth);
  }
}
