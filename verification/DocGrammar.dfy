/** What the document scanner recognises of a document
    (ftv-graphql-mapper/docscan.go): its definitions, by their first tokens and
    their brackets. A recogniser is a function of the tokens and of the position
    it starts at. */
module DocGrammar {
  import opened Base

  datatype Kind =
    | BraceL | BraceR | BracketL | BracketR | ParenL | ParenR
    | Name | Colon | Dollar | At_ | Equals | Amp | Pipe | Bang | Dots
    | IntTok | FloatTok | StringTok | BlockTok | EndTok

  /** A token, the runes it spans, and its line and column. */
  datatype Token = Token(kind: Kind, value: string, start: nat, end: nat, line: nat, column: nat)

  /** What the lexer grants: tokens in order, each of at least one rune, and one
      end token, the last. */
  ghost predicate TokensOk(toks: seq<Token>) {
    && toks != [] && toks[|toks| - 1].kind.EndTok?
    && (forall k :: 0 <= k < |toks| - 1 ==> !toks[k].kind.EndTok? && toks[k].start < toks[k].end)
    && (forall k, l :: 0 <= k < l < |toks| ==> toks[k].end <= toks[l].start)
  }

  predicate IsText(t: Token) { t.kind.StringTok? || t.kind.BlockTok? }

  // ---- Brackets and aliases ----

  function Bracket(k: Kind): int {
    match k
    case BraceL => 1 case BracketL => 1 case ParenL => 1
    case BraceR => -1 case BracketR => -1 case ParenR => -1
    case _ => 0
  }

  /** How many brackets of tokens [from, end) are open, of all kinds. */
  function Open(toks: seq<Token>, from: nat, end: nat): int
    requires end <= |toks|
    decreases end
  {
    if end <= from then 0 else Open(toks, from, end - 1) + Bracket(toks[end - 1].kind)
  }

  /** How many of them are parentheses. */
  function Parens(toks: seq<Token>, from: nat, end: nat): int
    requires end <= |toks|
    decreases end
  {
    if end <= from then 0
    else
      var k := toks[end - 1].kind;
      Parens(toks, from, end - 1) + if k.ParenL? then 1 else if k.ParenR? then -1 else 0
  }

  /** The tokens [from, to) close what the first of them opens, and not before. */
  ghost predicate Balanced(toks: seq<Token>, from: nat, to: nat) {
    from < to <= |toks| && Open(toks, from, to) == 0 && forall j :: from < j < to ==> Open(toks, from, j) != 0
  }

  function Place(t: Token): (nat, nat) { (t.line, t.column) }

  /** A name before a colon outside parentheses: an alias. */
  predicate IsAlias(toks: seq<Token>, from: nat, k: nat) {
    k + 1 < |toks| && toks[k].kind.Name? && Parens(toks, from, k) == 0 && toks[k + 1].kind.Colon?
  }

  function AliasesIn(toks: seq<Token>, from: nat, to: nat): set<(nat, nat)>
    requires to <= |toks|
  {
    set k | from <= k < to && IsAlias(toks, from, k) :: Place(toks[k])
  }

  /** A selection set: from an opening brace to the one that closes it. */
  ghost predicate IsBody(toks: seq<Token>, from: nat, to: nat) {
    Balanced(toks, from, to) && toks[from].kind.BraceL?
  }

  // ---- Regions ----

  /** A definition's tokens [from, to): one of the type system, or an executable
      one with the start of its selection set, the descriptions of its variables
      and its own. */
  datatype Region =
    | Typed(from: nat, to: nat)
    | Executable(from: nat, to: nat, body: nat, inner: seq<nat>, own: Option<nat>)

  // ---- Single tokens ----

  const TYPE_SYSTEM_KEYWORDS: set<string> :=
    {"schema", "scalar", "type", "interface", "union", "enum", "input", "directive", "extend"}

  /** Whether something was recognised, and the position behind it, or that of
      the token that does not fit. */
  datatype Read = Read(ok: bool, at: nat)

  // The end token is never recognised, so a position stays inside the tokens.

  predicate Is(toks: seq<Token>, i: nat, kind: Kind) { i + 1 < |toks| && toks[i].kind == kind }

  predicate IsWord(toks: seq<Token>, i: nat, value: string) { Is(toks, i, Name) && toks[i].value == value }

  predicate IsKeyword(toks: seq<Token>, i: nat) { Is(toks, i, Name) && toks[i].value in TYPE_SYSTEM_KEYWORDS }

  predicate IsOperation(toks: seq<Token>, i: nat) {
    IsWord(toks, i, "query") || IsWord(toks, i, "mutation") || IsWord(toks, i, "subscription")
  }

  function One(toks: seq<Token>, i: nat, kind: Kind): Read {
    if Is(toks, i, kind) then Read(true, i + 1) else Read(false, i)
  }

  function Word(toks: seq<Token>, i: nat, value: string): Read {
    if IsWord(toks, i, value) then Read(true, i + 1) else Read(false, i)
  }

  /** The position behind an optional token. */
  function Past(toks: seq<Token>, i: nat, kind: Kind): nat { if Is(toks, i, kind) then i + 1 else i }

  // ---- Recognisers ----

  /** group: a balanced group from its opener on, i tokens in. */
  function GroupFrom(toks: seq<Token>, from: nat, i: nat): (r: Read)
    ensures i <= r.at && (r.ok ==> i < r.at) && (i < |toks| ==> r.at < |toks|)
    decreases |toks| - i
  {
    if i + 1 >= |toks| then Read(false, i)
    else
      var open := Open(toks, from, i + 1);
      if open == 0 then Read(true, i + 1)
      else if open < 0 then Read(false, i + 1)
      else GroupFrom(toks, from, i + 1)
  }

  function GroupAt(toks: seq<Token>, i: nat): Read { GroupFrom(toks, i, i) }

  function TypeRefAt(toks: seq<Token>, i: nat): (r: Read)
    ensures i <= r.at && (r.ok ==> i < r.at) && (i < |toks| ==> r.at < |toks|)
    decreases |toks| - i
  {
    if Is(toks, i, BracketL) then
      var elem := TypeRefAt(toks, i + 1);
      if !elem.ok then elem
      else
        var close := One(toks, elem.at, BracketR);
        if !close.ok then close else Read(true, Past(toks, close.at, Bang))
    else
      var name := One(toks, i, Name);
      if !name.ok then name else Read(true, Past(toks, name.at, Bang))
  }

  function ValueAt(toks: seq<Token>, i: nat): (r: Read)
    ensures i <= r.at && (r.ok ==> i < r.at) && (i < |toks| ==> r.at < |toks|)
  {
    if i + 1 >= |toks| then Read(false, i)
    else match toks[i].kind
      case BracketL => GroupAt(toks, i)
      case BraceL => GroupAt(toks, i)
      case Dollar => One(toks, i + 1, Name)
      case Name => Read(true, i + 1)
      case IntTok => Read(true, i + 1)
      case FloatTok => Read(true, i + 1)
      case StringTok => Read(true, i + 1)
      case BlockTok => Read(true, i + 1)
      case _ => Read(false, i)
  }

  function OptionalGroupAt(toks: seq<Token>, i: nat, kind: Kind): (r: Read)
    ensures i <= r.at && (i < |toks| ==> r.at < |toks|)
  {
    if Is(toks, i, kind) then GroupAt(toks, i) else Read(true, i)
  }

  function DirectivesAt(toks: seq<Token>, i: nat): (r: Read)
    ensures i <= r.at && (i < |toks| ==> r.at < |toks|)
    decreases |toks| - i
  {
    if !Is(toks, i, At_) then Read(true, i)
    else
      var name := One(toks, i + 1, Name);
      if !name.ok then name
      else
        var args := OptionalGroupAt(toks, name.at, ParenL);
        if !args.ok then args else DirectivesAt(toks, args.at)
  }

  function SelectionSetAt(toks: seq<Token>, i: nat): (r: Read)
    ensures i <= r.at && (r.ok ==> i < r.at) && (i < |toks| ==> r.at < |toks|)
  {
    if Is(toks, i, BraceL) then GroupAt(toks, i) else Read(false, i)
  }

  function OptionalBodyAt(toks: seq<Token>, i: nat): (r: Read)
    ensures i <= r.at && (i < |toks| ==> r.at < |toks|)
  {
    var d := DirectivesAt(toks, i);
    if !d.ok then d else OptionalGroupAt(toks, d.at, BraceL)
  }

  /** Names with a separator between them. */
  function NamesFrom(toks: seq<Token>, i: nat, sep: Kind): (r: Read)
    ensures i <= r.at && (i < |toks| ==> r.at < |toks|)
    decreases |toks| - i
  {
    var name := One(toks, i, Name);
    if !name.ok then name
    else if Is(toks, name.at, sep) then NamesFrom(toks, name.at + 1, sep)
    else name
  }

  function NameListAt(toks: seq<Token>, i: nat, sep: Kind): Read { NamesFrom(toks, Past(toks, i, sep), sep) }

  function ScalarAt(toks: seq<Token>, i: nat): (r: Read)
    ensures i <= r.at && (i < |toks| ==> r.at < |toks|)
  {
    var name := One(toks, i, Name);
    if !name.ok then name else DirectivesAt(toks, name.at)
  }

  function UnionAt(toks: seq<Token>, i: nat): (r: Read)
    ensures i <= r.at && (i < |toks| ==> r.at < |toks|)
  {
    var d := ScalarAt(toks, i);
    if d.ok && Is(toks, d.at, Equals) then NameListAt(toks, d.at + 1, Pipe) else d
  }

  function ObjectAt(toks: seq<Token>, i: nat): (r: Read)
    ensures i <= r.at && (i < |toks| ==> r.at < |toks|)
  {
    var name := One(toks, i, Name);
    if !name.ok then name
    else if !IsWord(toks, name.at, "implements") then OptionalBodyAt(toks, name.at)
    else
      var list := NameListAt(toks, name.at + 1, Amp);
      if !list.ok then list else OptionalBodyAt(toks, list.at)
  }

  function NamedBodyAt(toks: seq<Token>, i: nat): (r: Read)
    ensures i <= r.at && (i < |toks| ==> r.at < |toks|)
  {
    var name := One(toks, i, Name);
    if !name.ok then name else OptionalBodyAt(toks, name.at)
  }

  function DirectiveAt(toks: seq<Token>, i: nat): (r: Read)
    ensures i <= r.at && (i < |toks| ==> r.at < |toks|)
  {
    var sign := One(toks, i, At_);
    if !sign.ok then sign
    else
      var name := One(toks, sign.at, Name);
      if !name.ok then name
      else
        var args := OptionalGroupAt(toks, name.at, ParenL);
        if !args.ok then args
        else
          var on := Word(toks, if IsWord(toks, args.at, "repeatable") then args.at + 1 else args.at, "on");
          if !on.ok then on else NameListAt(toks, on.at, Pipe)
  }

  /** What follows a type-system keyword. */
  function DefinedBy(toks: seq<Token>, keyword: string, i: nat): (r: Read)
    ensures i <= r.at && (i < |toks| ==> r.at < |toks|)
  {
    if keyword == "schema" then OptionalBodyAt(toks, i)
    else if keyword == "scalar" then ScalarAt(toks, i)
    else if keyword == "type" || keyword == "interface" then ObjectAt(toks, i)
    else if keyword == "union" then UnionAt(toks, i)
    else if keyword == "enum" || keyword == "input" then NamedBodyAt(toks, i)
    else DirectiveAt(toks, i)
  }

  /** typeSystemDefinition: a definition or an extension, from its keyword on. */
  function TypeSystemAt(toks: seq<Token>, i: nat): (r: Read)
    requires i + 1 < |toks|
    ensures i < r.at < |toks|
  {
    if toks[i].value != "extend" then DefinedBy(toks, toks[i].value, i + 1)
    else if IsKeyword(toks, i + 1) && toks[i + 1].value != "directive" && toks[i + 1].value != "extend"
    then DefinedBy(toks, toks[i + 1].value, i + 2)
    else Read(false, i + 1)
  }

  // ---- Variables ----

  function DefaultAt(toks: seq<Token>, i: nat): (r: Read)
    ensures i <= r.at && (i < |toks| ==> r.at < |toks|)
  {
    if Is(toks, i, Equals) then ValueAt(toks, i + 1) else Read(true, i)
  }

  predicate IsTextAt(toks: seq<Token>, i: nat) { i + 1 < |toks| && IsText(toks[i]) }

  /** A variable with its description, up to the colon. */
  function VariableNameAt(toks: seq<Token>, i: nat): (r: Read)
    ensures i <= r.at && (r.ok ==> i < r.at < |toks|) && (i < |toks| ==> r.at < |toks|)
  {
    var dollar := One(toks, if IsTextAt(toks, i) then i + 1 else i, Dollar);
    if !dollar.ok then dollar
    else
      var name := One(toks, dollar.at, Name);
      if !name.ok then name else One(toks, name.at, Colon)
  }

  function VariableAt(toks: seq<Token>, i: nat): (r: Read)
    ensures i <= r.at && (r.ok ==> i < r.at < |toks|) && (i < |toks| ==> r.at < |toks|)
  {
    var name := VariableNameAt(toks, i);
    if !name.ok then name
    else
      var typ := TypeRefAt(toks, name.at);
      if !typ.ok then typ
      else
        var default := DefaultAt(toks, typ.at);
        if !default.ok then default else DirectivesAt(toks, default.at)
  }

  /** What was read of an operation's variables, and the tokens that describe
      them. */
  datatype Variables = Variables(read: Read, texts: seq<nat>)

  function Behind(texts: seq<nat>, rest: Variables): Variables { Variables(rest.read, texts + rest.texts) }

  function Described(toks: seq<Token>, i: nat): seq<nat> { if IsTextAt(toks, i) then [i] else [] }

  /** The variables from i to the closing parenthesis. */
  function VariablesFrom(toks: seq<Token>, i: nat): (r: Variables)
    ensures i <= r.read.at && (r.read.ok ==> i < r.read.at) && (i < |toks| ==> r.read.at < |toks|)
    decreases |toks| - i
  {
    if Is(toks, i, ParenR) then Variables(Read(true, i + 1), [])
    else
      var v := VariableAt(toks, i);
      if !v.ok then Variables(v, []) else Behind(Described(toks, i), VariablesFrom(toks, v.at))
  }

  /** Where the variables of an operation stand, if it has any. */
  function GroupStart(toks: seq<Token>, head: nat): nat { Past(toks, head + 1, Name) }

  function VariablesAt(toks: seq<Token>, i: nat): (r: Variables)
    ensures i <= r.read.at && (i < |toks| ==> r.read.at < |toks|)
  {
    if Is(toks, i, ParenL) then VariablesFrom(toks, i + 1) else Variables(Read(true, i), [])
  }

  // ---- Definitions ----

  /** A definition that does not read, a type-system definition that is passed
      over, or one with its region. */
  datatype Defined = Unread | PassedOver(at: nat) | Met(region: Region)

  function Bodied(toks: seq<Token>, from: nat, body: nat, inner: seq<nat>, own: Option<nat>): Defined {
    var sels := SelectionSetAt(toks, body);
    if sels.ok then Met(Executable(from, sels.at, body, inner, own)) else Unread
  }

  function OperationAt(toks: seq<Token>, from: nat, head: nat, own: Option<nat>): (d: Defined)
    ensures !d.PassedOver?
  {
    var vars := VariablesAt(toks, GroupStart(toks, head));
    if !vars.read.ok then Unread
    else
      var d := DirectivesAt(toks, vars.read.at);
      if !d.ok then Unread else Bodied(toks, from, d.at, vars.texts, own)
  }

  function FragmentHeadAt(toks: seq<Token>, head: nat): (r: Read)
    ensures head <= r.at && (r.ok ==> head + 1 < r.at) && (head + 1 < |toks| ==> r.at < |toks|)
  {
    var name := One(toks, head + 1, Name);
    if !name.ok then name
    else
      var on := Word(toks, name.at, "on");
      if !on.ok then on
      else
        var typ := One(toks, on.at, Name);
        if !typ.ok then typ else DirectivesAt(toks, typ.at)
  }

  /** One round of the loop over the document. */
  function DefinitionAt(toks: seq<Token>, i: nat): (d: Defined)
    requires i + 1 < |toks|
    ensures match d
      case Unread => true
      case PassedOver(at) => i < at < |toks|
      case Met(r) => r.from == i && i < r.to < |toks|
  {
    var described := IsText(toks[i]);
    var head := if described then i + 1 else i;
    var own := if described then Some(i) else None;
    if Is(toks, head, BraceL) && !described then Bodied(toks, i, head, [], own)
    else if IsOperation(toks, head) then OperationAt(toks, i, head, own)
    else if IsWord(toks, head, "fragment") then
      var f := FragmentHeadAt(toks, head);
      if !f.ok then Unread else Bodied(toks, i, f.at, [], own)
    else if IsKeyword(toks, head) then
      var t := TypeSystemAt(toks, head);
      if t.ok then Met(Typed(i, t.at)) else PassedOver(t.at)
    else Unread
  }

  /** The definitions from i on; None when one of them is refused. */
  function RegionsFrom(toks: seq<Token>, i: nat): Option<seq<Region>>
    decreases |toks| - i
  {
    if i + 1 >= |toks| then Some([])
    else match DefinitionAt(toks, i)
      case Unread => None
      case PassedOver(at) => RegionsFrom(toks, at)
      case Met(r) =>
        match RegionsFrom(toks, r.to)
        case None => None
        case Some(rest) => Some([r] + rest)
  }

  /** The definitions of a document. */
  function RegionsOf(toks: seq<Token>): Option<seq<Region>> { RegionsFrom(toks, 0) }
}
