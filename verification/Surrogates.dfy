/** hasLoneSurrogate (ftv-graphql-mapper/body.go): whether the escapes of a JSON
    text, read from the left, leave a surrogate without its partner. */
module Surrogates {
  import opened Base

  /** unicodeEscape: the code unit escaped at s[i], if there is one. */
  function UnicodeEscape(s: string, i: nat): (r: Option<nat>)
    ensures r.Some? ==> i + 6 <= |s| && s[i] == '\\' && s[i + 1] == 'u' && r.value < 0x10000
  {
    if i + 6 > |s| || s[i] != '\\' || s[i + 1] != 'u' then None
    else
      var a, b := HexValue(s[i + 2]), HexValue(s[i + 3]);
      var c, d := HexValue(s[i + 4]), HexValue(s[i + 5]);
      if a.None? || b.None? || c.None? || d.None? then None
      else Some(((a.value * 16 + b.value) * 16 + c.value) * 16 + d.value)
  }

  predicate High(unit: nat) { 0xD800 <= unit < 0xDC00 }

  predicate Low(unit: nat) { 0xDC00 <= unit <= 0xDFFF }

  /** What a reader of the text sees, left to right: a \uXXXX escape, or
      anything else (a plain character or another escape). */
  datatype Piece = Unit(code: nat) | Other

  ghost function Pieces(s: string, i: nat): seq<Piece>
    decreases if i < |s| then |s| - i else 0
  {
    if i >= |s| then []
    else if s[i] != '\\' then [Other] + Pieces(s, i + 1)
    else match UnicodeEscape(s, i)
      case None => [Other] + Pieces(s, i + 2)
      case Some(u) => [Unit(u)] + Pieces(s, i + 6)
  }

  /** Piece k is a surrogate without its other half beside it: a high one not
      followed by a low one, or a low one not preceded by a high one. */
  ghost predicate Unpaired(ps: seq<Piece>, k: int) {
    && 0 <= k < |ps| && ps[k].Unit?
    && (High(ps[k].code) ==> !(k + 1 < |ps| && ps[k + 1].Unit? && Low(ps[k + 1].code)))
    && (High(ps[k].code) || Low(ps[k].code))
    && (Low(ps[k].code) ==> !(k > 0 && ps[k - 1].Unit? && High(ps[k - 1].code)))
  }

  ghost predicate HasUnpaired(ps: seq<Piece>) {
    exists k :: Unpaired(ps, k)
  }

  /** A piece that is no surrogate decides nothing about the rest. */
  lemma SkipPiece(p: Piece, ps: seq<Piece>)
    requires p.Unit? ==> !High(p.code) && !Low(p.code)
    ensures HasUnpaired([p] + ps) <==> HasUnpaired(ps)
  {
    var all := [p] + ps;
    forall k | Unpaired(ps, k) ensures HasUnpaired(all) { assert Unpaired(all, k + 1); }
    forall k | Unpaired(all, k) ensures HasUnpaired(ps) { assert Unpaired(ps, k - 1); }
  }

  /** Nor does a complete pair. */
  lemma SkipPair(high: nat, low: nat, ps: seq<Piece>)
    requires High(high) && Low(low)
    ensures HasUnpaired([Unit(high)] + ([Unit(low)] + ps)) <==> HasUnpaired(ps)
  {
    var all := [Unit(high)] + ([Unit(low)] + ps);
    forall k | Unpaired(ps, k) ensures HasUnpaired(all) { assert Unpaired(all, k + 2); }
    forall k | Unpaired(all, k) ensures HasUnpaired(ps) { assert Unpaired(ps, k - 2); }
  }

  /** hasLoneSurrogate is true exactly when some escape, read left to right,
      is an unpaired surrogate. */
  method HasLoneSurrogate(s: string) returns (lone: bool)
    ensures lone <==> HasUnpaired(Pieces(s, 0))
  {
    var i := 0;
    while i < |s|
      invariant HasUnpaired(Pieces(s, 0)) <==> HasUnpaired(Pieces(s, i))
    {
      if s[i] != '\\' {
        SkipPiece(Other, Pieces(s, i + 1));
        i := i + 1;
        continue;
      }
      var r := UnicodeEscape(s, i);
      if r.None? {
        SkipPiece(Other, Pieces(s, i + 2));
        i := i + 2;
        continue;
      }
      i := i + 5;
      ghost var ps := Pieces(s, i - 5);
      assert ps[0] == Unit(r.value);
      if High(r.value) {
        var low := UnicodeEscape(s, i + 1);
        if low.None? || low.value < 0xDC00 || low.value > 0xDFFF {
          assert Unpaired(ps, 0);
          return true;
        }
        assert Pieces(s, i + 1) == [Unit(low.value)] + Pieces(s, i + 7);
        SkipPair(r.value, low.value, Pieces(s, i + 7));
        i := i + 6;
      } else if Low(r.value) {
        assert Unpaired(ps, 0);
        return true;
      } else {
        SkipPiece(Unit(r.value), Pieces(s, i + 1));
      }
      i := i + 1;
    }
    return false;
  }

  /** Four hexadecimal digits behind a backslash and a u, the first the most
      significant. */
  lemma EscapeSpells(s: string, i: nat, unit: nat)
    ensures UnicodeEscape(s, i) == Some(unit) <==>
      && i + 6 <= |s| && s[i..i + 2] == ['\\', 'u']
      && HexValue(s[i + 2]).Some? && HexValue(s[i + 3]).Some? && HexValue(s[i + 4]).Some? && HexValue(s[i + 5]).Some?
      && unit == 0x1000 * HexValue(s[i + 2]).value + 0x100 * HexValue(s[i + 3]).value
                 + 0x10 * HexValue(s[i + 4]).value + HexValue(s[i + 5]).value
  {
    hide HexValue;
    if i + 6 <= |s| { assert s[i..i + 2] == [s[i], s[i + 1]]; }
  }

  /** The two units of a code point beyond the first plane (section 3.9 of the
      Unicode Standard, UTF-16). */
  function Units(point: nat): (nat, nat)
    requires 0x10000 <= point <= 0x10FFFF
  {
    (0xD800 + (point - 0x10000) / 0x400, 0xDC00 + (point - 0x10000) % 0x400)
  }

  /** The surrogates are exactly the first and the second of such units. */
  lemma SurrogatesExact(unit: nat)
    ensures High(unit) <==> exists point :: 0x10000 <= point <= 0x10FFFF && Units(point).0 == unit
    ensures Low(unit) <==> exists point :: 0x10000 <= point <= 0x10FFFF && Units(point).1 == unit
  {
    if High(unit) { assert Units(0x10000 + (unit - 0xD800) * 0x400).0 == unit; }
    if Low(unit) { assert Units(0x10000 + (unit - 0xDC00)).1 == unit; }
  }
}
