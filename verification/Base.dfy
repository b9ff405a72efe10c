/** Values shared by every component: optional results, decoded JSON, and the
    few string operations the sources take from Go's standard library. */
module Base {

  datatype Option<+T> = None | Some(value: T)

  /** A JSON value as the mapper and the value builder hold it: numbers stay
      their text, objects are maps. */
  datatype Json =
    | JNull
    | JBool(b: bool)
    | JNum(text: string)
    | JStr(s: string)
    | JList(items: seq<Json>)
    | JObj(members: map<string, Json>)

  /** One segment of a path into a JSON value. */
  datatype Seg = Key(name: string) | Index(i: nat)

  type Path = seq<Seg>

  /** The value at a path, None when the path leads nowhere. */
  function At(v: Json, path: Path): Option<Json>
    decreases |path|
  {
    if path == [] then Some(v)
    else match path[0]
      case Key(k) =>
        if v.JObj? && k in v.members then At(v.members[k], path[1..]) else None
      case Index(i) =>
        if v.JList? && i < |v.items| then At(v.items[i], path[1..]) else None
  }

  /** strings.Cut: what stands before and after the first sep. */
  function Cut(s: string, sep: char): (r: (string, string, bool))
    ensures s != "" ==> |r.1| < |s|
  {
    if s == "" then ("", "", false)
    else if s[0] == sep then ("", s[1..], true)
    else var (before, after, found) := Cut(s[1..], sep);
      ([s[0]] + before, after, found)
  }

  /** Cut finds the first separator, so a prefix without one is what it cuts off. */
  lemma {:induction false} CutAtFirst(before: string, sep: char, after: string)
    requires sep !in before
    ensures Cut(before + [sep] + after, sep) == (before, after, true)
  {
    var s := before + [sep] + after;
    if before == "" {
      assert s[1..] == after;
    } else {
      assert s[0] == before[0];
      assert s[1..] == before[1..] + [sep] + after;
      CutAtFirst(before[1..], sep, after);
      assert [before[0]] + before[1..] == before;
    }
  }

  lemma {:induction false} CutWithout(s: string, sep: char)
    requires sep !in s
    ensures Cut(s, sep) == (s, "", false)
  {
    if s != "" {
      CutWithout(s[1..], sep);
      assert [s[0]] + s[1..] == s;
    }
  }

  // ---- Hexadecimal digits ----

  function HexDigit(n: nat): (c: char)
    requires n < 16
    ensures HexValue(c) == Some(n)
  {
    (if n < 10 then '0' as int + n else 'a' as int + n - 10) as char
  }

  function HexValue(c: char): Option<nat> {
    if '0' <= c <= '9' then Some(c as int - '0' as int)
    else if 'a' <= c <= 'f' then Some(c as int - 'a' as int + 10)
    else if 'A' <= c <= 'F' then Some(c as int - 'A' as int + 10)
    else None
  }

  /** The sixteen digits, in either case. */
  lemma HexValueExact(c: char, n: nat)
    ensures HexValue(c) == Some(n) <==> n < 16 && (c == "0123456789abcdef"[n] || c == "0123456789ABCDEF"[n])
  {}

  // ---- Trimming, splitting and joining ----

  /** strings.TrimLeft(s, "0"). */
  function TrimLeftZeros(s: string): (r: string)
    ensures |r| <= |s| && r == s[|s| - |r|..]
    ensures r != "" ==> r[0] != '0'
  {
    if s != "" && s[0] == '0' then TrimLeftZeros(s[1..]) else s
  }

  /** strings.TrimRight(s, "0"). */
  function TrimRightZeros(s: string): (r: string)
    ensures |r| <= |s| && r == s[..|r|]
    ensures r != "" ==> r[|r| - 1] != '0'
  {
    if s != "" && s[|s| - 1] == '0' then TrimRightZeros(s[..|s| - 1]) else s
  }

  /** s + strings.Repeat("0", n). */
  function PadZeros(s: string, n: nat): (r: string)
    ensures |r| == |s| + n
  {
    if n == 0 then s else PadZeros(s, n - 1) + "0"
  }

  /** strings.Split on one character: always at least one part. */
  function Split(s: string, sep: char): (parts: seq<string>)
    ensures parts != []
    decreases |s|
  {
    var (part, rest, found) := Cut(s, sep);
    if s == "" || !found then [s] else [part] + Split(rest, sep)
  }

  /** strings.Join */
  function Join(parts: seq<string>, separator: string): string {
    if parts == [] then ""
    else if |parts| == 1 then parts[0]
    else parts[0] + separator + Join(parts[1..], separator)
  }

  /** Splitting and joining again gives the text; no part holds the separator. */
  lemma {:induction false} SplitSpells(s: string, sep: char)
    ensures Join(Split(s, sep), [sep]) == s
    ensures forall part :: part in Split(s, sep) ==> sep !in part
    decreases |s|
  {
    var (part, rest, found) := Cut(s, sep);
    CutSpells(s, sep);
    if found {
      SplitSpells(rest, sep);
      assert ([part] + Split(rest, sep))[1..] == Split(rest, sep);
    }
  }

  lemma {:induction false} CutSpells(s: string, sep: char)
    ensures var (part, rest, found) := Cut(s, sep);
      sep !in part && s == if found then part + [sep] + rest else part
  {
    if s != "" {
      if s[0] == sep {
        assert s == "" + [sep] + s[1..];
      } else {
        CutSpells(s[1..], sep);
        var (part, rest, found) := Cut(s[1..], sep);
        assert s == [s[0]] + s[1..];
        if found { assert [s[0]] + (part + [sep] + rest) == ([s[0]] + part) + [sep] + rest; }
      }
    }
  }

  /** No element stands twice. */
  ghost predicate NoRepeats<T>(s: seq<T>) { forall i, j :: 0 <= i < j < |s| ==> s[i] != s[j] }

  lemma {:induction false} Regroup<T>(a: seq<T>, b: seq<T>, c: seq<T>)
    ensures (a + b) + c == a + (b + c)
  {}
}
