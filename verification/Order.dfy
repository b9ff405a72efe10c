/** sort.Strings and slices.Sort: strings in lexicographic order. */
module Order {

  predicate Leq(a: string, b: string) {
    a == "" || (b != "" && (a[0] < b[0] || (a[0] == b[0] && Leq(a[1..], b[1..]))))
  }

  lemma {:induction false} Total(a: string, b: string)
    ensures Leq(a, b) || Leq(b, a)
    ensures Leq(a, b) && Leq(b, a) ==> a == b
  {
    if a != "" && b != "" {
      Total(a[1..], b[1..]);
      assert a == [a[0]] + a[1..] && b == [b[0]] + b[1..];
    }
  }

  lemma {:induction false} Transitive(a: string, b: string, c: string)
    requires Leq(a, b) && Leq(b, c)
    ensures Leq(a, c)
  {
    if a != "" && a[0] == b[0] == c[0] { Transitive(a[1..], b[1..], c[1..]); }
  }

  /** The shorter of two that begin alike comes first; else the first character
      that differs decides. */
  lemma {:induction false} LeqExact(a: string, b: string)
    ensures Leq(a, b) <==> a <= b || exists i :: 0 <= i < |a| && i < |b| && a[..i] == b[..i] && a[i] < b[i]
  {
    if a != "" && b != "" {
      var x, y := a[1..], b[1..];
      LeqExact(x, y);
      assert a == [a[0]] + x && b == [b[0]] + y;
      if i :| 0 <= i < |a| && i < |b| && a[..i] == b[..i] && a[i] < b[i] && i > 0 {
        assert a[..i][0] == b[..i][0] && a[..i][1..] == x[..i - 1] && b[..i][1..] == y[..i - 1];
        assert x[i - 1] < y[i - 1];
      }
      if a[0] == b[0] {
        if i :| 0 <= i < |x| && i < |y| && x[..i] == y[..i] && x[i] < y[i] {
          assert a[..i + 1] == [a[0]] + x[..i] && b[..i + 1] == [b[0]] + y[..i];
          assert a[i + 1] < b[i + 1];
        }
      } else if a[0] < b[0] {
        assert a[..0] == b[..0];
      }
    }
  }

  predicate Sorted(s: seq<string>) {
    forall i, j :: 0 <= i < j < |s| ==> Leq(s[i], s[j])
  }

  function Insert(x: string, s: seq<string>): (r: seq<string>)
    ensures multiset(r) == multiset(s) + multiset{x}
  {
    if s == [] || Leq(x, s[0]) then [x] + s
    else
      assert s == [s[0]] + s[1..];
      [s[0]] + Insert(x, s[1..])
  }

  lemma {:induction false} InsertSorted(x: string, s: seq<string>)
    requires Sorted(s)
    ensures Sorted(Insert(x, s))
  {
    if s == [] {
    } else if Leq(x, s[0]) {
      forall j | 0 <= j < |s| ensures Leq(x, s[j]) {
        if j > 0 { Transitive(x, s[0], s[j]); }
      }
    } else {
      Total(x, s[0]);
      var t := Insert(x, s[1..]);
      InsertSorted(x, s[1..]);
      forall j | 0 <= j < |t| ensures Leq(s[0], t[j]) {
        assert t[j] in multiset(t);
        if t[j] != x {
          assert t[j] in s[1..];
          var k :| 0 <= k < |s[1..]| && s[1..][k] == t[j];
          assert Leq(s[0], s[k + 1]);
        }
      }
    }
  }

  function Sort(s: seq<string>): (r: seq<string>)
    ensures multiset(r) == multiset(s)
  {
    if s == [] then []
    else
      assert s == [s[0]] + s[1..];
      Insert(s[0], Sort(s[1..]))
  }

  lemma {:induction false} SortSorted(s: seq<string>)
    ensures Sorted(Sort(s))
  {
    if s != [] {
      SortSorted(s[1..]);
      InsertSorted(s[0], Sort(s[1..]));
    }
  }

  lemma {:induction false} HeadLeast(s: seq<string>, x: string)
    requires Sorted(s) && x in multiset(s)
    ensures s != [] && Leq(s[0], x)
  {
    var i :| 0 <= i < |s| && s[i] == x;
    if i == 0 { Total(x, x); }
  }

  lemma TailMultiset(s: seq<string>)
    requires s != []
    ensures multiset(s[1..]) == multiset(s) - multiset{s[0]}
  {
    assert s == [s[0]] + s[1..];
  }

  /** A sorted list is determined by what is in it. */
  lemma {:induction false} SortedUnique(a: seq<string>, b: seq<string>)
    requires Sorted(a) && Sorted(b) && multiset(a) == multiset(b)
    ensures a == b
  {
    hide Leq;
    assert |multiset(a)| == |a| && |multiset(b)| == |b|;
    if a != [] {
      HeadLeast(b, a[0]);
      HeadLeast(a, b[0]);
      Total(a[0], b[0]);
      TailMultiset(a);
      TailMultiset(b);
      SortedUnique(a[1..], b[1..]);
    }
  }

  /** Sorting forgets the order and nothing else. */
  lemma {:induction false} SortSame(a: seq<string>, b: seq<string>)
    ensures Sort(a) == Sort(b) <==> multiset(a) == multiset(b)
  {
    SortSorted(a);
    SortSorted(b);
    if multiset(a) == multiset(b) { SortedUnique(Sort(a), Sort(b)); }
  }

  /** The keys of a map, sorted. */
  ghost function SortedKeys(keys: set<string>): (r: seq<string>)
    ensures |r| == |keys| && multiset(r) == multiset(keys)
    decreases |keys|
  {
    if keys == {} then []
    else
      var x :| x in keys;
      var rest := SortedKeys(keys - {x});
      assert multiset(keys) == multiset(keys - {x}) + multiset{x};
      assert |multiset(Insert(x, rest))| == |rest| + 1;
      Insert(x, rest)
  }

  lemma {:induction false} SortedKeysSorted(keys: set<string>)
    ensures Sorted(SortedKeys(keys))
    decreases |keys|
  {
    if keys != {} {
      forall x | x in keys ensures Sorted(SortedKeys(keys - {x})) {
        SortedKeysSorted(keys - {x});
      }
      forall x | x in keys ensures Sorted(Insert(x, SortedKeys(keys - {x}))) {
        InsertSorted(x, SortedKeys(keys - {x}));
      }
    }
  }

  lemma Twice(s: seq<string>, i: nat, j: nat)
    requires i < j < |s| && s[i] == s[j]
    ensures multiset(s)[s[i]] >= 2
  {
    assert s == s[..j] + s[j..];
    assert s[..j][i] == s[i] && s[j..][0] == s[i];
    assert s[i] in multiset(s[..j]) && s[i] in multiset(s[j..]);
  }

  lemma {:induction false} SortedKeysOf(keys: set<string>)
    ensures forall k :: k in SortedKeys(keys) <==> k in keys
    ensures forall i, j :: 0 <= i < j < |SortedKeys(keys)| ==> SortedKeys(keys)[i] != SortedKeys(keys)[j]
  {
    hide SortedKeys;
    var r := SortedKeys(keys);
    assert forall k :: k in r <==> k in multiset(r);
    forall i, j | 0 <= i < j < |r| ensures r[i] != r[j] {
      if r[i] == r[j] { Twice(r, i, j); }
    }
  }
}
