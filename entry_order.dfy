/**
 * The order the tokenizer's `get_symbols` lists rows in: Python's
 * `sorted(symbols, key=lambda x: (x['Name'], x['Line']))`, that is Name by
 * code point, then Line, with equal keys left in storage order (Python's
 * sort is stable).
 */
module EntryOrder {
  import opened SymbolEntries

  /** Python `a <= b` on strings: lexicographic by code point, a prefix first. */
  predicate StrLe(a: string, b: string)
  {
    if a == [] then true
    else if b == [] then false
    else if a[0] != b[0] then a[0] < b[0]
    else StrLe(a[1..], b[1..])
  }

  lemma {:induction false} StrLeTotal(a: string, b: string)
    ensures StrLe(a, b) || StrLe(b, a)
  {
    if a != [] && b != [] && a[0] == b[0] {
      StrLeTotal(a[1..], b[1..]);
    }
  }

  lemma {:induction false} StrLeAntisymmetric(a: string, b: string)
    requires StrLe(a, b) && StrLe(b, a)
    ensures a == b
  {
    if a != [] && b != [] {
      StrLeAntisymmetric(a[1..], b[1..]);
      assert a == [a[0]] + a[1..] && b == [b[0]] + b[1..];
    }
  }

  lemma {:induction false} StrLeTransitive(a: string, b: string, c: string)
    requires StrLe(a, b) && StrLe(b, c)
    ensures StrLe(a, c)
  {
    if a != [] && b != [] && c != [] && a[0] == b[0] && b[0] == c[0] {
      StrLeTransitive(a[1..], b[1..], c[1..]);
    }
  }

  /** The sort key of a row. */
  function Key(e: Entry): (string, int)
  {
    (e.name, e.line)
  }

  /** Python's tuple order on (Name, Line). */
  predicate KeyLe(x: Entry, y: Entry)
  {
    (x.name != y.name && StrLe(x.name, y.name)) || (x.name == y.name && x.line <= y.line)
  }

  lemma KeyLeTotal(x: Entry, y: Entry)
    ensures KeyLe(x, y) || KeyLe(y, x)
  {
    StrLeTotal(x.name, y.name);
  }

  lemma KeyLeTransitive(x: Entry, y: Entry, z: Entry)
    requires KeyLe(x, y) && KeyLe(y, z)
    ensures KeyLe(x, z)
  {
    if x.name != y.name && y.name != z.name {
      StrLeTransitive(x.name, y.name, z.name);
      if x.name == z.name {
        StrLeAntisymmetric(x.name, y.name);
      }
    }
  }

  /** Rows whose keys are equal compare both ways, and only those. */
  lemma KeyLeBothWays(x: Entry, y: Entry)
    requires KeyLe(x, y) && KeyLe(y, x)
    ensures Key(x) == Key(y)
  {
    if x.name != y.name {
      StrLeAntisymmetric(x.name, y.name);
    }
  }

  predicate Sorted(s: seq<Entry>)
  {
    forall i, j :: 0 <= i < j < |s| ==> KeyLe(s[i], s[j])
  }

  /** Puts `x` before the first row whose key is not smaller than its own. */
  function Insert(x: Entry, s: seq<Entry>): seq<Entry>
  {
    if s == [] then [x]
    else if KeyLe(x, s[0]) then [x] + s
    else [s[0]] + Insert(x, s[1..])
  }

  lemma MultisetCons(s: seq<Entry>)
    requires s != []
    ensures multiset(s) == multiset{s[0]} + multiset(s[1..])
  {
    assert s == [s[0]] + s[1..];
  }

  /** Inserting adds exactly `x`. */
  lemma {:induction false} InsertPermutes(x: Entry, s: seq<Entry>)
    ensures multiset(Insert(x, s)) == multiset(s) + multiset{x}
  {
    if s != [] && !KeyLe(x, s[0]) {
      InsertPermutes(x, s[1..]);
      MultisetCons(s);
      assert Insert(x, s) == [s[0]] + Insert(x, s[1..]);
    }
  }

  /** A row no greater than every row of a sorted sequence can go in front of it. */
  lemma ConsSorted(y: Entry, rest: seq<Entry>)
    requires Sorted(rest) && forall j :: 0 <= j < |rest| ==> KeyLe(y, rest[j])
    ensures Sorted([y] + rest)
  {
    var r := [y] + rest;
    forall i, j | 0 <= i < j < |r| ensures KeyLe(r[i], r[j]) {
      assert r[j] == rest[j - 1];
      if i > 0 { assert r[i] == rest[i - 1]; }
    }
  }

  /** A row below every row of `s` and `x` is below every row of their insertion. */
  lemma BelowInsert(y: Entry, x: Entry, s: seq<Entry>)
    requires KeyLe(y, x) && forall j :: 0 <= j < |s| ==> KeyLe(y, s[j])
    ensures forall j :: 0 <= j < |Insert(x, s)| ==> KeyLe(y, Insert(x, s)[j])
  {
    var r := Insert(x, s);
    InsertPermutes(x, s);
    forall j | 0 <= j < |r| ensures KeyLe(y, r[j]) {
      assert r[j] in multiset(r);
      if r[j] != x {
        assert r[j] in multiset(s);
        var m :| 0 <= m < |s| && s[m] == r[j];
      }
    }
  }

  /** Inserting into a sorted sequence keeps it sorted. */
  lemma {:induction false} InsertSorted(x: Entry, s: seq<Entry>)
    requires Sorted(s)
    ensures Sorted(Insert(x, s))
  {
    if s == [] {
    } else if KeyLe(x, s[0]) {
      forall j | 0 <= j < |s| ensures KeyLe(x, s[j]) {
        if j > 0 { KeyLeTransitive(x, s[0], s[j]); }
      }
      ConsSorted(x, s);
    } else {
      var tail := s[1..];
      assert forall j :: 0 <= j < |tail| ==> KeyLe(s[0], tail[j]) by {
        forall j | 0 <= j < |tail| ensures KeyLe(s[0], tail[j]) {
          assert tail[j] == s[j + 1];
        }
      }
      assert Sorted(tail) by {
        forall i, j | 0 <= i < j < |tail| ensures KeyLe(tail[i], tail[j]) {
          assert tail[i] == s[i + 1] && tail[j] == s[j + 1];
        }
      }
      InsertSorted(x, tail);
      KeyLeTotal(x, s[0]);
      BelowInsert(s[0], x, tail);
      ConsSorted(s[0], Insert(x, tail));
    }
  }

  /**
   * Tokenizer `get_symbols`: the rows ordered by (Name, Line) ascending, a
   * permutation of what is stored.
   */
  function SortByNameLine(s: seq<Entry>): (r: seq<Entry>)
    ensures Sorted(r)
    ensures multiset(r) == multiset(s)
  {
    if s == [] then []
    else
      var sorted := SortByNameLine(s[1..]);
      InsertSorted(s[0], sorted);
      InsertPermutes(s[0], sorted);
      MultisetCons(s);
      Insert(s[0], sorted)
  }

  /** The rows of `s` whose key is `k`, in their order in `s`. */
  function WithKey(s: seq<Entry>, k: (string, int)): seq<Entry>
  {
    if s == [] then []
    else (if Key(s[0]) == k then [s[0]] else []) + WithKey(s[1..], k)
  }

  lemma WithKeyCons(y: Entry, s: seq<Entry>, k: (string, int))
    ensures WithKey([y] + s, k) == (if Key(y) == k then [y] else []) + WithKey(s, k)
  {
    assert ([y] + s)[0] == y && ([y] + s)[1..] == s;
  }

  /** `Insert` passes over rows with smaller keys only, so `x` goes first among its equals. */
  lemma {:induction false} InsertWithKey(x: Entry, s: seq<Entry>, k: (string, int))
    ensures WithKey(Insert(x, s), k) == (if Key(x) == k then [x] else []) + WithKey(s, k)
  {
    var here := if Key(x) == k then [x] else [];
    if s == [] {
      assert Insert(x, s) == [x] + s;
      WithKeyCons(x, s, k);
    } else if KeyLe(x, s[0]) {
      assert Insert(x, s) == [x] + s;
      WithKeyCons(x, s, k);
    } else {
      var rest := Insert(x, s[1..]);
      var first := if Key(s[0]) == k then [s[0]] else [];
      assert Insert(x, s) == [s[0]] + rest;
      InsertWithKey(x, s[1..], k);
      WithKeyCons(s[0], rest, k);
      WithKeyCons(s[0], s[1..], k);
      assert [s[0]] + s[1..] == s;
      assert here == [] || first == [];
      SwapEmpty(here, first, WithKey(s[1..], k));
    }
  }

  /** Two lists of which one is empty commute in front of a third. */
  lemma SwapEmpty(a: seq<Entry>, b: seq<Entry>, c: seq<Entry>)
    requires a == [] || b == []
    ensures b + (a + c) == a + (b + c)
  {
    if a == [] {
      assert a + c == c;
      assert a + (b + c) == b + c;
    } else {
      assert b + c == c;
      assert b + (a + c) == a + c;
    }
  }

  /** The sort is stable: rows with equal (Name, Line) keep their storage order. */
  lemma {:induction false} SortIsStable(s: seq<Entry>, k: (string, int))
    ensures WithKey(SortByNameLine(s), k) == WithKey(s, k)
  {
    if s != [] {
      SortIsStable(s[1..], k);
      InsertWithKey(s[0], SortByNameLine(s[1..]), k);
    }
  }
}
