/**
 * The standalone symbol table of symbol_table.py: a list of rows kept in
 * insertion order, a deduplicating `add`, a first-match `lookup` that
 * ignores the scope, `clear`, and `get_symbols`, which hands back the list
 * in storage order.
 */
module StandaloneSymbols {
  import opened Wrappers
  import opened SymbolEntries

  /** The first row in storage order whose Name is `name`, whatever its Scope. */
  function FirstNamed(s: seq<Entry>, name: string): (r: Option<Entry>)
    ensures r.None? <==> forall i :: 0 <= i < |s| ==> s[i].name != name
    ensures r.Some? ==> exists i :: 0 <= i < |s| && s[i] == r.value && r.value.name == name &&
                                    forall j :: 0 <= j < i ==> s[j].name != name
  {
    if s == [] then None
    else if s[0].name == name then Some(s[0])
    else
      var r := FirstNamed(s[1..], name);
      assert r.Some? ==> exists i :: 0 <= i < |s| && s[i] == r.value && forall j :: 0 <= j < i ==> s[j].name != name by {
        if r.Some? {
          var k :| 0 <= k < |s| - 1 && s[1..][k] == r.value && forall j :: 0 <= j < k ==> s[1..][j] != r.value && s[1..][j].name != name;
          assert s[k + 1] == r.value;
          forall j | 0 <= j < k + 1 ensures s[j].name != name {
            if j > 0 { assert s[j] == s[1..][j - 1]; }
          }
        }
      }
      r
  }

  /**
   * Looking a name up after one `add`: the old answer if there was one,
   * otherwise the added row when it carries that name.
   */
  lemma {:induction false} FirstNamedAdded(s: seq<Entry>, e: Entry, name: string)
    ensures FirstNamed(Added(s, e), name) ==
      if FirstNamed(s, name).Some? then FirstNamed(s, name)
      else if e.name == name then Some(e) else None
  {
    if !HasKey(s, e.name, e.scope) {
      FirstNamedAppend(s, e, name);
    }
  }

  lemma {:induction false} FirstNamedAppend(s: seq<Entry>, e: Entry, name: string)
    ensures FirstNamed(s + [e], name) ==
      if FirstNamed(s, name).Some? then FirstNamed(s, name)
      else if e.name == name then Some(e) else None
  {
    if s != [] {
      assert (s + [e])[1..] == s[1..] + [e];
      FirstNamedAppend(s[1..], e, name);
    }
  }

  /** After `add(n, ...)`, `lookup(n)` finds a row. */
  lemma LookupAfterAdd(s: seq<Entry>, e: Entry)
    ensures FirstNamed(Added(s, e), e.name).Some?
  {
    FirstNamedAdded(s, e, e.name);
  }

  /**
   * A name added under two scopes, into a table that did not hold it:
   * `lookup` returns the row of the first scope.
   */
  lemma LookupPrefersEarlierScope(s: seq<Entry>, e1: Entry, e2: Entry)
    requires FirstNamed(s, e1.name).None?
    requires e1.name == e2.name && e1.scope != e2.scope
    ensures FirstNamed(Added(Added(s, e1), e2), e1.name) == Some(e1)
    ensures Added(Added(s, e1), e2) == s + [e1, e2]
  {
    FirstNamedAdded(s, e1, e1.name);
    FirstNamedAdded(Added(s, e1), e2, e1.name);
    assert !HasKey(s, e1.name, e1.scope);
    AddedKeys(s, e1, e2.name, e2.scope);
  }

  class SymbolTable {
    /** The stored rows, in insertion order. */
    var symbols: seq<Entry>

    /** The table holds at most one row per (Name, Scope). */
    ghost predicate Valid()
      reads this
    {
      UniqueKeys(symbols)
    }

    constructor ()
      ensures symbols == [] && Valid()
    {
      symbols := [];
    }

    /** symbol_table.py `add`: scans for the key, returns if found, otherwise appends. */
    method Add(name: string, dataType: string, line: int, value: Option<string> := None, scope: string := GlobalScope)
      requires Valid()
      modifies this
      ensures symbols == Added(old(symbols), Entry(name, dataType, line, value, scope))
      ensures Valid()
    {
      for i := 0 to |symbols|
        invariant forall j :: 0 <= j < i ==> !SameKey(symbols[j], name, scope)
      {
        if symbols[i].name == name && symbols[i].scope == scope {
          return;
        }
      }
      symbols := symbols + [Entry(name, dataType, line, value, scope)];
    }

    /** symbol_table.py `lookup`: the first row with this Name in storage order, scope ignored. */
    method Lookup(name: string) returns (r: Option<Entry>)
      ensures r == FirstNamed(symbols, name)
    {
      for i := 0 to |symbols|
        invariant forall j :: 0 <= j < i ==> symbols[j].name != name
      {
        if symbols[i].name == name {
          FirstNamedAt(symbols, i, name);
          return Some(symbols[i]);
        }
      }
      return None;
    }

    /** symbol_table.py `clear`: afterwards the table is empty and no name is found. */
    method Clear()
      modifies this
      ensures symbols == [] && Valid()
      ensures forall name :: FirstNamed(symbols, name).None?
    {
      symbols := [];
    }

    /** symbol_table.py `get_symbols`: the stored list itself, in insertion order. */
    function GetSymbols(): (r: seq<Entry>)
      reads this
      ensures |r| == |symbols| && forall i :: 0 <= i < |r| ==> r[i] == symbols[i]
    {
      symbols
    }
  }

  /** The first row named `name` decides what `FirstNamed` returns. */
  lemma FirstNamedAt(s: seq<Entry>, i: nat, name: string)
    requires i < |s| && s[i].name == name
    requires forall j :: 0 <= j < i ==> s[j].name != name
    ensures FirstNamed(s, name) == Some(s[i])
  {
  }
}
