/**
 * The rows both symbol tables store, and what one `add` call does to the
 * stored list. The source keeps each row as a dictionary with the keys
 * Name, Type, Line, Value and Scope; a row is identified by (Name, Scope).
 */
module SymbolEntries {
  import opened Wrappers

  /** One symbol-table row. `value` is None when the caller passed no value. */
  datatype Entry = Entry(name: string, kind: string, line: int, value: Option<string>, scope: string)

  /** The scope `add` uses when the caller names none, and the only one the tokenizer uses. */
  const GlobalScope: string := "Global"

  predicate SameKey(e: Entry, name: string, scope: string)
  {
    e.name == name && e.scope == scope
  }

  /** Some stored row already has this (Name, Scope). */
  predicate HasKey(s: seq<Entry>, name: string, scope: string)
  {
    exists i :: 0 <= i < |s| && SameKey(s[i], name, scope)
  }

  /**
   * The list after `add(e.name, e.kind, e.line, e.value, e.scope)`: unchanged
   * when a row with the same (Name, Scope) is stored, otherwise `e` appended.
   */
  function Added(s: seq<Entry>, e: Entry): seq<Entry>
  {
    if HasKey(s, e.name, e.scope) then s else s + [e]
  }

  /** No two rows share a (Name, Scope): the invariant `add` keeps. */
  predicate UniqueKeys(s: seq<Entry>)
  {
    forall i, j :: 0 <= i < j < |s| ==> !SameKey(s[j], s[i].name, s[i].scope)
  }

  /** The list after a run of `add` calls, one per element of `es`, in order. */
  function AddAll(s: seq<Entry>, es: seq<Entry>): seq<Entry>
  {
    if es == [] then s else Added(AddAll(s, es[..|es| - 1]), es[|es| - 1])
  }

  /**
   * One `add` keeps every stored row in place and grows the list by at most
   * one row, which is the new entry, exactly when its key was absent.
   */
  lemma AddedShape(s: seq<Entry>, e: Entry)
    ensures |s| <= |Added(s, e)| <= |s| + 1
    ensures Added(s, e)[..|s|] == s
    ensures |Added(s, e)| == |s| + 1 <==> !HasKey(s, e.name, e.scope)
    ensures |Added(s, e)| == |s| + 1 ==> Added(s, e)[|s|] == e
  {
  }

  /** The keys present after `add` are the old keys plus the new one. */
  lemma AddedKeys(s: seq<Entry>, e: Entry, name: string, scope: string)
    ensures HasKey(Added(s, e), name, scope) <==> HasKey(s, name, scope) || SameKey(e, name, scope)
  {
    if SameKey(e, name, scope) && !HasKey(s, name, scope) {
      assert SameKey(Added(s, e)[|s|], name, scope);
    }
    if HasKey(s, name, scope) {
      var i :| 0 <= i < |s| && SameKey(s[i], name, scope);
      assert Added(s, e)[i] == s[i];
    }
    if HasKey(Added(s, e), name, scope) && !HasKey(s, name, scope) && !HasKey(s, e.name, e.scope) {
      var i :| 0 <= i < |s| + 1 && SameKey((s + [e])[i], name, scope);
      assert i == |s| && (s + [e])[i] == e;
    }
  }

  /** `add` never creates a second row for a (Name, Scope). */
  lemma AddedPreservesUnique(s: seq<Entry>, e: Entry)
    requires UniqueKeys(s)
    ensures UniqueKeys(Added(s, e))
  {
  }

  /** Adding the same row twice is the same as adding it once. */
  lemma AddedIdempotent(s: seq<Entry>, e: Entry)
    ensures Added(Added(s, e), e) == Added(s, e)
  {
    assert HasKey(Added(s, e), e.name, e.scope) by {
      AddedKeys(s, e, e.name, e.scope);
    }
  }

  /** A later `add` with a stored key is ignored: the first row's Type, Line and Value stay. */
  lemma AddedKeepsFirst(s: seq<Entry>, e: Entry, i: nat)
    requires i < |s| && SameKey(s[i], e.name, e.scope)
    ensures Added(s, e) == s
  {
  }

  /** The keys present after a run of adds are the old keys and the keys added. */
  lemma {:induction false} AddAllKeys(s: seq<Entry>, es: seq<Entry>, name: string, scope: string)
    ensures HasKey(AddAll(s, es), name, scope) <==> HasKey(s, name, scope) || HasKey(es, name, scope)
  {
    if es != [] {
      var init := es[..|es| - 1];
      AddAllKeys(s, init, name, scope);
      AddedKeys(AddAll(s, init), es[|es| - 1], name, scope);
      if HasKey(es, name, scope) && !HasKey(init, name, scope) {
        var i :| 0 <= i < |es| && SameKey(es[i], name, scope);
      }
      if HasKey(init, name, scope) {
        var i :| 0 <= i < |init| && SameKey(init[i], name, scope);
        assert SameKey(es[i], name, scope);
      }
    }
  }

  /** A run of adds starting from a duplicate-free list stays duplicate-free. */
  lemma {:induction false} AddAllUnique(s: seq<Entry>, es: seq<Entry>)
    requires UniqueKeys(s)
    ensures UniqueKeys(AddAll(s, es))
  {
    if es != [] {
      AddAllUnique(s, es[..|es| - 1]);
      AddedPreservesUnique(AddAll(s, es[..|es| - 1]), es[|es| - 1]);
    }
  }

  /**
   * First occurrence wins over a whole run of adds: a row is stored at the
   * end exactly when it was stored at the start, or it is the first entry
   * of the run with its (Name, Scope) and that key was not stored before.
   */
  lemma {:induction false} AddAllContents(s: seq<Entry>, es: seq<Entry>, x: Entry)
    ensures x in AddAll(s, es) <==>
      x in s || exists j :: 0 <= j < |es| && es[j] == x && FirstOfKey(s, es, j)
  {
    if es != [] {
      var n := |es| - 1;
      var init := es[..n];
      var before := AddAll(s, init);
      AddAllContents(s, init, x);
      AddAllKeys(s, init, es[n].name, es[n].scope);
      if x in AddAll(s, es) && x !in s {
        if x in before {
          var j :| 0 <= j < |init| && init[j] == x && FirstOfKey(s, init, j);
          assert es[j] == x && FirstOfKey(s, es, j) by {
            assert es[..j] == init[..j];
          }
        } else {
          assert x == es[n] && !HasKey(before, x.name, x.scope);
          assert es[..n] == init;
          assert FirstOfKey(s, es, n);
        }
      }
      if x !in s && (exists j :: 0 <= j < |es| && es[j] == x && FirstOfKey(s, es, j)) {
        var j :| 0 <= j < |es| && es[j] == x && FirstOfKey(s, es, j);
        if j < n {
          assert init[j] == x && FirstOfKey(s, init, j) by {
            assert es[..j] == init[..j];
          }
        } else {
          assert es[..n] == init;
        }
      }
    }
  }

  /** `es[j]` is the first element of `es` with its key, and that key is not stored in `s`. */
  predicate FirstOfKey(s: seq<Entry>, es: seq<Entry>, j: nat)
    requires j < |es|
  {
    !HasKey(s, es[j].name, es[j].scope) && !HasKey(es[..j], es[j].name, es[j].scope)
  }
}
