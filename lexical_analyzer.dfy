/**
 * lexical_analyzer.py: the tokenizer's own symbol table (whose listing is
 * sorted by Name then Line) and `LexicalAnalyzer.analyze`, which walks the
 * matches of the token alternation, keeps a line counter advanced by the
 * line feeds inside whitespace, drops whitespace and comments, stops with
 * an error at a MISMATCH, and records identifiers, numbers and strings in
 * the symbol table.
 */
module LexicalAnalysis {
  import opened Wrappers
  import opened Text
  import opened SymbolEntries
  import opened EntryOrder
  import opened TokenClasses

  /** A token `(kind, value, line_num)` as `analyze` appends it. */
  datatype Token = Token(kind: TokenClass, lexeme: string, line: nat)

  /**
   * One token of a run, with the offset where its lexeme starts and the row
   * it asks the symbol table to add (None for keywords, operators and
   * delimiters).
   */
  datatype Emission = Emission(token: Token, start: nat, entry: Option<Entry>)

  /** What a scan produces: the tokens up to the end or the MISMATCH, and the offending character. */
  datatype LexRun = LexRun(emissions: seq<Emission>, error: Option<char>)

  /** Python `code.splitlines()`, modelled as a split at line feeds only. */
  function SourceLines(code: string): (lines: seq<string>)
    ensures |lines| == Count(code, '\n') + 1
  {
    Split(code, '\n')
  }

  /**
   * The row `analyze` adds for a token on line `line`: identifiers as
   * "Variable" whose value is the stripped text after the last `=` of their
   * line (no value when the line has no `=`), strings and numbers with their
   * own lexeme as value; nothing for the other kinds.
   */
  function SymbolFor(code: string, kind: TokenClass, lexeme: string, line: nat): Option<Entry>
    requires 1 <= line <= Count(code, '\n') + 1
  {
    match kind
    case Identifier =>
      var text := SourceLines(code)[line - 1];
      if '=' in text then Some(Entry(lexeme, "Variable", line, Some(Strip(AfterLast(text, '='))), GlobalScope))
      else Some(Entry(lexeme, "Variable", line, None, GlobalScope))
    case StringLit => Some(Entry(lexeme, "String", line, Some(lexeme), GlobalScope))
    case Number => Some(Entry(lexeme, "Number", line, Some(lexeme), GlobalScope))
    case _ => None
  }

  /** The line feeds before `end` are those before `pos` plus those between. */
  lemma LinesBetween(code: string, pos: nat, end: nat)
    requires pos <= end <= |code|
    ensures Count(code[..end], '\n') == Count(code[..pos], '\n') + Count(code[pos..end], '\n')
  {
    CountSplitAt(code[..end], pos, '\n');
    assert code[..end][..pos] == code[..pos];
    assert code[..end][pos..] == code[pos..end];
  }

  /**
   * The match the token alternation yields at every offset of `code`:
   * `re.finditer` resumes at the end of each match, so the scan reads this
   * table at the offsets it reaches.
   */
  function Matches(code: string): (t: seq<Match>)
    ensures |t| == |code| && forall p :: 0 <= p < |code| ==> t[p] == NextMatch(code, p)
  {
    seq(|code|, p requires 0 <= p < |code| => NextMatch(code, p))
  }

  /**
   * What the scan relies on about the match `m` found at offset `p`: it is
   * not empty, only whitespace spans a line feed, KEYWORD is given exactly
   * to reserved words among word matches, and `:` is an OPERATOR.
   */
  predicate MatchFactsAt(code: string, p: nat, m: Match)
  {
    && p < m.end <= |code|
    && (m.cls != Whitespace ==> '\n' !in code[p..m.end])
    && (m.cls == Keyword ==> code[p..m.end] in Reserved)
    && (m.cls == Identifier ==> code[p..m.end] !in Reserved)
    && (code[p..m.end] == ":" ==> m.cls == Operator)
  }

  predicate MatchFacts(code: string, t: seq<Match>)
  {
    |t| == |code| && forall p :: 0 <= p < |t| ==> MatchFactsAt(code, p, t[p])
  }

  /** The match at every offset satisfies what the scan relies on. */
  lemma MatchesFacts(code: string)
    ensures MatchFacts(code, Matches(code))
  {
    ReservedShape();
    forall p | 0 <= p < |code| ensures MatchFactsAt(code, p, Matches(code)[p]) {
      var m := NextMatch(code, p);
      OnlyWhitespaceSpansLines(code, p, Reserved);
      if m.cls == Keyword { KeywordIsReserved(code, p, Reserved); }
      if m.cls == Identifier { IdentifierIsNotReserved(code, p, Reserved); }
      if code[p..m.end] == ":" {
        assert code[p] == code[p..m.end][0];
        ColonIsOperator(code, p, Reserved);
      }
    }
  }

  /** The line `analyze`'s counter holds at offset `pos`: one more than the line feeds before it. */
  function LineAt(code: string, pos: nat): (line: nat)
    requires pos <= |code|
    ensures 1 <= line <= Count(code, '\n') + 1
  {
    CountPrefixLe(code, pos, '\n');
    1 + Count(code[..pos], '\n')
  }

  /** The token the match `t[pos]` becomes, with the row it asks to add. */
  function TokenAt(code: string, t: seq<Match>, pos: nat): Emission
    requires MatchFacts(code, t) && pos < |code|
  {
    var m := t[pos];
    var line := LineAt(code, pos);
    Emission(Token(m.cls, code[pos..m.end], line), pos, SymbolFor(code, m.cls, code[pos..m.end], line))
  }

  /**
   * The scan from offset `pos`, following the loop over `re.finditer`: a
   * MISMATCH ends the scan with its character, whitespace and comments are
   * dropped, and every other match becomes a token on the line of its
   * first character.
   */
  function Run(code: string, t: seq<Match>, pos: nat): LexRun
    requires MatchFacts(code, t) && pos <= |code|
    decreases |code| - pos
  {
    if pos == |code| then LexRun([], None)
    else
      var m := t[pos];
      if m.cls == Mismatch then LexRun([], Some(code[pos]))
      else
        var rest := Run(code, t, m.end);
        if Emitted(m.cls) then LexRun([TokenAt(code, t, pos)] + rest.emissions, rest.error) else rest
  }

  /** Across a match other than whitespace the line stays the same; across whitespace it moves by the match's line feeds. */
  lemma LineStep(code: string, t: seq<Match>, pos: nat)
    requires MatchFacts(code, t) && pos < |code|
    ensures LineAt(code, t[pos].end) == LineAt(code, pos) + Count(code[pos..t[pos].end], '\n')
    ensures t[pos].cls != Whitespace ==> LineAt(code, t[pos].end) == LineAt(code, pos)
  {
    assert MatchFactsAt(code, pos, t[pos]);
    LinesBetween(code, pos, t[pos].end);
  }

  /** The scan of a whole buffer. */
  function Scan(code: string): LexRun
  {
    MatchesFacts(code);
    Run(code, Matches(code), 0)
  }

  function TokensOf(es: seq<Emission>): (ts: seq<Token>)
    ensures |ts| == |es| && forall i :: 0 <= i < |es| ==> ts[i] == es[i].token
  {
    seq(|es|, i requires 0 <= i < |es| => es[i].token)
  }

  /** The rows the emissions ask to add, in order. */
  function EntriesOf(es: seq<Emission>): seq<Entry>
  {
    if es == [] then []
    else
      var last := es[|es| - 1];
      EntriesOf(es[..|es| - 1]) + (if last.entry.Some? then [last.entry.value] else [])
  }

  /** The symbol table after the emissions' rows have been added, one by one, to an empty table. */
  function TableOf(es: seq<Emission>): seq<Entry>
  {
    AddAll([], EntriesOf(es))
  }

  /** The error `analyze` raises, as its message. */
  function MismatchMessage(c: char): string
  {
    "Unexpected character: " + [c]
  }

  /** What every emission of a scan satisfies. */
  predicate EmissionFacts(code: string, e: Emission)
  {
    var t := e.token;
    && e.start + |t.lexeme| <= |code|
    && code[e.start..e.start + |t.lexeme|] == t.lexeme
    && t.line == 1 + Count(code[..e.start], '\n')
    && Emitted(t.kind)
    && (t.kind == Keyword ==> t.lexeme in Reserved)
    && (t.kind == Identifier ==> t.lexeme !in Reserved)
    && (t.lexeme == ":" ==> t.kind == Operator)
    && t.line <= Count(code, '\n') + 1
    && e.entry == SymbolFor(code, t.kind, t.lexeme, t.line)
  }

  /** The facts about the token a single emitted match becomes. */
  lemma TokenAtFacts(code: string, t: seq<Match>, pos: nat)
    requires MatchFacts(code, t) && pos < |code| && Emitted(t[pos].cls)
    ensures EmissionFacts(code, TokenAt(code, t, pos))
    ensures TokenAt(code, t, pos).start + |TokenAt(code, t, pos).token.lexeme| == t[pos].end
  {
    assert MatchFactsAt(code, pos, t[pos]);
  }

  predicate AllFacts(code: string, es: seq<Emission>)
  {
    forall i :: 0 <= i < |es| ==> EmissionFacts(code, es[i])
  }

  /** Emissions that start at `pos` or later, in offset order. */
  predicate StartsFrom(pos: nat, es: seq<Emission>)
  {
    && (forall i :: 0 <= i < |es| ==> pos <= es[i].start)
    && (forall i, j :: 0 <= i < j < |es| ==> es[i].start < es[j].start)
  }

  /** Emissions that are well formed, start at `pos` or later, and come in offset order. */
  predicate WellFormedFrom(code: string, pos: nat, es: seq<Emission>)
  {
    AllFacts(code, es) && StartsFrom(pos, es)
  }

  /** The induction behind the token lemmas. */
  lemma {:induction false} RunFacts(code: string, t: seq<Match>, pos: nat)
    requires MatchFacts(code, t) && pos <= |code|
    ensures WellFormedFrom(code, pos, Run(code, t, pos).emissions)
    decreases |code| - pos
  {
    if pos < |code| && t[pos].cls != Mismatch {
      var m := t[pos];
      var rest := Run(code, t, m.end).emissions;
      RunFacts(code, t, m.end);
      if Emitted(m.cls) {
        TokenAtFacts(code, t, pos);
        ConsFacts(code, TokenAt(code, t, pos), rest);
        ConsStarts(pos, m.end, TokenAt(code, t, pos), rest);
      } else {
        StartsWeaken(pos, m.end, rest);
      }
    }
  }

  lemma StartsWeaken(pos: nat, next: nat, es: seq<Emission>)
    requires pos <= next && StartsFrom(next, es)
    ensures StartsFrom(pos, es)
  {
  }

  lemma ConsFacts(code: string, head: Emission, rest: seq<Emission>)
    requires EmissionFacts(code, head) && AllFacts(code, rest)
    ensures AllFacts(code, [head] + rest)
  {
    var es := [head] + rest;
    forall i | 0 <= i < |es| ensures EmissionFacts(code, es[i]) {
      if i > 0 { assert es[i] == rest[i - 1]; }
    }
  }

  lemma ConsStarts(pos: nat, next: nat, head: Emission, rest: seq<Emission>)
    requires head.start == pos < next && StartsFrom(next, rest)
    ensures StartsFrom(pos, [head] + rest)
  {
    var es := [head] + rest;
    forall i | 0 <= i < |es| ensures pos <= es[i].start {
      if i > 0 { assert es[i] == rest[i - 1]; }
    }
    forall i, j | 0 <= i < j < |es| ensures es[i].start < es[j].start {
      assert es[j] == rest[j - 1];
      if i > 0 { assert es[i] == rest[i - 1]; }
    }
  }

  lemma AppendCons(done: seq<Emission>, e: Emission, rest: seq<Emission>)
    ensures done + ([e] + rest) == (done + [e]) + rest
  {
  }

  /** The scan stopped with its error at an offset between `pos` and the end, past every token. */
  predicate StopsAt(code: string, t: seq<Match>, pos: nat, r: LexRun)
    requires |t| == |code|
  {
    r.error.Some? &&
    exists p :: pos <= p < |code| && t[p].cls == Mismatch && r.error.value == code[p] &&
                forall i :: 0 <= i < |r.emissions| ==> r.emissions[i].start < p
  }

  /** The induction behind `ScanStopsAtMismatch`. */
  lemma {:induction false} RunStop(code: string, t: seq<Match>, pos: nat)
    requires MatchFacts(code, t) && pos <= |code|
    ensures Run(code, t, pos).error.Some? ==> StopsAt(code, t, pos, Run(code, t, pos))
    decreases |code| - pos
  {
    if pos < |code| {
      var m := t[pos];
      if m.cls == Mismatch {
        assert StopsAt(code, t, pos, Run(code, t, pos));
      } else {
        var rest := Run(code, t, m.end);
        RunStop(code, t, m.end);
        if rest.error.Some? {
          if Emitted(m.cls) {
            StopsAtCons(code, t, pos, m.end, TokenAt(code, t, pos), rest);
          } else {
            StopsAtWeaken(code, t, pos, m.end, rest);
          }
        }
      }
    }
  }

  /**
   * The offsets the scan from `pos` reaches: `pos` itself and, unless the
   * match there is a MISMATCH, every offset reached from where that match ends.
   */
  predicate Visits(code: string, t: seq<Match>, pos: nat, p: nat)
    requires MatchFacts(code, t) && pos <= |code|
    decreases |code| - pos
  {
    p == pos || (pos < |code| && t[pos].cls != Mismatch && Visits(code, t, t[pos].end, p))
  }

  /** Where the scan from `pos` stops: the character of the first MISMATCH it reaches, or None at the end. */
  function StopChar(code: string, t: seq<Match>, pos: nat): Option<char>
    requires MatchFacts(code, t) && pos <= |code|
    decreases |code| - pos
  {
    if pos == |code| then None
    else if t[pos].cls == Mismatch then Some(code[pos])
    else StopChar(code, t, t[pos].end)
  }

  /** The error of a scan is where it stops. */
  lemma {:induction false} RunError(code: string, t: seq<Match>, pos: nat)
    requires MatchFacts(code, t) && pos <= |code|
    ensures Run(code, t, pos).error == StopChar(code, t, pos)
    decreases |code| - pos
  {
    if pos < |code| && t[pos].cls != Mismatch {
      RunError(code, t, t[pos].end);
    }
  }

  /** The scan stops at `c` exactly when it reaches a MISMATCH whose character is `c`. */
  lemma {:induction false} StopCharIff(code: string, t: seq<Match>, pos: nat, c: char)
    requires MatchFacts(code, t) && pos <= |code|
    ensures StopChar(code, t, pos) == Some(c) <==>
      exists p: nat :: Visits(code, t, pos, p) && p < |code| && t[p].cls == Mismatch && code[p] == c
    decreases |code| - pos
  {
    if pos < |code| && t[pos].cls != Mismatch {
      var next := t[pos].end;
      StopCharIff(code, t, next, c);
      if exists p: nat :: Visits(code, t, pos, p) && p < |code| && t[p].cls == Mismatch && code[p] == c {
        var p: nat :| Visits(code, t, pos, p) && p < |code| && t[p].cls == Mismatch && code[p] == c;
        assert Visits(code, t, next, p);
      }
      if exists p: nat :: Visits(code, t, next, p) && p < |code| && t[p].cls == Mismatch && code[p] == c {
        var p: nat :| Visits(code, t, next, p) && p < |code| && t[p].cls == Mismatch && code[p] == c;
        assert Visits(code, t, pos, p);
      }
    } else if pos < |code| {
      assert Visits(code, t, pos, pos);
    }
  }

  /** The scan runs to the end exactly when no offset it reaches starts a MISMATCH. */
  lemma {:induction false} StopCharNone(code: string, t: seq<Match>, pos: nat)
    requires MatchFacts(code, t) && pos <= |code|
    ensures StopChar(code, t, pos).None? <==>
      forall p: nat :: Visits(code, t, pos, p) && p < |code| ==> t[p].cls != Mismatch
    decreases |code| - pos
  {
    if pos < |code| && t[pos].cls != Mismatch {
      StopCharNone(code, t, t[pos].end);
    } else if pos < |code| {
      assert Visits(code, t, pos, pos);
    }
  }

  /** A scan fails with `c` exactly when it reaches a MISMATCH whose character is `c`. */
  lemma RunFailsIff(code: string, t: seq<Match>, pos: nat, c: char)
    requires MatchFacts(code, t) && pos <= |code|
    ensures Run(code, t, pos).error == Some(c) <==>
      exists p: nat :: Visits(code, t, pos, p) && p < |code| && t[p].cls == Mismatch && code[p] == c
  {
    RunError(code, t, pos);
    StopCharIff(code, t, pos, c);
  }

  lemma StopsAtWeaken(code: string, t: seq<Match>, pos: nat, next: nat, r: LexRun)
    requires |t| == |code| && pos <= next && StopsAt(code, t, next, r)
    ensures StopsAt(code, t, pos, r)
  {
  }

  lemma StopsAtCons(code: string, t: seq<Match>, pos: nat, next: nat, head: Emission, rest: LexRun)
    requires |t| == |code| && pos < next && head.start == pos && StopsAt(code, t, next, rest)
    ensures StopsAt(code, t, pos, LexRun([head] + rest.emissions, rest.error))
  {
    var p :| next <= p < |code| && t[p].cls == Mismatch && rest.error.value == code[p] &&
             forall i :: 0 <= i < |rest.emissions| ==> rest.emissions[i].start < p;
    var es := [head] + rest.emissions;
    forall i | 0 <= i < |es| ensures es[i].start < p {
      if i > 0 { assert es[i] == rest.emissions[i - 1]; }
    }
  }

  /** The facts every emission of a whole-buffer scan satisfies. */
  lemma ScanFacts(code: string)
    ensures WellFormedFrom(code, 0, Scan(code).emissions)
  {
    MatchesFacts(code);
    RunFacts(code, Matches(code), 0);
  }

  /** Every token's line is one more than the number of line feeds before its lexeme. */
  lemma TokenLineCountsLineFeeds(code: string, i: nat)
    requires i < |Scan(code).emissions|
    ensures var e := Scan(code).emissions[i];
      e.start + |e.token.lexeme| <= |code| &&
      code[e.start..e.start + |e.token.lexeme|] == e.token.lexeme &&
      e.token.line == 1 + Count(code[..e.start], '\n')
  {
    ScanFacts(code);
    assert EmissionFacts(code, Scan(code).emissions[i]);
  }

  /** Tokens come in the order their lexemes appear in the buffer. */
  lemma TokensInBufferOrder(code: string, i: nat, j: nat)
    requires i < j < |Scan(code).emissions|
    ensures Scan(code).emissions[i].start < Scan(code).emissions[j].start
  {
    ScanFacts(code);
  }

  /** Whitespace, comments and mismatches are never emitted. */
  lemma OnlyTokenKindsEmitted(code: string, i: nat)
    requires i < |Scan(code).emissions|
    ensures Emitted(Scan(code).emissions[i].token.kind)
  {
    ScanFacts(code);
    assert EmissionFacts(code, Scan(code).emissions[i]);
  }

  /** Among word tokens, KEYWORD is given exactly to the reserved words. */
  lemma KeywordPrecedence(code: string, i: nat)
    requires i < |Scan(code).emissions|
    requires Scan(code).emissions[i].token.kind in {Keyword, Identifier}
    ensures var t := Scan(code).emissions[i].token; t.kind == Keyword <==> t.lexeme in Reserved
  {
    ScanFacts(code);
    assert EmissionFacts(code, Scan(code).emissions[i]);
  }

  /** A `:` token is always an OPERATOR, never a DELIMITER. */
  lemma ColonTokenIsOperator(code: string, i: nat)
    requires i < |Scan(code).emissions| && Scan(code).emissions[i].token.lexeme == ":"
    ensures Scan(code).emissions[i].token.kind == Operator
  {
    ScanFacts(code);
    assert EmissionFacts(code, Scan(code).emissions[i]);
  }

  /** The offsets `analyze`'s loop reaches over the whole buffer. */
  predicate ScanVisits(code: string, p: nat)
  {
    MatchesFacts(code);
    Visits(code, Matches(code), 0, p)
  }

  /**
   * `analyze` raises its error exactly when its loop reaches a MISMATCH, and
   * then with that character; it returns all its tokens exactly when every
   * offset it reaches starts a match of another class.
   */
  lemma ScanFailsIff(code: string)
    ensures forall c :: Scan(code).error == Some(c) <==>
      exists p: nat :: ScanVisits(code, p) && p < |code| && NextMatch(code, p).cls == Mismatch && code[p] == c
    ensures Scan(code).error.None? <==>
      forall p: nat :: ScanVisits(code, p) && p < |code| ==> NextMatch(code, p).cls != Mismatch
  {
    MatchesFacts(code);
    var t := Matches(code);
    RunError(code, t, 0);
    StopCharNone(code, t, 0);
    forall c ensures StopChar(code, t, 0) == Some(c) <==>
      exists p: nat :: Visits(code, t, 0, p) && p < |code| && t[p].cls == Mismatch && code[p] == c
    {
      StopCharIff(code, t, 0, c);
    }
  }

  /**
   * A failed scan stopped at a MISMATCH: the reported character is the one
   * at that offset, and every token lies before it.
   */
  lemma ScanStopsAtMismatch(code: string)
    requires Scan(code).error.Some?
    ensures exists p :: (0 <= p < |code| && NextMatch(code, p).cls == Mismatch &&
      Scan(code).error.value == code[p] &&
      forall i :: 0 <= i < |Scan(code).emissions| ==> Scan(code).emissions[i].start < p)
  {
    MatchesFacts(code);
    var t := Matches(code);
    RunStop(code, t, 0);
    var r := Scan(code);
    var p :| 0 <= p < |code| && t[p].cls == Mismatch && r.error.value == code[p] &&
             forall i :: 0 <= i < |r.emissions| ==> r.emissions[i].start < p;
  }

  /**
   * Only identifiers, numbers and strings are inserted. Numbers and strings
   * carry their own lexeme as value; an identifier carries the stripped text
   * after the last `=` of its line, or no value when that line has no `=`.
   */
  lemma SymbolInsertions(code: string, i: nat)
    requires i < |Scan(code).emissions|
    ensures 1 <= Scan(code).emissions[i].token.line <= |SourceLines(code)|
    ensures var e := Scan(code).emissions[i]; var t := e.token;
      && (e.entry.Some? <==> t.kind in {Identifier, Number, StringLit})
      && (e.entry.Some? ==> e.entry.value.name == t.lexeme && e.entry.value.line == t.line &&
                            e.entry.value.scope == GlobalScope)
      && (t.kind == Number ==> e.entry == Some(Entry(t.lexeme, "Number", t.line, Some(t.lexeme), GlobalScope)))
      && (t.kind == StringLit ==> e.entry == Some(Entry(t.lexeme, "String", t.line, Some(t.lexeme), GlobalScope)))
      && (t.kind == Identifier ==>
            var text := SourceLines(code)[t.line - 1];
            e.entry.value.kind == "Variable" &&
            e.entry.value.value == (if '=' in text then Some(Strip(AfterLast(text, '='))) else None))
  {
    ScanFacts(code);
    var e := Scan(code).emissions[i];
    assert EmissionFacts(code, e);
    assert e.entry == SymbolFor(code, e.token.kind, e.token.lexeme, e.token.line);
  }

  lemma EntriesOfAppend(es: seq<Emission>, e: Emission)
    ensures EntriesOf(es + [e]) == EntriesOf(es) + (if e.entry.Some? then [e.entry.value] else [])
  {
    assert (es + [e])[..|es|] == es;
  }

  lemma TableOfAppend(es: seq<Emission>, e: Emission)
    ensures TableOf(es + [e]) == if e.entry.Some? then Added(TableOf(es), e.entry.value) else TableOf(es)
  {
    EntriesOfAppend(es, e);
    var xs := EntriesOf(es);
    if e.entry.Some? {
      assert (xs + [e.entry.value])[..|xs|] == xs;
    } else {
      assert xs + [] == xs;
    }
  }

  /** Every row requested by a scan is a row of one of its emissions, in the same order. */
  lemma {:induction false} EntriesOfComesFrom(es: seq<Emission>, x: Entry)
    ensures x in EntriesOf(es) <==> exists i :: 0 <= i < |es| && es[i].entry == Some(x)
  {
    if es != [] {
      var n := |es| - 1;
      EntriesOfComesFrom(es[..n], x);
      if x in EntriesOf(es) && x !in EntriesOf(es[..n]) {
        assert es[n].entry == Some(x);
      }
      if exists i :: 0 <= i < |es| && es[i].entry == Some(x) {
        var i :| 0 <= i < |es| && es[i].entry == Some(x);
        if i < n {
          assert es[..n][i] == es[i];
        }
      }
    }
  }

  /**
   * The table a scan builds holds one row per name (the scope is always
   * Global), and each row comes from an emission of the scan.
   */
  lemma ScanTable(code: string)
    ensures UniqueKeys(TableOf(Scan(code).emissions))
    ensures forall x :: x in TableOf(Scan(code).emissions) ==>
      x.scope == GlobalScope && exists i :: 0 <= i < |Scan(code).emissions| && Scan(code).emissions[i].entry == Some(x)
  {
    AddAllUnique([], EntriesOf(Scan(code).emissions));
    ScanFacts(code);
    TableRows(code, Scan(code).emissions);
  }

  lemma TableRows(code: string, es: seq<Emission>)
    requires AllFacts(code, es)
    ensures forall x :: x in TableOf(es) ==> x.scope == GlobalScope && exists i :: 0 <= i < |es| && es[i].entry == Some(x)
  {
    forall x | x in TableOf(es)
      ensures x.scope == GlobalScope && exists i :: 0 <= i < |es| && es[i].entry == Some(x)
    {
      AddAllContents([], EntriesOf(es), x);
      EntriesOfComesFrom(es, x);
      var i :| 0 <= i < |es| && es[i].entry == Some(x);
      assert EmissionFacts(code, es[i]);
    }
  }

  /** The tokenizer's symbol table: the same `add` as symbol_table.py, and a sorted listing. */
  class SymbolTable {
    var symbols: seq<Entry>

    ghost predicate Valid()
      reads this
    {
      UniqueKeys(symbols)
    }

    constructor ()
      ensures symbols == [] && Valid()
    {
      symbols := [];
    }

    /** lexical_analyzer.py `add`: scans for the key, returns if found, otherwise appends. */
    method Add(name: string, dataType: string, line: int, value: Option<string> := None, scope: string := GlobalScope)
      requires Valid()
      modifies this
      ensures symbols == Added(old(symbols), Entry(name, dataType, line, value, scope))
      ensures Valid()
    {
      for i := 0 to |symbols|
        invariant forall j :: 0 <= j < i ==> !SameKey(symbols[j], name, scope)
      {
        if symbols[i].name == name && symbols[i].scope == scope {
          return;
        }
      }
      symbols := symbols + [Entry(name, dataType, line, value, scope)];
    }

    method Clear()
      modifies this
      ensures symbols == [] && Valid()
    {
      symbols := [];
    }

    /** lexical_analyzer.py `get_symbols`: a sorted copy, the stored list left as it is. */
    function GetSymbols(): (r: seq<Entry>)
      reads this
      ensures Sorted(r) && multiset(r) == multiset(symbols)
      ensures forall k :: WithKey(r, k) == WithKey(symbols, k)
    {
      forall k ensures WithKey(SortByNameLine(symbols), k) == WithKey(symbols, k) {
        SortIsStable(symbols, k);
      }
      SortByNameLine(symbols)
    }
  }

  class LexicalAnalyzer {
    const symbolTable: SymbolTable
    var tokens: seq<Token>

    constructor ()
      ensures fresh(symbolTable) && symbolTable.symbols == [] && tokens == []
    {
      symbolTable := new SymbolTable();
      tokens := [];
    }

    /** The symbol-table insertion `analyze` makes for one token. */
    method Record(code: string, kind: TokenClass, value: string, lineNum: nat)
      requires 1 <= lineNum <= Count(code, '\n') + 1
      requires symbolTable.Valid()
      modifies symbolTable
      ensures symbolTable.Valid()
      ensures symbolTable.symbols ==
        if SymbolFor(code, kind, value, lineNum).Some? then Added(old(symbolTable.symbols), SymbolFor(code, kind, value, lineNum).value)
        else old(symbolTable.symbols)
    {
      var scope := GlobalScope;
      if kind == Identifier {
        var text := SourceLines(code)[lineNum - 1];
        if '=' in text {
          var assignedValue := Strip(AfterLast(text, '='));
          symbolTable.Add(value, "Variable", lineNum, value := Some(assignedValue), scope := scope);
        } else {
          symbolTable.Add(value, "Variable", lineNum, scope := scope);
        }
      } else if kind == StringLit {
        symbolTable.Add(value, "String", lineNum, value := Some(value), scope := scope);
      } else if kind == Number {
        symbolTable.Add(value, "Number", lineNum, value := Some(value), scope := scope);
      }
    }

    /** One emitted match `m`, found at `pos` on line `lineNum`: its row offered to the table and its token appended. */
    method EmitToken(code: string, m: Match, pos: nat, lineNum: nat, ghost t: seq<Match>, ghost done: seq<Emission>)
      requires MatchFacts(code, t) && pos < |code| && lineNum == LineAt(code, pos)
      requires t[pos] == m && Emitted(m.cls)
      requires tokens == TokensOf(done) && symbolTable.symbols == TableOf(done)
      modifies this, symbolTable
      ensures tokens == TokensOf(done + [TokenAt(code, t, pos)])
      ensures symbolTable.symbols == TableOf(done + [TokenAt(code, t, pos)])
    {
      assert MatchFactsAt(code, pos, t[pos]);
      var value := code[pos..m.end];
      ghost var e := TokenAt(code, t, pos);
      AddAllUnique([], EntriesOf(done));
      Record(code, m.cls, value, lineNum);
      TableOfAppend(done, e);
      assert TokensOf(done + [e]) == TokensOf(done) + [e.token];
      tokens := tokens + [Token(m.cls, value, lineNum)];
    }

    /**
     * lexical_analyzer.py `analyze`. The token list and the table are reset
     * first, so what is left in them depends on `code` alone; on a MISMATCH
     * they keep what was produced before it and the error is returned. The
     * line counter always holds the line of the scan position.
     */
    method Analyze(code: string) returns (r: Result<seq<Token>, string>)
      modifies this, symbolTable
      ensures tokens == TokensOf(Scan(code).emissions)
      ensures symbolTable.symbols == TableOf(Scan(code).emissions)
      ensures r == if Scan(code).error.Some? then Err(MismatchMessage(Scan(code).error.value)) else Ok(tokens)
      ensures symbolTable.Valid()
    {
      ScanTable(code);
      tokens := [];
      symbolTable.Clear();
      var lineNum := 1;
      var pos := 0;
      ghost var t := Matches(code);
      MatchesFacts(code);
      ghost var done: seq<Emission> := [];
      assert Scan(code) == LexRun(done + Run(code, t, pos).emissions, Run(code, t, pos).error) by {
        assert [] + Run(code, t, 0).emissions == Run(code, t, 0).emissions;
      }
      while pos < |code|
        invariant pos <= |code| && lineNum == LineAt(code, pos)
        invariant Scan(code) == LexRun(done + Run(code, t, pos).emissions, Run(code, t, pos).error)
        invariant tokens == TokensOf(done)
        invariant symbolTable.symbols == TableOf(done)
        decreases |code| - pos
      {
        var m := NextMatch(code, pos);
        var value := code[pos..m.end];
        LineStep(code, t, pos);
        if m.cls == Whitespace {
          if '\n' in value {
            lineNum := lineNum + Count(value, '\n');
          }
        } else if m.cls == Comment {
        } else if m.cls == Mismatch {
          assert Scan(code) == LexRun(done, Some(code[pos])) by {
            assert done + [] == done;
          }
          return Err(MismatchMessage(value[0]));
        } else {
          ghost var e := TokenAt(code, t, pos);
          ghost var rest := Run(code, t, m.end);
          AppendCons(done, e, rest.emissions);
          EmitToken(code, m, pos, lineNum, t, done);
          done := done + [e];
        }
        pos := m.end;
      }
      assert Scan(code) == LexRun(done, None) by {
        assert done + [] == done;
      }
      return Ok(tokens);
    }
  }
}
