/**
 * sintactico.py: `analizar_codigo`, which runs the grammar over every line
 * of the input, keeps the set of declared variable names, reports the lines
 * Lark rejects and appends the linter's output, and `ejecutar_analizador`,
 * which turns the list of messages into the text shown to the user.
 *
 * What Lark says about a rejected line (`e.column` and `e.get_context(linea)`)
 * and what pyflakes prints are outside this model: the first is the
 * parameter `site`, a function of the line, and the second the string `lint`.
 */
module SyntaxAnalysis {
  import opened Wrappers
  import opened Text
  import opened Grammar

  /** What `UnexpectedInput` carries for a line: the column and the context text. */
  datatype ErrorSite = ErrorSite(column: int, context: string)

  /** One entry of `errores`, before it is formatted. */
  datatype Report =
    | SyntaxError(line: nat, column: int, context: string)
    | Undeclared(line: nat, name: string)
    | LintBlock(text: string)

  const LintHeader: string := "Errores de pyflakes:\n"
  const ErrorsHeader: string := "Errores encontrados:\n"
  const NoErrorsText: string := "No se encontraron errores de sintaxis " + "ni variables no definidas.\n"

  /** The f-strings of `analizar_codigo`. */
  function RenderReport(r: Report): string
  {
    match r
    case SyntaxError(i, c, ctx) => "L\U{ED}nea " + IntToString(i) + ", columna " + IntToString(c) + ": " + Strip(ctx)
    case Undeclared(i, t) => "L\U{ED}nea " + IntToString(i) + ": Variable '" + t + "' no definida."
    case LintBlock(text) => LintHeader + text
  }

  function RenderAll(rs: seq<Report>): (ms: seq<string>)
    ensures |ms| == |rs| && forall k :: 0 <= k < |rs| ==> ms[k] == RenderReport(rs[k])
  {
    seq(|rs|, k requires 0 <= k < |rs| => RenderReport(rs[k]))
  }

  lemma RenderAllAppend(a: seq<Report>, b: seq<Report>)
    ensures RenderAll(a + b) == RenderAll(a) + RenderAll(b)
  {
  }

  /** `[str(token) for token in tree.children if isinstance(token, str)]`. */
  function StringChildren(tree: ParseTree): seq<string>
  {
    LeafTexts(tree.children)
  }

  function LeafTexts(cs: seq<Child>): seq<string>
  {
    if cs == [] then []
    else LeafTexts(cs[..|cs| - 1]) + (if cs[|cs| - 1].TokenLeaf? then [cs[|cs| - 1].text] else [])
  }

  /** The test a token must pass to be reported as an undeclared variable. */
  predicate IsUndeclared(token: string, defined: set<string>)
  {
    token !in defined && !IsDigits(token) && !StartsWith(token, "(")
  }

  /** The tokens reported, in order. */
  function UndeclaredIn(tokens: seq<string>, defined: set<string>): seq<string>
  {
    if tokens == [] then []
    else
      var n := |tokens| - 1;
      UndeclaredIn(tokens[..n], defined) + (if IsUndeclared(tokens[n], defined) then [tokens[n]] else [])
  }

  /** `a` is `b` with some elements left out and the rest kept in order. */
  predicate Subsequence(a: seq<string>, b: seq<string>)
    decreases |b|
  {
    if b == [] then a == []
    else
      var n := |b| - 1;
      (a != [] && a[|a| - 1] == b[n] && Subsequence(a[..|a| - 1], b[..n])) || Subsequence(a, b[..n])
  }

  /** The filter keeps exactly the tokens that pass the undeclared test. */
  lemma {:induction false} UndeclaredInContents(tokens: seq<string>, defined: set<string>, x: string)
    ensures x in UndeclaredIn(tokens, defined) <==> x in tokens && IsUndeclared(x, defined)
  {
    if tokens != [] {
      var n := |tokens| - 1;
      UndeclaredInContents(tokens[..n], defined, x);
      assert tokens == tokens[..n] + [tokens[n]];
    }
  }

  /** The filter keeps the tokens it reports in their order on the line. */
  lemma {:induction false} UndeclaredInOrder(tokens: seq<string>, defined: set<string>)
    ensures Subsequence(UndeclaredIn(tokens, defined), tokens)
  {
    if tokens != [] {
      var n := |tokens| - 1;
      var kept := UndeclaredIn(tokens[..n], defined);
      UndeclaredInOrder(tokens[..n], defined);
      if IsUndeclared(tokens[n], defined) {
        var r := kept + [tokens[n]];
        assert r[..|r| - 1] == kept;
      } else {
        assert kept + [] == kept;
      }
    }
  }

  function UndeclaredReports(i: nat, names: seq<string>): (rs: seq<Report>)
    ensures |rs| == |names| && forall k :: 0 <= k < |names| ==> rs[k] == Undeclared(i, names[k])
  {
    seq(|names|, k requires 0 <= k < |names| => Undeclared(i, names[k]))
  }

  /** The declared names once line `line` has been processed: the text before its first `=`, stripped. */
  function DefinedAfterLine(line: string, defined: set<string>): set<string>
  {
    if ParseLine(line).Some? && '=' in line then defined + {Strip(BeforeFirst(line, '='))} else defined
  }

  /** The reports for line number `i` (from 1), given the names declared so far. */
  function LineReports(i: nat, line: string, defined: set<string>, site: string -> ErrorSite): seq<Report>
  {
    match ParseLine(line)
    case None => [SyntaxError(i, site(line).column, site(line).context)]
    case Some(tree) => UndeclaredReports(i, UndeclaredIn(StringChildren(tree), DefinedAfterLine(line, defined)))
  }

  /** The reports for `lines[k..]`, numbered from `k + 1`, with `defined` declared before them. */
  function Reports(lines: seq<string>, k: nat, defined: set<string>, site: string -> ErrorSite): seq<Report>
    requires k <= |lines|
    decreases |lines| - k
  {
    if k == |lines| then []
    else LineReports(k + 1, lines[k], defined, site) + Reports(lines, k + 1, DefinedAfterLine(lines[k], defined), site)
  }

  /** The names declared once `lines[k..]` have been processed. */
  function DefinedAfter(lines: seq<string>, k: nat, defined: set<string>): set<string>
    requires k <= |lines|
    decreases |lines| - k
  {
    if k == |lines| then defined else DefinedAfter(lines, k + 1, DefinedAfterLine(lines[k], defined))
  }

  /** What `analizar_codigo(code)` returns, before formatting, given pyflakes' output `lint`. */
  function Diagnostics(code: string, lint: string, site: string -> ErrorSite): seq<Report>
  {
    Reports(Split(code, '\n'), 0, {}, site) + (if lint != "" then [LintBlock(lint)] else [])
  }

  /** The inner loop of `analizar_codigo`: one message per token that passes the undeclared test. */
  method ReportUndeclared(i: nat, tokens: seq<string>, defined: set<string>) returns (mensajes: seq<string>)
    ensures mensajes == RenderAll(UndeclaredReports(i, UndeclaredIn(tokens, defined)))
  {
    mensajes := [];
    for j := 0 to |tokens|
      invariant mensajes == RenderAll(UndeclaredReports(i, UndeclaredIn(tokens[..j], defined)))
    {
      var token := tokens[j];
      assert tokens[..j + 1][..j] == tokens[..j];
      if token !in defined && !IsDigits(token) && !StartsWith(token, "(") {
        mensajes := mensajes + ["L\U{ED}nea " + IntToString(i) + ": Variable '" + token + "' no definida."];
      }
    }
    assert tokens[..|tokens|] == tokens;
  }

  lemma ReportsStep(lines: seq<string>, k: nat, defined: set<string>, site: string -> ErrorSite)
    requires k < |lines|
    ensures RenderAll(Reports(lines, k, defined, site)) ==
      RenderAll(LineReports(k + 1, lines[k], defined, site)) + RenderAll(Reports(lines, k + 1, DefinedAfterLine(lines[k], defined), site))
  {
    RenderAllAppend(LineReports(k + 1, lines[k], defined, site), Reports(lines, k + 1, DefinedAfterLine(lines[k], defined), site));
  }

  lemma AppendAssoc<T>(a: seq<T>, b: seq<T>, c: seq<T>)
    ensures a + (b + c) == (a + b) + c
  {
  }

  /** The body of the loop of `analizar_codigo`, for the line numbered `i`: its messages and the names declared after it. */
  method AnalyzeLine(i: nat, linea: string, defined: set<string>, site: string -> ErrorSite)
    returns (mensajes: seq<string>, definedAfter: set<string>)
    ensures mensajes == RenderAll(LineReports(i, linea, defined, site))
    ensures definedAfter == DefinedAfterLine(linea, defined)
  {
    definedAfter := defined;
    var tree := ParseLine(linea);
    if tree.Some? {
      if '=' in linea {
        var variable := Strip(BeforeFirst(linea, '='));
        definedAfter := definedAfter + {variable};
      }
      var tokens := StringChildren(tree.value);
      mensajes := ReportUndeclared(i, tokens, definedAfter);
    } else {
      var s := site(linea);
      mensajes := ["L\U{ED}nea " + IntToString(i) + ", columna " + IntToString(s.column) + ": " + Strip(s.context)];
    }
  }

  /** The messages of `lines[i..]` still to be produced when `defined` are declared. */
  function Pending(lines: seq<string>, i: nat, defined: set<string>, site: string -> ErrorSite): seq<string>
    requires i <= |lines|
  {
    RenderAll(Reports(lines, i, defined, site))
  }

  /** One pass of the loop of `analizar_codigo` moves line `i`'s messages from the pending part to the output. */
  lemma ReportsAdvance(lines: seq<string>, i: nat, defined: set<string>, site: string -> ErrorSite,
                       whole: seq<string>, done: seq<string>, mensajes: seq<string>, next: set<string>)
    requires i < |lines|
    requires whole == done + Pending(lines, i, defined, site)
    requires mensajes == RenderAll(LineReports(i + 1, lines[i], defined, site))
    requires next == DefinedAfterLine(lines[i], defined)
    ensures whole == (done + mensajes) + Pending(lines, i + 1, next, site)
  {
    ReportsStep(lines, i, defined, site);
    AppendAssoc(done, mensajes, RenderAll(Reports(lines, i + 1, next, site)));
  }

  /** Past the last line nothing is pending. */
  lemma ReportsEnd(lines: seq<string>, defined: set<string>, site: string -> ErrorSite, whole: seq<string>, done: seq<string>)
    requires whole == done + Pending(lines, |lines|, defined, site)
    ensures whole == done
  {
    assert Reports(lines, |lines|, defined, site) == [];
    assert RenderAll([]) == [];
  }

  /** One pass of the loop of `analizar_codigo`: line `i + 1`'s messages move from the pending part to the output. */
  method AnalyzeStep(lineas: seq<string>, i: nat, defined: set<string>, site: string -> ErrorSite,
                     ghost whole: seq<string>, errores: seq<string>)
    returns (out: seq<string>, next: set<string>)
    requires i < |lineas|
    requires whole == errores + Pending(lineas, i, defined, site)
    ensures whole == out + Pending(lineas, i + 1, next, site)
  {
    var mensajes;
    mensajes, next := AnalyzeLine(i + 1, lineas[i], defined, site);
    ReportsAdvance(lineas, i, defined, site, whole, errores, mensajes, next);
    out := errores + mensajes;
  }

  /** The loop of `analizar_codigo` over the lines of the buffer. */
  method AnalyzeLines(lineas: seq<string>, site: string -> ErrorSite) returns (errores: seq<string>)
    ensures errores == RenderAll(Reports(lineas, 0, {}, site))
  {
    errores := [];
    var defined: set<string> := {};
    ghost var whole := Pending(lineas, 0, {}, site);
    assert whole == errores + whole;
    for i := 0 to |lineas|
      invariant whole == errores + Pending(lineas, i, defined, site)
    {
      errores, defined := AnalyzeStep(lineas, i, defined, site, whole, errores);
    }
    ReportsEnd(lineas, defined, site, whole, errores);
  }

  /** The rendered diagnostics are the rendered line reports, then the pyflakes block when there is one. */
  lemma DiagnosticsRender(code: string, lint: string, site: string -> ErrorSite)
    ensures RenderAll(Diagnostics(code, lint, site)) ==
      RenderAll(Reports(Split(code, '\n'), 0, {}, site)) + (if lint != "" then [LintHeader + lint] else [])
  {
    var block: seq<Report> := if lint != "" then [LintBlock(lint)] else [];
    RenderAllAppend(Reports(Split(code, '\n'), 0, {}, site), block);
    if lint != "" {
      assert RenderAll(block) == [RenderReport(LintBlock(lint))];
    }
  }

  /** sintactico.py `analizar_codigo`. */
  method AnalyzeCode(code: string, lint: string, site: string -> ErrorSite) returns (errores: seq<string>)
    ensures errores == RenderAll(Diagnostics(code, lint, site))
  {
    var lineas := Split(code, '\n');
    errores := AnalyzeLines(lineas, site);
    var pyflakesErrores := lint;
    if pyflakesErrores != "" {
      errores := errores + [LintHeader + pyflakesErrores];
    }
    DiagnosticsRender(code, lint, site);
  }

  /** sintactico.py `ejecutar_analizador`, after the messages are known. */
  function ResultText(errors: seq<string>): (r: string)
    ensures errors == [] ==> r == NoErrorsText
    ensures errors != [] ==> |ErrorsHeader| <= |r| && r[..|ErrorsHeader|] == ErrorsHeader
  {
    (if errors != [] then ErrorsHeader else NoErrorsText) + Join(errors, '\n')
  }

  method RunAnalyzer(code: string, lint: string, site: string -> ErrorSite) returns (resultado: string)
    ensures resultado == ResultText(RenderAll(Diagnostics(code, lint, site)))
  {
    var errores := AnalyzeCode(code, lint, site);
    resultado := if errores != [] then ErrorsHeader else NoErrorsText;
    resultado := resultado + Join(errores, '\n');
  }

  // ---- What the reports amount to ----

  /** The literal filter never sees a token: the root's children are all `statement` subtrees. */
  lemma {:induction false} NoStringChildren(tree: ParseTree)
    requires forall i :: 0 <= i < |tree.children| ==> tree.children[i].StatementNode?
    ensures StringChildren(tree) == []
    decreases |tree.children|
  {
    var cs := tree.children;
    if cs != [] {
      NoStringChildren(Tree(cs[..|cs| - 1]));
    }
  }

  /** Lark accepts the line: `parser.parse(linea)` raises nothing. */
  predicate Accepted(line: string)
  {
    ParseLine(line).Some?
  }

  /**
   * A reference definition: one syntax error per line that `accepted`
   * rejects, in line order. With `Accepted` it is what the analysis reports.
   */
  function FailedLines(lines: seq<string>, k: nat, accepted: string -> bool, site: string -> ErrorSite): seq<Report>
    requires k <= |lines|
    decreases |lines| - k
  {
    if k == |lines| then [] else LineFailure(k + 1, lines[k], accepted, site) + FailedLines(lines, k + 1, accepted, site)
  }

  /** The syntax error of line number `i`, when it is rejected. */
  function LineFailure(i: nat, line: string, accepted: string -> bool, site: string -> ErrorSite): seq<Report>
  {
    if accepted(line) then [] else [SyntaxError(i, site(line).column, site(line).context)]
  }

  /** Whatever has been declared, a line reports its syntax error and nothing else. */
  lemma LineReportsAreFailures(i: nat, line: string, defined: set<string>, site: string -> ErrorSite)
    ensures LineReports(i, line, defined, site) == LineFailure(i, line, Accepted, site)
  {
    if ParseLine(line).Some? {
      NoStringChildren(ParseLine(line).value);
    }
  }

  /** Whatever has been declared, the reports are exactly the rejected lines. */
  lemma {:induction false} ReportsAreFailedLines(lines: seq<string>, k: nat, defined: set<string>, site: string -> ErrorSite)
    requires k <= |lines|
    ensures Reports(lines, k, defined, site) == FailedLines(lines, k, Accepted, site)
    decreases |lines| - k
  {
    if k < |lines| {
      ReportsAreFailedLines(lines, k + 1, DefinedAfterLine(lines[k], defined), site);
      LineReportsAreFailures(k + 1, lines[k], defined, site);
    }
  }

  /** The syntax errors name each rejected line, and no other line. */
  lemma {:induction false} FailedLinesContents(lines: seq<string>, k: nat, accepted: string -> bool, site: string -> ErrorSite, r: Report)
    requires k <= |lines|
    ensures r in FailedLines(lines, k, accepted, site) <==>
      exists n :: k <= n < |lines| && r in LineFailure(n + 1, lines[n], accepted, site)
    decreases |lines| - k
  {
    if k < |lines| {
      FailedLinesContents(lines, k + 1, accepted, site, r);
      var here := LineFailure(k + 1, lines[k], accepted, site);
      var rest := FailedLines(lines, k + 1, accepted, site);
      assert FailedLines(lines, k, accepted, site) == here + rest;
      if exists n :: k <= n < |lines| && r in LineFailure(n + 1, lines[n], accepted, site) {
        var n :| k <= n < |lines| && r in LineFailure(n + 1, lines[n], accepted, site);
        assert n == k || r in rest;
      }
    }
  }

  /** A line's failure is its syntax error when it is rejected, and nothing otherwise. */
  lemma LineFailureContents(i: nat, line: string, accepted: string -> bool, site: string -> ErrorSite, r: Report)
    ensures r in LineFailure(i, line, accepted, site) <==> !accepted(line) && r == SyntaxError(i, site(line).column, site(line).context)
  {
  }

  /** Every report is a syntax error about a line numbered in `lo + 1 .. hi`. */
  predicate SyntaxErrorsWithin(fs: seq<Report>, lo: int, hi: int)
  {
    forall a :: 0 <= a < |fs| ==> fs[a].SyntaxError? && lo < fs[a].line <= hi
  }

  predicate LinesIncrease(fs: seq<Report>)
  {
    forall a, b :: 0 <= a < b < |fs| && fs[a].SyntaxError? && fs[b].SyntaxError? ==> fs[a].line < fs[b].line
  }

  /** Syntax errors come in line order. */
  lemma {:induction false} FailedLinesOrdered(lines: seq<string>, k: nat, accepted: string -> bool, site: string -> ErrorSite)
    requires k <= |lines|
    ensures SyntaxErrorsWithin(FailedLines(lines, k, accepted, site), k, |lines|)
    ensures LinesIncrease(FailedLines(lines, k, accepted, site))
    decreases |lines| - k
  {
    if k < |lines| {
      FailedLinesOrdered(lines, k + 1, accepted, site);
      var rest := FailedLines(lines, k + 1, accepted, site);
      var fs := FailedLines(lines, k, accepted, site);
      if !accepted(lines[k]) {
        var head := SyntaxError(k + 1, site(lines[k]).column, site(lines[k]).context);
        assert fs == [head] + rest;
        ConsOrdered(head, rest, k, |lines|);
      } else {
        assert fs == rest;
      }
    }
  }

  lemma ConsOrdered(head: Report, rest: seq<Report>, k: int, n: int)
    requires head.SyntaxError? && head.line == k + 1 <= n
    requires SyntaxErrorsWithin(rest, k + 1, n) && LinesIncrease(rest)
    ensures SyntaxErrorsWithin([head] + rest, k, n) && LinesIncrease([head] + rest)
  {
    var fs := [head] + rest;
    forall a | 0 <= a < |fs| ensures fs[a].SyntaxError? && k < fs[a].line <= n {
      if a > 0 { assert fs[a] == rest[a - 1]; }
    }
    forall a, b | 0 <= a < b < |fs| && fs[a].SyntaxError? && fs[b].SyntaxError? ensures fs[a].line < fs[b].line {
      assert fs[b] == rest[b - 1];
      if a > 0 { assert fs[a] == rest[a - 1]; }
    }
  }

  /** No syntax error is reported exactly when every line is accepted. */
  lemma {:induction false} FailedLinesEmpty(lines: seq<string>, k: nat, accepted: string -> bool, site: string -> ErrorSite)
    requires k <= |lines|
    ensures FailedLines(lines, k, accepted, site) == [] <==> forall n :: k <= n < |lines| ==> accepted(lines[n])
    decreases |lines| - k
  {
    if k < |lines| {
      FailedLinesEmpty(lines, k + 1, accepted, site);
      var here := LineFailure(k + 1, lines[k], accepted, site);
      var rest := FailedLines(lines, k + 1, accepted, site);
      assert FailedLines(lines, k, accepted, site) == here + rest;
      assert here == [] <==> accepted(lines[k]);
    }
  }

  /**
   * What `analizar_codigo` returns: one syntax error per rejected line, in
   * order, then the linter's block when it printed anything; the
   * undeclared-variable message never occurs.
   */
  lemma DiagnosticsShape(code: string, lint: string, site: string -> ErrorSite)
    ensures Diagnostics(code, lint, site) ==
      FailedLines(Split(code, '\n'), 0, Accepted, site) + (if lint != "" then [LintBlock(lint)] else [])
    ensures forall k :: 0 <= k < |Diagnostics(code, lint, site)| ==> !Diagnostics(code, lint, site)[k].Undeclared?
  {
    var lines := Split(code, '\n');
    ReportsAreFailedLines(lines, 0, {}, site);
    FailedLinesOrdered(lines, 0, Accepted, site);
  }

  /** Line `n` is reported as a syntax error exactly when Lark rejects it. */
  lemma SyntaxErrorAtLine(code: string, lint: string, site: string -> ErrorSite, n: nat)
    ensures (exists k :: 0 <= k < |Diagnostics(code, lint, site)| && Diagnostics(code, lint, site)[k].SyntaxError? &&
                         Diagnostics(code, lint, site)[k].line == n) <==>
            1 <= n <= |Split(code, '\n')| && !Accepted(Split(code, '\n')[n - 1])
  {
    var lines := Split(code, '\n');
    DiagnosticsShape(code, lint, site);
    SyntaxErrorAtLineOf(lines, Accepted, site, lint, n);
  }

  /** The same for any acceptance test, stated on the reference definition. */
  lemma SyntaxErrorAtLineOf(lines: seq<string>, accepted: string -> bool, site: string -> ErrorSite, lint: string, n: nat)
    ensures var ds := FailedLines(lines, 0, accepted, site) + (if lint != "" then [LintBlock(lint)] else []);
      (exists k :: 0 <= k < |ds| && ds[k].SyntaxError? && ds[k].line == n) <==>
      1 <= n <= |lines| && !accepted(lines[n - 1])
  {
    var fs := FailedLines(lines, 0, accepted, site);
    var ds := fs + (if lint != "" then [LintBlock(lint)] else []);
    if exists k :: 0 <= k < |ds| && ds[k].SyntaxError? && ds[k].line == n {
      var k :| 0 <= k < |ds| && ds[k].SyntaxError? && ds[k].line == n;
      assert k < |fs| && ds[k] == fs[k];
      FailedLinesContents(lines, 0, accepted, site, fs[k]);
      var m :| 0 <= m < |lines| && fs[k] in LineFailure(m + 1, lines[m], accepted, site);
      LineFailureContents(m + 1, lines[m], accepted, site, fs[k]);
    }
    if 1 <= n <= |lines| && !accepted(lines[n - 1]) {
      var r := SyntaxError(n, site(lines[n - 1]).column, site(lines[n - 1]).context);
      LineFailureContents(n - 1 + 1, lines[n - 1], accepted, site, r);
      FailedLinesContents(lines, 0, accepted, site, r);
      var k :| 0 <= k < |fs| && fs[k] == r;
      assert ds[k] == r;
    }
  }

  /** The linter's block is reported exactly when it printed something, and then it comes last. */
  lemma LintReportedLast(code: string, lint: string, site: string -> ErrorSite)
    ensures (exists k :: 0 <= k < |Diagnostics(code, lint, site)| && Diagnostics(code, lint, site)[k].LintBlock?) <==> lint != ""
    ensures lint != "" ==> Diagnostics(code, lint, site)[|Diagnostics(code, lint, site)| - 1] == LintBlock(lint)
  {
    var lines := Split(code, '\n');
    var fs := FailedLines(lines, 0, Accepted, site);
    var ds := Diagnostics(code, lint, site);
    DiagnosticsShape(code, lint, site);
    FailedLinesOrdered(lines, 0, Accepted, site);
    if lint != "" {
      assert ds[|ds| - 1] == LintBlock(lint);
    }
  }

  /** The success message is printed exactly when there is no message. */
  lemma ResultTextSucceeds(errors: seq<string>)
    ensures ResultText(errors) == NoErrorsText <==> errors == []
  {
    if errors != [] {
      assert ResultText(errors)[0] == 'E' != NoErrorsText[0];
    }
  }

  /** There is nothing to report exactly when every line parses and the linter printed nothing. */
  lemma NothingToReport(code: string, lint: string, site: string -> ErrorSite)
    ensures Diagnostics(code, lint, site) == [] <==>
      lint == "" && forall k :: 0 <= k < |Split(code, '\n')| ==> Accepted(Split(code, '\n')[k])
  {
    DiagnosticsShape(code, lint, site);
    FailedLinesEmpty(Split(code, '\n'), 0, Accepted, site);
  }

  /** The run prints the success message exactly when every line parses and the linter printed nothing. */
  lemma SuccessMessageIff(code: string, lint: string, site: string -> ErrorSite)
    ensures ResultText(RenderAll(Diagnostics(code, lint, site))) == NoErrorsText <==>
      lint == "" && forall k :: 0 <= k < |Split(code, '\n')| ==> Accepted(Split(code, '\n')[k])
  {
    ResultTextSucceeds(RenderAll(Diagnostics(code, lint, site)));
    NothingToReport(code, lint, site);
  }

  /** The messages can be read back from the result when none of them spans several lines. */
  lemma ResultTextSplits(errors: seq<string>)
    requires errors != [] && forall k :: 0 <= k < |errors| ==> '\n' !in errors[k]
    ensures Split(ResultText(errors)[|ErrorsHeader|..], '\n') == errors
  {
    var r := ResultText(errors);
    assert r[|ErrorsHeader|..] == Join(errors, '\n');
    SplitJoin(errors, '\n');
  }

  /** Line `line` is accepted and declares `x`: its first statement assigns to `x`. */
  predicate Declares(line: string, x: string)
  {
    ParseLine(line).Some? && x == ParseLine(line).value.children[0].statement.target
  }

  /** One line adds to the declared names exactly the target it declares. */
  lemma DefinedAfterLineDeclares(line: string, defined: set<string>, x: string)
    ensures x in DefinedAfterLine(line, defined) <==> x in defined || Declares(line, x)
  {
    if ParseLine(line).Some? {
      ParsedLineTarget(line);
    }
  }

  /** The names `analizar_codigo` collects: the first statement's target of every accepted line. */
  lemma {:induction false} DefinedAreTargets(lines: seq<string>, k: nat, defined: set<string>, x: string)
    requires k <= |lines|
    ensures x in DefinedAfter(lines, k, defined) <==> x in defined || exists n :: k <= n < |lines| && Declares(lines[n], x)
    decreases |lines| - k
  {
    if k < |lines| {
      DefinedAreTargets(lines, k + 1, DefinedAfterLine(lines[k], defined), x);
      DefinedAfterLineDeclares(lines[k], defined, x);
    }
  }
}
