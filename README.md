# Compilando front end, modelled in Dafny

Compilando is a small compiler front end written in Python. It has three parts:

- **A standalone symbol table** (`symbol_table.py`). It keeps a list of rows (Name, Type, Line, Value, Scope). `add` ignores a second row with the same (Name, Scope). `lookup` returns the first row with a given Name, whatever its Scope. `clear` empties the list, and `get_symbols` hands the list back as it is stored.
- **A tokenizer** (`lexical_analyzer.py`). It has its own copy of the symbol table, whose `get_symbols` returns a copy sorted by (Name, Line). `LexicalAnalyzer.analyze` walks the matches of a nine-class regular-expression alternation (KEYWORD, IDENTIFIER, NUMBER, STRING, OPERATOR, DELIMITER, WHITESPACE, COMMENT, MISMATCH):
  - it counts lines by the line feeds inside whitespace;
  - it drops whitespace and comments;
  - it raises `ValueError` at the first MISMATCH;
  - it records identifiers, numbers and strings in the table;
  - it returns the `(kind, value, line)` tokens.
- **A line-by-line syntax checker** (`sintactico.py`):
  - It runs a Lark grammar of assignments `x = expression` over `+ - * /`, names, integers and parentheses on every line.
  - It collects the declared names and reports the rejected lines.
  - It appends what the pyflakes linter prints.
  - `ejecutar_analizador` turns the messages into the text shown to the user.

The Dafny project follows that structure, one module per concern:

| file | module | contents |
|---|---|---|
| `wrappers.dfy` | `Wrappers` | `Option` and `Result` |
| `text.dfy` | `Text` | the Python string operations the source uses (`count`, `split`, `join`, `strip`, `isdigit`, `startswith`, `str(int)`) with their properties |
| `symbol_entries.dfy` | `SymbolEntries` | the row datatype and the effect of `add` on the stored list, shared by both tables |
| `symbol_table.dfy` | `StandaloneSymbols` | the class of `symbol_table.py`, its first-match lookup, and lemmas relating lookup and add |
| `entry_order.dfy` | `EntryOrder` | the (Name, Line) order and a stable insertion sort that specifies the sorted listing |
| `token_classes.dfy` | `TokenClasses` | the match Python's `re` finds at one offset for the tokenizer's alternation, and the precedence facts about it |
| `lexical_analyzer.dfy` | `LexicalAnalysis` | the tokenizer's table class, the `LexicalAnalyzer` class whose `Analyze` method is proved against the reference scan `Scan`, and lemmas about `Scan` |
| `grammar.dfy` | `Grammar` | Lark's lexer for the grammar's terminals, and a recursive-descent recogniser over iterated derivation trees, proved to accept exactly the token sequences those trees render |
| `grammar_rules.dfy` | `GrammarRules` | derivation trees in the shape of the grammar's own left-recursive rules, with token-preserving conversions to and from the iterated trees, so that the recogniser accepts exactly what the rules as written derive |
| `syntax_analysis.dfy` | `SyntaxAnalysis` | `analizar_codigo` and `ejecutar_analizador` as methods proved against the reference `Diagnostics`, and lemmas about what gets reported |

Stateful parts are classes whose methods carry `modifies` clauses:

- both symbol tables;
- the analyzer with its `tokens` list.

The loops of `add`, `lookup`, `analyze` and `analizar_codigo` are `for` or `while` loops with invariants. Each method's postcondition ties its result or its new state to a specification function. The properties are then proved about that function.

The three places where the model departs from the source are explained under "## Left out":

- **The grammar's parser.** Lark builds an LALR parser from the left-recursive rules. The model uses recursive descent over iterated rules instead.
  - `Grammar.AcceptsTheLanguage` proves that the recogniser accepts exactly the token sequences rendered by the iterated statement trees.
  - `GrammarRules.SameLanguage` proves that the left-recursive rules as written derive the same token sequences. `GrammarRules.AcceptsTheGrammar` combines the two.
- **The undeclared-variable check has no effect.** `analizar_codigo` only reports names that appear *directly* among the root's children. Under `start: statement+` every child of the root is a `statement` subtree, so it never reports an undeclared variable. The model keeps the filter as written, and `SyntaxAnalysis.DiagnosticsShape` proves the consequence.
- **Lark's and pyflakes' messages are inputs.** Lark's error column and context, and the linter's output, come from code outside the model. They enter as parameters of the model.

## Model

| member | source | states |
|---|---|---|
| `Text.Count` | lexical_analyzer.py:55 | `value.count('\n')` is at most the length and is zero exactly when there is no line feed |
| `Text.CountAppend` | lexical_analyzer.py:53-55 | the count of a concatenation is the sum of the counts, so the line counter can be advanced by parts |
| `Text.CountPrefixLe` | lexical_analyzer.py:63 | a prefix holds no more line feeds than the whole buffer, so a line number derived from a prefix indexes `splitlines()` |
| `Text.Split` | sintactico.py:38 | `split("\n")` gives one more part than there are separators, and no part contains the separator |
| `Text.JoinSplit` | sintactico.py:38 | joining the parts of a split with the separator gives back the original text: no character is lost by cutting the input into lines |
| `Text.SplitJoin` | sintactico.py:82 | splitting a `"\n".join` of separator-free messages gives back the messages |
| `Text.SplitAround` | sintactico.py:38 | text before the first separator becomes the first part, and the rest is split on its own |
| `Text.BeforeFirstIsPrefix` | sintactico.py:50 | `split("=")[0]` is a prefix without `=`, followed by `=` when the line holds one |
| `Text.BeforeFirstAt` | sintactico.py:50 | when the first `=` is at offset `k`, `split("=")[0]` is the text before `k` |
| `Text.StripLeft` | lexical_analyzer.py:64 | the first half of `strip()`: it removes only leading whitespace, and the result does not start with whitespace |
| `Text.StripRight` | lexical_analyzer.py:64 | the second half of `strip()`: it removes only trailing whitespace, and the result does not end with whitespace |
| `Text.Strip` | sintactico.py:50 | `strip()` never lengthens the text, and its result neither starts nor ends with whitespace |
| `Text.StripPadded` | sintactico.py:50 | stripping a word padded by whitespace gives back the word |
| `SymbolEntries.AddedShape` | symbol_table.py:5-16 | `add` keeps every stored row in place and grows the list by at most one row; it grows exactly when (Name, Scope) was absent, and the new row is last |
| `SymbolEntries.AddedKeys` | symbol_table.py:7-16 | after `add` the stored (Name, Scope) keys are the old keys plus the added one, in both directions |
| `SymbolEntries.AddedPreservesUnique` | symbol_table.py:7-9 | `add` never stores a second row for a (Name, Scope) |
| `SymbolEntries.AddedIdempotent` | symbol_table.py:5-16 | adding the same row twice is the same as adding it once |
| `SymbolEntries.AddedKeepsFirst` | symbol_table.py:7-9 | an `add` whose key is stored changes nothing, so the first row's Type, Line and Value stay |
| `SymbolEntries.AddAllKeys` | lexical_analyzer.py:7-17 | over a run of adds, the stored keys are the old keys and the keys added |
| `SymbolEntries.AddAllUnique` | lexical_analyzer.py:7-17 | a run of adds from a duplicate-free table leaves it duplicate-free |
| `SymbolEntries.AddAllContents` | lexical_analyzer.py:7-17 | a row is stored after a run of adds exactly when it was stored before, or it is the first of the run with its key and that key was not stored |
| `StandaloneSymbols.FirstNamed` | symbol_table.py:18-23 | the lookup result is None exactly when no row has the Name; otherwise it is the stored row with that Name that no earlier row shares |
| `StandaloneSymbols.FirstNamedAdded` | symbol_table.py:5-23 | a lookup after `add` gives the old answer if there was one, otherwise the added row when it has that name |
| `StandaloneSymbols.LookupAfterAdd` | symbol_table.py:5-23 | after `add(n, ...)`, `lookup(n)` finds a row |
| `StandaloneSymbols.LookupPrefersEarlierScope` | symbol_table.py:18-23 | a name newly added under two scopes is stored twice, and lookup returns the row of the first scope |
| `StandaloneSymbols.SymbolTable.constructor` | symbol_table.py:2-3 | a new table is empty |
| `StandaloneSymbols.SymbolTable.Add` | symbol_table.py:5-16 | the scanning loop leaves the list as `Added` describes; it requires and keeps the table free of duplicate keys |
| `StandaloneSymbols.SymbolTable.Lookup` | symbol_table.py:18-23 | the scanning loop returns exactly `FirstNamed` of the stored list |
| `StandaloneSymbols.SymbolTable.Clear` | symbol_table.py:25-27 | the table is empty afterwards and no name is found |
| `StandaloneSymbols.SymbolTable.GetSymbols` | symbol_table.py:29-31 | the stored rows, element for element in storage order |
| `EntryOrder.StrLeTotal` | lexical_analyzer.py:23 | Python's string order compares any two names |
| `EntryOrder.StrLeAntisymmetric` | lexical_analyzer.py:23 | two names that are each at most the other are equal |
| `EntryOrder.StrLeTransitive` | lexical_analyzer.py:23 | the string order is transitive |
| `EntryOrder.KeyLeTotal` | lexical_analyzer.py:23 | the (Name, Line) tuple order compares any two rows |
| `EntryOrder.KeyLeTransitive` | lexical_analyzer.py:23 | the (Name, Line) order is transitive |
| `EntryOrder.KeyLeBothWays` | lexical_analyzer.py:23 | two rows that are each at most the other have the same (Name, Line) |
| `EntryOrder.InsertPermutes` | lexical_analyzer.py:23 | inserting a row adds exactly that row to the multiset |
| `EntryOrder.InsertSorted` | lexical_analyzer.py:23 | inserting into a sorted list keeps it sorted |
| `EntryOrder.SortByNameLine` | lexical_analyzer.py:23 | `sorted(..., key=(Name, Line))` is sorted by (Name, Line) and a permutation of its input |
| `EntryOrder.InsertWithKey` | lexical_analyzer.py:23 | insertion puts the new row before the rows with its key, and leaves their order alone |
| `EntryOrder.SortIsStable` | lexical_analyzer.py:23 | the sort is stable: the rows with any given (Name, Line) appear in storage order |
| `TokenClasses.RunEnd` | lexical_analyzer.py:41 | a greedy character-class run, such as `\s+`, stops at the first character outside the class |
| `TokenClasses.WordEnd` | lexical_analyzer.py:36 | `\w*` consumes word characters up to the first non-word character |
| `TokenClasses.DigitEnd` | lexical_analyzer.py:37 | `\d*` consumes digits up to the first non-digit |
| `TokenClasses.LineEnd` | lexical_analyzer.py:42 | `.*` stops at the next line feed or the end of the buffer |
| `TokenClasses.QuoteClose` | lexical_analyzer.py:38 | the lazy `.*?` ends at the first matching quote before any line feed; if there is none, no quote follows on the line |
| `TokenClasses.KeywordFrom` | lexical_analyzer.py:35 | a KEYWORD match is one of the alternated words, non-empty, followed by a `\b` |
| `TokenClasses.KeywordFromFinds` | lexical_analyzer.py:35 | the keyword alternation misses no word that matches with a following `\b` |
| `TokenClasses.NumberEnd` | lexical_analyzer.py:37 | a NUMBER match is a non-empty run of digits and dots ending on a `\b` |
| `TokenClasses.NumberEndChoice` | lexical_analyzer.py:37 | `\d+(\.\d+)?\b` takes the longest digit run; it keeps the fraction when a `.` and a digit follow and the fraction ends on a `\b`; otherwise it backtracks to the integer part when that ends on a `\b`; it fails exactly when neither ends on a `\b` |
| `TokenClasses.NumberCandidates` | lexical_analyzer.py:37 | any digits-then-optional-fraction span ending on a `\b` is one of those two candidates: the integer part is the whole digit run, and a fraction is the whole digit run after the `.` |
| `TokenClasses.ReservedShape` | lexical_analyzer.py:35 | every reserved word is a non-empty run of lower-case letters |
| `TokenClasses.KeywordFromIsWord` | lexical_analyzer.py:35 | a keyword match starts with a letter and covers word characters only |
| `TokenClasses.MatchAt` | lexical_analyzer.py:34-46 | the match at an offset is never empty and stays in the buffer; MISMATCH covers one character that is not a line feed (which class wins is stated by the precedence lemmas below) |
| `TokenClasses.NextMatch` | lexical_analyzer.py:46-50 | the match `re.finditer` yields at an offset, for the analyzer's own keyword list |
| `TokenClasses.OnlyWhitespaceSpansLines` | lexical_analyzer.py:41-55 | only a WHITESPACE match can contain a line feed, so only whitespace moves the line counter |
| `TokenClasses.KeywordIsReserved` | lexical_analyzer.py:35 | a KEYWORD match is a reserved word |
| `TokenClasses.IdentifierIsNotReserved` | lexical_analyzer.py:35-36 | an IDENTIFIER match is never a reserved word, because KEYWORD is tried first |
| `TokenClasses.ReservedWordIsKeyword` | lexical_analyzer.py:35-36 | a whole word that is reserved matches as KEYWORD over its full length |
| `TokenClasses.ColonIsOperator` | lexical_analyzer.py:39-40 | `:` belongs to OPERATOR and to DELIMITER; OPERATOR comes first and always wins |
| `TokenClasses.UnclaimedCharIsMismatch` | lexical_analyzer.py:34-43 | a character no class claims, such as `@`, is a one-character MISMATCH |
| `TokenClasses.UnterminatedQuoteIsMismatch` | lexical_analyzer.py:38-43 | a quote with no closing quote on its line is a MISMATCH |
| `TokenClasses.DigitsThenLetterIsMismatch` | lexical_analyzer.py:36-43 | digits followed directly by a letter are neither NUMBER nor IDENTIFIER, and are a MISMATCH |
| `LexicalAnalysis.SourceLines` | lexical_analyzer.py:63 | the model's split of the buffer at line feeds has one line per line feed, plus one (see "## Left out" for how this differs from `splitlines()`) |
| `LexicalAnalysis.Matches` | lexical_analyzer.py:50 | the table of the matches that `re.finditer` can yield at each offset |
| `LexicalAnalysis.MatchesFacts` | lexical_analyzer.py:34-50 | every such match is non-empty; only whitespace spans a line feed; KEYWORD and IDENTIFIER split the words by the reserved list; `:` is an OPERATOR |
| `LexicalAnalysis.LineAt` | lexical_analyzer.py:47-55 | the line counter at an offset is one plus the line feeds before it, and so a valid line of the buffer |
| `LexicalAnalysis.LineStep` | lexical_analyzer.py:53-56 | across a whitespace match the counter moves by the match's line feeds; across any other match it stays put |
| `LexicalAnalysis.TokenAtFacts` | lexical_analyzer.py:61-72 | an emitted match becomes a token whose lexeme is the matched text, whose line is its first character's, and whose row is `SymbolFor` |
| `LexicalAnalysis.RunFacts` | lexical_analyzer.py:50-72 | every token of a scan is well formed, and the tokens come in strictly increasing offset order |
| `LexicalAnalysis.RunStop` | lexical_analyzer.py:50-60 | a scan that fails stops at a MISMATCH offset, reports that character, and emits nothing after it (the converse is `RunFailsIff`) |
| `LexicalAnalysis.StopChar` | lexical_analyzer.py:50-60 | the character of the first MISMATCH the walk from an offset reaches, or none when it reaches the end |
| `LexicalAnalysis.RunError` | lexical_analyzer.py:50-60 | a scan's error is exactly `StopChar` of its start |
| `LexicalAnalysis.StopCharIff` | lexical_analyzer.py:50-60 | the walk stops on `c` exactly when it visits a MISMATCH offset holding `c` |
| `LexicalAnalysis.StopCharNone` | lexical_analyzer.py:50-60 | the walk reaches the end exactly when no offset it visits is a MISMATCH |
| `LexicalAnalysis.RunFailsIff` | lexical_analyzer.py:50-60 | a scan fails with `c` exactly when some offset it visits is a MISMATCH holding `c` |
| `LexicalAnalysis.ScanFacts` | lexical_analyzer.py:50-72 | the same facts for a whole-buffer scan |
| `LexicalAnalysis.TokenLineCountsLineFeeds` | lexical_analyzer.py:47-56 | a token's lexeme is the text at its offset, and its line is one plus the line feeds before it |
| `LexicalAnalysis.TokensInBufferOrder` | lexical_analyzer.py:50-72 | tokens come in the order their lexemes appear in the buffer |
| `LexicalAnalysis.OnlyTokenKindsEmitted` | lexical_analyzer.py:53-58 | whitespace, comments and mismatches never become tokens |
| `LexicalAnalysis.KeywordPrecedence` | lexical_analyzer.py:35-36 | among word tokens, KEYWORD is given exactly to the reserved words |
| `LexicalAnalysis.ColonTokenIsOperator` | lexical_analyzer.py:39-40 | every `:` token is an OPERATOR |
| `LexicalAnalysis.ScanStopsAtMismatch` | lexical_analyzer.py:59-60 | a failed scan names the character at a MISMATCH offset, and every token lies before that offset |
| `LexicalAnalysis.ScanFailsIff` | lexical_analyzer.py:50-60 | `analyze` raises on `c` exactly when the walk from offset 0 visits a MISMATCH holding `c`, and succeeds exactly when it visits none |
| `LexicalAnalysis.SymbolInsertions` | lexical_analyzer.py:62-71 | only identifiers, numbers and strings are offered to the table; identifiers come as "Variable" with the stripped text after the last `=` of their line, or no value when the line has no `=`; numbers and strings carry their own lexeme; the scope is always Global |
| `LexicalAnalysis.TableOfAppend` | lexical_analyzer.py:62-71 | one more token adds its row, if it has one, to the table |
| `LexicalAnalysis.EntriesOfComesFrom` | lexical_analyzer.py:62-71 | the rows offered are exactly the rows of the tokens, in order |
| `LexicalAnalysis.ScanTable` | lexical_analyzer.py:62-71 | the table a scan builds has one row per name, all in scope Global, and every row comes from a token of the scan |
| `LexicalAnalysis.SymbolTable.constructor` | lexical_analyzer.py:3-5 | a new table is empty |
| `LexicalAnalysis.SymbolTable.Add` | lexical_analyzer.py:7-17 | the same `add` as the standalone table: the list becomes `Added`; it requires and keeps unique keys |
| `LexicalAnalysis.SymbolTable.Clear` | lexical_analyzer.py:19-20 | the table is empty afterwards |
| `LexicalAnalysis.SymbolTable.GetSymbols` | lexical_analyzer.py:22-23 | the listing is sorted by (Name, Line), is a permutation of the stored rows, and keeps rows with equal keys in storage order |
| `LexicalAnalysis.LexicalAnalyzer.constructor` | lexical_analyzer.py:26-28 | the analyzer starts with a fresh empty table and no tokens |
| `LexicalAnalysis.LexicalAnalyzer.Record` | lexical_analyzer.py:62-71 | the table insertion for one token is `Added` of its `SymbolFor` row, or nothing when it has none |
| `LexicalAnalysis.LexicalAnalyzer.EmitToken` | lexical_analyzer.py:61-72 | one emitted match extends the token list and the table by that token's part of the scan |
| `LexicalAnalysis.LexicalAnalyzer.Analyze` | lexical_analyzer.py:30-74 | the loop's tokens and table are those of `Scan(code)`, whatever the earlier state; it returns the tokens, or the `Unexpected character` error at a MISMATCH |
| `Grammar.SkipSpace` | sintactico.py:29-30 | the ignored `WS` is skipped up to the first character that is not `WS` |
| `Grammar.TokenAtFacts` | sintactico.py:27-30 | a terminal starts exactly where the character is not stray; CNAME and INT are taken as far as they go, and each terminal is spelled by the text it spans |
| `Grammar.LexFails` | sintactico.py:27-30 | lexing a line fails exactly when some character is neither `WS` nor part of a terminal |
| `Grammar.LexSpaced` | sintactico.py:27-30 | lexing the spaced-out spelling of valid terminals gives back those terminals |
| `Grammar.ParseFactor` | sintactico.py:23-25 | `factor` consumes at least one token |
| `Grammar.ParseTerm` | sintactico.py:19-21 | `term` consumes at least one token |
| `Grammar.ParseExpr` | sintactico.py:15-17 | `expression` consumes at least one token |
| `Grammar.ParseStatement` | sintactico.py:13 | `statement` consumes a name, `=` and at least one more token |
| `Grammar.ParseStatements` | sintactico.py:11 | `statement+` yields at least one statement |
| `Grammar.FactorSound` | sintactico.py:23-25 | a parsed `factor` derives exactly the tokens read |
| `Grammar.TermSound` | sintactico.py:19-21 | a parsed `term` derives exactly the tokens read |
| `Grammar.ExprSound` | sintactico.py:15-17 | a parsed `expression` derives exactly the tokens read |
| `Grammar.StatementSound` | sintactico.py:13 | a parsed `statement` derives exactly the tokens read |
| `Grammar.StatementsSound` | sintactico.py:11 | parsed statements derive exactly the rest of the line |
| `Grammar.ProgramSound` | sintactico.py:11 | an accepted line is the rendering of one or more statements |
| `Grammar.FactorComplete` | sintactico.py:23-25 | the rendering of a `factor` is parsed back to that factor |
| `Grammar.TermComplete` | sintactico.py:19-21 | a `term` followed by the end of the line or a token that cannot continue it is parsed back to itself |
| `Grammar.ExprComplete` | sintactico.py:15-17 | an `expression` followed by the end of the line or a token that cannot continue it is parsed back to itself |
| `Grammar.StatementComplete` | sintactico.py:13 | a `statement` followed by the end of the line or a token that cannot continue it is parsed back to itself |
| `Grammar.StatementsComplete` | sintactico.py:11 | the rendering of one or more statements is parsed back to them |
| `Grammar.ProgramComplete` | sintactico.py:11 | the rendering of one or more statements is accepted with those trees |
| `Grammar.AcceptsTheLanguage` | sintactico.py:10-26 | the recogniser accepts a token sequence exactly when it is the rendering of one or more iterated statement trees |
| `Grammar.ParseLine` | sintactico.py:34-45 | `parser.parse(linea)` either fails or returns a root with at least one child, every one of them a `statement` subtree |
| `Grammar.ParseLineAccepts` | sintactico.py:10-45 | a line is accepted exactly when it has no stray character and its terminals are the rendering of one or more statements |
| `Grammar.ParsedLineTarget` | sintactico.py:45-51 | on an accepted line, `linea.split("=")[0].strip()` is the target of its first statement |
| `Grammar.AssignmentPrefix` | sintactico.py:48-50 | on a line whose first terminals are a name and `=`, the stripped text before the first `=` is that name |
| `GrammarRules.FactorToRulesRenders` | sintactico.py:23-25 | a `factor` tree converted to the rules' shape yields the same terminals |
| `GrammarRules.TermTailToRulesRenders` | sintactico.py:19-21 | folding a run of `"*" factor` / `"/" factor` steps into `term "*" factor` nodes to the left appends their terminals |
| `GrammarRules.TermToRulesRenders` | sintactico.py:19-21 | a `term` tree converted to the left-recursive rule yields the same terminals |
| `GrammarRules.ExprTailToRulesRenders` | sintactico.py:15-17 | folding a run of `"+" term` / `"-" term` steps into `expression "+" term` nodes to the left appends their terminals |
| `GrammarRules.ExprToRulesRenders` | sintactico.py:15-17 | an `expression` tree converted to the left-recursive rule yields the same terminals |
| `GrammarRules.SnocTermTailRenders` | sintactico.py:19-21 | one more `*` or `/` step at the end of a term's repetition appends its terminals |
| `GrammarRules.SnocExprTailRenders` | sintactico.py:15-17 | one more `+` or `-` step at the end of an expression's repetition appends its terminals |
| `GrammarRules.FactorFromRulesRenders` | sintactico.py:23-25 | a derivation of `factor` by the rules converts to an iterated tree with the same terminals |
| `GrammarRules.TermFromRulesRenders` | sintactico.py:19-21 | a derivation of `term` by the left-recursive rule converts to an iterated tree with the same terminals |
| `GrammarRules.ExprFromRulesRenders` | sintactico.py:15-17 | a derivation of `expression` by the left-recursive rule converts to an iterated tree with the same terminals |
| `GrammarRules.StatementsToRulesRenders` | sintactico.py:11-13 | a list of iterated statements converts to derivations of `statement+` with the same terminals |
| `GrammarRules.StatementsFromRulesRenders` | sintactico.py:11-13 | a derivation of `statement+` converts to iterated statements with the same terminals |
| `GrammarRules.SameLanguage` | sintactico.py:10-26 | the left-recursive rules as written and the iterated trees derive the same token sequences from `start` |
| `GrammarRules.AcceptsTheGrammar` | sintactico.py:10-26 | the recogniser accepts a token sequence exactly when the grammar as written derives it from `start` |
| `GrammarRules.LineAcceptsTheGrammar` | sintactico.py:10-45 | a line is accepted exactly when it lexes and the grammar as written derives its terminals |
| `SyntaxAnalysis.RenderAll` | sintactico.py:57-62 | each report becomes one message, in order |
| `SyntaxAnalysis.RenderAllAppend` | sintactico.py:43-72 | the messages of two runs of reports concatenate |
| `SyntaxAnalysis.UndeclaredInContents` | sintactico.py:54-57 | a name is reported exactly when it is among the tokens and undeclared |
| `SyntaxAnalysis.UndeclaredInOrder` | sintactico.py:54-57 | the reported names are a subsequence of the tokens, in their order |
| `SyntaxAnalysis.UndeclaredReports` | sintactico.py:55-57 | one undeclared-variable message per name reported, with the line number |
| `SyntaxAnalysis.ReportUndeclared` | sintactico.py:54-57 | the inner loop yields one message per token that is not declared, not all digits and does not start with `(` |
| `SyntaxAnalysis.AnalyzeLine` | sintactico.py:44-62 | one pass of the loop: the messages of one line, and the declared names after it |
| `SyntaxAnalysis.ReportsStep` | sintactico.py:43-62 | a line's messages come before those of the following lines |
| `SyntaxAnalysis.ReportsAdvance` | sintactico.py:43-62 | each pass moves one line's messages from the pending part to the output |
| `SyntaxAnalysis.ReportsEnd` | sintactico.py:43-62 | after the last line nothing is pending, so the output is complete |
| `SyntaxAnalysis.AnalyzeStep` | sintactico.py:44-62 | one pass of the loop appends line `i + 1`'s messages and moves on to the following lines with the names declared so far |
| `SyntaxAnalysis.AnalyzeLines` | sintactico.py:38-62 | the loop over the lines produces the messages `Reports` describes |
| `SyntaxAnalysis.DiagnosticsRender` | sintactico.py:64-72 | the rendered diagnostics are the line messages, then the pyflakes block when the linter printed anything |
| `SyntaxAnalysis.AnalyzeCode` | sintactico.py:37-75 | `analizar_codigo` returns the rendering of `Diagnostics` |
| `SyntaxAnalysis.ResultText` | sintactico.py:79-83 | without messages the result is the success text; with messages it starts with the error header |
| `SyntaxAnalysis.RunAnalyzer` | sintactico.py:79-83 | `ejecutar_analizador` returns `ResultText` of the rendered diagnostics |
| `SyntaxAnalysis.NoStringChildren` | sintactico.py:54 | a root whose children are all `statement` subtrees has no string children |
| `SyntaxAnalysis.LineReportsAreFailures` | sintactico.py:44-62 | whatever names are declared, a line reports its syntax error when rejected, and nothing otherwise |
| `SyntaxAnalysis.ReportsAreFailedLines` | sintactico.py:43-62 | the loop's reports are exactly the reference list of rejected lines |
| `SyntaxAnalysis.FailedLinesContents` | sintactico.py:59-62 | a syntax error is listed exactly when it belongs to some rejected line |
| `SyntaxAnalysis.LineFailureContents` | sintactico.py:59-62 | a line contributes its syntax error exactly when it is rejected |
| `SyntaxAnalysis.FailedLinesOrdered` | sintactico.py:43-62 | syntax errors are numbered within the buffer's lines, in strictly increasing order |
| `SyntaxAnalysis.FailedLinesEmpty` | sintactico.py:43-62 | there is no syntax error exactly when every line is accepted |
| `SyntaxAnalysis.DiagnosticsShape` | sintactico.py:37-75 | the result is one syntax error per rejected line, then the linter's block; the undeclared-variable message never occurs |
| `SyntaxAnalysis.SyntaxErrorAtLine` | sintactico.py:43-62 | line `n` is reported as a syntax error exactly when it exists and Lark rejects it |
| `SyntaxAnalysis.SyntaxErrorAtLineOf` | sintactico.py:43-72 | the same, for any acceptance test, on the reference list |
| `SyntaxAnalysis.LintReportedLast` | sintactico.py:64-72 | the linter's block appears exactly when it printed something, and then it comes last |
| `SyntaxAnalysis.ResultTextSucceeds` | sintactico.py:81 | the success text is shown exactly when there is no message |
| `SyntaxAnalysis.NothingToReport` | sintactico.py:37-75 | there is nothing to report exactly when every line parses and the linter printed nothing |
| `SyntaxAnalysis.SuccessMessageIff` | sintactico.py:79-83 | the success text is shown exactly when every line parses and the linter printed nothing |
| `SyntaxAnalysis.ResultTextSplits` | sintactico.py:82 | when no message spans several lines, the messages can be read back from the result text |
| `SyntaxAnalysis.DefinedAfterLineDeclares` | sintactico.py:48-51 | one line adds to the declared names exactly the target of its first statement, and only when it parses |
| `SyntaxAnalysis.DefinedAreTargets` | sintactico.py:40-51 | the declared names are the first statement's targets of the accepted lines |

## Left out

- Python's `re` engine itself. `TokenClasses.MatchAt` reproduces, case by case, what the nine-class alternation matches at one offset.
  - It follows leftmost-first alternation, the lazy string body and the backtracking of the NUMBER fraction.
  - It does not interpret arbitrary regular expressions.
- Character classes are ASCII:
  - `\w` is `[a-zA-Z0-9_]`, `\d` is `[0-9]`, and `\s` and `str.strip()` use ASCII whitespace.
  - Python's `str` patterns, `isdigit` and `strip` also accept Unicode letters, digits and spaces. A non-ASCII letter is therefore a MISMATCH in the model.
- `code.splitlines()` is modelled as a split at line feeds only.
  - Python also splits at `\r`, `\v`, `\f`, `\x1c`–`\x1e`, `\x85`, `\u2028` and `\u2029`.
  - With those characters, the line the counter names and the line `splitlines()` returns can differ in the source. The model does not reproduce that.
- `LexicalAnalysis.SourceLines` splits at every line feed, so it differs from `splitlines()` at the edges. For `""` Python gives `[]` where the model gives `[""]`. After a trailing line feed Python has no final empty line where the model has one. This is harmless: `analyze` only indexes the line of a token, and that line exists in both.
- Python's `ValueError` is the `Err` value returned by `LexicalAnalysis.LexicalAnalyzer.Analyze`. The tokens and table built so far remain in the object, as in the source.
- `LexicalAnalysis.SymbolTable.GetSymbols` returns a new sorted sequence. The aliasing of the stored list that the standalone table's `get_symbols` returns is not modelled: sequences are values.
- Lark's LALR(1) construction is not modelled. `Grammar` uses recursive descent over the iterated form of the left-recursive rules.
  - `Grammar.AcceptsTheLanguage` ties the recogniser to the iterated trees, and `GrammarRules.SameLanguage` ties those to the rules as written.
  - The trees keep the iterated shape, not Lark's nested one.
  - Only the root's children matter to the source, and the model reduces the tree to them (`Grammar.ParseTree`).
- Lark's contextual lexer, its error classes, `e.column` and `e.get_context(linea)` are left out. They enter as the parameter `site`, which gives the column and the context of each rejected line. The model only states where that text goes in the message.
  - Lark's end-of-input error for an empty or blank line is one more rejection, so such a line is reported as a syntax error.
- Lark's `%ignore WS` is modelled by skipping `WS` characters between terminals. The positions Lark attaches to tree nodes (`propagate_positions=True`) are not modelled, since the analysis never reads them.
- pyflakes is not modelled. Its output is the string parameter `lint`, and the model only states where its text goes.
- The undeclared-variable check of `analizar_codigo` is kept as written: it inspects only the root's direct string children, and there are none. `SyntaxAnalysis.DiagnosticsShape` proves that it never reports. A deeper walk over the tree is not what the code does, so it is not modelled.
- `StandaloneSymbols.SymbolTable.Add` and `LexicalAnalysis.SymbolTable.Add`: Python's dynamic typing is not modelled. The model fixes Name, Type and Scope as strings, Line as an integer and Value as an optional string, which is how the analyzer calls them.
- The `__main__` block of `sintactico.py`, which reads standard input, strips it and prints the result, and the graphical interface of `screen.py` are I/O and are left out. `screen.py` is not part of this model.
