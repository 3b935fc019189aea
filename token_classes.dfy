/**
 * The tokenizer's nine token classes of lexical_analyzer.py, and the match
 * Python's `re` engine finds at a scan position for the alternation built
 * from them: the first class, in list order, that matches at the position
 * wins, with the class's own greedy, lazy or backtracking behaviour.
 * Character classes are ASCII: `\w` is [a-zA-Z0-9_], `\d` is [0-9] and
 * `\s` is the ASCII whitespace `Text.IsSpace` describes.
 */
module TokenClasses {
  import opened Wrappers
  import opened Text

  /** The group names of the token specification, in list order. */
  datatype TokenClass =
    | Keyword | Identifier | Number | StringLit | Operator | Delimiter
    | Whitespace | Comment | Mismatch

  /** The classes whose matches become tokens. */
  predicate Emitted(c: TokenClass)
  {
    c.Keyword? || c.Identifier? || c.Number? || c.StringLit? || c.Operator? || c.Delimiter?
  }

  /** A match of class `cls` that starts at the scan position and ends just before `end`. */
  datatype Match = Match(cls: TokenClass, end: nat)

  /** The reserved words of the KEYWORD pattern, in the order they are alternated. */
  const Reserved: seq<string> :=
    ["if", "else", "while", "return", "def", "class", "import", "from",
     "as", "with", "for", "in", "try", "except", "raise"]

  predicate IsWordChar(c: char)
  {
    'a' <= c <= 'z' || 'A' <= c <= 'Z' || IsDigit(c) || c == '_'
  }

  predicate IsIdentStart(c: char)
  {
    'a' <= c <= 'z' || 'A' <= c <= 'Z' || c == '_'
  }

  predicate IsOperatorChar(c: char)
  {
    c == '+' || c == '-' || c == '*' || c == '/' || c == '%' || c == '=' || c == '<' ||
    c == '>' || c == '!' || c == '&' || c == '|' || c == '~' || c == '^' || c == ':'
  }

  predicate IsDelimiterChar(c: char)
  {
    c == '[' || c == ']' || c == '{' || c == '}' || c == '(' || c == ')' ||
    c == ',' || c == '.' || c == ';' || c == ':'
  }

  predicate WordAt(code: string, i: int)
  {
    0 <= i < |code| && IsWordChar(code[i])
  }

  /** Python `\b` at offset `i`: exactly one of the neighbouring characters is a word character. */
  predicate Boundary(code: string, i: nat)
  {
    WordAt(code, i - 1) != WordAt(code, i)
  }

  /** The end of the longest run starting at `i` of characters satisfying `p`. */
  function RunEnd(code: string, i: nat, p: char -> bool): (e: nat)
    requires i <= |code|
    ensures i <= e <= |code|
    ensures forall k :: i <= k < e ==> p(code[k])
    ensures e == |code| || !p(code[e])
    decreases |code| - i
  {
    if i < |code| && p(code[i]) then RunEnd(code, i + 1, p) else i
  }

  /** The end of `\w*` from `i`. */
  function WordEnd(code: string, i: nat): (e: nat)
    requires i <= |code|
    ensures i <= e <= |code|
    ensures forall k :: i <= k < e ==> IsWordChar(code[k])
    ensures e == |code| || !IsWordChar(code[e])
  {
    RunEnd(code, i, IsWordChar)
  }

  /** The end of `\d*` from `i`. */
  function DigitEnd(code: string, i: nat): (e: nat)
    requires i <= |code|
    ensures i <= e <= |code|
    ensures forall k :: i <= k < e ==> IsDigit(code[k])
    ensures e == |code| || !IsDigit(code[e])
  {
    RunEnd(code, i, IsDigit)
  }

  /** `.*` from `i`: the offset of the next line feed, or the end of the buffer. */
  function LineEnd(code: string, i: nat): (e: nat)
    requires i <= |code|
    ensures i <= e <= |code|
    ensures forall k :: i <= k < e ==> code[k] != '\n'
    ensures e == |code| || code[e] == '\n'
    decreases |code| - i
  {
    if i < |code| && code[i] != '\n' then LineEnd(code, i + 1) else i
  }

  /**
   * The lazy `.*?` followed by the quote `q`, from `i`: the offset of the
   * first `q` before any line feed, or None when the line ends first.
   */
  function QuoteClose(code: string, i: nat, q: char): (r: Option<nat>)
    requires i <= |code|
    ensures r.Some? ==> i <= r.value < |code| && code[r.value] == q
    ensures r.Some? ==> forall k :: i <= k < r.value ==> code[k] != '\n' && code[k] != q
    ensures r.None? ==> forall k :: i <= k < LineEnd(code, i) ==> code[k] != q
    decreases |code| - i
  {
    if i == |code| || code[i] == '\n' then None
    else if code[i] == q then Some(i)
    else QuoteClose(code, i + 1, q)
  }

  /** The alternatives of a `(w0|w1|...)` group: none of them is empty. */
  predicate NonEmptyWords(words: seq<string>)
  {
    forall j :: 0 <= j < |words| ==> |words[j]| > 0
  }

  /**
   * `(w0|w1|...)\b` at `pos`, trying the alternatives from the `k`-th on in
   * order: the end of the first one that matches. KEYWORD is this group
   * over `Reserved`.
   */
  function KeywordFrom(code: string, pos: nat, words: seq<string>, k: nat): (r: Option<nat>)
    requires pos <= |code| && NonEmptyWords(words)
    ensures r.Some? ==> pos < r.value <= |code| && Boundary(code, r.value)
    ensures r.Some? ==> exists j :: k <= j < |words| && code[pos..r.value] == words[j]
    decreases |words| - k
  {
    if k >= |words| then None
    else
      var w := words[k];
      if pos + |w| <= |code| && code[pos..pos + |w|] == w && Boundary(code, pos + |w|) then Some(pos + |w|)
      else KeywordFrom(code, pos, words, k + 1)
  }

  /** The search misses no alternative that matches at `pos`. */
  lemma {:induction false} KeywordFromFinds(code: string, pos: nat, words: seq<string>, k: nat, j: nat)
    requires pos <= |code| && NonEmptyWords(words) && k <= j < |words|
    requires pos + |words[j]| <= |code| && code[pos..pos + |words[j]|] == words[j]
    requires Boundary(code, pos + |words[j]|)
    ensures KeywordFrom(code, pos, words, k).Some?
    decreases j - k
  {
    if k < j {
      var w := words[k];
      if !(pos + |w| <= |code| && code[pos..pos + |w|] == w && Boundary(code, pos + |w|)) {
        KeywordFromFinds(code, pos, words, k + 1, j);
      }
    }
  }

  /**
   * `\d+(\.\d+)?\b` at `pos` after the leading `\b`: the greedy fraction is
   * tried first and then dropped; a shorter digit run can never end on a
   * `\b`, because it would stop between two digits.
   */
  function NumberEnd(code: string, pos: nat): (r: Option<nat>)
    requires pos < |code| && IsDigit(code[pos])
    ensures r.Some? ==> pos < r.value <= |code| && Boundary(code, r.value)
    ensures r.Some? ==> forall k :: pos <= k < r.value ==> IsDigit(code[k]) || code[k] == '.'
  {
    var d := DigitEnd(code, pos);
    if d + 1 < |code| && code[d] == '.' && IsDigit(code[d + 1]) && Boundary(code, DigitEnd(code, d + 1)) then
      Some(DigitEnd(code, d + 1))
    else if Boundary(code, d) then Some(d)
    else None
  }

  /** `\d+` from `pos` can go on with `\.\d+`: a dot follows the digit run, and a digit follows the dot. */
  predicate HasFraction(code: string, pos: nat)
    requires pos <= |code|
  {
    var d := DigitEnd(code, pos);
    d + 1 < |code| && code[d] == '.' && IsDigit(code[d + 1])
  }

  /**
   * The two ends `\d+(\.\d+)?` can reach on a `\b`: the end of the whole
   * fraction when there is one, tried first, and the end of the digit run.
   * The number ends at the first of them that lies on a `\b`, and there is
   * no number when neither does.
   */
  lemma NumberEndChoice(code: string, pos: nat)
    requires pos < |code| && IsDigit(code[pos])
    ensures var d := DigitEnd(code, pos);
      && (HasFraction(code, pos) && Boundary(code, DigitEnd(code, d + 1)) ==> NumberEnd(code, pos) == Some(DigitEnd(code, d + 1)))
      && (!(HasFraction(code, pos) && Boundary(code, DigitEnd(code, d + 1))) && Boundary(code, d) ==> NumberEnd(code, pos) == Some(d))
      && (NumberEnd(code, pos).None? <==> !(HasFraction(code, pos) && Boundary(code, DigitEnd(code, d + 1))) && !Boundary(code, d))
  {
  }

  /**
   * Every other way of matching `\d+(\.\d+)?` from `pos`, with the integer
   * part ending at `a` and the whole at `e`, fails the closing `\b`: a
   * shorter digit run stops between two digits. So the two ends of
   * `NumberEndChoice` are the only candidates.
   */
  lemma NumberCandidates(code: string, pos: nat, a: nat, e: nat)
    requires pos < a <= e <= |code|
    requires forall k :: pos <= k < a ==> IsDigit(code[k])
    requires a == e || (code[a] == '.' && a + 1 < e && forall k :: a + 1 <= k < e ==> IsDigit(code[k]))
    requires Boundary(code, e)
    ensures a == DigitEnd(code, pos)
    ensures a == e || (HasFraction(code, pos) && e == DigitEnd(code, a + 1))
  {
    if a < e {
      var f := DigitEnd(code, a + 1);
      if e < f {
        assert WordAt(code, e - 1) && WordAt(code, e);
      }
    }
  }

  /** Alternatives made of lower-case letters only. */
  predicate LowerWords(words: seq<string>)
  {
    forall j :: 0 <= j < |words| ==> forall i :: 0 <= i < |words[j]| ==> 'a' <= words[j][i] <= 'z'
  }

  /** Every reserved word is a non-empty run of lower-case letters. */
  lemma ReservedShape()
    ensures NonEmptyWords(Reserved) && LowerWords(Reserved)
  {
  }

  /** A match of a group of lower-case alternatives starts with a letter and covers word characters only. */
  lemma KeywordFromIsWord(code: string, pos: nat, words: seq<string>)
    requires pos <= |code| && NonEmptyWords(words) && LowerWords(words)
    requires KeywordFrom(code, pos, words, 0).Some?
    ensures pos < |code| && IsIdentStart(code[pos])
    ensures forall k :: pos <= k < KeywordFrom(code, pos, words, 0).value ==> IsWordChar(code[k])
  {
    var e := KeywordFrom(code, pos, words, 0).value;
    var j :| 0 <= j < |words| && code[pos..e] == words[j];
    assert code[pos] == words[j][0];
    forall k | pos <= k < e ensures IsWordChar(code[k]) {
      assert code[k] == words[j][k - pos];
    }
  }

  /**
   * The match `re.finditer` yields at `pos` when the KEYWORD group
   * alternates `keywords`: the classes are tried in the
   * order KEYWORD, IDENTIFIER, NUMBER, STRING, OPERATOR, DELIMITER,
   * WHITESPACE, COMMENT, MISMATCH and the first that matches is taken.
   * MISMATCH (`.`) is reached only by a character other than a line feed,
   * since a line feed is whitespace.
   */
  function MatchAt(code: string, pos: nat, keywords: seq<string>): (m: Match)
    requires pos < |code| && NonEmptyWords(keywords)
    ensures pos < m.end <= |code|
    ensures m.cls == Mismatch ==> m.end == pos + 1 && code[pos] != '\n'
  {
    var atBoundary := Boundary(code, pos);
    var c := code[pos];
    if atBoundary && KeywordFrom(code, pos, keywords, 0).Some? then
      Match(Keyword, KeywordFrom(code, pos, keywords, 0).value)
    else if atBoundary && IsIdentStart(c) then
      Match(Identifier, WordEnd(code, pos))
    else if atBoundary && IsDigit(c) && NumberEnd(code, pos).Some? then
      Match(Number, NumberEnd(code, pos).value)
    else if (c == '"' || c == '\'') && QuoteClose(code, pos + 1, c).Some? then
      Match(StringLit, QuoteClose(code, pos + 1, c).value + 1)
    else if IsOperatorChar(c) then
      Match(Operator, pos + 1)
    else if IsDelimiterChar(c) then
      Match(Delimiter, pos + 1)
    else if IsSpace(c) then
      Match(Whitespace, RunEnd(code, pos, IsSpace))
    else if c == '#' then
      Match(Comment, LineEnd(code, pos))
    else
      Match(Mismatch, pos + 1)
  }

  /** The match at `pos` of the analyzer's own pattern, whose KEYWORD group alternates `Reserved`. */
  function NextMatch(code: string, pos: nat): (m: Match)
    requires pos < |code|
    ensures pos < m.end <= |code|
    ensures m.cls == Mismatch ==> m.end == pos + 1 && code[pos] != '\n'
  {
    ReservedShape();
    MatchAt(code, pos, Reserved)
  }

  /** Only WHITESPACE can span a line feed: every other match stays on its line. */
  lemma OnlyWhitespaceSpansLines(code: string, pos: nat, keywords: seq<string>)
    requires NonEmptyWords(keywords) && LowerWords(keywords)
    requires pos < |code|
    ensures var m := MatchAt(code, pos, keywords);
      m.cls != Whitespace ==> forall k :: pos <= k < m.end ==> code[k] != '\n'
  {
    if Boundary(code, pos) && KeywordFrom(code, pos, keywords, 0).Some? {
      KeywordFromIsWord(code, pos, keywords);
    }
  }

  /** A KEYWORD match is one of the alternated words. */
  lemma KeywordIsReserved(code: string, pos: nat, keywords: seq<string>)
    requires NonEmptyWords(keywords)
    requires pos < |code| && MatchAt(code, pos, keywords).cls == Keyword
    ensures code[pos..MatchAt(code, pos, keywords).end] in keywords
  {
    var e := KeywordFrom(code, pos, keywords, 0).value;
    var j :| 0 <= j < |keywords| && code[pos..e] == keywords[j];
  }

  /** An IDENTIFIER match is never one of the alternated words: KEYWORD is tried first. */
  lemma IdentifierIsNotReserved(code: string, pos: nat, keywords: seq<string>)
    requires NonEmptyWords(keywords)
    requires pos < |code| && MatchAt(code, pos, keywords).cls == Identifier
    ensures code[pos..MatchAt(code, pos, keywords).end] !in keywords
  {
    var e := WordEnd(code, pos);
    if code[pos..e] in keywords {
      var j :| 0 <= j < |keywords| && keywords[j] == code[pos..e];
      KeywordFromFinds(code, pos, keywords, 0, j);
    }
  }

  /** `:` is in both OPERATOR and DELIMITER; OPERATOR comes first, so it always wins. */
  lemma ColonIsOperator(code: string, pos: nat, keywords: seq<string>)
    requires NonEmptyWords(keywords) && LowerWords(keywords)
    requires pos < |code| && code[pos] == ':'
    ensures MatchAt(code, pos, keywords) == Match(Operator, pos + 1)
  {
    if KeywordFrom(code, pos, keywords, 0).Some? {
      KeywordFromIsWord(code, pos, keywords);
    }
  }

  /** A character no class claims, such as `@`, `$` or `?`, stops the scan. */
  lemma UnclaimedCharIsMismatch(code: string, pos: nat, keywords: seq<string>)
    requires NonEmptyWords(keywords) && LowerWords(keywords)
    requires pos < |code|
    requires !IsWordChar(code[pos]) && code[pos] != '"' && code[pos] != '\''
    requires !IsOperatorChar(code[pos]) && !IsDelimiterChar(code[pos])
    requires !IsSpace(code[pos]) && code[pos] != '#'
    ensures MatchAt(code, pos, keywords) == Match(Mismatch, pos + 1)
  {
    if KeywordFrom(code, pos, keywords, 0).Some? {
      KeywordFromIsWord(code, pos, keywords);
    }
  }

  /** A quote with no closing quote before the end of its line stops the scan. */
  lemma UnterminatedQuoteIsMismatch(code: string, pos: nat, keywords: seq<string>)
    requires NonEmptyWords(keywords) && LowerWords(keywords)
    requires pos < |code| && (code[pos] == '"' || code[pos] == '\'')
    requires QuoteClose(code, pos + 1, code[pos]).None?
    ensures MatchAt(code, pos, keywords) == Match(Mismatch, pos + 1)
  {
    if KeywordFrom(code, pos, keywords, 0).Some? {
      KeywordFromIsWord(code, pos, keywords);
    }
  }

  /** A digit run followed directly by a letter is no NUMBER, and stops the scan. */
  lemma DigitsThenLetterIsMismatch(code: string, pos: nat, keywords: seq<string>)
    requires NonEmptyWords(keywords) && LowerWords(keywords)
    requires pos < |code| && IsDigit(code[pos])
    requires DigitEnd(code, pos) < |code| && IsIdentStart(code[DigitEnd(code, pos)])
    ensures MatchAt(code, pos, keywords) == Match(Mismatch, pos + 1)
  {
    var d := DigitEnd(code, pos);
    assert pos < d && IsDigit(code[d - 1]) && IsWordChar(code[d]);
    assert !Boundary(code, d);
    assert NumberEnd(code, pos).None?;
    if KeywordFrom(code, pos, keywords, 0).Some? {
      KeywordFromIsWord(code, pos, keywords);
    }
    var c := code[pos];
    assert !IsIdentStart(c) && !IsOperatorChar(c) && !IsDelimiterChar(c) && !IsSpace(c);
    assert c != '"' && c != '\'' && c != '#';
  }

  /** Where a whole word equal to one of the alternated words starts, it matches as KEYWORD. */
  lemma ReservedWordIsKeyword(code: string, pos: nat, keywords: seq<string>)
    requires NonEmptyWords(keywords) && LowerWords(keywords)
    requires pos < |code| && Boundary(code, pos)
    requires code[pos..WordEnd(code, pos)] in keywords
    ensures MatchAt(code, pos, keywords) == Match(Keyword, WordEnd(code, pos))
  {
    var e := WordEnd(code, pos);
    var j :| 0 <= j < |keywords| && keywords[j] == code[pos..e];
    KeywordFromFinds(code, pos, keywords, 0, j);
    KeywordFromIsWord(code, pos, keywords);
    var f := KeywordFrom(code, pos, keywords, 0).value;
    assert f == e;
  }
}
