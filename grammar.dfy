/**
 * The grammar of sintactico.py, applied to one line at a time:
 *
 *   start: statement+
 *   statement: IDENTIFICADOR "=" expression
 *   expression: term | expression "+" term | expression "-" term
 *   term: factor | term "*" factor | term "/" factor
 *   factor: IDENTIFICADOR | NUMBER | "(" expression ")"
 *
 * with IDENTIFICADOR = CNAME, NUMBER = INT and the WS characters ignored.
 * The left-recursive rules are written as a head followed by a repetition,
 * which derives the same token sequences (proved in `GrammarRules`); the recogniser is a
 * recursive-descent parser that is proved to accept exactly the renderings
 * of the trees.
 */
module Grammar {
  import opened Wrappers
  import opened Text

  /** The terminals: CNAME, INT and the anonymous one-character tokens. */
  datatype PTok = Name(text: string) | Int(digits: string) | Eq | Plus | Minus | Star | Slash | LParen | RParen

  /** Lark `common.WS`: space, tab, form feed, carriage return and line feed. */
  predicate IsLarkSpace(c: char)
  {
    c == ' ' || c == '\t' || c as int == 0x0C || c == '\r' || c == '\n'
  }

  predicate IsNameStart(c: char)
  {
    c == '_' || ('a' <= c <= 'z') || ('A' <= c <= 'Z')
  }

  predicate IsNameChar(c: char)
  {
    IsNameStart(c) || IsDigit(c)
  }

  /** Lark `common.CNAME`: `[_a-zA-Z][_a-zA-Z0-9]*`. */
  predicate IsCName(s: string)
  {
    |s| > 0 && IsNameStart(s[0]) && forall i :: 0 <= i < |s| ==> IsNameChar(s[i])
  }

  /** The one-character terminals. */
  function SingleTok(c: char): Option<PTok>
  {
    if c == '=' then Some(Eq)
    else if c == '+' then Some(Plus)
    else if c == '-' then Some(Minus)
    else if c == '*' then Some(Star)
    else if c == '/' then Some(Slash)
    else if c == '(' then Some(LParen)
    else if c == ')' then Some(RParen)
    else None
  }

  /** A character no terminal can start and WS does not cover: where lexing fails. */
  predicate IsStray(c: char)
  {
    !IsLarkSpace(c) && !IsNameChar(c) && SingleTok(c).None?
  }

  predicate ValidTok(t: PTok)
  {
    match t
    case Name(x) => IsCName(x)
    case Int(d) => IsDigits(d)
    case _ => true
  }

  /** The text of a terminal. */
  function Spelling(t: PTok): string
  {
    match t
    case Name(x) => x
    case Int(d) => d
    case Eq => "="
    case Plus => "+"
    case Minus => "-"
    case Star => "*"
    case Slash => "/"
    case LParen => "("
    case RParen => ")"
  }

  /** The first offset at or after `i` that is not WS. */
  function SkipSpace(s: string, i: nat): (j: nat)
    requires i <= |s|
    ensures i <= j <= |s| && (j < |s| ==> !IsLarkSpace(s[j]))
    ensures forall k :: i <= k < j ==> IsLarkSpace(s[k])
    decreases |s| - i
  {
    if i < |s| && IsLarkSpace(s[i]) then SkipSpace(s, i + 1) else i
  }

  /** The end of the run of characters satisfying `p` that starts at `i`. */
  function SpanEnd(s: string, i: nat, p: char -> bool): (j: nat)
    requires i <= |s|
    ensures i <= j <= |s| && (j < |s| ==> !p(s[j]))
    ensures forall k :: i <= k < j ==> p(s[k])
    decreases |s| - i
  {
    if i < |s| && p(s[i]) then SpanEnd(s, i + 1, p) else i
  }

  /** The terminal that starts at `j` (CNAME and INT taken as long as they go), and where it ends. */
  function TokenAt(s: string, j: nat): (r: Option<(PTok, nat)>)
    requires j < |s| && !IsLarkSpace(s[j])
    ensures r.Some? ==> j < r.value.1 <= |s|
  {
    if IsNameStart(s[j]) then
      var k := SpanEnd(s, j + 1, IsNameChar);
      Some((Name(s[j..k]), k))
    else if IsDigit(s[j]) then
      var k := SpanEnd(s, j + 1, IsDigit);
      Some((Int(s[j..k]), k))
    else if SingleTok(s[j]).Some? then
      Some((SingleTok(s[j]).value, j + 1))
    else None
  }

  /** A terminal is found exactly where the character is not stray; it is spelled by the text it spans, none of which is stray. */
  lemma TokenAtFacts(s: string, j: nat)
    requires j < |s| && !IsLarkSpace(s[j])
    ensures TokenAt(s, j).None? <==> IsStray(s[j])
    ensures TokenAt(s, j).Some? ==> s[j..TokenAt(s, j).value.1] == Spelling(TokenAt(s, j).value.0) && ValidTok(TokenAt(s, j).value.0)
    ensures TokenAt(s, j).Some? ==> forall k :: j <= k < TokenAt(s, j).value.1 ==> !IsStray(s[k])
  {
    if !IsNameStart(s[j]) && !IsDigit(s[j]) && SingleTok(s[j]).Some? {
      assert s[j..j + 1] == [s[j]];
    }
  }

  /** Lark's lexer over `s[i..]`: WS skipped, None at the first character no terminal matches. */
  function LexFrom(s: string, i: nat): Option<seq<PTok>>
    requires i <= |s|
    decreases |s| - i
  {
    var j := SkipSpace(s, i);
    if j == |s| then Some([])
    else match TokenAt(s, j)
      case None => None
      case Some((t, k)) =>
        match LexFrom(s, k)
        case None => None
        case Some(rest) => Some([t] + rest)
  }

  function LexLine(line: string): Option<seq<PTok>>
  {
    LexFrom(line, 0)
  }

  /** Lexing fails exactly when some character is neither WS nor part of a terminal. */
  lemma {:induction false} LexFails(s: string, i: nat)
    requires i <= |s|
    ensures LexFrom(s, i).None? <==> exists k :: i <= k < |s| && IsStray(s[k])
    decreases |s| - i
  {
    var j := SkipSpace(s, i);
    if j < |s| {
      var t := TokenAt(s, j);
      if t.Some? {
        var k := t.value.1;
        LexFails(s, k);
        if exists m :: i <= m < |s| && IsStray(s[m]) {
          var m :| i <= m < |s| && IsStray(s[m]);
          assert k <= m;
        }
      }
    }
  }

  /** The tokens written out with one space after each. */
  function Spaced(ts: seq<PTok>): string
  {
    if ts == [] then "" else Spelling(ts[0]) + " " + Spaced(ts[1..])
  }

  /** `LexFrom` depends only on where the WS before the next terminal ends. */
  lemma LexFromSkips(s: string, i: nat)
    requires i < |s| && IsLarkSpace(s[i])
    ensures LexFrom(s, i) == LexFrom(s, i + 1)
  {
  }

  /** Lexing the spaced-out text of valid terminals gives them back. */
  lemma {:induction false} LexSpaced(s: string, i: nat, ts: seq<PTok>)
    requires i <= |s| && s[i..] == Spaced(ts)
    requires forall k :: 0 <= k < |ts| ==> ValidTok(ts[k])
    ensures LexFrom(s, i) == Some(ts)
    decreases ts
  {
    if ts != [] {
      var t, rest := ts[0], ts[1..];
      SpacedHead(s, i, ts);
      var k := i + |Spelling(t)|;
      LexSpaced(s, k + 1, rest);
      LexSpacedStep(s, i, k, t, rest);
      assert [t] + rest == ts;
    } else {
      assert |s[i..]| == 0;
    }
  }

  lemma LexSpacedStep(s: string, i: nat, k: nat, t: PTok, rest: seq<PTok>)
    requires ValidTok(t) && k == i + |Spelling(t)|
    requires k < |s| && s[i..k] == Spelling(t) && s[k] == ' '
    requires LexFrom(s, k + 1) == Some(rest)
    ensures LexFrom(s, i) == Some([t] + rest)
  {
    SpelledToken(s, i, t);
    LexFromSkips(s, k);
    LexStep(s, i, t, k, rest);
  }

  lemma SpacedHead(s: string, i: nat, ts: seq<PTok>)
    requires i <= |s| && s[i..] == Spaced(ts) && ts != []
    ensures var k := i + |Spelling(ts[0])|;
      k < |s| && s[i..k] == Spelling(ts[0]) && s[k] == ' ' && s[k + 1..] == Spaced(ts[1..])
  {
    var w := Spelling(ts[0]);
    var k := i + |w|;
    assert s[i..] == w + " " + Spaced(ts[1..]);
    assert s[i..k] == s[i..][..|w|];
    assert s[k + 1..] == s[i..][|w| + 1..];
  }

  lemma LexStep(s: string, i: nat, t: PTok, k: nat, rest: seq<PTok>)
    requires i < |s| && SkipSpace(s, i) == i
    requires TokenAt(s, i) == Some((t, k)) && LexFrom(s, k) == Some(rest)
    ensures LexFrom(s, i) == Some([t] + rest)
  {
  }

  /** A valid terminal written out and followed by a space is read back as itself. */
  lemma SpelledToken(s: string, i: nat, t: PTok)
    requires ValidTok(t)
    requires i + |Spelling(t)| < |s| && s[i..i + |Spelling(t)|] == Spelling(t) && s[i + |Spelling(t)|] == ' '
    ensures SkipSpace(s, i) == i && TokenAt(s, i) == Some((t, i + |Spelling(t)|))
  {
    var w := Spelling(t);
    var k := i + |w|;
    assert s[i] == w[0];
    match t
    case Name(x) =>
      forall m | i + 1 <= m < k ensures IsNameChar(s[m]) { assert s[m] == x[m - i]; }
      SpanEndStops(s, i + 1, k, IsNameChar);
    case Int(d) =>
      forall m | i + 1 <= m < k ensures IsDigit(s[m]) { assert s[m] == d[m - i]; }
      SpanEndStops(s, i + 1, k, IsDigit);
    case _ =>
  }

  lemma SpanEndStops(s: string, i: nat, k: nat, p: char -> bool)
    requires i <= k < |s| && !p(s[k])
    requires forall m :: i <= m < k ==> p(s[m])
    ensures SpanEnd(s, i, p) == k
  {
  }

  // ---- Trees, in the shape of the grammar's rules ----

  datatype AddOp = Add | Sub
  datatype MulOp = Mul | Div

  datatype Factor = Var(name: string) | Num(digits: string) | Paren(inner: Expr)
  datatype Term = Term(head: Factor, tail: TermTail)
  datatype TermTail = TNil | TCons(mop: MulOp, factor: Factor, next: TermTail)
  datatype Expr = Expr(head: Term, tail: ExprTail)
  datatype ExprTail = ENil | ECons(aop: AddOp, term: Term, next: ExprTail)
  datatype Statement = Statement(target: string, value: Expr)

  function AddTok(op: AddOp): PTok
  {
    if op == Add then Plus else Minus
  }

  function MulTok(op: MulOp): PTok
  {
    if op == Mul then Star else Slash
  }

  function AddOf(t: PTok): Option<AddOp>
  {
    if t == Plus then Some(Add) else if t == Minus then Some(Sub) else None
  }

  function MulOf(t: PTok): Option<MulOp>
  {
    if t == Star then Some(Mul) else if t == Slash then Some(Div) else None
  }

  /** The terminals a tree derives. */
  function RenderFactor(f: Factor): seq<PTok>
  {
    match f
    case Var(x) => [Name(x)]
    case Num(d) => [Int(d)]
    case Paren(e) => [LParen] + RenderExpr(e) + [RParen]
  }

  function RenderTerm(t: Term): seq<PTok>
  {
    RenderFactor(t.head) + RenderTermTail(t.tail)
  }

  function RenderTermTail(tt: TermTail): seq<PTok>
  {
    match tt
    case TNil => []
    case TCons(op, f, n) => [MulTok(op)] + RenderFactor(f) + RenderTermTail(n)
  }

  function RenderExpr(e: Expr): seq<PTok>
  {
    RenderTerm(e.head) + RenderExprTail(e.tail)
  }

  function RenderExprTail(et: ExprTail): seq<PTok>
  {
    match et
    case ENil => []
    case ECons(op, t, n) => [AddTok(op)] + RenderTerm(t) + RenderExprTail(n)
  }

  function RenderStatement(st: Statement): seq<PTok>
  {
    [Name(st.target), Eq] + RenderExpr(st.value)
  }

  function RenderStatements(ss: seq<Statement>): seq<PTok>
  {
    if ss == [] then [] else RenderStatement(ss[0]) + RenderStatements(ss[1..])
  }

  // ---- The recogniser ----

  /** `factor` at offset `p`: the tree and the offset after it. */
  function ParseFactor(ts: seq<PTok>, p: nat): (r: Option<(Factor, nat)>)
    requires p <= |ts|
    ensures r.Some? ==> p < r.value.1 <= |ts|
    decreases |ts| - p, 0
  {
    if p == |ts| then None
    else match ts[p]
      case Name(x) => Some((Var(x), p + 1))
      case Int(d) => Some((Num(d), p + 1))
      case LParen =>
        (match ParseExpr(ts, p + 1)
         case None => None
         case Some((e, q)) => if q < |ts| && ts[q] == RParen then Some((Paren(e), q + 1)) else None)
      case _ => None
  }

  /** `("*" | "/") factor` repeated as far as it goes. */
  function ParseTermTail(ts: seq<PTok>, p: nat): (r: Option<(TermTail, nat)>)
    requires p <= |ts|
    ensures r.Some? ==> p <= r.value.1 <= |ts|
    decreases |ts| - p, 0
  {
    if p < |ts| && MulOf(ts[p]).Some? then
      match ParseFactor(ts, p + 1)
      case None => None
      case Some((f, q)) =>
        match ParseTermTail(ts, q)
        case None => None
        case Some((n, q2)) => Some((TCons(MulOf(ts[p]).value, f, n), q2))
    else Some((TNil, p))
  }

  function ParseTerm(ts: seq<PTok>, p: nat): (r: Option<(Term, nat)>)
    requires p <= |ts|
    ensures r.Some? ==> p < r.value.1 <= |ts|
    decreases |ts| - p, 1
  {
    match ParseFactor(ts, p)
    case None => None
    case Some((f, q)) =>
      match ParseTermTail(ts, q)
      case None => None
      case Some((tt, q2)) => Some((Term(f, tt), q2))
  }

  /** `("+" | "-") term` repeated as far as it goes. */
  function ParseExprTail(ts: seq<PTok>, p: nat): (r: Option<(ExprTail, nat)>)
    requires p <= |ts|
    ensures r.Some? ==> p <= r.value.1 <= |ts|
    decreases |ts| - p, 0
  {
    if p < |ts| && AddOf(ts[p]).Some? then
      match ParseTerm(ts, p + 1)
      case None => None
      case Some((t, q)) =>
        match ParseExprTail(ts, q)
        case None => None
        case Some((n, q2)) => Some((ECons(AddOf(ts[p]).value, t, n), q2))
    else Some((ENil, p))
  }

  function ParseExpr(ts: seq<PTok>, p: nat): (r: Option<(Expr, nat)>)
    requires p <= |ts|
    ensures r.Some? ==> p < r.value.1 <= |ts|
    decreases |ts| - p, 2
  {
    match ParseTerm(ts, p)
    case None => None
    case Some((t, q)) =>
      match ParseExprTail(ts, q)
      case None => None
      case Some((et, q2)) => Some((Expr(t, et), q2))
  }

  function ParseStatement(ts: seq<PTok>, p: nat): (r: Option<(Statement, nat)>)
    requires p <= |ts|
    ensures r.Some? ==> p + 2 < r.value.1 <= |ts|
  {
    if p + 1 < |ts| && ts[p].Name? && ts[p + 1] == Eq then
      match ParseExpr(ts, p + 2)
      case None => None
      case Some((e, q)) => Some((Statement(ts[p].text, e), q))
    else None
  }

  /** `statement+` over `ts[p..]`, which must be consumed to the end. */
  function ParseStatements(ts: seq<PTok>, p: nat): (r: Option<seq<Statement>>)
    requires p <= |ts|
    ensures r.Some? ==> |r.value| >= 1
    decreases |ts| - p
  {
    match ParseStatement(ts, p)
    case None => None
    case Some((st, q)) =>
      if q == |ts| then Some([st])
      else
        match ParseStatements(ts, q)
        case None => None
        case Some(rest) => Some([st] + rest)
  }

  /** `start`: at least one statement, every token used. */
  function ParseProgram(ts: seq<PTok>): Option<seq<Statement>>
  {
    ParseStatements(ts, 0)
  }

  // ---- Soundness: what the recogniser returns derives exactly the tokens it read ----

  /** `r` occurs in `ts` at offset `p`. */
  predicate At(ts: seq<PTok>, p: nat, r: seq<PTok>)
  {
    p + |r| <= |ts| && forall i :: 0 <= i < |r| ==> ts[p + i] == r[i]
  }

  lemma {:induction false} FactorSound(ts: seq<PTok>, p: nat, f: Factor, q: nat)
    requires p <= |ts| && ParseFactor(ts, p) == Some((f, q))
    ensures q == p + |RenderFactor(f)| && At(ts, p, RenderFactor(f))
    decreases |ts| - p, 0
  {
    if f.Paren? {
      var q1 := ParenInv(ts, p, f, q);
      ExprSound(ts, p + 1, f.inner, q1);
      ParenJoin(f.inner, ts, p, q1);
    } else {
      SimpleFactorInv(ts, p, f, q);
      SimpleFactorJoin(f, ts, p, q);
    }
  }

  lemma ParenInv(ts: seq<PTok>, p: nat, f: Factor, q: nat) returns (q1: nat)
    requires p <= |ts| && ParseFactor(ts, p) == Some((f, q)) && f.Paren?
    ensures p < q1 < |ts| && ts[p] == LParen && ts[q1] == RParen && q == q1 + 1
    ensures ParseExpr(ts, p + 1) == Some((f.inner, q1))
  {
    q1 := ParseExpr(ts, p + 1).value.1;
  }

  lemma SimpleFactorInv(ts: seq<PTok>, p: nat, f: Factor, q: nat)
    requires p <= |ts| && ParseFactor(ts, p) == Some((f, q)) && !f.Paren?
    ensures p < |ts| && q == p + 1
    ensures (f.Var? && ts[p] == Name(f.name)) || (f.Num? && ts[p] == Int(f.digits))
  {
  }

  lemma TermTailInv(ts: seq<PTok>, p: nat, tt: TermTail, q: nat) returns (q1: nat)
    requires p <= |ts| && ParseTermTail(ts, p) == Some((tt, q)) && tt.TCons?
    ensures p < |ts| && ts[p] == MulTok(tt.mop) && p + 1 < q1 <= q
    ensures ParseFactor(ts, p + 1) == Some((tt.factor, q1)) && ParseTermTail(ts, q1) == Some((tt.next, q))
  {
    q1 := ParseFactor(ts, p + 1).value.1;
  }

  lemma TermInv(ts: seq<PTok>, p: nat, t: Term, q: nat) returns (q1: nat)
    requires p <= |ts| && ParseTerm(ts, p) == Some((t, q))
    ensures p < q1 <= q && ParseFactor(ts, p) == Some((t.head, q1)) && ParseTermTail(ts, q1) == Some((t.tail, q))
  {
    q1 := ParseFactor(ts, p).value.1;
  }

  lemma ExprTailInv(ts: seq<PTok>, p: nat, et: ExprTail, q: nat) returns (q1: nat)
    requires p <= |ts| && ParseExprTail(ts, p) == Some((et, q)) && et.ECons?
    ensures p < |ts| && ts[p] == AddTok(et.aop) && p + 1 < q1 <= q
    ensures ParseTerm(ts, p + 1) == Some((et.term, q1)) && ParseExprTail(ts, q1) == Some((et.next, q))
  {
    q1 := ParseTerm(ts, p + 1).value.1;
  }

  lemma ExprInv(ts: seq<PTok>, p: nat, e: Expr, q: nat) returns (q1: nat)
    requires p <= |ts| && ParseExpr(ts, p) == Some((e, q))
    ensures p < q1 <= q && ParseTerm(ts, p) == Some((e.head, q1)) && ParseExprTail(ts, q1) == Some((e.tail, q))
  {
    q1 := ParseTerm(ts, p).value.1;
  }

  lemma {:induction false} TermTailSound(ts: seq<PTok>, p: nat, tt: TermTail, q: nat)
    requires p <= |ts| && ParseTermTail(ts, p) == Some((tt, q))
    ensures q == p + |RenderTermTail(tt)| && At(ts, p, RenderTermTail(tt))
    decreases |ts| - p, 0
  {
    if tt.TCons? {
      var q1 := TermTailInv(ts, p, tt, q);
      FactorSound(ts, p + 1, tt.factor, q1);
      TermTailSound(ts, q1, tt.next, q);
      TermTailJoin(tt.mop, tt.factor, tt.next, ts, p, q1, q);
    } else {
      TNilInv(ts, p, tt, q);
    }
  }

  lemma TNilInv(ts: seq<PTok>, p: nat, tt: TermTail, q: nat)
    requires p <= |ts| && ParseTermTail(ts, p) == Some((tt, q)) && tt.TNil?
    ensures q == p
  {
  }

  lemma ENilInv(ts: seq<PTok>, p: nat, et: ExprTail, q: nat)
    requires p <= |ts| && ParseExprTail(ts, p) == Some((et, q)) && et.ENil?
    ensures q == p
  {
  }

  lemma {:induction false} TermSound(ts: seq<PTok>, p: nat, t: Term, q: nat)
    requires p <= |ts| && ParseTerm(ts, p) == Some((t, q))
    ensures q == p + |RenderTerm(t)| && At(ts, p, RenderTerm(t))
    decreases |ts| - p, 1
  {
    var q1 := TermInv(ts, p, t, q);
    FactorSound(ts, p, t.head, q1);
    TermTailSound(ts, q1, t.tail, q);
    TermJoin(t, ts, p, q1, q);
  }

  lemma {:induction false} ExprTailSound(ts: seq<PTok>, p: nat, et: ExprTail, q: nat)
    requires p <= |ts| && ParseExprTail(ts, p) == Some((et, q))
    ensures q == p + |RenderExprTail(et)| && At(ts, p, RenderExprTail(et))
    decreases |ts| - p, 0
  {
    if et.ECons? {
      var q1 := ExprTailInv(ts, p, et, q);
      TermSound(ts, p + 1, et.term, q1);
      ExprTailSound(ts, q1, et.next, q);
      ExprTailJoin(et.aop, et.term, et.next, ts, p, q1, q);
    } else {
      ENilInv(ts, p, et, q);
    }
  }

  lemma {:induction false} ExprSound(ts: seq<PTok>, p: nat, e: Expr, q: nat)
    requires p <= |ts| && ParseExpr(ts, p) == Some((e, q))
    ensures q == p + |RenderExpr(e)| && At(ts, p, RenderExpr(e))
    decreases |ts| - p, 2
  {
    var q1 := ExprInv(ts, p, e, q);
    TermSound(ts, p, e.head, q1);
    ExprTailSound(ts, q1, e.tail, q);
    ExprJoin(e, ts, p, q1, q);
  }

  // How the renderings of the parts, side by side, make the rendering of the whole.

  lemma ParenJoin(e: Expr, ts: seq<PTok>, p: nat, q1: nat)
    requires p < q1 < |ts| && ts[p] == LParen && ts[q1] == RParen
    requires q1 == p + 1 + |RenderExpr(e)| && At(ts, p + 1, RenderExpr(e))
    ensures q1 + 1 == p + |RenderFactor(Paren(e))| && At(ts, p, RenderFactor(Paren(e)))
  {
    AtJoin(ts, p, [LParen], RenderExpr(e));
    AtJoin(ts, p, [LParen] + RenderExpr(e), [RParen]);
  }

  lemma SimpleFactorJoin(f: Factor, ts: seq<PTok>, p: nat, q: nat)
    requires p < |ts| && q == p + 1
    requires (f.Var? && ts[p] == Name(f.name)) || (f.Num? && ts[p] == Int(f.digits))
    ensures q == p + |RenderFactor(f)| && At(ts, p, RenderFactor(f))
  {
    assert ts[p..p + 1] == [ts[p]];
  }

  lemma TermTailJoin(op: MulOp, f: Factor, n: TermTail, ts: seq<PTok>, p: nat, q1: nat, q: nat)
    requires p < |ts| && ts[p] == MulTok(op)
    requires q1 == p + 1 + |RenderFactor(f)| && At(ts, p + 1, RenderFactor(f))
    requires q == q1 + |RenderTermTail(n)| && At(ts, q1, RenderTermTail(n))
    ensures q == p + |RenderTermTail(TCons(op, f, n))| && At(ts, p, RenderTermTail(TCons(op, f, n)))
  {
    AtJoin(ts, p, [MulTok(op)], RenderFactor(f));
    AtJoin(ts, p, [MulTok(op)] + RenderFactor(f), RenderTermTail(n));
  }

  lemma TermJoin(t: Term, ts: seq<PTok>, p: nat, q1: nat, q: nat)
    requires q1 == p + |RenderFactor(t.head)| && At(ts, p, RenderFactor(t.head))
    requires q == q1 + |RenderTermTail(t.tail)| && At(ts, q1, RenderTermTail(t.tail))
    ensures q == p + |RenderTerm(t)| && At(ts, p, RenderTerm(t))
  {
    AtJoin(ts, p, RenderFactor(t.head), RenderTermTail(t.tail));
  }

  lemma ExprTailJoin(op: AddOp, t: Term, n: ExprTail, ts: seq<PTok>, p: nat, q1: nat, q: nat)
    requires p < |ts| && ts[p] == AddTok(op)
    requires q1 == p + 1 + |RenderTerm(t)| && At(ts, p + 1, RenderTerm(t))
    requires q == q1 + |RenderExprTail(n)| && At(ts, q1, RenderExprTail(n))
    ensures q == p + |RenderExprTail(ECons(op, t, n))| && At(ts, p, RenderExprTail(ECons(op, t, n)))
  {
    AtJoin(ts, p, [AddTok(op)], RenderTerm(t));
    AtJoin(ts, p, [AddTok(op)] + RenderTerm(t), RenderExprTail(n));
  }

  lemma ExprJoin(e: Expr, ts: seq<PTok>, p: nat, q1: nat, q: nat)
    requires q1 == p + |RenderTerm(e.head)| && At(ts, p, RenderTerm(e.head))
    requires q == q1 + |RenderExprTail(e.tail)| && At(ts, q1, RenderExprTail(e.tail))
    ensures q == p + |RenderExpr(e)| && At(ts, p, RenderExpr(e))
  {
    AtJoin(ts, p, RenderTerm(e.head), RenderExprTail(e.tail));
  }

  lemma StatementSound(ts: seq<PTok>, p: nat, st: Statement, q: nat)
    requires p <= |ts| && ParseStatement(ts, p) == Some((st, q))
    ensures q == p + |RenderStatement(st)| && At(ts, p, RenderStatement(st))
  {
    StatementInv(ts, p, st, q);
    ExprSound(ts, p + 2, st.value, q);
    StatementJoin(st, ts, p, q);
  }

  lemma StatementInv(ts: seq<PTok>, p: nat, st: Statement, q: nat)
    requires p <= |ts| && ParseStatement(ts, p) == Some((st, q))
    ensures p + 1 < |ts| && ts[p] == Name(st.target) && ts[p + 1] == Eq && ParseExpr(ts, p + 2) == Some((st.value, q))
  {
  }

  lemma StatementJoin(st: Statement, ts: seq<PTok>, p: nat, q: nat)
    requires p + 1 < |ts| && ts[p] == Name(st.target) && ts[p + 1] == Eq
    requires q == p + 2 + |RenderExpr(st.value)| && At(ts, p + 2, RenderExpr(st.value))
    ensures q == p + |RenderStatement(st)| && At(ts, p, RenderStatement(st))
  {
    assert ts[p..p + 2] == [Name(st.target), Eq];
    AtJoin(ts, p, [Name(st.target), Eq], RenderExpr(st.value));
  }

  lemma {:induction false} StatementsSound(ts: seq<PTok>, p: nat, ss: seq<Statement>)
    requires p <= |ts| && ParseStatements(ts, p) == Some(ss)
    ensures |ss| >= 1 && ts[p..] == RenderStatements(ss)
    decreases |ts| - p
  {
    var q := StatementsInv(ts, p, ss);
    StatementSound(ts, p, ss[0], q);
    if q < |ts| {
      StatementsSound(ts, q, ss[1..]);
    } else {
      assert ss[1..] == [];
    }
    StatementsJoin(ss, ts, p, q);
  }

  lemma StatementsInv(ts: seq<PTok>, p: nat, ss: seq<Statement>) returns (q: nat)
    requires p <= |ts| && ParseStatements(ts, p) == Some(ss)
    ensures |ss| >= 1 && p < q <= |ts| && ParseStatement(ts, p) == Some((ss[0], q))
    ensures q == |ts| ==> |ss| == 1
    ensures q < |ts| ==> ParseStatements(ts, q) == Some(ss[1..])
  {
    q := ParseStatement(ts, p).value.1;
    if q < |ts| {
      assert ss == [ss[0]] + ParseStatements(ts, q).value;
    }
  }

  lemma StatementsJoin(ss: seq<Statement>, ts: seq<PTok>, p: nat, q: nat)
    requires |ss| >= 1 && q == p + |RenderStatement(ss[0])| && At(ts, p, RenderStatement(ss[0]))
    requires q <= |ts| && ts[q..] == RenderStatements(ss[1..])
    ensures ts[p..] == RenderStatements(ss)
  {
    assert ts[p..] == ts[p..q] + ts[q..];
  }

  /** Every program the recogniser accepts is one statement or more whose rendering is the input. */
  lemma ProgramSound(ts: seq<PTok>)
    ensures ParseProgram(ts).Some? ==> |ParseProgram(ts).value| >= 1 && RenderStatements(ParseProgram(ts).value) == ts
  {
    if ParseProgram(ts).Some? {
      StatementsSound(ts, 0, ParseProgram(ts).value);
    }
  }

  // ---- Completeness: the recogniser accepts every rendering ----

  /** After an expression comes the end, `)` or the next statement: never an operator. */
  predicate ExprFollow(ts: seq<PTok>, q: nat)
  {
    q >= |ts| || (AddOf(ts[q]).None? && MulOf(ts[q]).None?)
  }

  predicate TermFollow(ts: seq<PTok>, q: nat)
  {
    q >= |ts| || MulOf(ts[q]).None?
  }

  lemma AtJoin(ts: seq<PTok>, p: nat, a: seq<PTok>, b: seq<PTok>)
    requires At(ts, p, a) && At(ts, p + |a|, b)
    ensures At(ts, p, a + b)
  {
    assert ts[p..p + |a| + |b|] == ts[p..p + |a|] + ts[p + |a|..p + |a| + |b|];
  }

  lemma AtConcat(ts: seq<PTok>, p: nat, a: seq<PTok>, b: seq<PTok>)
    requires At(ts, p, a + b)
    ensures At(ts, p, a) && At(ts, p + |a|, b)
  {
    assert ts[p..p + |a|] == (a + b)[..|a|];
    assert ts[p + |a|..p + |a| + |b|] == (a + b)[|a|..];
  }

  lemma AtConcat3(ts: seq<PTok>, p: nat, a: seq<PTok>, b: seq<PTok>, c: seq<PTok>)
    requires At(ts, p, a + b + c)
    ensures At(ts, p, a) && At(ts, p + |a|, b) && At(ts, p + |a| + |b|, c)
  {
    AtConcat(ts, p, a + b, c);
    AtConcat(ts, p, a, b);
  }

  // One unfolding of each rule, stated on its own so that the inductions stay small.

  lemma ParenStep(e: Expr, ts: seq<PTok>, p: nat, q: nat)
    requires p < q < |ts| && ts[p] == LParen && ts[q] == RParen
    requires ParseExpr(ts, p + 1) == Some((e, q))
    ensures ParseFactor(ts, p) == Some((Paren(e), q + 1))
  {
  }

  lemma TermTailStep(op: MulOp, f: Factor, next: TermTail, ts: seq<PTok>, p: nat, q: nat, q2: nat)
    requires p < q <= q2 <= |ts| && ts[p] == MulTok(op)
    requires ParseFactor(ts, p + 1) == Some((f, q)) && ParseTermTail(ts, q) == Some((next, q2))
    ensures ParseTermTail(ts, p) == Some((TCons(op, f, next), q2))
  {
  }

  lemma TermStep(t: Term, ts: seq<PTok>, p: nat, q: nat, q2: nat)
    requires p <= q <= q2 <= |ts|
    requires ParseFactor(ts, p) == Some((t.head, q)) && ParseTermTail(ts, q) == Some((t.tail, q2))
    ensures ParseTerm(ts, p) == Some((t, q2))
  {
  }

  lemma ExprTailStep(op: AddOp, t: Term, next: ExprTail, ts: seq<PTok>, p: nat, q: nat, q2: nat)
    requires p < q <= q2 <= |ts| && ts[p] == AddTok(op)
    requires ParseTerm(ts, p + 1) == Some((t, q)) && ParseExprTail(ts, q) == Some((next, q2))
    ensures ParseExprTail(ts, p) == Some((ECons(op, t, next), q2))
  {
  }

  lemma ExprStep(e: Expr, ts: seq<PTok>, p: nat, q: nat, q2: nat)
    requires p <= q <= q2 <= |ts|
    requires ParseTerm(ts, p) == Some((e.head, q)) && ParseExprTail(ts, q) == Some((e.tail, q2))
    ensures ParseExpr(ts, p) == Some((e, q2))
  {
  }

  // How a rendering splits into the renderings of its parts, with what follows each part.

  lemma ParenSplit(e: Expr, ts: seq<PTok>, p: nat)
    requires At(ts, p, RenderFactor(Paren(e)))
    ensures p + 1 + |RenderExpr(e)| < |ts| && ts[p] == LParen && ts[p + 1 + |RenderExpr(e)|] == RParen
    ensures At(ts, p + 1, RenderExpr(e)) && ExprFollow(ts, p + 1 + |RenderExpr(e)|)
    ensures |RenderFactor(Paren(e))| == |RenderExpr(e)| + 2
  {
    AtConcat3(ts, p, [LParen], RenderExpr(e), [RParen]);
    assert [LParen][0] == LParen && [RParen][0] == RParen;
  }

  lemma TermTailSplit(op: MulOp, f: Factor, next: TermTail, ts: seq<PTok>, p: nat)
    requires At(ts, p, RenderTermTail(TCons(op, f, next)))
    requires TermFollow(ts, p + |RenderTermTail(TCons(op, f, next))|)
    ensures p < |ts| && ts[p] == MulTok(op) && At(ts, p + 1, RenderFactor(f))
    ensures At(ts, p + 1 + |RenderFactor(f)|, RenderTermTail(next))
    ensures TermFollow(ts, p + 1 + |RenderFactor(f)| + |RenderTermTail(next)|)
    ensures |RenderTermTail(TCons(op, f, next))| == 1 + |RenderFactor(f)| + |RenderTermTail(next)|
  {
    AtConcat3(ts, p, [MulTok(op)], RenderFactor(f), RenderTermTail(next));
    assert ts[p] == [MulTok(op)][0];
  }

  lemma TermSplit(t: Term, ts: seq<PTok>, p: nat)
    requires At(ts, p, RenderTerm(t)) && TermFollow(ts, p + |RenderTerm(t)|)
    ensures At(ts, p, RenderFactor(t.head)) && At(ts, p + |RenderFactor(t.head)|, RenderTermTail(t.tail))
    ensures TermFollow(ts, p + |RenderFactor(t.head)| + |RenderTermTail(t.tail)|)
    ensures |RenderTerm(t)| == |RenderFactor(t.head)| + |RenderTermTail(t.tail)|
  {
    AtConcat(ts, p, RenderFactor(t.head), RenderTermTail(t.tail));
  }

  lemma ExprTailSplit(op: AddOp, t: Term, next: ExprTail, ts: seq<PTok>, p: nat)
    requires At(ts, p, RenderExprTail(ECons(op, t, next)))
    requires ExprFollow(ts, p + |RenderExprTail(ECons(op, t, next))|)
    ensures p < |ts| && ts[p] == AddTok(op) && At(ts, p + 1, RenderTerm(t))
    ensures At(ts, p + 1 + |RenderTerm(t)|, RenderExprTail(next))
    ensures ExprFollow(ts, p + 1 + |RenderTerm(t)| + |RenderExprTail(next)|)
    ensures |RenderExprTail(ECons(op, t, next))| == 1 + |RenderTerm(t)| + |RenderExprTail(next)|
  {
    AtConcat3(ts, p, [AddTok(op)], RenderTerm(t), RenderExprTail(next));
    assert ts[p] == [AddTok(op)][0];
  }

  lemma ExprSplit(e: Expr, ts: seq<PTok>, p: nat)
    requires At(ts, p, RenderExpr(e)) && ExprFollow(ts, p + |RenderExpr(e)|)
    ensures At(ts, p, RenderTerm(e.head)) && At(ts, p + |RenderTerm(e.head)|, RenderExprTail(e.tail))
    ensures TermFollow(ts, p + |RenderTerm(e.head)|)
    ensures ExprFollow(ts, p + |RenderTerm(e.head)| + |RenderExprTail(e.tail)|)
    ensures |RenderExpr(e)| == |RenderTerm(e.head)| + |RenderExprTail(e.tail)|
  {
    AtConcat(ts, p, RenderTerm(e.head), RenderExprTail(e.tail));
    ExprTailStarts(e.tail, ts, p + |RenderTerm(e.head)|);
  }

  lemma {:induction false} FactorComplete(f: Factor, ts: seq<PTok>, p: nat)
    requires At(ts, p, RenderFactor(f))
    ensures ParseFactor(ts, p) == Some((f, p + |RenderFactor(f)|))
    decreases f, 0
  {
    match f
    case Var(x) =>
      assert ts[p] == RenderFactor(f)[0];
    case Num(d) =>
      assert ts[p] == RenderFactor(f)[0];
    case Paren(e) =>
      ParenSplit(e, ts, p);
      ExprComplete(e, ts, p + 1);
      ParenStep(e, ts, p, p + 1 + |RenderExpr(e)|);
  }

  lemma {:induction false} TermTailComplete(tt: TermTail, ts: seq<PTok>, p: nat)
    requires At(ts, p, RenderTermTail(tt))
    requires TermFollow(ts, p + |RenderTermTail(tt)|)
    ensures ParseTermTail(ts, p) == Some((tt, p + |RenderTermTail(tt)|))
    decreases tt, 0
  {
    match tt
    case TNil =>
    case TCons(op, f, next) =>
      var q := p + 1 + |RenderFactor(f)|;
      var q2 := q + |RenderTermTail(next)|;
      TermTailSplit(op, f, next, ts, p);
      FactorComplete(f, ts, p + 1);
      TermTailComplete(next, ts, q);
      TermTailStep(op, f, next, ts, p, q, q2);
  }

  lemma {:induction false} TermComplete(t: Term, ts: seq<PTok>, p: nat)
    requires At(ts, p, RenderTerm(t))
    requires TermFollow(ts, p + |RenderTerm(t)|)
    ensures ParseTerm(ts, p) == Some((t, p + |RenderTerm(t)|))
    decreases t, 1
  {
    var q := p + |RenderFactor(t.head)|;
    var q2 := q + |RenderTermTail(t.tail)|;
    TermSplit(t, ts, p);
    FactorComplete(t.head, ts, p);
    TermTailComplete(t.tail, ts, q);
    TermStep(t, ts, p, q, q2);
  }

  /** What follows a term inside an expression is `+`, `-` or what follows the expression. */
  lemma ExprTailStarts(et: ExprTail, ts: seq<PTok>, p: nat)
    requires At(ts, p, RenderExprTail(et))
    requires ExprFollow(ts, p + |RenderExprTail(et)|)
    ensures TermFollow(ts, p)
  {
    if et.ECons? {
      assert ts[p] == RenderExprTail(et)[0];
    }
  }

  lemma {:induction false} ExprTailComplete(et: ExprTail, ts: seq<PTok>, p: nat)
    requires At(ts, p, RenderExprTail(et))
    requires ExprFollow(ts, p + |RenderExprTail(et)|)
    ensures ParseExprTail(ts, p) == Some((et, p + |RenderExprTail(et)|))
    decreases et, 0
  {
    match et
    case ENil =>
    case ECons(op, t, next) =>
      var q := p + 1 + |RenderTerm(t)|;
      var q2 := q + |RenderExprTail(next)|;
      ExprTailSplit(op, t, next, ts, p);
      ExprTailStarts(next, ts, q);
      TermComplete(t, ts, p + 1);
      ExprTailComplete(next, ts, q);
      ExprTailStep(op, t, next, ts, p, q, q2);
  }

  lemma {:induction false} ExprComplete(e: Expr, ts: seq<PTok>, p: nat)
    requires At(ts, p, RenderExpr(e))
    requires ExprFollow(ts, p + |RenderExpr(e)|)
    ensures ParseExpr(ts, p) == Some((e, p + |RenderExpr(e)|))
    decreases e, 1
  {
    var q := p + |RenderTerm(e.head)|;
    var q2 := q + |RenderExprTail(e.tail)|;
    ExprSplit(e, ts, p);
    TermComplete(e.head, ts, p);
    ExprTailComplete(e.tail, ts, q);
    ExprStep(e, ts, p, q, q2);
  }

  lemma StatementComplete(st: Statement, ts: seq<PTok>, p: nat)
    requires At(ts, p, RenderStatement(st))
    requires ExprFollow(ts, p + |RenderStatement(st)|)
    ensures ParseStatement(ts, p) == Some((st, p + |RenderStatement(st)|))
  {
    StatementSplit(st, ts, p);
    ExprComplete(st.value, ts, p + 2);
    StatementStep(st, ts, p, p + |RenderStatement(st)|);
  }

  lemma StatementSplit(st: Statement, ts: seq<PTok>, p: nat)
    requires At(ts, p, RenderStatement(st))
    requires ExprFollow(ts, p + |RenderStatement(st)|)
    ensures p + 1 < |ts| && ts[p] == Name(st.target) && ts[p + 1] == Eq
    ensures |RenderStatement(st)| == 2 + |RenderExpr(st.value)| && At(ts, p + 2, RenderExpr(st.value))
    ensures ExprFollow(ts, p + 2 + |RenderExpr(st.value)|)
  {
    AtConcat(ts, p, [Name(st.target), Eq], RenderExpr(st.value));
    assert ts[p] == [Name(st.target), Eq][0] && ts[p + 1] == [Name(st.target), Eq][1];
  }

  lemma StatementStep(st: Statement, ts: seq<PTok>, p: nat, q: nat)
    requires p + 1 < |ts| && ts[p] == Name(st.target) && ts[p + 1] == Eq
    requires ParseExpr(ts, p + 2) == Some((st.value, q))
    ensures ParseStatement(ts, p) == Some((st, q))
  {
  }

  lemma {:induction false} StatementsComplete(ss: seq<Statement>, ts: seq<PTok>, p: nat)
    requires |ss| >= 1 && p <= |ts| && ts[p..] == RenderStatements(ss)
    ensures ParseStatements(ts, p) == Some(ss)
    decreases ss
  {
    var q := p + |RenderStatement(ss[0])|;
    StatementsSplit(ss, ts, p);
    StatementComplete(ss[0], ts, p);
    if |ss| == 1 {
      StatementsStep(ts, p, ss[0], q, None);
      assert ss == [ss[0]];
    } else {
      StatementsComplete(ss[1..], ts, q);
      StatementsStep(ts, p, ss[0], q, Some(ss[1..]));
      assert [ss[0]] + ss[1..] == ss;
    }
  }

  lemma StatementsSplit(ss: seq<Statement>, ts: seq<PTok>, p: nat)
    requires |ss| >= 1 && p <= |ts| && ts[p..] == RenderStatements(ss)
    ensures At(ts, p, RenderStatement(ss[0]))
    ensures var q := p + |RenderStatement(ss[0])|;
      q <= |ts| && ts[q..] == RenderStatements(ss[1..]) && ExprFollow(ts, q) && (q == |ts| <==> |ss| == 1)
  {
    var head := RenderStatement(ss[0]);
    var q := p + |head|;
    assert ts[p..] == head + RenderStatements(ss[1..]);
    assert ts[p..q] == ts[p..][..|head|];
    assert ts[q..] == ts[p..][|head|..];
    StatementsStart(ss[1..], ts, q);
  }

  /** A rendering of statements is empty exactly when there are none, and starts with a name otherwise. */
  lemma StatementsStart(ss: seq<Statement>, ts: seq<PTok>, q: nat)
    requires q <= |ts| && ts[q..] == RenderStatements(ss)
    ensures ExprFollow(ts, q) && (q == |ts| <==> ss == [])
  {
    if ss != [] {
      assert ts[q] == ts[q..][0];
    }
  }

  lemma StatementsStep(ts: seq<PTok>, p: nat, st: Statement, q: nat, rest: Option<seq<Statement>>)
    requires p < q <= |ts| && ParseStatement(ts, p) == Some((st, q))
    requires q == |ts| <==> rest.None?
    requires q < |ts| ==> ParseStatements(ts, q) == rest
    ensures ParseStatements(ts, p) == if rest.None? then Some([st]) else Some([st] + rest.value)
  {
  }

  /** Every rendering of one statement or more is accepted, and parsed back to the same trees. */
  lemma ProgramComplete(ss: seq<Statement>)
    requires |ss| >= 1
    ensures ParseProgram(RenderStatements(ss)) == Some(ss)
  {
    StatementsComplete(ss, RenderStatements(ss), 0);
  }

  /** The recogniser accepts exactly the renderings of one or more iterated statement trees. */
  lemma AcceptsTheLanguage(ts: seq<PTok>)
    ensures ParseProgram(ts).Some? <==> exists ss :: |ss| >= 1 && RenderStatements(ss) == ts
  {
    ProgramSound(ts);
    if exists ss :: |ss| >= 1 && RenderStatements(ss) == ts {
      var ss :| |ss| >= 1 && RenderStatements(ss) == ts;
      ProgramComplete(ss);
    }
  }

  // ---- One line through Lark ----

  /** A child of the root: a `statement` subtree, or a token kept as a string. */
  datatype Child = StatementNode(statement: Statement) | TokenLeaf(text: string)

  /** The tree `parser.parse(line)` returns, reduced to the root's children. */
  datatype ParseTree = Tree(children: seq<Child>)

  /** `parser.parse(line)`: None where Lark raises `UnexpectedInput` (lexing or parsing). */
  function ParseLine(line: string): (r: Option<ParseTree>)
    ensures r.Some? ==> |r.value.children| >= 1 && forall i :: 0 <= i < |r.value.children| ==> r.value.children[i].StatementNode?
  {
    match LexLine(line)
    case None => None
    case Some(ts) =>
      match ParseProgram(ts)
      case None => None
      case Some(ss) => Some(Tree(seq(|ss|, i requires 0 <= i < |ss| => StatementNode(ss[i]))))
  }

  /** A line is accepted exactly when it lexes and its tokens are one statement or more. */
  lemma ParseLineAccepts(line: string)
    ensures ParseLine(line).Some? <==>
      (forall k :: 0 <= k < |line| ==> !IsStray(line[k])) &&
      exists ss :: |ss| >= 1 && Some(RenderStatements(ss)) == LexLine(line)
  {
    LexFails(line, 0);
    if LexLine(line).Some? {
      AcceptsTheLanguage(LexLine(line).value);
    }
  }

  /** Where lexing starts: the first terminal after the WS, where it ends, and the rest of the line. */
  lemma LexHead(s: string, i: nat) returns (j: nat, k: nat)
    requires i <= |s| && LexFrom(s, i).Some? && |LexFrom(s, i).value| > 0
    ensures j == SkipSpace(s, i) && j < |s| && !IsLarkSpace(s[j])
    ensures TokenAt(s, j) == Some((LexFrom(s, i).value[0], k))
    ensures k <= |s| && LexFrom(s, k) == Some(LexFrom(s, i).value[1..])
  {
    j := SkipSpace(s, i);
    var t;
    t, k := TokenAt(s, j).value.0, TokenAt(s, j).value.1;
    var rest := LexFrom(s, k).value;
    assert ([t] + rest)[1..] == rest;
  }

  lemma SliceThree(s: string, a: nat, b: nat, c: nat)
    requires a <= b <= c <= |s|
    ensures s[..c] == s[..a] + s[a..b] + s[b..c]
  {
  }

  lemma LarkSpaceIsSpace(w: string)
    requires forall k :: 0 <= k < |w| ==> IsLarkSpace(w[k])
    ensures AllSpace(w) && '=' !in w
  {
    assert forall k :: 0 <= k < |w| ==> IsSpace(w[k]);
  }

  /**
   * On a line that parses, `line.split("=")[0].strip()` is the target of the
   * first statement: what analizar_codigo records as the declared variable.
   */
  lemma ParsedLineTarget(line: string)
    requires ParseLine(line).Some?
    ensures '=' in line
    ensures Strip(BeforeFirst(line, '=')) == ParseLine(line).value.children[0].statement.target
  {
    var ts := LexLine(line).value;
    var ss := ParseProgram(ts).value;
    ProgramSound(ts);
    var x := ss[0].target;
    assert RenderStatements(ss) == [Name(x), Eq] + RenderExpr(ss[0].value) + RenderStatements(ss[1..]);
    AssignmentPrefix(line, x);
  }

  /** A line whose terminals start with a CNAME and `=`: the text before its first `=` is that name padded by WS. */
  lemma AssignmentPrefix(line: string, x: string)
    requires LexLine(line).Some? && |LexLine(line).value| >= 2
    requires LexLine(line).value[0] == Name(x) && LexLine(line).value[1] == Eq
    ensures '=' in line && Strip(BeforeFirst(line, '=')) == x
  {
    var a, b := LexHead(line, 0);
    var c, d := LexHead(line, b);
    AssignmentTokens(line, a, b, c, d, x);
  }

  lemma AssignmentTokens(line: string, a: nat, b: nat, c: nat, d: nat, x: string)
    requires a == SkipSpace(line, 0) && a < |line| && !IsLarkSpace(line[a]) && TokenAt(line, a) == Some((Name(x), b))
    requires b <= |line| && c == SkipSpace(line, b) && c < |line| && !IsLarkSpace(line[c]) && TokenAt(line, c) == Some((Eq, d))
    ensures '=' in line && Strip(BeforeFirst(line, '=')) == x
  {
    TokenAtFacts(line, a);
    TokenAtFacts(line, c);
    PaddedAssignment(line, a, b, c, x);
  }

  lemma PaddedAssignment(line: string, a: nat, b: nat, c: nat, x: string)
    requires a <= b <= c < |line| && line[a..b] == x && IsCName(x)
    requires forall k :: 0 <= k < a ==> IsLarkSpace(line[k])
    requires forall k :: b <= k < c ==> IsLarkSpace(line[k])
    requires line[c..c + 1] == "="
    ensures '=' in line && Strip(BeforeFirst(line, '=')) == x
  {
    assert line[c] == '=';
    var w1 := line[..a];
    var w2 := line[b..c];
    SliceThree(line, a, b, c);
    LarkSpaceIsSpace(w1);
    LarkSpaceIsSpace(w2);
    assert '=' !in x;
    BeforeFirstAt(line, '=', c);
    StripPadded(w1, x, w2);
  }
}
