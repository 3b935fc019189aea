/**
 * The grammar of sintactico.py in the shape it is written, with the
 * left-recursive rules
 *
 *   expression: term | expression "+" term | expression "-" term
 *   term: factor | term "*" factor | term "/" factor
 *
 * and the proof that these rules derive exactly the token sequences the
 * iterated trees of `Grammar` render, so that the recursive-descent
 * recogniser accepts exactly the language of the grammar as written.
 */
module GrammarRules {
  import opened Grammar

  /** Derivation trees of the grammar's own rules. */
  datatype LFactor = LVar(name: string) | LNum(digits: string) | LGroup(inner: LExpr)
  datatype LTerm = LFactorTerm(factor: LFactor) | LMulTerm(left: LTerm, mop: MulOp, right: LFactor)
  datatype LExpr = LTermExpr(term: LTerm) | LAddExpr(left: LExpr, aop: AddOp, right: LTerm)
  datatype LStatement = LStatement(target: string, value: LExpr)

  /** The terminals a derivation tree yields. */
  function RenderLFactor(f: LFactor): seq<PTok>
  {
    match f
    case LVar(x) => [Name(x)]
    case LNum(d) => [Int(d)]
    case LGroup(e) => [LParen] + RenderLExpr(e) + [RParen]
  }

  function RenderLTerm(t: LTerm): seq<PTok>
  {
    match t
    case LFactorTerm(f) => RenderLFactor(f)
    case LMulTerm(l, op, r) => RenderLTerm(l) + [MulTok(op)] + RenderLFactor(r)
  }

  function RenderLExpr(e: LExpr): seq<PTok>
  {
    match e
    case LTermExpr(t) => RenderLTerm(t)
    case LAddExpr(l, op, r) => RenderLExpr(l) + [AddTok(op)] + RenderLTerm(r)
  }

  function RenderLStatement(st: LStatement): seq<PTok>
  {
    [Name(st.target), Eq] + RenderLExpr(st.value)
  }

  /** `start: statement+`: the statements' terminals one after the other. */
  function RenderLStatements(ss: seq<LStatement>): seq<PTok>
  {
    if ss == [] then [] else RenderLStatement(ss[0]) + RenderLStatements(ss[1..])
  }

  // ---- From the iterated trees to the rules: the repetition folded to the left ----

  function FactorToRules(f: Factor): LFactor
    decreases f
  {
    match f
    case Var(x) => LVar(x)
    case Num(d) => LNum(d)
    case Paren(e) => LGroup(ExprToRules(e))
  }

  function TermToRules(t: Term): LTerm
    decreases t
  {
    TermTailToRules(LFactorTerm(FactorToRules(t.head)), t.tail)
  }

  /** `acc` followed by the factors of `tt`, each one more `term "*" factor` step. */
  function TermTailToRules(acc: LTerm, tt: TermTail): LTerm
    decreases tt
  {
    match tt
    case TNil => acc
    case TCons(op, f, n) => TermTailToRules(LMulTerm(acc, op, FactorToRules(f)), n)
  }

  function ExprToRules(e: Expr): LExpr
    decreases e
  {
    ExprTailToRules(LTermExpr(TermToRules(e.head)), e.tail)
  }

  function ExprTailToRules(acc: LExpr, et: ExprTail): LExpr
    decreases et
  {
    match et
    case ENil => acc
    case ECons(op, t, n) => ExprTailToRules(LAddExpr(acc, op, TermToRules(t)), n)
  }

  function StatementsToRules(ss: seq<Statement>): (ls: seq<LStatement>)
    ensures |ls| == |ss|
  {
    if ss == [] then []
    else [LStatement(ss[0].target, ExprToRules(ss[0].value))] + StatementsToRules(ss[1..])
  }

  // ---- From the rules to the iterated trees: one more step appended to the repetition ----

  function SnocTermTail(tt: TermTail, op: MulOp, f: Factor): TermTail
  {
    match tt
    case TNil => TCons(op, f, TNil)
    case TCons(o, g, n) => TCons(o, g, SnocTermTail(n, op, f))
  }

  function SnocExprTail(et: ExprTail, op: AddOp, t: Term): ExprTail
  {
    match et
    case ENil => ECons(op, t, ENil)
    case ECons(o, u, n) => ECons(o, u, SnocExprTail(n, op, t))
  }

  function FactorFromRules(f: LFactor): Factor
  {
    match f
    case LVar(x) => Var(x)
    case LNum(d) => Num(d)
    case LGroup(e) => Paren(ExprFromRules(e))
  }

  function TermFromRules(t: LTerm): Term
  {
    match t
    case LFactorTerm(f) => Term(FactorFromRules(f), TNil)
    case LMulTerm(l, op, r) =>
      var left := TermFromRules(l);
      Term(left.head, SnocTermTail(left.tail, op, FactorFromRules(r)))
  }

  function ExprFromRules(e: LExpr): Expr
  {
    match e
    case LTermExpr(t) => Expr(TermFromRules(t), ENil)
    case LAddExpr(l, op, r) =>
      var left := ExprFromRules(l);
      Expr(left.head, SnocExprTail(left.tail, op, TermFromRules(r)))
  }

  function StatementsFromRules(ls: seq<LStatement>): (ss: seq<Statement>)
    ensures |ss| == |ls|
  {
    if ls == [] then []
    else [Statement(ls[0].target, ExprFromRules(ls[0].value))] + StatementsFromRules(ls[1..])
  }

  // ---- Both conversions keep the terminals ----

  lemma {:induction false} FactorToRulesRenders(f: Factor)
    ensures RenderLFactor(FactorToRules(f)) == RenderFactor(f)
    decreases f, 0
  {
    if f.Paren? {
      ExprToRulesRenders(f.inner);
    }
  }

  lemma {:induction false} TermTailToRulesRenders(acc: LTerm, tt: TermTail)
    ensures RenderLTerm(TermTailToRules(acc, tt)) == RenderLTerm(acc) + RenderTermTail(tt)
    decreases tt, 0
  {
    match tt
    case TNil =>
      assert RenderLTerm(acc) + [] == RenderLTerm(acc);
    case TCons(op, f, n) =>
      var step := LMulTerm(acc, op, FactorToRules(f));
      TermTailToRulesRenders(step, n);
      FactorToRulesRenders(f);
      Assoc4(RenderLTerm(acc), [MulTok(op)], RenderFactor(f), RenderTermTail(n));
  }

  lemma {:induction false} TermToRulesRenders(t: Term)
    ensures RenderLTerm(TermToRules(t)) == RenderTerm(t)
    decreases t, 1
  {
    TermTailToRulesRenders(LFactorTerm(FactorToRules(t.head)), t.tail);
    FactorToRulesRenders(t.head);
  }

  lemma {:induction false} ExprTailToRulesRenders(acc: LExpr, et: ExprTail)
    ensures RenderLExpr(ExprTailToRules(acc, et)) == RenderLExpr(acc) + RenderExprTail(et)
    decreases et, 0
  {
    match et
    case ENil =>
      assert RenderLExpr(acc) + [] == RenderLExpr(acc);
    case ECons(op, t, n) =>
      var step := LAddExpr(acc, op, TermToRules(t));
      ExprTailToRulesRenders(step, n);
      TermToRulesRenders(t);
      Assoc4(RenderLExpr(acc), [AddTok(op)], RenderTerm(t), RenderExprTail(n));
  }

  lemma {:induction false} ExprToRulesRenders(e: Expr)
    ensures RenderLExpr(ExprToRules(e)) == RenderExpr(e)
    decreases e, 1
  {
    ExprTailToRulesRenders(LTermExpr(TermToRules(e.head)), e.tail);
    TermToRulesRenders(e.head);
  }

  lemma {:induction false} SnocTermTailRenders(tt: TermTail, op: MulOp, f: Factor)
    ensures RenderTermTail(SnocTermTail(tt, op, f)) == RenderTermTail(tt) + [MulTok(op)] + RenderFactor(f)
  {
    match tt
    case TNil =>
      assert RenderTermTail(TNil) == [];
    case TCons(o, g, n) =>
      SnocTermTailRenders(n, op, f);
      Assoc5([MulTok(o)], RenderFactor(g), RenderTermTail(n), [MulTok(op)], RenderFactor(f));
  }

  lemma {:induction false} SnocExprTailRenders(et: ExprTail, op: AddOp, t: Term)
    ensures RenderExprTail(SnocExprTail(et, op, t)) == RenderExprTail(et) + [AddTok(op)] + RenderTerm(t)
  {
    match et
    case ENil =>
      assert RenderExprTail(ENil) == [];
    case ECons(o, u, n) =>
      SnocExprTailRenders(n, op, t);
      Assoc5([AddTok(o)], RenderTerm(u), RenderExprTail(n), [AddTok(op)], RenderTerm(t));
  }

  lemma {:induction false} FactorFromRulesRenders(f: LFactor)
    ensures RenderFactor(FactorFromRules(f)) == RenderLFactor(f)
  {
    if f.LGroup? {
      ExprFromRulesRenders(f.inner);
    }
  }

  lemma {:induction false} TermFromRulesRenders(t: LTerm)
    ensures RenderTerm(TermFromRules(t)) == RenderLTerm(t)
  {
    match t
    case LFactorTerm(f) =>
      FactorFromRulesRenders(f);
      assert RenderTermTail(TNil) == [];
      assert RenderFactor(FactorFromRules(f)) + [] == RenderFactor(FactorFromRules(f));
    case LMulTerm(l, op, r) =>
      var left := TermFromRules(l);
      TermFromRulesRenders(l);
      FactorFromRulesRenders(r);
      SnocTermTailRenders(left.tail, op, FactorFromRules(r));
      Assoc4(RenderFactor(left.head), RenderTermTail(left.tail), [MulTok(op)], RenderFactor(FactorFromRules(r)));
  }

  lemma {:induction false} ExprFromRulesRenders(e: LExpr)
    ensures RenderExpr(ExprFromRules(e)) == RenderLExpr(e)
  {
    match e
    case LTermExpr(t) =>
      TermFromRulesRenders(t);
      assert RenderExprTail(ENil) == [];
      assert RenderTerm(TermFromRules(t)) + [] == RenderTerm(TermFromRules(t));
    case LAddExpr(l, op, r) =>
      var left := ExprFromRules(l);
      ExprFromRulesRenders(l);
      TermFromRulesRenders(r);
      SnocExprTailRenders(left.tail, op, TermFromRules(r));
      Assoc4(RenderTerm(left.head), RenderExprTail(left.tail), [AddTok(op)], RenderTerm(TermFromRules(r)));
  }

  lemma {:induction false} StatementsToRulesRenders(ss: seq<Statement>)
    ensures RenderLStatements(StatementsToRules(ss)) == RenderStatements(ss)
  {
    if ss != [] {
      StatementsToRulesRenders(ss[1..]);
      ExprToRulesRenders(ss[0].value);
    }
  }

  lemma {:induction false} StatementsFromRulesRenders(ls: seq<LStatement>)
    ensures RenderStatements(StatementsFromRules(ls)) == RenderLStatements(ls)
  {
    if ls != [] {
      StatementsFromRulesRenders(ls[1..]);
      ExprFromRulesRenders(ls[0].value);
    }
  }

  lemma Assoc4(a: seq<PTok>, b: seq<PTok>, c: seq<PTok>, d: seq<PTok>)
    ensures a + b + c + d == a + (b + c + d)
  {
  }

  lemma Assoc5(a: seq<PTok>, b: seq<PTok>, c: seq<PTok>, d: seq<PTok>, e: seq<PTok>)
    ensures a + b + (c + d + e) == a + b + c + d + e
  {
  }

  // ---- The language ----

  /** The left-recursive rules and the iterated trees derive the same token sequences. */
  lemma SameLanguage(ts: seq<PTok>)
    ensures (exists ss: seq<Statement> :: |ss| >= 1 && RenderStatements(ss) == ts) <==>
            (exists ls: seq<LStatement> :: |ls| >= 1 && RenderLStatements(ls) == ts)
  {
    if exists ss: seq<Statement> :: |ss| >= 1 && RenderStatements(ss) == ts {
      var ss: seq<Statement> :| |ss| >= 1 && RenderStatements(ss) == ts;
      StatementsToRulesRenders(ss);
      assert |StatementsToRules(ss)| >= 1;
    }
    if exists ls: seq<LStatement> :: |ls| >= 1 && RenderLStatements(ls) == ts {
      var ls: seq<LStatement> :| |ls| >= 1 && RenderLStatements(ls) == ts;
      StatementsFromRulesRenders(ls);
      assert |StatementsFromRules(ls)| >= 1;
    }
  }

  /** The recogniser accepts a token sequence exactly when the grammar, as written, derives it from `start`. */
  lemma AcceptsTheGrammar(ts: seq<PTok>)
    ensures ParseProgram(ts).Some? <==> exists ls: seq<LStatement> :: |ls| >= 1 && RenderLStatements(ls) == ts
  {
    AcceptsTheLanguage(ts);
    SameLanguage(ts);
  }

  /** A line is accepted exactly when it lexes and its terminals are derived by the grammar as written. */
  lemma LineAcceptsTheGrammar(line: string)
    ensures ParseLine(line).Some? <==>
      LexLine(line).Some? && exists ls: seq<LStatement> :: |ls| >= 1 && RenderLStatements(ls) == LexLine(line).value
  {
    if LexLine(line).Some? {
      AcceptsTheGrammar(LexLine(line).value);
    }
  }
}
