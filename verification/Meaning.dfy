/** What expressions mean (crates/netsnmp-agent/src/disman/expr.rs), said of token
    lists and of the four operators by name: `*` and `/` bind tighter than `+` and
    `-`, all four associate to the left, signs bind tightest. */
module Meanings {
  import opened Values
  import opened Outcomes
  import opened Expressions

  // ----- The grammar, operator by operator -----

  predicate Factor<F>(t: Tree<F>)
    decreases t, 0
  {
    match t
    case Num(_) => true
    case Ref(_) => true
    case Paren(e) => Sum(e)
    case Neg(f) => Factor(f)
    case Pos(f) => Factor(f)
    case Bin(_, _, _) => false
  }

  /** Factors joined by `*` and `/`. */
  predicate Term<F>(t: Tree<F>)
    decreases t, 1
  {
    Factor(t) || (t.Bin? && (t.op == Times || t.op == Over) && Term(t.left) && Factor(t.right))
  }

  /** Terms joined by `+` and `-`. */
  predicate Sum<F>(t: Tree<F>)
    decreases t, 2
  {
    Term(t) || (t.Bin? && (t.op == Plus || t.op == Minus) && Sum(t.left) && Term(t.right))
  }

  lemma {:induction false} SumIsExpr<F>(t: Tree<F>)
    ensures Factor(t) <==> IsFactor(t)
    ensures Term(t) <==> IsTerm(t)
    ensures Sum(t) <==> IsExpr(t)
    decreases t
  {
    match t
    case Num(_) =>
    case Ref(_) =>
    case Paren(e) => SumIsExpr(e);
    case Neg(f) => SumIsExpr(f);
    case Pos(f) => SumIsExpr(f);
    case Bin(_, l, r) =>
      SumIsExpr(l);
      SumIsExpr(r);
  }

  // ----- Operators -----

  /** An operation on two results: the left error first. */
  function Both<F>(l: Result<F>, r: Result<F>, op: (F, F) -> F): Result<F> {
    if l.Err? then l else if r.Err? then r else Ok(op(l.value, r.value))
  }

  /** The divisor is looked at when both operands are there. */
  function Quotient<F>(env: Env<F>, l: Result<F>, r: Result<F>): Result<F> {
    if l.Ok? && r.Ok? && env.isZero(r.value) then Err(DivisionByZero) else Both(l, r, env.div)
  }

  lemma {:induction false} BinMeans<F>(env: Env<F>, op: Operator, l: Tree<F>, r: Tree<F>)
    requires IsExpr(Bin(op, l, r)) && IsExpr(l) && IsExpr(r)
    ensures Evaluate(env, Yield(l) + [Op(op)] + Yield(r))
         == Combined(env, op, Evaluate(env, Yield(l)), Evaluate(env, Yield(r)))
  {
    EvaluatesTrees(env, Bin(op, l, r));
    EvaluatesTrees(env, l);
    EvaluatesTrees(env, r);
    EvalBin(env, Bin(op, l, r));
  }

  /** A sum and a term: the terms are worked out first, and the sum from the
      left. */
  lemma {:induction false} SumMeans<F>(env: Env<F>, l: Tree<F>, r: Tree<F>)
    requires Sum(l) && Term(r)
    ensures Evaluate(env, Yield(l) + [Op(Plus)] + Yield(r)) == Both(Evaluate(env, Yield(l)), Evaluate(env, Yield(r)), env.add)
    ensures Evaluate(env, Yield(l) + [Op(Minus)] + Yield(r)) == Both(Evaluate(env, Yield(l)), Evaluate(env, Yield(r)), env.sub)
  {
    SumIsExpr(l);
    SumIsExpr(r);
    BinMeans(env, Plus, l, r);
    BinMeans(env, Minus, l, r);
  }

  /** A term and a factor. */
  lemma {:induction false} TermMeans<F>(env: Env<F>, l: Tree<F>, r: Tree<F>)
    requires Term(l) && Factor(r)
    ensures Evaluate(env, Yield(l) + [Op(Times)] + Yield(r)) == Both(Evaluate(env, Yield(l)), Evaluate(env, Yield(r)), env.mul)
    ensures Evaluate(env, Yield(l) + [Op(Over)] + Yield(r)) == Quotient(env, Evaluate(env, Yield(l)), Evaluate(env, Yield(r)))
  {
    SumIsExpr(l);
    SumIsExpr(r);
    BinMeans(env, Times, l, r);
    BinMeans(env, Over, l, r);
  }

  /** A sign in front of a factor. */
  lemma {:induction false} SignMeans<F>(env: Env<F>, f: Tree<F>)
    requires Factor(f)
    ensures Evaluate(env, [Op(Plus)] + Yield(f)) == Evaluate(env, Yield(f))
    ensures Evaluate(env, [Op(Minus)] + Yield(f))
         == if Evaluate(env, Yield(f)).Err? then Evaluate(env, Yield(f)) else Ok(env.neg(Evaluate(env, Yield(f)).value))
  {
    SumIsExpr(f);
    EvaluatesTrees(env, f);
    EvaluatesTrees(env, Neg(f));
    EvaluatesTrees(env, Pos(f));
  }

  /** Parentheses, numbers and references. */
  lemma {:induction false} AtomMeans<F>(env: Env<F>, e: Tree<F>, n: F, name: string)
    requires Sum(e)
    ensures Evaluate(env, [LParen] + Yield(e) + [RParen]) == Evaluate(env, Yield(e))
    ensures Evaluate(env, [Number(n)]) == Ok(n)
    ensures Evaluate(env, [Reference(name)])
         == if env.lookup(name).None? then Err(UnresolvedReference(name)) else Ok(env.lookup(name).value)
  {
    SumIsExpr(e);
    EvaluatesTrees(env, e);
    EvaluatesTrees(env, Paren(e));
    EvaluatesTrees(env, Num(n));
    EvaluatesTrees(env, Ref(name));
  }

  // ----- Three numbers -----

  function Three<F>(a: F, p: Operator, b: F, q: Operator, c: F): seq<Token<F>> {
    [Number(a), Op(p), Number(b), Op(q), Number(c)]
  }

  lemma {:induction false} ThreeIsYield<F>(env: Env<F>, a: F, p: Operator, b: F, q: Operator, c: F)
    ensures Three(a, p, b, q, c) == Yield(Num(a)) + [Op(p)] + Yield(Bin(q, Num(b), Num(c)))
    ensures Three(a, p, b, q, c) == Yield(Bin(p, Num(a), Num(b))) + [Op(q)] + Yield(Num(c))
    ensures Evaluate(env, Yield(Num(a))) == Ok(a) && Evaluate(env, Yield(Num(b))) == Ok(b) && Evaluate(env, Yield(Num(c))) == Ok(c)
  {
    NumberMeans(env, a);
    NumberMeans(env, b);
    NumberMeans(env, c);
  }

  lemma {:induction false} NumberMeans<F>(env: Env<F>, n: F)
    ensures Evaluate(env, Yield(Num(n))) == Ok(n)
  {
    EvaluatesTrees(env, Num(n));
  }

  /** `*` and `/` before `+` and `-`, on either side. */
  lemma {:induction false} Precedence<F>(env: Env<F>, a: F, b: F, c: F)
    ensures Evaluate(env, Three(a, Plus, b, Times, c)) == Ok(env.add(a, env.mul(b, c)))
    ensures Evaluate(env, Three(a, Minus, b, Times, c)) == Ok(env.sub(a, env.mul(b, c)))
    ensures Evaluate(env, Three(a, Times, b, Plus, c)) == Ok(env.add(env.mul(a, b), c))
    ensures Evaluate(env, Three(a, Times, b, Minus, c)) == Ok(env.sub(env.mul(a, b), c))
    ensures Evaluate(env, Three(a, Plus, b, Over, c))
         == if env.isZero(c) then Err(DivisionByZero) else Ok(env.add(a, env.div(b, c)))
    ensures Evaluate(env, Three(a, Minus, b, Over, c))
         == if env.isZero(c) then Err(DivisionByZero) else Ok(env.sub(a, env.div(b, c)))
    ensures Evaluate(env, Three(a, Over, b, Plus, c))
         == if env.isZero(b) then Err(DivisionByZero) else Ok(env.add(env.div(a, b), c))
    ensures Evaluate(env, Three(a, Over, b, Minus, c))
         == if env.isZero(b) then Err(DivisionByZero) else Ok(env.sub(env.div(a, b), c))
  {
    TermBehind(env, a, Times, b, c);
    TermBehind(env, a, Over, b, c);
    TermBefore(env, a, Times, b, c);
    TermBefore(env, a, Over, b, c);
  }

  lemma {:induction false} TermBehind<F>(env: Env<F>, a: F, q: Operator, b: F, c: F)
    requires q == Times || q == Over
    ensures var r := if q == Times then Ok(env.mul(b, c)) else if env.isZero(c) then Err(DivisionByZero) else Ok(env.div(b, c));
      && Evaluate(env, Three(a, Plus, b, q, c)) == Both(Ok(a), r, env.add)
      && Evaluate(env, Three(a, Minus, b, q, c)) == Both(Ok(a), r, env.sub)
  {
    ThreeIsYield(env, a, Plus, b, q, c);
    ThreeIsYield(env, a, Minus, b, q, c);
    TermMeans(env, Num(b), Num(c));
    SumMeans(env, Num(a), Bin(q, Num(b), Num(c)));
  }

  lemma {:induction false} TermBefore<F>(env: Env<F>, a: F, p: Operator, b: F, c: F)
    requires p == Times || p == Over
    ensures var l := if p == Times then Ok(env.mul(a, b)) else if env.isZero(b) then Err(DivisionByZero) else Ok(env.div(a, b));
      && Evaluate(env, Three(a, p, b, Plus, c)) == Both(l, Ok(c), env.add)
      && Evaluate(env, Three(a, p, b, Minus, c)) == Both(l, Ok(c), env.sub)
  {
    ThreeIsYield(env, a, p, b, Plus, c);
    ThreeIsYield(env, a, p, b, Minus, c);
    TermMeans(env, Num(a), Num(b));
    SumMeans(env, Bin(p, Num(a), Num(b)), Num(c));
  }

  /** Operators of one kind from the left. */
  lemma {:induction false} LeftAssociative<F>(env: Env<F>, a: F, b: F, c: F)
    ensures Evaluate(env, Three(a, Minus, b, Minus, c)) == Ok(env.sub(env.sub(a, b), c))
    ensures Evaluate(env, Three(a, Minus, b, Plus, c)) == Ok(env.add(env.sub(a, b), c))
    ensures Evaluate(env, Three(a, Over, b, Over, c))
         == if env.isZero(b) || env.isZero(c) then Err(DivisionByZero) else Ok(env.div(env.div(a, b), c))
    ensures Evaluate(env, Three(a, Over, b, Times, c))
         == if env.isZero(b) then Err(DivisionByZero) else Ok(env.mul(env.div(a, b), c))
  {
    ThreeIsYield(env, a, Minus, b, Minus, c);
    ThreeIsYield(env, a, Minus, b, Plus, c);
    ThreeIsYield(env, a, Over, b, Over, c);
    ThreeIsYield(env, a, Over, b, Times, c);
    SumMeans(env, Num(a), Num(b));
    SumMeans(env, Bin(Minus, Num(a), Num(b)), Num(c));
    TermMeans(env, Num(a), Num(b));
    TermMeans(env, Bin(Over, Num(a), Num(b)), Num(c));
  }

  // ----- Token lists that are no expression -----

  lemma {:induction false} StandsInFront<F>(t: Tree<F>, more: seq<Token<F>>)
    ensures StandsAt(Yield(t) + more, 0, t) && (more != [] ==> (Yield(t) + more)[|Yield(t)|] == more[0])
  {
  }

  /** A missing operand: at the end, or in front of anything that starts none. */
  lemma {:induction false} MissingOperands<F>(env: Env<F>, l: Tree<F>, more: seq<Token<F>>)
    requires Sum(l) && Evaluate(env, Yield(l)).Ok?
    requires more == [] || more[0] == RParen || more[0] == Op(Times) || more[0] == Op(Over)
    ensures var e := if more == [] then UnexpectedEnd else MissingOperand;
      && Evaluate(env, more) == Err(e)
      && Evaluate(env, Yield(l) + [Op(Plus)] + more) == Err(e)
      && Evaluate(env, Yield(l) + [Op(Minus)] + more) == Err(e)
      && (Term(l) ==> Evaluate(env, Yield(l) + [Op(Times)] + more) == Err(e))
      && (Term(l) ==> Evaluate(env, Yield(l) + [Op(Over)] + more) == Err(e))
  {
    NoOperand(env, more, 0);
    NoOperandBehind(env, l, Plus, more);
    NoOperandBehind(env, l, Minus, more);
    if Term(l) {
      NoOperandBehind(env, l, Times, more);
      NoOperandBehind(env, l, Over, more);
    }
  }

  lemma {:induction false} NoOperand<F>(env: Env<F>, ts: seq<Token<F>>, p: nat)
    requires p <= |ts| && (p == |ts| || ts[p] == RParen || ts[p] == Op(Times) || ts[p] == Op(Over))
    ensures var e := if p == |ts| then UnexpectedEnd else MissingOperand;
      ParseFactor(env, ts, p) == Err(e) && ParseTerm(env, ts, p) == Err(e) && ParseExpr(env, ts, p) == Err(e)
  {
  }

  lemma {:induction false} NoOperandBehind<F>(env: Env<F>, l: Tree<F>, op: Operator, more: seq<Token<F>>)
    requires Sum(l) && Evaluate(env, Yield(l)).Ok? && (op == Times || op == Over ==> Term(l))
    requires more == [] || more[0] == RParen || more[0] == Op(Times) || more[0] == Op(Over)
    ensures Evaluate(env, Yield(l) + [Op(op)] + more) == Err(if more == [] then UnexpectedEnd else MissingOperand)
  {
    var ts, n := Yield(l) + [Op(op)] + more, |Yield(l)|;
    assert ts == Yield(l) + ([Op(op)] + more);
    StandsInFront(l, [Op(op)] + more);
    SumIsExpr(l);
    EvaluatesTrees(env, l);
    assert n + 1 < |ts| ==> ts[n + 1] == more[0];
    NoOperand(env, ts, n + 1);
    if op == Plus || op == Minus {
      ExprOfTree(env, ts, 0, l);
    } else {
      TermOfTree(env, ts, 0, l);
    }
  }

  /** Whatever follows a whole expression without an operator between. */
  lemma {:induction false} ExtraTokens<F>(env: Env<F>, e: Tree<F>, more: seq<Token<F>>)
    requires Sum(e) && Evaluate(env, Yield(e)).Ok? && more != [] && !more[0].Op?
    ensures Evaluate(env, Yield(e) + more) == Err(UnbalancedParens)
  {
    SumIsExpr(e);
    EvaluatesTrees(env, e);
    StandsInFront(e, more);
    ExprOfTree(env, Yield(e) + more, 0, e);
  }

  /** A parenthesis that is not closed. */
  lemma {:induction false} MissingParen<F>(env: Env<F>, e: Tree<F>, more: seq<Token<F>>)
    requires Sum(e) && Evaluate(env, Yield(e)).Ok? && (more != [] ==> !more[0].Op? && more[0] != RParen)
    ensures Evaluate(env, [LParen] + Yield(e) + more) == Err(UnbalancedParens)
  {
    var ts := [LParen] + Yield(e) + more;
    SumIsExpr(e);
    EvaluatesTrees(env, e);
    StandsBehind(e, more);
    ExprOfTree(env, ts, 1, e);
    UnclosedParen(env, ts, |Yield(e)| + 1);
  }

  lemma {:induction false} StandsBehind<F>(t: Tree<F>, more: seq<Token<F>>)
    ensures StandsAt([LParen] + Yield(t) + more, 1, t) && (more != [] ==> ([LParen] + Yield(t) + more)[1 + |Yield(t)|] == more[0])
  {
    var ts := [LParen] + Yield(t) + more;
    forall i | 0 <= i < |Yield(t)| ensures ts[1 + i] == Yield(t)[i] {
    }
  }

  lemma {:induction false} UnclosedParen<F>(env: Env<F>, ts: seq<Token<F>>, q: nat)
    requires 1 < q <= |ts| && ts[0] == LParen && (q < |ts| ==> ts[q] != RParen)
    requires ParseExpr(env, ts, 1).Ok? && ParseExpr(env, ts, 1).value.1 == q
    ensures Evaluate(env, ts) == Err(UnbalancedParens)
  {
    assert ParseFactor(env, ts, 0) == Err(UnbalancedParens);
    assert ParseTerm(env, ts, 0) == Err(UnbalancedParens);
  }
}
