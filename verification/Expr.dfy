/** The DISMAN expression evaluator: a lexer and a one-pass recursive-descent
    parser that evaluates while it parses
    (crates/netsnmp-agent/src/disman/expr.rs). The number type is a parameter,
    with its arithmetic, so nothing depends on how it rounds. */
module Expressions {
  import opened Values
  import opened Outcomes

  datatype Operator = Plus | Minus | Times | Over

  datatype Token<F> = Number(n: F) | Reference(name: string) | Op(op: Operator) | LParen | RParen

  datatype ExprError =
    | UnexpectedChar(c: char)
    | UnexpectedEnd
    | BadReference
    | UnresolvedReference(name: string)
    | BadNumber(text: string)
    | MissingOperand
    | UnbalancedParens
    | DivisionByZero

  type Result<+T> = Outcome<T, ExprError>

  /** The arithmetic of the number type, the reading of numeric literals, and the
      value of a `$` reference (none if its OID does not parse, is absent or is
      not numeric). */
  datatype Env<!F> = Env(
    add: (F, F) -> F, sub: (F, F) -> F, mul: (F, F) -> F, div: (F, F) -> F,
    neg: F -> F, isZero: F -> bool,
    number: string -> Option<F>, lookup: string -> Option<F>)

  function Apply<F>(env: Env<F>, op: Operator, l: F, r: F): Result<F> {
    match op
    case Plus => Ok(env.add(l, r))
    case Minus => Ok(env.sub(l, r))
    case Times => Ok(env.mul(l, r))
    case Over => if env.isZero(r) then Err(DivisionByZero) else Ok(env.div(l, r))
  }

  predicate Additive(op: Operator) {
    op.Plus? || op.Minus?
  }

  /** The token at p is an additive (or a multiplicative) operator. */
  predicate OpAt<F>(ts: seq<Token<F>>, p: nat, additive: bool) {
    p < |ts| && ts[p].Op? && Additive(ts[p].op) == additive
  }

  // ----- The parser, as functions from a position to a value and a position -----

  type Parsed<+F> = Result<(F, nat)>

  function ParseExpr<F>(env: Env<F>, ts: seq<Token<F>>, p: nat): (r: Parsed<F>)
    requires p <= |ts|
    ensures r.Ok? ==> p < r.value.1 <= |ts|
    decreases |ts| - p, 4
  {
    match ParseTerm(env, ts, p)
    case Err(e) => Err(e)
    case Ok((left, q)) => ExprLoop(env, ts, q, left)
  }

  function ExprLoop<F>(env: Env<F>, ts: seq<Token<F>>, p: nat, left: F): (r: Parsed<F>)
    requires p <= |ts|
    ensures r.Ok? ==> p <= r.value.1 <= |ts|
    decreases |ts| - p, 3
  {
    if !OpAt(ts, p, true) then Ok((left, p))
    else
      match ParseTerm(env, ts, p + 1)
      case Err(e) => Err(e)
      case Ok((right, q)) =>
        match Apply(env, ts[p].op, left, right)
        case Err(e) => Err(e)
        case Ok(v) => ExprLoop(env, ts, q, v)
  }

  function ParseTerm<F>(env: Env<F>, ts: seq<Token<F>>, p: nat): (r: Parsed<F>)
    requires p <= |ts|
    ensures r.Ok? ==> p < r.value.1 <= |ts|
    decreases |ts| - p, 2
  {
    match ParseFactor(env, ts, p)
    case Err(e) => Err(e)
    case Ok((left, q)) => TermLoop(env, ts, q, left)
  }

  function TermLoop<F>(env: Env<F>, ts: seq<Token<F>>, p: nat, left: F): (r: Parsed<F>)
    requires p <= |ts|
    ensures r.Ok? ==> p <= r.value.1 <= |ts|
    decreases |ts| - p, 1
  {
    if !OpAt(ts, p, false) then Ok((left, p))
    else
      match ParseFactor(env, ts, p + 1)
      case Err(e) => Err(e)
      case Ok((right, q)) =>
        match Apply(env, ts[p].op, left, right)
        case Err(e) => Err(e)
        case Ok(v) => TermLoop(env, ts, q, v)
  }

  function ParseFactor<F>(env: Env<F>, ts: seq<Token<F>>, p: nat): (r: Parsed<F>)
    requires p <= |ts|
    ensures r.Ok? ==> p < r.value.1 <= |ts|
    decreases |ts| - p, 0
  {
    if p == |ts| then Err(UnexpectedEnd)
    else
      match ts[p]
      case Number(n) => Ok((n, p + 1))
      case Reference(name) =>
        (match env.lookup(name)
         case None => Err(UnresolvedReference(name))
         case Some(v) => Ok((v, p + 1)))
      case LParen =>
        (match ParseExpr(env, ts, p + 1)
         case Err(e) => Err(e)
         case Ok((v, q)) => if q < |ts| && ts[q].RParen? then Ok((v, q + 1)) else Err(UnbalancedParens))
      case Op(Minus) =>
        (match ParseFactor(env, ts, p + 1)
         case Err(e) => Err(e)
         case Ok((v, q)) => Ok((env.neg(v), q)))
      case Op(Plus) => ParseFactor(env, ts, p + 1)
      case _ => Err(MissingOperand)
  }

  function Evaluate<F>(env: Env<F>, ts: seq<Token<F>>): Result<F> {
    match ParseExpr(env, ts, 0)
    case Err(e) => Err(e)
    case Ok((v, q)) => if q == |ts| then Ok(v) else Err(UnbalancedParens)
  }

  // ----- The same parser with loops and a moving position -----

  method RunExpr<F>(env: Env<F>, ts: seq<Token<F>>, start: nat) returns (r: Parsed<F>)
    requires start <= |ts|
    ensures r == ParseExpr(env, ts, start)
    decreases |ts| - start, 4
  {
    var first := RunTerm(env, ts, start);
    if first.Err? {
      return Err(first.error);
    }
    var (left, pos) := first.value;
    while OpAt(ts, pos, true)
      invariant start < pos <= |ts|
      invariant ExprLoop(env, ts, pos, left) == ParseExpr(env, ts, start)
      decreases |ts| - pos
    {
      var op := ts[pos].op;
      var second := RunTerm(env, ts, pos + 1);
      if second.Err? {
        return Err(second.error);
      }
      var v := Apply(env, op, left, second.value.0);
      if v.Err? {
        return Err(v.error);
      }
      left, pos := v.value, second.value.1;
    }
    r := Ok((left, pos));
  }

  method RunTerm<F>(env: Env<F>, ts: seq<Token<F>>, start: nat) returns (r: Parsed<F>)
    requires start <= |ts|
    ensures r == ParseTerm(env, ts, start)
    decreases |ts| - start, 2
  {
    var first := RunFactor(env, ts, start);
    if first.Err? {
      return Err(first.error);
    }
    var (left, pos) := first.value;
    while OpAt(ts, pos, false)
      invariant start < pos <= |ts|
      invariant TermLoop(env, ts, pos, left) == ParseTerm(env, ts, start)
      decreases |ts| - pos
    {
      var op := ts[pos].op;
      var second := RunFactor(env, ts, pos + 1);
      if second.Err? {
        return Err(second.error);
      }
      var v := Apply(env, op, left, second.value.0);
      if v.Err? {
        return Err(v.error);
      }
      left, pos := v.value, second.value.1;
    }
    r := Ok((left, pos));
  }

  method RunFactor<F>(env: Env<F>, ts: seq<Token<F>>, start: nat) returns (r: Parsed<F>)
    requires start <= |ts|
    ensures r == ParseFactor(env, ts, start)
    decreases |ts| - start, 0
  {
    if start >= |ts| {
      return Err(UnexpectedEnd);
    }
    match ts[start]
    case Number(n) =>
      return Ok((n, start + 1));
    case Reference(name) =>
      var v := env.lookup(name);
      return if v.None? then Err(UnresolvedReference(name)) else Ok((v.value, start + 1));
    case LParen =>
      var inner := RunExpr(env, ts, start + 1);
      if inner.Err? {
        return inner;
      }
      var (v, pos) := inner.value;
      if pos >= |ts| || !ts[pos].RParen? {
        return Err(UnbalancedParens);
      }
      return Ok((v, pos + 1));
    case Op(Minus) =>
      var inner := RunFactor(env, ts, start + 1);
      return if inner.Err? then inner else Ok((env.neg(inner.value.0), inner.value.1));
    case Op(Plus) =>
      r := RunFactor(env, ts, start + 1);
    case _ =>
      return Err(MissingOperand);
  }

  // ----- Grammar trees -----

  /** Parse trees of the grammar, operators left-associative. */
  datatype Tree<F> =
    | Num(n: F)
    | Ref(name: string)
    | Paren(inner: Tree<F>)
    | Neg(operand: Tree<F>)
    | Pos(operand: Tree<F>)
    | Bin(op: Operator, left: Tree<F>, right: Tree<F>)

  predicate IsFactor<F>(t: Tree<F>)
    decreases t, 0
  {
    match t
    case Num(_) => true
    case Ref(_) => true
    case Paren(e) => IsExpr(e)
    case Neg(f) => IsFactor(f)
    case Pos(f) => IsFactor(f)
    case Bin(_, _, _) => false
  }

  predicate IsTerm<F>(t: Tree<F>)
    decreases t, 1
  {
    if t.Bin? then !Additive(t.op) && IsTerm(t.left) && IsFactor(t.right) else IsFactor(t)
  }

  predicate IsExpr<F>(t: Tree<F>)
    decreases t, 2
  {
    if t.Bin? && Additive(t.op) then IsExpr(t.left) && IsTerm(t.right) else IsTerm(t)
  }

  /** The token list a tree stands for. */
  function Yield<F>(t: Tree<F>): (ts: seq<Token<F>>)
    ensures |ts| > 0
  {
    match t
    case Num(n) => [Number(n)]
    case Ref(name) => [Reference(name)]
    case Paren(e) => [LParen] + Yield(e) + [RParen]
    case Neg(f) => [Op(Minus)] + Yield(f)
    case Pos(f) => [Op(Plus)] + Yield(f)
    case Bin(op, l, r) => Yield(l) + [Op(op)] + Yield(r)
  }

  /** The meaning of a tree, operands from left to right. */
  function Eval<F>(env: Env<F>, t: Tree<F>): Result<F> {
    match t
    case Num(n) => Ok(n)
    case Ref(name) =>
      (match env.lookup(name)
       case None => Err(UnresolvedReference(name))
       case Some(v) => Ok(v))
    case Paren(e) => Eval(env, e)
    case Neg(f) =>
      (match Eval(env, f)
       case Err(e) => Err(e)
       case Ok(v) => Ok(env.neg(v)))
    case Pos(f) => Eval(env, f)
    case Bin(op, l, r) =>
      (match Eval(env, l)
       case Err(e) => Err(e)
       case Ok(a) =>
         match Eval(env, r)
         case Err(e) => Err(e)
         case Ok(b) => Apply(env, op, a, b))
  }

  /** The yield of t stands in ts at p. */
  ghost predicate StandsAt<F>(ts: seq<Token<F>>, p: nat, t: Tree<F>) {
    p + |Yield(t)| <= |ts| && forall i {:trigger Yield(t)[i]} :: 0 <= i < |Yield(t)| ==> ts[p + i] == Yield(t)[i]
  }

  // ----- Every tree is parsed to its own meaning -----

  lemma {:induction false} SplitBin<F>(ts: seq<Token<F>>, p: nat, t: Tree<F>) returns (q: nat, end: nat)
    requires t.Bin? && StandsAt(ts, p, t)
    ensures p < q == p + |Yield(t.left)| && q + 1 < end == q + 1 + |Yield(t.right)| == p + |Yield(t)| <= |ts|
    ensures StandsAt(ts, p, t.left) && StandsAt(ts, q + 1, t.right)
    ensures OpAt(ts, q, Additive(t.op)) && !OpAt(ts, q, !Additive(t.op)) && ts[q].op == t.op
  {
    var n := |Yield(t.left)|;
    q, end := p + n, p + |Yield(t)|;
    assert Yield(t)[n] == Op(t.op);
    forall i | 0 <= i < n ensures ts[p + i] == Yield(t.left)[i] {
      assert Yield(t)[i] == Yield(t.left)[i];
    }
    forall i | 0 <= i < |Yield(t.right)| ensures ts[p + n + 1 + i] == Yield(t.right)[i] {
      assert Yield(t)[n + 1 + i] == Yield(t.right)[i];
    }
  }

  lemma {:induction false} SplitParen<F>(ts: seq<Token<F>>, p: nat, e: Tree<F>)
    requires StandsAt(ts, p, Paren(e))
    ensures var q := p + 1 + |Yield(e)|;
      q + 1 == p + |Yield(Paren(e))| && ts[p] == LParen && StandsAt(ts, p + 1, e) && ts[q] == RParen
  {
    var t, n := Paren(e), |Yield(e)|;
    assert Yield(t)[0] == LParen && Yield(t)[n + 1] == RParen;
    forall i | 0 <= i < n ensures ts[p + 1 + i] == Yield(e)[i] {
      assert Yield(t)[1 + i] == Yield(e)[i];
    }
  }

  lemma {:induction false} SplitUnary<F>(ts: seq<Token<F>>, p: nat, t: Tree<F>)
    requires (t.Neg? || t.Pos?) && StandsAt(ts, p, t)
    ensures ts[p] == Op(if t.Neg? then Minus else Plus) && StandsAt(ts, p + 1, t.operand)
    ensures p + 1 + |Yield(t.operand)| == p + |Yield(t)|
  {
    assert Yield(t)[0] == Op(if t.Neg? then Minus else Plus);
    forall i | 0 <= i < |Yield(t.operand)| ensures ts[p + 1 + i] == Yield(t.operand)[i] {
      assert Yield(t)[1 + i] == Yield(t.operand)[i];
    }
  }

  /** A result and the position behind it. */
  function Located<F>(r: Result<F>, end: nat): Parsed<F> {
    match r case Err(e) => Err(e) case Ok(v) => Ok((v, end))
  }

  /** The loops that go on behind a result. */
  function ThenTerm<F>(env: Env<F>, ts: seq<Token<F>>, r: Result<F>, p: nat): Parsed<F>
    requires p <= |ts|
  {
    match r case Err(e) => Err(e) case Ok(v) => TermLoop(env, ts, p, v)
  }

  function ThenExpr<F>(env: Env<F>, ts: seq<Token<F>>, r: Result<F>, p: nat): Parsed<F>
    requires p <= |ts|
  {
    match r case Err(e) => Err(e) case Ok(v) => ExprLoop(env, ts, p, v)
  }

  function Negated<F>(env: Env<F>, r: Result<F>): Result<F> {
    match r case Err(e) => Err(e) case Ok(v) => Ok(env.neg(v))
  }

  function Combined<F>(env: Env<F>, op: Operator, l: Result<F>, r: Result<F>): Result<F> {
    match l
    case Err(e) => Err(e)
    case Ok(a) =>
      match r
      case Err(e) => Err(e)
      case Ok(b) => Apply(env, op, a, b)
  }

  lemma {:induction false} LeafFactor<F>(env: Env<F>, ts: seq<Token<F>>, p: nat, t: Tree<F>)
    requires (t.Num? || t.Ref?) && p < |ts| && ts[p] == Yield(t)[0]
    ensures ParseFactor(env, ts, p) == Located(Eval(env, t), p + 1)
  {
  }

  lemma {:induction false} MinusFactor<F>(env: Env<F>, ts: seq<Token<F>>, p: nat, r: Result<F>, end: nat)
    requires p < |ts| && ts[p] == Op(Minus) && ParseFactor(env, ts, p + 1) == Located(r, end)
    ensures ParseFactor(env, ts, p) == Located(Negated(env, r), end)
  {
  }

  lemma {:induction false} PlusFactor<F>(env: Env<F>, ts: seq<Token<F>>, p: nat, r: Result<F>, end: nat)
    requires p < |ts| && ts[p] == Op(Plus) && ParseFactor(env, ts, p + 1) == Located(r, end)
    ensures ParseFactor(env, ts, p) == Located(r, end)
  {
  }

  /** A parenthesised expression ends at its parenthesis. */
  lemma {:induction false} ClosedExpr<F>(env: Env<F>, ts: seq<Token<F>>, p: nat, r: Result<F>, q: nat)
    requires p < q < |ts| && ts[p] == LParen && ts[q] == RParen
    requires ParseExpr(env, ts, p + 1) == ThenExpr(env, ts, r, q)
    ensures ParseFactor(env, ts, p) == Located(r, q + 1)
  {
    if r.Ok? {
      assert ExprLoop(env, ts, q, r.value) == Ok((r.value, q));
    }
  }

  lemma {:induction false} FactorOfTree<F>(env: Env<F>, ts: seq<Token<F>>, p: nat, t: Tree<F>)
    requires IsFactor(t) && StandsAt(ts, p, t)
    ensures ParseFactor(env, ts, p) == Located(Eval(env, t), p + |Yield(t)|)
    decreases t, 0
  {
    if t.Num? || t.Ref? {
      assert ts[p] == Yield(t)[0];
      LeafFactor(env, ts, p, t);
    } else if t.Paren? {
      SplitParen(ts, p, t.inner);
      ExprOfTree(env, ts, p + 1, t.inner);
      ClosedExpr(env, ts, p, Eval(env, t.inner), p + 1 + |Yield(t.inner)|);
    } else if t.Neg? {
      SplitUnary(ts, p, t);
      FactorOfTree(env, ts, p + 1, t.operand);
      MinusFactor(env, ts, p, Eval(env, t.operand), p + |Yield(t)|);
    } else {
      SplitUnary(ts, p, t);
      FactorOfTree(env, ts, p + 1, t.operand);
      PlusFactor(env, ts, p, Eval(env, t.operand), p + |Yield(t)|);
    }
  }

  lemma {:induction false} EvalBin<F>(env: Env<F>, t: Tree<F>)
    requires t.Bin?
    ensures Eval(env, t) == Combined(env, t.op, Eval(env, t.left), Eval(env, t.right))
  {
  }

  /** A factor alone starts the loop of its term. */
  lemma {:induction false} SingleFactor<F>(env: Env<F>, ts: seq<Token<F>>, p: nat, r: Result<F>, q: nat)
    requires p < q <= |ts| && ParseFactor(env, ts, p) == Located(r, q)
    ensures ParseTerm(env, ts, p) == ThenTerm(env, ts, r, q)
  {
  }

  /** One multiplicative operator: the loop behind the left operand goes on
      behind the right one. */
  lemma {:induction false} BinTerm<F>(env: Env<F>, ts: seq<Token<F>>, q: nat, end: nat, l: Result<F>, r: Result<F>)
    requires q < end <= |ts| && OpAt(ts, q, false) && ParseFactor(env, ts, q + 1) == Located(r, end)
    ensures ThenTerm(env, ts, l, q) == ThenTerm(env, ts, Combined(env, ts[q].op, l, r), end)
  {
  }

  /** Parsing from the start of a term comes to the loop behind it. */
  lemma {:induction false} TermOfTree<F>(env: Env<F>, ts: seq<Token<F>>, p: nat, t: Tree<F>)
    requires IsTerm(t) && StandsAt(ts, p, t)
    ensures ParseTerm(env, ts, p) == ThenTerm(env, ts, Eval(env, t), p + |Yield(t)|)
    decreases t, 1
  {
    if t.Bin? {
      var q, end := SplitBin(ts, p, t);
      TermOfTree(env, ts, p, t.left);
      FactorOfTree(env, ts, q + 1, t.right);
      BinTerm(env, ts, q, end, Eval(env, t.left), Eval(env, t.right));
      EvalBin(env, t);
    } else {
      FactorOfTree(env, ts, p, t);
      SingleFactor(env, ts, p, Eval(env, t), p + |Yield(t)|);
    }
  }

  /** The same for terms and additive operators. */
  lemma {:induction false} SingleTerm<F>(env: Env<F>, ts: seq<Token<F>>, p: nat, r: Result<F>, q: nat)
    requires p < q <= |ts| && ParseTerm(env, ts, p) == Located(r, q)
    ensures ParseExpr(env, ts, p) == ThenExpr(env, ts, r, q)
  {
  }

  lemma {:induction false} BinExpr<F>(env: Env<F>, ts: seq<Token<F>>, q: nat, end: nat, l: Result<F>, r: Result<F>)
    requires q < end <= |ts| && OpAt(ts, q, true) && ParseTerm(env, ts, q + 1) == Located(r, end)
    ensures ThenExpr(env, ts, l, q) == ThenExpr(env, ts, Combined(env, ts[q].op, l, r), end)
  {
  }

  lemma {:induction false} LoopEnds<F>(env: Env<F>, ts: seq<Token<F>>, r: Result<F>, q: nat)
    requires q <= |ts| && !OpAt(ts, q, false)
    ensures ThenTerm(env, ts, r, q) == Located(r, q)
  {
  }

  /** A term not followed by `*` or `/` ends there. */
  lemma {:induction false} WholeTerm<F>(env: Env<F>, ts: seq<Token<F>>, p: nat, t: Tree<F>)
    requires IsTerm(t) && StandsAt(ts, p, t) && !OpAt(ts, p + |Yield(t)|, false)
    ensures ParseTerm(env, ts, p) == Located(Eval(env, t), p + |Yield(t)|)
    decreases t, 2
  {
    TermOfTree(env, ts, p, t);
    LoopEnds(env, ts, Eval(env, t), p + |Yield(t)|);
  }

  /** Parsing from the start of an expression, not followed by `*` or `/`, comes
      to the loop behind it. */
  lemma {:induction false} ExprOfTree<F>(env: Env<F>, ts: seq<Token<F>>, p: nat, t: Tree<F>)
    requires IsExpr(t) && StandsAt(ts, p, t) && !OpAt(ts, p + |Yield(t)|, false)
    ensures ParseExpr(env, ts, p) == ThenExpr(env, ts, Eval(env, t), p + |Yield(t)|)
    decreases t, 3
  {
    if t.Bin? && Additive(t.op) {
      var q, end := SplitBin(ts, p, t);
      ExprOfTree(env, ts, p, t.left);
      WholeTerm(env, ts, q + 1, t.right);
      BinExpr(env, ts, q, end, Eval(env, t.left), Eval(env, t.right));
      EvalBin(env, t);
    } else {
      WholeTerm(env, ts, p, t);
      SingleTerm(env, ts, p, Eval(env, t), p + |Yield(t)|);
    }
  }

  /** On the token list of any grammar tree the evaluator returns the tree's own
      meaning, value or error. */
  lemma {:induction false} EvaluatesTrees<F>(env: Env<F>, t: Tree<F>)
    requires IsExpr(t)
    ensures Evaluate(env, Yield(t)) == Eval(env, t)
  {
    var ts := Yield(t);
    ExprOfTree(env, ts, 0, t);
  }

  // ----- Every accepted token list comes from a tree -----

  /** t is a grammar tree of ts whose meaning is v. */
  ghost predicate Means<F>(env: Env<F>, ts: seq<Token<F>>, t: Tree<F>, v: F) {
    IsExpr(t) && Yield(t) == ts && Eval(env, t) == Ok(v)
  }

  /** t is a factor that stands in ts from p to q and means v. */
  ghost predicate FactorAt<F>(env: Env<F>, ts: seq<Token<F>>, p: nat, q: nat, t: Tree<F>, v: F) {
    p <= q <= |ts| && IsFactor(t) && Yield(t) == ts[p..q] && Eval(env, t) == Ok(v)
  }

  lemma {:induction false} ParenTree<F>(env: Env<F>, ts: seq<Token<F>>, p: nat, q: nat, e: Tree<F>, v: F)
    requires p < q < |ts| && ts[p] == LParen && ts[q] == RParen && Means(env, ts[p + 1..q], e, v)
    ensures FactorAt(env, ts, p, q + 1, Paren(e), v)
  {
    assert ts[p..q + 1] == [ts[p]] + ts[p + 1..q] + [ts[q]];
  }

  lemma {:induction false} SignTree<F>(env: Env<F>, ts: seq<Token<F>>, p: nat, q: nat, f: Tree<F>, v: F)
    requires p < |ts| && FactorAt(env, ts, p + 1, q, f, v)
    ensures ts[p] == Op(Minus) ==> FactorAt(env, ts, p, q, Neg(f), env.neg(v))
    ensures ts[p] == Op(Plus) ==> FactorAt(env, ts, p, q, Pos(f), v)
  {
    assert ts[p..q] == [ts[p]] + ts[p + 1..q];
  }

  lemma {:induction false} LeafTree<F>(env: Env<F>, ts: seq<Token<F>>, p: nat, t: Tree<F>, v: F)
    requires p < |ts| && (t.Num? || t.Ref?) && Yield(t) == [ts[p]] && Eval(env, t) == Ok(v)
    ensures FactorAt(env, ts, p, p + 1, t, v)
  {
  }

  lemma {:induction false} FactorHasTree<F>(env: Env<F>, ts: seq<Token<F>>, p: nat) returns (t: Tree<F>)
    requires p <= |ts| && ParseFactor(env, ts, p).Ok?
    ensures var (v, q) := ParseFactor(env, ts, p).value; FactorAt(env, ts, p, q, t, v)
    decreases |ts| - p, 0
  {
    var (v, q) := ParseFactor(env, ts, p).value;
    match ts[p]
    case Number(n) =>
      t := Num(n);
      LeafTree(env, ts, p, t, v);
    case Reference(name) =>
      t := Ref(name);
      LeafTree(env, ts, p, t, v);
    case LParen =>
      var e := ExprHasTree(env, ts, p + 1);
      ParenTree(env, ts, p, q - 1, e, v);
      t := Paren(e);
    case Op(Minus) =>
      var f := FactorHasTree(env, ts, p + 1);
      SignTree(env, ts, p, q, f, ParseFactor(env, ts, p + 1).value.0);
      t := Neg(f);
    case Op(Plus) =>
      var f := FactorHasTree(env, ts, p + 1);
      SignTree(env, ts, p, q, f, v);
      t := Pos(f);
  }

  lemma {:induction false} TermLoopHasTree<F>(env: Env<F>, ts: seq<Token<F>>, start: nat, p: nat, left: F, l: Tree<F>)
    returns (t: Tree<F>)
    requires start <= p <= |ts| && TermLoop(env, ts, p, left).Ok?
    requires IsTerm(l) && Yield(l) == ts[start..p] && Eval(env, l) == Ok(left)
    ensures var (v, q) := TermLoop(env, ts, p, left).value;
      IsTerm(t) && Yield(t) == ts[start..q] && Eval(env, t) == Ok(v)
    decreases |ts| - p, 1
  {
    if OpAt(ts, p, false) {
      var (right, q) := ParseFactor(env, ts, p + 1).value;
      var r := FactorHasTree(env, ts, p + 1);
      assert ts[start..q] == ts[start..p] + [ts[p]] + ts[p + 1..q];
      t := TermLoopHasTree(env, ts, start, q, Apply(env, ts[p].op, left, right).value, Bin(ts[p].op, l, r));
    } else {
      t := l;
    }
  }

  lemma {:induction false} TermHasTree<F>(env: Env<F>, ts: seq<Token<F>>, p: nat) returns (t: Tree<F>)
    requires p <= |ts| && ParseTerm(env, ts, p).Ok?
    ensures var (v, q) := ParseTerm(env, ts, p).value;
      IsTerm(t) && Yield(t) == ts[p..q] && Eval(env, t) == Ok(v)
    decreases |ts| - p, 2
  {
    var (left, q) := ParseFactor(env, ts, p).value;
    var l := FactorHasTree(env, ts, p);
    t := TermLoopHasTree(env, ts, p, q, left, l);
  }

  lemma {:induction false} ExprLoopHasTree<F>(env: Env<F>, ts: seq<Token<F>>, start: nat, p: nat, left: F, l: Tree<F>)
    returns (t: Tree<F>)
    requires start <= p <= |ts| && ExprLoop(env, ts, p, left).Ok?
    requires IsExpr(l) && Yield(l) == ts[start..p] && Eval(env, l) == Ok(left)
    ensures var (v, q) := ExprLoop(env, ts, p, left).value;
      IsExpr(t) && Yield(t) == ts[start..q] && Eval(env, t) == Ok(v)
    decreases |ts| - p, 3
  {
    if OpAt(ts, p, true) {
      var (right, q) := ParseTerm(env, ts, p + 1).value;
      var r := TermHasTree(env, ts, p + 1);
      assert ts[start..q] == ts[start..p] + [ts[p]] + ts[p + 1..q];
      t := ExprLoopHasTree(env, ts, start, q, Apply(env, ts[p].op, left, right).value, Bin(ts[p].op, l, r));
    } else {
      t := l;
    }
  }

  lemma {:induction false} ExprHasTree<F>(env: Env<F>, ts: seq<Token<F>>, p: nat) returns (t: Tree<F>)
    requires p <= |ts| && ParseExpr(env, ts, p).Ok?
    ensures var (v, q) := ParseExpr(env, ts, p).value;
      IsExpr(t) && Yield(t) == ts[p..q] && Eval(env, t) == Ok(v)
    decreases |ts| - p, 4
  {
    var (left, q) := ParseTerm(env, ts, p).value;
    var l := TermHasTree(env, ts, p);
    t := ExprLoopHasTree(env, ts, p, q, left, l);
  }

  /** The evaluator answers v exactly when the whole token list is the yield of a
      grammar tree whose meaning is defined and equals v. */
  lemma {:induction false} EvaluateIffTree<F(!new)>(env: Env<F>, ts: seq<Token<F>>, v: F)
    ensures Evaluate(env, ts) == Ok(v) <==> exists t :: Means(env, ts, t, v)
  {
    if Evaluate(env, ts) == Ok(v) {
      var t := ExprHasTree(env, ts, 0);
      assert ts[0..|ts|] == ts;
      assert Means(env, ts, t, v);
    }
    forall t | Means(env, ts, t, v) ensures Evaluate(env, ts) == Ok(v) {
      EvaluatesTrees(env, t);
    }
  }
}
