/** The expression grammar of crates/netsnmp-agent/src/disman/expr.rs is
    unambiguous: a token list has one tree at most. */
module Grammars {
  import opened Expressions

  /** Going down the left operands of u, through additive (or multiplicative)
      operators only, leads to t. */
  predicate OnSpine<F(==)>(t: Tree<F>, u: Tree<F>, additive: bool) {
    t == u || (u.Bin? && Additive(u.op) == additive && OnSpine(t, u.left, additive))
  }

  /** Some operand stands at p, and what is behind it cannot be a further
      multiplicative operator when its own operators are additive. */
  ghost predicate OperandAt<F>(ts: seq<Token<F>>, p: nat, t: Tree<F>, additive: bool) {
    && StandsAt(ts, p, t)
    && (if additive then IsExpr(t) && !OpAt(ts, p + |Yield(t)|, false) else IsTerm(t))
  }

  /** The parts of a binary tree at p, at this level. */
  lemma {:induction false} SplitOperand<F>(ts: seq<Token<F>>, p: nat, t: Tree<F>, additive: bool) returns (q: nat)
    requires OperandAt(ts, p, t, additive) && t.Bin? && Additive(t.op) == additive
    ensures q == p + |Yield(t.left)| < |ts| && ts[q] == Op(t.op) && |Yield(t)| == |Yield(t.left)| + 1 + |Yield(t.right)|
    ensures OperandAt(ts, p, t.left, additive) && StandsAt(ts, q + 1, t.right)
    ensures if additive then IsTerm(t.right) && !OpAt(ts, q + 1 + |Yield(t.right)|, false) else IsFactor(t.right)
  {
    var end;
    q, end := SplitBin(ts, p, t);
  }

  /** The tree on a spine just above l. */
  lemma {:induction false} AboveOnSpine<F>(ts: seq<Token<F>>, p: nat, l: Tree<F>, t: Tree<F>, additive: bool) returns (x: Tree<F>)
    requires OperandAt(ts, p, t, additive) && OnSpine(l, t, additive) && l != t
    ensures OnSpine(x, t, additive) && x.Bin? && Additive(x.op) == additive && x.left == l
    ensures OperandAt(ts, p, x, additive) && |Yield(x)| <= |Yield(t)|
    decreases t
  {
    var q := SplitOperand(ts, p, t, additive);
    if l == t.left {
      x := t;
    } else {
      x := AboveOnSpine(ts, p, l, t.left, additive);
    }
  }

  /** A spine gets strictly shorter on the way down. */
  lemma {:induction false} SpineIsShorter<F>(ts: seq<Token<F>>, p: nat, t: Tree<F>, u: Tree<F>, additive: bool)
    requires OperandAt(ts, p, u, additive) && OnSpine(t, u, additive)
    ensures t == u || OpAt(ts, p + |Yield(t)|, additive)
  {
    if t != u {
      var x := AboveOnSpine(ts, p, t, u, additive);
      var q := SplitOperand(ts, p, x, additive);
    }
  }

  /** Two factors that stand at one place are the same. */
  lemma {:induction false} OneFactor<F>(ts: seq<Token<F>>, p: nat, t: Tree<F>, u: Tree<F>)
    requires IsFactor(t) && IsFactor(u) && StandsAt(ts, p, t) && StandsAt(ts, p, u)
    ensures t == u
    decreases |Yield(t)| + |Yield(u)|, 0
  {
    assert ts[p] == Yield(t)[0] == Yield(u)[0];
    if t.Paren? {
      SplitParen(ts, p, t.inner);
      SplitParen(ts, p, u.inner);
      OneExpr(ts, p + 1, t.inner, u.inner);
    } else if t.Neg? || t.Pos? {
      SplitUnary(ts, p, t);
      SplitUnary(ts, p, u);
      OneFactor(ts, p + 1, t.operand, u.operand);
    }
  }

  /** Of two operands that stand at one place one is on the other's spine. */
  lemma {:induction false} SpinesMeet<F>(ts: seq<Token<F>>, p: nat, t: Tree<F>, u: Tree<F>, additive: bool)
    requires OperandAt(ts, p, t, additive) && OperandAt(ts, p, u, additive)
    ensures OnSpine(t, u, additive) || OnSpine(u, t, additive)
    decreases |Yield(t)| + |Yield(u)|, if additive then 4 else 2, if u.Bin? && Additive(u.op) == additive then 0 else 1
  {
    if u.Bin? && Additive(u.op) == additive {
      var q := SplitOperand(ts, p, u, additive);
      SpinesMeet(ts, p, t, u.left, additive);
      if !OnSpine(t, u.left, additive) {
        var x := AboveOnSpine(ts, p, u.left, t, additive);
        var q' := SplitOperand(ts, p, x, additive);
        OneOperand(ts, q + 1, x.right, u.right, additive);
      }
    } else if t.Bin? && Additive(t.op) == additive {
      SpinesMeet(ts, p, u, t, additive);
    } else {
      OneOperand(ts, p, t, u, additive);
    }
  }

  /** The right operands: terms with no multiplicative operator behind them, or
      factors. */
  lemma {:induction false} OneOperand<F>(ts: seq<Token<F>>, p: nat, t: Tree<F>, u: Tree<F>, additive: bool)
    requires StandsAt(ts, p, t) && StandsAt(ts, p, u)
    requires additive ==> IsTerm(t) && IsTerm(u) && !OpAt(ts, p + |Yield(t)|, false) && !OpAt(ts, p + |Yield(u)|, false)
    requires !additive ==> IsFactor(t) && IsFactor(u)
    ensures t == u
    decreases |Yield(t)| + |Yield(u)|, if additive then 3 else 1
  {
    if additive {
      SpinesMeet(ts, p, t, u, false);
      if OnSpine(t, u, false) {
        SpineIsShorter(ts, p, t, u, false);
      } else {
        SpineIsShorter(ts, p, u, t, false);
      }
    } else {
      OneFactor(ts, p, t, u);
    }
  }

  /** Two expressions that stand at one place, with no operator behind them, are
      the same. */
  lemma {:induction false} OneExpr<F>(ts: seq<Token<F>>, p: nat, t: Tree<F>, u: Tree<F>)
    requires IsExpr(t) && IsExpr(u) && StandsAt(ts, p, t) && StandsAt(ts, p, u)
    requires !OpAt(ts, p + |Yield(t)|, true) && !OpAt(ts, p + |Yield(t)|, false)
    requires !OpAt(ts, p + |Yield(u)|, true) && !OpAt(ts, p + |Yield(u)|, false)
    ensures t == u
    decreases |Yield(t)| + |Yield(u)|, 5
  {
    SpinesMeet(ts, p, t, u, true);
    if OnSpine(t, u, true) {
      SpineIsShorter(ts, p, t, u, true);
    } else {
      SpineIsShorter(ts, p, u, t, true);
    }
  }

  /** A token list is the yield of one tree at most. */
  lemma {:induction false} YieldDeterminesTree<F>(t: Tree<F>, u: Tree<F>)
    requires IsExpr(t) && IsExpr(u) && Yield(t) == Yield(u)
    ensures t == u
  {
    OneExpr(Yield(t), 0, t, u);
  }
}
