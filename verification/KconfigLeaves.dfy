/** What duplicate elimination (at91bootstrap/config/expr.c:571-712) cannot bring in: below its AND and
    OR nodes there is nothing but what was there before, bare symbols and plain comparisons. What that
    means for its result: no copies, and a test for contradictions that finds what it should. */
module KconfigLeaves {
  import opened KconfigExpr
  import opened KconfigCommon
  import opened KconfigDups
  import opened KconfigShapes
  import opened KconfigTransform
  import opened Wrappers

  /** `P` holds of everything below the AND and OR nodes. */
  predicate AllLeaves(P: Expr -> bool, e: Expr) {
    if e.Bin? then AllLeaves(P, e.l) && AllLeaves(P, e.r) else P(e)
  }

  ghost predicate Closed(P: Expr -> bool) {
    forall x: Expr | x.Sym? || x.Comp? :: P(x)
  }

  ghost predicate EachLeaves(P: Expr -> bool, xs: seq<Expr>) {
    forall k | 0 <= k < |xs| :: AllLeaves(P, xs[k])
  }

  lemma {:induction false} OperandsKeepLeaves(P: Expr -> bool, op: Op, e: Expr)
    requires Closed(P) && AllLeaves(P, e)
    ensures EachLeaves(P, Operands(op, e))
  {
    if IsBin(op, e) {
      OperandsKeepLeaves(P, op, e.l);
      OperandsKeepLeaves(P, op, e.r);
    }
  }

  lemma {:induction false} FillKeepsLeaves(P: Expr -> bool, op: Op, e: Expr, xs: seq<Expr>)
    requires Closed(P) && |xs| == |Operands(op, e)| && EachLeaves(P, xs)
    ensures AllLeaves(P, Fill(op, e, xs))
  {
    if IsBin(op, e) {
      var n := |Operands(op, e.l)|;
      FillKeepsLeaves(P, op, e.l, xs[..n]);
      FillKeepsLeaves(P, op, e.r, xs[n..]);
    }
  }

  lemma {:induction false} Dups1KeepsLeaves(P: Expr -> bool, op: Op, xs: seq<Expr>, i: nat, j: nat)
    requires Closed(P) && i <= |xs| && j <= |xs| && AreOperands(op, xs) && EachLeaves(P, xs)
    ensures EachLeaves(P, Dups1(op, xs, i, j).0)
    decreases SpineLeaves(xs), |xs| - i, |xs| - j
  {
    if i == |xs| {
    } else if j == |xs| {
      Dups1KeepsLeaves(P, op, xs, i + 1, 0);
    } else {
      Dups1PairKeepsLeaves(P, op, xs, i, j);
      Dups1KeepsLeaves(P, op, Dups1Pair(op, xs, i, j).0, i, j + 1);
    }
  }

  lemma {:induction false} Dups1PairKeepsLeaves(P: Expr -> bool, op: Op, xs: seq<Expr>, i: nat, j: nat)
    requires Closed(P) && i < |xs| && j < |xs| && AreOperands(op, xs) && EachLeaves(P, xs)
    ensures EachLeaves(P, Dups1Pair(op, xs, i, j).0)
    decreases SpineLeaves(xs), |xs| - i, |xs| - j, 0
  {
    if i != j {
      SpineLeavesAtLeast(xs, i);
      if xs[i].Bin? {
        Dups1TreeKeepsLeaves(P, xs[i]);
      }
      var x := if xs[i].Bin? then Dups1Tree(xs[i]).0 else xs[i];
      var t := Join(op, x, xs[j]);
      assert t.Some? ==> t.value == x || t.value.Comp? || t.value.Sym?;
    }
  }

  lemma {:induction false} Dups1TreeKeepsLeaves(P: Expr -> bool, e: Expr)
    requires Closed(P) && e.Bin? && AllLeaves(P, e)
    ensures AllLeaves(P, Dups1Tree(e).0)
    decreases Leaves(e), Leaves(e) + 1, 0
  {
    var xs := Operands(e.op, e);
    FillOperands(e.op, e);
    SpineLeavesAtLeast(xs, 0);
    OperandsKeepLeaves(P, e.op, e);
    Dups1KeepsLeaves(P, e.op, xs, 0, 0);
    FillKeepsLeaves(P, e.op, e, Dups1(e.op, xs, 0, 0).0);
  }

  lemma {:induction false} Dups2KeepsLeaves(P: Expr -> bool, op: Op, e: Expr, xs: seq<Expr>, i: nat)
    requires Closed(P) && IsBin(op, e) && |xs| == |Operands(op, e)| && i <= |xs|
    requires AreOperands(op, xs) && EachLeaves(P, xs)
    ensures EachLeaves(P, Dups2(op, e, xs, i).0)
    decreases SpineLeaves(xs), |xs| - i, Nodes(e) + 1, 0
  {
    if i < |xs| {
      Dups2AgainstKeepsLeaves(P, op, e, xs, i, 0);
      Dups2KeepsLeaves(P, op, e, Dups2Against(op, e, xs, i, 0).0, i + 1);
    }
  }

  lemma {:induction false} Dups2AgainstKeepsLeaves(P: Expr -> bool, op: Op, shape: Expr, xs: seq<Expr>, i: nat,
      from: nat)
    requires Closed(P) && |xs| >= 2 && i < |xs| && from + |Operands(op, shape)| <= |xs|
    requires AreOperands(op, xs) && EachLeaves(P, xs)
    ensures EachLeaves(P, Dups2Against(op, shape, xs, i, from).0)
    decreases SpineLeaves(xs), |xs| - i, Nodes(shape), 1
  {
    if IsBin(op, shape) {
      var ys := Dups2Against(op, shape.l, xs, i, from).0;
      Dups2AgainstKeepsLeaves(P, op, shape.l, xs, i, from);
      Dups2AgainstKeepsLeaves(P, op, shape.r, ys, i, from + |Operands(op, shape.l)|);
      Dups2PairKeepsLeaves(P, op, shape, Dups2Against(op, shape.r, ys, i, from + |Operands(op, shape.l)|).0, i, from);
    } else if from != i {
      Dups2PairKeepsLeaves(P, op, shape, xs, i, from);
    }
  }

  lemma {:induction false} Dups2PairKeepsLeaves(P: Expr -> bool, op: Op, shape: Expr, xs: seq<Expr>, i: nat, from: nat)
    requires Closed(P) && |xs| >= 2 && i < |xs| && from + |Operands(op, shape)| <= |xs|
    requires AreOperands(op, xs) && EachLeaves(P, xs)
    ensures EachLeaves(P, Dups2Pair(op, shape, xs, i, from).0)
    decreases SpineLeaves(xs), |xs| - i, Nodes(shape), 0
  {
    if xs[i].Bin? {
      SpineLeavesAtLeast(xs, i);
      Dups2TreeKeepsLeaves(P, xs[i]);
    }
  }

  lemma {:induction false} Dups2TreeKeepsLeaves(P: Expr -> bool, e: Expr)
    requires Closed(P) && e.Bin? && AllLeaves(P, e)
    ensures AllLeaves(P, Dups2Tree(e).0)
    decreases Leaves(e), Leaves(e) + 1, 0, 0
  {
    var xs := Operands(e.op, e);
    FillOperands(e.op, e);
    SpineLeavesAtLeast(xs, 0);
    OperandsKeepLeaves(P, e.op, e);
    Dups2KeepsLeaves(P, e.op, e, xs, 0);
    FillKeepsLeaves(P, e.op, e, Dups2(e.op, e, xs, 0).0);
  }

  lemma {:induction false} EliminateYNKeepsLeaves(P: Expr -> bool, e: Expr)
    requires Closed(P) && AllLeaves(P, e)
    ensures AllLeaves(P, EliminateYN(e))
  {
    if e.Bin? {
      EliminateYNKeepsLeaves(P, e.l);
      EliminateYNKeepsLeaves(P, e.r);
    }
  }

  lemma RoundKeepsLeaves(P: Expr -> bool, e: Expr)
    requires Closed(P) && AllLeaves(P, e)
    ensures AllLeaves(P, EliminateYN(Round(e).0))
  {
    if e.Bin? {
      Dups1TreeKeepsLeaves(P, e);
      Dups2TreeKeepsLeaves(P, Dups1Tree(e).0);
    }
    EliminateYNKeepsLeaves(P, Round(e).0);
  }

  lemma {:induction false} EliminateDupsKeepsLeaves(P: Expr -> bool, e: Expr)
    requires Closed(P) && AllLeaves(P, e)
    ensures AllLeaves(P, EliminateDups(e))
    decreases Leaves(e)
  {
    RoundShrinks(e);
    if Round(e).1 > 0 {
      RoundKeepsLeaves(P, e);
      EliminateDupsKeepsLeaves(P, EliminateYN(Round(e).0));
    }
  }

  // ----- so it brings in nothing to fold -----

  predicate CleanBelowNot(e: Expr) {
    e.Not? ==> NoFoldables(e.e)
  }

  lemma {:induction false} NoFoldablesIs(e: Expr)
    ensures NoFoldables(e) <==> !HasFoldable(e) && AllLeaves(CleanBelowNot, e)
  {
    if e.Bin? {
      NoFoldablesIs(e.l);
      NoFoldablesIs(e.r);
    }
  }

  lemma {:induction false} EliminateDupsIsClean(e: Expr)
    requires NoFoldables(e)
    ensures NoFoldables(EliminateDups(e))
    decreases Leaves(e)
  {
    RoundShrinks(e);
    NoFoldablesIs(e);
    if Round(e).1 > 0 {
      var f := EliminateYN(Round(e).0);
      RoundKeepsLeaves(CleanBelowNot, e);
      EliminateYNShrinks(Round(e).0);
      NoFoldablesIs(f);
      EliminateDupsIsClean(f);
    }
  }

  /** No two operands have the same shape, in this spine and in those nested in it. */
  ghost predicate NoCopies(e: Expr)
    decreases Leaves(e)
  {
    e.Bin? ==>
      var xs := Operands(e.op, e);
      FillOperands(e.op, e);
      forall k | 0 <= k < |xs| ::
        (forall m | 0 <= m < |xs| && k != m :: ShapeOf(xs[k]) != ShapeOf(xs[m])) &&
        (xs[k].Bin? ==> (SpineLeavesAtLeast(xs, k); NoCopies(xs[k])))
  }

  lemma {:induction false} OperandsAreClean(op: Op, e: Expr)
    requires NoFoldables(e)
    ensures forall k | 0 <= k < |Operands(op, e)| :: NoFoldables(Operands(op, e)[k])
  {
    if IsBin(op, e) {
      OperandsAreClean(op, e.l);
      OperandsAreClean(op, e.r);
    }
  }

  lemma {:induction false} NoPairsMeansNoCopies(e: Expr)
    requires NoPairs(e) && NoFoldables(e)
    ensures NoCopies(e)
    decreases Leaves(e)
  {
    if e.Bin? {
      var xs := Operands(e.op, e);
      FillOperands(e.op, e);
      OperandsAreClean(e.op, e);
      forall k | 0 <= k < |xs|
        ensures forall m | 0 <= m < |xs| && k != m :: ShapeOf(xs[k]) != ShapeOf(xs[m])
        ensures xs[k].Bin? ==> NoCopies(xs[k])
      {
        forall m | 0 <= m < |xs| && k != m
          ensures ShapeOf(xs[k]) != ShapeOf(xs[m])
        {
          ExprEqExactlyWhen(xs[k], xs[m]);
        }
        if xs[k].Bin? {
          SpineLeavesAtLeast(xs, k);
          NoPairsMeansNoCopies(xs[k]);
        }
      }
    }
  }

  /** No operand of the result occurs twice, in whatever order its own operands are. */
  lemma EliminateDupsLeavesNoCopies(e: Expr)
    requires NoFoldables(e)
    ensures NoCopies(EliminateDups(e))
  {
    EliminateDupsLeavesNoPair(e);
    EliminateDupsIsClean(e);
    NoPairsMeansNoCopies(EliminateDups(e));
  }

  // ----- which operands are recognised as contradicting the others -----

  /** An operand is replaced exactly if all that its negation consists of is there beside it. */
  lemma ContradictsExactlyWhen(op: Op, x: Expr, part: Expr)
    requires NoFoldables(Transform(Not(x))) && NoFoldables(part) && !IsYesOrNo(part)
    ensures Contradicts(op, x, part) <==>
      Transform(Not(x)) != Unit(Dual(op)) && WithinCounts(op, Transform(Not(x)), part)
  {
    AllExtractedExactlyWhen(op, Transform(Not(x)), part);
  }
}
