/** Common-part elimination and the equality test built on it (at91bootstrap/config/expr.c:141-245, 919-971).
    `expr_eq` copies its arguments and runs the eliminator on the copies; the eliminator asks
    `expr_eq` about pairs of operands, so the two are mutually recursive. */
module KconfigCommon {
  import opened KconfigExpr
  import opened Wrappers

  // ----- __expr_eliminate_eq, expr_eliminate_eq, expr_eq -----

  function SpineRank(op: Op, e1: Expr, e2: Expr): nat {
    if IsBin(op, e1) || IsBin(op, e2) then 0 else 3
  }

  function EliminateEqSpine(op: Op, e1: Expr, e2: Expr): (r: (Expr, Expr))
    ensures Nodes(r.0) <= Nodes(e1) && Nodes(r.1) <= Nodes(e2)
    ensures IsBin(op, e1) ==> IsBin(op, r.0)
    ensures IsBin(op, e2) ==> IsBin(op, r.1)
    decreases Nodes(e1) + Nodes(e2), SpineRank(op, e1, e2)
  {
    if IsBin(op, e1) then
      var (l, e2') := EliminateEqSpine(op, e1.l, e2);
      var (r, e2'') := EliminateEqSpine(op, e1.r, e2');
      (Bin(op, l, r), e2'')
    else if IsBin(op, e2) then
      var (e1', l) := EliminateEqSpine(op, e1, e2.l);
      var (e1'', r) := EliminateEqSpine(op, e1', e2.r);
      (e1'', Bin(op, l, r))
    else if e1 == e2 && (IsYes(e1) || IsNo(e1)) then
      (e1, e2)
    else if !ExprEq(e1, e2) then
      (e1, e2)
    else
      (Unit(op), Unit(op))
  }

  function EliminateEq(e1: Expr, e2: Expr): (r: (Expr, Expr))
    ensures Nodes(r.0) <= Nodes(e1) && Nodes(r.1) <= Nodes(e2)
    decreases Nodes(e1) + Nodes(e2), 1
  {
    var (f1, f2) := if e1.Bin? then EliminateEqSpine(e1.op, e1, e2) else (e1, e2);
    var (g1, g2) :=
      if f2.Bin? && !IsBin(f2.op, f1) then EliminateEqSpine(f2.op, f1, f2) else (f1, f2);
    (EliminateYN(g1), EliminateYN(g2))
  }

  predicate ExprEq(e1: Expr, e2: Expr)
    decreases Nodes(e1) + Nodes(e2), 2
  {
    match (e1, e2)
    case (Comp(q1, l1, r1), Comp(q2, l2, r2)) => q1 == q2 && l1 == l2 && r1 == r2
    case (Sym(s1), Sym(s2)) => s1 == s2
    case (Not(x1), Not(x2)) => ExprEq(x1, x2)
    case (Bin(op1, _, _), Bin(op2, _, _)) =>
      op1 == op2 &&
      var (f1, f2) := EliminateEq(e1, e2);
      f1.Sym? && f2.Sym? && f1.s == f2.s
    case _ => false
  }

  /** `whole` is `factor op rest` in every well-typed assignment. */
  ghost predicate SplitsInto(op: Op, whole: Expr, factor: Expr, rest: Expr) {
    forall a: Assignment | WellTyped(a) :: Value(whole, a) == ApplyOp(op, Value(factor, a), Value(rest, a))
  }

  lemma UnitIsNeutral(op: Op, e: Expr)
    ensures SplitsInto(op, e, Unit(op), e)
    ensures SplitsInto(op, e, e, Unit(op))
  {
    forall a: Assignment | WellTyped(a)
      ensures a(UnitSymbol(op)).tri == UnitValue(op)
    {
      assert HoldsAllowedValue(UnitSymbol(op), a(UnitSymbol(op)));
    }
  }

  /** Splitting off one factor and then another splits off their combination. */
  lemma SplitTwice(op: Op, e: Expr, c1: Expr, f: Expr, c2: Expr, g: Expr)
    requires SplitsInto(op, e, c1, f) && SplitsInto(op, f, c2, g)
    ensures SplitsInto(op, e, Bin(op, c1, c2), g)
  {
    forall a: Assignment | WellTyped(a)
      ensures Value(e, a) == ApplyOp(op, Value(Bin(op, c1, c2), a), Value(g, a))
    {
      assert Value(f, a) == ApplyOp(op, Value(c2, a), Value(g, a));
    }
  }

  lemma FactorsMove(op: Op, c1: Tristate, x: Tristate, c2: Tristate, y: Tristate)
    ensures ApplyOp(op, ApplyOp(op, c1, x), ApplyOp(op, c2, y)) == ApplyOp(op, ApplyOp(op, c1, c2), ApplyOp(op, x, y))
  {
  }

  lemma SplitBoth(op: Op, l: Expr, c1: Expr, l': Expr, r: Expr, c2: Expr, r': Expr)
    requires SplitsInto(op, l, c1, l') && SplitsInto(op, r, c2, r')
    ensures SplitsInto(op, Bin(op, l, r), Bin(op, c1, c2), Bin(op, l', r'))
  {
    forall a: Assignment | WellTyped(a)
      ensures Value(Bin(op, l, r), a) == ApplyOp(op, Value(Bin(op, c1, c2), a), Value(Bin(op, l', r'), a))
    {
      FactorsMove(op, Value(c1, a), Value(l', a), Value(c2, a), Value(r', a));
    }
  }

  /** What one pass takes out of the two trees is one expression `c`, the same for both. */
  lemma {:induction false} SpineHasCommonFactor(op: Op, e1: Expr, e2: Expr) returns (c: Expr)
    ensures SplitsInto(op, e1, c, EliminateEqSpine(op, e1, e2).0)
    ensures SplitsInto(op, e2, c, EliminateEqSpine(op, e1, e2).1)
    decreases Nodes(e1) + Nodes(e2), SpineRank(op, e1, e2)
  {
    if IsBin(op, e1) {
      var (l, e2') := EliminateEqSpine(op, e1.l, e2);
      var (r, e2'') := EliminateEqSpine(op, e1.r, e2');
      var c1 := SpineHasCommonFactor(op, e1.l, e2);
      var c2 := SpineHasCommonFactor(op, e1.r, e2');
      c := Bin(op, c1, c2);
      SplitBoth(op, e1.l, c1, l, e1.r, c2, r);
      SplitTwice(op, e2, c1, e2', c2, e2'');
    } else if IsBin(op, e2) {
      var (e1', l) := EliminateEqSpine(op, e1, e2.l);
      var (e1'', r) := EliminateEqSpine(op, e1', e2.r);
      var c1 := SpineHasCommonFactor(op, e1, e2.l);
      var c2 := SpineHasCommonFactor(op, e1', e2.r);
      c := Bin(op, c1, c2);
      SplitBoth(op, e2.l, c1, l, e2.r, c2, r);
      SplitTwice(op, e1, c1, e1', c2, e1'');
    } else if (e1 == e2 && (IsYes(e1) || IsNo(e1))) || !ExprEq(e1, e2) {
      c := Unit(op);
      UnitIsNeutral(op, e1);
      UnitIsNeutral(op, e2);
    } else {
      c := e1;
      ExprEqIsSound(e1, e2);
      UnitIsNeutral(op, e1);
      UnitIsNeutral(op, e2);
    }
  }

  /** `expr_eq` answers 1 only for expressions of equal value. */
  lemma {:induction false} ExprEqIsSound(e1: Expr, e2: Expr)
    requires ExprEq(e1, e2)
    ensures SameValue(e1, e2)
    decreases Nodes(e1) + Nodes(e2), 2
  {
    match e1
    case Sym(_) =>
    case Comp(_, _, _) =>
    case Not(x1) =>
      ExprEqIsSound(x1, e2.e);
      forall a: Assignment | WellTyped(a)
        ensures Value(e1, a) == Value(e2, a)
      {
        assert Value(x1, a) == Value(e2.e, a);
      }
    case Bin(op, _, _) =>
      var (f1, f2) := EliminateEqSpine(op, e1, e2);
      var c := SpineHasCommonFactor(op, e1, e2);
      forall a: Assignment | WellTyped(a)
        ensures Value(e1, a) == Value(e2, a)
      {
        EliminateYNKeepsValue(f1, a);
        EliminateYNKeepsValue(f2, a);
      }
  }

  /** The eliminator works in up to two passes, one per operator. */
  lemma EliminateEqHasCommonFactors(e1: Expr, e2: Expr)
    returns (op: Op, c: Expr, m1: Expr, m2: Expr, d: Expr)
    ensures SplitsInto(op, e1, c, m1) && SplitsInto(op, e2, c, m2)
    ensures SplitsInto(Dual(op), m1, d, EliminateEq(e1, e2).0)
    ensures SplitsInto(Dual(op), m2, d, EliminateEq(e1, e2).1)
    ensures e1.Bin? ==> op == e1.op
    ensures e1.Bin? && IsBin(e1.op, e2) ==> d == Unit(Dual(op))
  {
    var (f1, f2) := if e1.Bin? then EliminateEqSpine(e1.op, e1, e2) else (e1, e2);
    var (g1, g2) :=
      if f2.Bin? && !IsBin(f2.op, f1) then EliminateEqSpine(f2.op, f1, f2) else (f1, f2);
    op := if e1.Bin? then e1.op else if e2.Bin? then Dual(e2.op) else AND;
    if e1.Bin? {
      c := SpineHasCommonFactor(op, e1, e2);
    } else {
      c := Unit(op);
      UnitIsNeutral(op, e1);
      UnitIsNeutral(op, e2);
    }
    m1, m2 := f1, f2;
    if f2.Bin? && !IsBin(f2.op, f1) {
      d := SpineHasCommonFactor(Dual(op), f1, f2);
    } else {
      d := Unit(Dual(op));
      UnitIsNeutral(Dual(op), f1);
      UnitIsNeutral(Dual(op), f2);
    }
    forall a: Assignment | WellTyped(a)
      ensures Value(g1, a) == Value(EliminateYN(g1), a) && Value(g2, a) == Value(EliminateYN(g2), a)
    {
      EliminateYNKeepsValue(g1, a);
      EliminateYNKeepsValue(g2, a);
    }
  }

  /** Whatever order holds between what is left holds between the originals, so a second argument
      reduced to `y` means the first implies the second. */
  lemma EliminateEqReflectsOrder(e1: Expr, e2: Expr, a: Assignment)
    requires WellTyped(a)
    ensures Value(EliminateEq(e1, e2).0, a) <= Value(EliminateEq(e1, e2).1, a) ==> Value(e1, a) <= Value(e2, a)
    ensures IsYes(EliminateEq(e1, e2).1) ==> Value(e1, a) <= Value(e2, a)
  {
    var op, c, m1, m2, d := EliminateEqHasCommonFactors(e1, e2);
    assert HoldsAllowedValue(SymYes, a(SymYes));
    var r := EliminateEq(e1, e2);
    assert Value(m1, a) == ApplyOp(Dual(op), Value(d, a), Value(r.0, a));
    assert Value(m2, a) == ApplyOp(Dual(op), Value(d, a), Value(r.1, a));
  }

  // ----- what elimination is guaranteed to remove -----

  predicate IsYesOrNo(e: Expr) {
    IsYes(e) || IsNo(e)
  }

  /** No operand of one side is still matched by an operand of the other, constants aside. */
  ghost predicate NothingShared(op: Op, e1: Expr, e2: Expr) {
    forall x, y | x in Operands(op, e1) && y in Operands(op, e2) && ExprEq(x, y) :: IsYesOrNo(x) && x == y
  }

  /** Elimination only ever replaces operands by the neutral constant. */
  ghost predicate OperandsAmong(op: Op, e: Expr, before: Expr) {
    forall x | x in Operands(op, e) :: x == Unit(op) || x in Operands(op, before)
  }

  /** The left part was done against `f`, the right part against what that left of it. */
  lemma LeftPartsShareNothing(op: Op, l: Expr, r: Expr, f: Expr, f': Expr)
    requires NothingShared(op, l, f) && OperandsAmong(op, f', f) && NothingShared(op, r, f')
    ensures NothingShared(op, Bin(op, l, r), f')
  {
  }

  lemma RightPartsShareNothing(op: Op, f: Expr, f': Expr, l: Expr, r: Expr)
    requires NothingShared(op, f, l) && OperandsAmong(op, f', f) && NothingShared(op, f', r)
    ensures NothingShared(op, f', Bin(op, l, r))
  {
  }

  lemma AmongParts(op: Op, l: Expr, r: Expr, l': Expr, r': Expr)
    requires OperandsAmong(op, l', l) && OperandsAmong(op, r', r)
    ensures OperandsAmong(op, Bin(op, l', r'), Bin(op, l, r))
  {
  }

  lemma SingleOperandsShareNothing(op: Op, e1: Expr, e2: Expr)
    requires !IsBin(op, e1) && !IsBin(op, e2)
    ensures var r := EliminateEqSpine(op, e1, e2);
      NothingShared(op, r.0, r.1) && OperandsAmong(op, r.0, e1) && OperandsAmong(op, r.1, e2)
  {
  }

  lemma {:induction false} SpineLeavesNothingShared(op: Op, e1: Expr, e2: Expr)
    ensures var r := EliminateEqSpine(op, e1, e2);
      NothingShared(op, r.0, r.1) && OperandsAmong(op, r.0, e1) && OperandsAmong(op, r.1, e2)
    decreases Nodes(e1) + Nodes(e2)
  {
    if IsBin(op, e1) {
      var (l, f) := EliminateEqSpine(op, e1.l, e2);
      var (r, f') := EliminateEqSpine(op, e1.r, f);
      SpineLeavesNothingShared(op, e1.l, e2);
      SpineLeavesNothingShared(op, e1.r, f);
      assert EliminateEqSpine(op, e1, e2) == (Bin(op, l, r), f');
      LeftPartsShareNothing(op, l, r, f, f');
      AmongParts(op, e1.l, e1.r, l, r);
    } else if IsBin(op, e2) {
      var (f, l) := EliminateEqSpine(op, e1, e2.l);
      var (f', r) := EliminateEqSpine(op, f, e2.r);
      SpineLeavesNothingShared(op, e1, e2.l);
      SpineLeavesNothingShared(op, f, e2.r);
      assert EliminateEqSpine(op, e1, e2) == (f', Bin(op, l, r));
      RightPartsShareNothing(op, f, f', l, r);
      AmongParts(op, e2.l, e2.r, l, r);
    } else {
      SingleOperandsShareNothing(op, e1, e2);
    }
  }

  /** A constant operand is left alone and leaves the other side alone. */
  lemma {:induction false} ConstantScan(op: Op, c: Expr, e2: Expr)
    requires IsYesOrNo(c)
    ensures EliminateEqSpine(op, c, e2) == (c, e2)
  {
    if IsBin(op, e2) {
      ConstantScan(op, c, e2.l);
      ConstantScan(op, c, e2.r);
    }
  }

  ghost predicate AllConstant(xs: seq<Expr>) {
    forall x | x in xs :: IsYesOrNo(x)
  }

  /** Any other operand passes over constants. */
  lemma {:induction false} ScanPastConstants(op: Op, x: Expr, e2: Expr)
    requires !IsBin(op, x) && !IsYesOrNo(x) && AllConstant(Operands(op, e2))
    ensures EliminateEqSpine(op, x, e2) == (x, e2)
  {
    if IsBin(op, e2) {
      ScanPastConstants(op, x, e2.l);
      ScanPastConstants(op, x, e2.r);
    } else {
      assert e2 in Operands(op, e2);
    }
  }

  lemma OperandChangesLeft(op: Op, l: Expr, l': Expr, r: Expr, p: nat)
    requires p < |Operands(op, l)| && Operands(op, l') == Operands(op, l)[p := Unit(op)]
    ensures Operands(op, Bin(op, l', r)) == Operands(op, Bin(op, l, r))[p := Unit(op)]
  {
  }

  lemma OperandChangesRight(op: Op, l: Expr, r: Expr, r': Expr, p: nat)
    requires p < |Operands(op, r)| && Operands(op, r') == Operands(op, r)[p := Unit(op)]
    ensures Operands(op, Bin(op, l, r')) == Operands(op, Bin(op, l, r))[|Operands(op, l)| + p := Unit(op)]
  {
  }

  /** An operand goes through the left part, and what is left of it through the right. */
  lemma ScanBoth(op: Op, x: Expr, l: Expr, r: Expr)
    requires !IsBin(op, x)
    ensures var (x', l') := EliminateEqSpine(op, x, l);
      EliminateEqSpine(op, x, Bin(op, l, r)) ==
        (EliminateEqSpine(op, x', r).0, Bin(op, l', EliminateEqSpine(op, x', r).1))
  {
  }

  /** ... and is cancelled against the first copy of itself. */
  lemma {:induction false} ScanMeetsCopy(op: Op, x: Expr, e2: Expr, p: nat)
    requires !IsBin(op, x) && !IsYesOrNo(x) && ExprEq(x, x)
    requires p < |Operands(op, e2)| && Operands(op, e2)[p] == x && AllConstant(Operands(op, e2)[..p])
    ensures var r := EliminateEqSpine(op, x, e2);
      r.0 == Unit(op) && Operands(op, r.1) == Operands(op, e2)[p := Unit(op)]
  {
    if IsBin(op, e2) {
      ScanBoth(op, x, e2.l, e2.r);
      var n := |Operands(op, e2.l)|;
      if p < n {
        assert Operands(op, e2)[..p] == Operands(op, e2.l)[..p];
        ScanMeetsCopy(op, x, e2.l, p);
        ConstantScan(op, Unit(op), e2.r);
        OperandChangesLeft(op, e2.l, EliminateEqSpine(op, x, e2.l).1, e2.r, p);
      } else {
        assert Operands(op, e2)[..p] == Operands(op, e2.l) + Operands(op, e2.r)[..p - n];
        ScanPastConstants(op, x, e2.l);
        ScanMeetsCopy(op, x, e2.r, p - n);
        OperandChangesRight(op, e2.l, e2.r, EliminateEqSpine(op, x, e2.r).1, p - n);
      }
    }
  }

  function Cancelled(op: Op, x: Expr): Expr {
    if IsYesOrNo(x) then x else Unit(op)
  }

  function CancelledAll(op: Op, xs: seq<Expr>): (ys: seq<Expr>)
    ensures |ys| == |xs| && forall k | 0 <= k < |xs| :: ys[k] == Cancelled(op, xs[k])
  {
    seq(|xs|, k requires 0 <= k < |xs| => Cancelled(op, xs[k]))
  }

  lemma CancelledAllConcat(op: Op, xs: seq<Expr>, ys: seq<Expr>)
    ensures CancelledAll(op, xs + ys) == CancelledAll(op, xs) + CancelledAll(op, ys)
  {
  }

  lemma ConcatAssociates<T>(a: seq<T>, b: seq<T>, c: seq<T>, d: seq<T>)
    ensures a + (b + c) + d == a + b + (c + d) == (a + b) + c + d
  {
  }

  ghost predicate AllMatchThemselves(xs: seq<Expr>) {
    forall x | x in xs :: ExprEq(x, x)
  }

  /** Run against a tree holding the same operands between `before` and `after`, with only
      constants before them, every operand meets its own copy. */
  lemma {:induction false} CopyCancels(op: Op, e1: Expr, e2: Expr, before: seq<Expr>, after: seq<Expr>)
    requires Operands(op, e2) == before + Operands(op, e1) + after && AllConstant(before)
    requires AllMatchThemselves(Operands(op, e1))
    ensures Operands(op, EliminateEqSpine(op, e1, e2).0) == CancelledAll(op, Operands(op, e1))
    ensures Operands(op, EliminateEqSpine(op, e1, e2).1) == before + CancelledAll(op, Operands(op, e1)) + after
  {
    if IsBin(op, e1) {
      var ls, rs := Operands(op, e1.l), Operands(op, e1.r);
      ConcatAssociates(before, ls, rs, after);
      CopyCancels(op, e1.l, e2, before, rs + after);
      var cs := CancelledAll(op, ls);
      ConcatAssociates(before, cs, rs, after);
      CopyCancels(op, e1.r, EliminateEqSpine(op, e1.l, e2).1, before + cs, after);
      CancelledAllConcat(op, ls, rs);
      ConcatAssociates(before, cs, CancelledAll(op, rs), after);
    } else {
      CopyCancelsOne(op, e1, e2, before, after);
    }
  }

  lemma CopyCancelsOne(op: Op, e1: Expr, e2: Expr, before: seq<Expr>, after: seq<Expr>)
    requires !IsBin(op, e1) && ExprEq(e1, e1)
    requires Operands(op, e2) == before + [e1] + after && AllConstant(before)
    ensures EliminateEqSpine(op, e1, e2).0 == Cancelled(op, e1)
    ensures Operands(op, EliminateEqSpine(op, e1, e2).1) == before + [Cancelled(op, e1)] + after
  {
    if IsYesOrNo(e1) {
      ConstantScan(op, e1, e2);
    } else {
      var p := |before|;
      assert Operands(op, e2)[p] == e1 && Operands(op, e2)[..p] == before;
      ScanMeetsCopy(op, e1, e2, p);
      assert (before + [e1] + after)[p := Unit(op)] == before + [Unit(op)] + after;
    }
  }

  /** A tree whose operands are constants folds to a constant that depends on them alone. */
  lemma {:induction false} ConstantOperandsFold(op: Op, e: Expr)
    requires AllConstant(Operands(op, e))
    ensures EliminateYN(e) == if Unit(Dual(op)) in Operands(op, e) then Unit(Dual(op)) else Unit(op)
  {
    if IsBin(op, e) {
      ConstantOperandsFold(op, e.l);
      ConstantOperandsFold(op, e.r);
    } else {
      assert e in Operands(op, e);
    }
  }

  lemma CancelledTreesFoldAlike(op: Op, xs: seq<Expr>, f1: Expr, f2: Expr)
    requires Operands(op, f1) == CancelledAll(op, xs) == Operands(op, f2)
    ensures EliminateYN(f1) == EliminateYN(f2) && EliminateYN(f1).Sym?
  {
    ConstantOperandsFold(op, f1);
    ConstantOperandsFold(op, f2);
  }

  lemma NothingAround<T>(xs: seq<T>)
    ensures [] + xs + [] == xs
  {
  }

  lemma CopyCancelsAll(op: Op, e: Expr)
    requires AllMatchThemselves(Operands(op, e))
    ensures var r := EliminateEqSpine(op, e, e);
      Operands(op, r.0) == CancelledAll(op, Operands(op, e)) == Operands(op, r.1)
  {
    NothingAround(Operands(op, e));
    NothingAround(CancelledAll(op, Operands(op, e)));
    CopyCancels(op, e, e, [], []);
  }

  /** Cancelling a tree against its copy leaves the same constant on both sides. */
  lemma CopyFoldsToConstant(op: Op, e: Expr)
    requires AllMatchThemselves(Operands(op, e))
    ensures var r := EliminateEqSpine(op, e, e);
      EliminateYN(r.0) == EliminateYN(r.1) && EliminateYN(r.0).Sym?
  {
    var (f1, f2) := EliminateEqSpine(op, e, e);
    CopyCancelsAll(op, e);
    CancelledTreesFoldAlike(op, Operands(op, e), f1, f2);
  }

  /** `expr_eq` recognises every copy. */
  lemma {:induction false} ExprEqIsReflexive(e: Expr)
    ensures ExprEq(e, e)
    decreases Nodes(e)
  {
    match e
    case Sym(_) =>
    case Comp(_, _, _) =>
    case Not(x) => ExprEqIsReflexive(x);
    case Bin(op, _, _) =>
      OperandsAreSmaller(op, e);
      forall x | x in Operands(op, e)
        ensures ExprEq(x, x)
      {
        ExprEqIsReflexive(x);
      }
      CopyFoldsToConstant(op, e);
      var f := EliminateEqSpine(op, e, e);
      assert EliminateEq(e, e) == (EliminateYN(f.0), EliminateYN(f.1));
  }

  lemma {:induction false} OperandsAreSmaller(op: Op, e: Expr)
    ensures forall x | x in Operands(op, e) :: if IsBin(op, e) then Nodes(x) < Nodes(e) else x == e
  {
    if IsBin(op, e) {
      OperandsAreSmaller(op, e.l);
      OperandsAreSmaller(op, e.r);
    }
  }

  // ----- expr_extract_eq, expr_extract_eq_and, expr_extract_eq_or -----

  datatype Extraction = Extraction(common: Option<Expr>, left: Expr, right: Expr)

  function Extend(op: Op, acc: Option<Expr>, e: Expr): Option<Expr> {
    if acc.Some? then Some(Bin(op, acc.value, e)) else Some(e)
  }

  function ExtractSpine(op: Op, acc: Option<Expr>, e1: Expr, e2: Expr): (x: Extraction)
    ensures IsBin(op, e1) ==> IsBin(op, x.left)
    ensures IsBin(op, e2) ==> IsBin(op, x.right)
    ensures Nodes(x.left) <= Nodes(e1) && Nodes(x.right) <= Nodes(e2)
    decreases Nodes(e1) + Nodes(e2)
  {
    if IsBin(op, e1) then
      var x1 := ExtractSpine(op, acc, e1.l, e2);
      var x2 := ExtractSpine(op, x1.common, e1.r, x1.right);
      Extraction(x2.common, Bin(op, x1.left, x2.left), x2.right)
    else if IsBin(op, e2) then
      var x1 := ExtractSpine(op, acc, e1, e2.l);
      var x2 := ExtractSpine(op, x1.common, x1.left, e2.r);
      Extraction(x2.common, x2.left, Bin(op, x1.right, x2.right))
    else if ExprEq(e1, e2) then
      Extraction(Extend(op, acc, e1), Unit(op), Unit(op))
    else
      Extraction(acc, e1, e2)
  }

  /** `expr_extract_eq_and` for AND, `expr_extract_eq_or` for OR. */
  function Extract(op: Op, e1: Expr, e2: Expr): Extraction {
    var x := ExtractSpine(op, None, e1, e2);
    if x.common.Some? then Extraction(x.common, EliminateYN(x.left), EliminateYN(x.right)) else x
  }

  function OrUnit(op: Op, acc: Option<Expr>): Expr {
    if acc.Some? then acc.value else Unit(op)
  }

  lemma {:induction false} ExtractSpineHasCommonFactor(op: Op, acc: Option<Expr>, e1: Expr, e2: Expr)
    returns (c: Expr)
    ensures var x := ExtractSpine(op, acc, e1, e2);
      SplitsInto(op, e1, c, x.left) && SplitsInto(op, e2, c, x.right) &&
      SplitsInto(op, OrUnit(op, x.common), c, OrUnit(op, acc))
    decreases Nodes(e1) + Nodes(e2)
  {
    if IsBin(op, e1) {
      var x1 := ExtractSpine(op, acc, e1.l, e2);
      var x2 := ExtractSpine(op, x1.common, e1.r, x1.right);
      var c1 := ExtractSpineHasCommonFactor(op, acc, e1.l, e2);
      var c2 := ExtractSpineHasCommonFactor(op, x1.common, e1.r, x1.right);
      c := Bin(op, c2, c1);
      SplitBoth(op, e1.l, c1, x1.left, e1.r, c2, x2.left);
      SplitTwice(op, e2, c1, x1.right, c2, x2.right);
      SplitTwice(op, OrUnit(op, x2.common), c2, OrUnit(op, x1.common), c1, OrUnit(op, acc));
      SwapFactor(op, e1, c1, c2, Bin(op, x1.left, x2.left));
      SwapFactor(op, e2, c1, c2, x2.right);
    } else if IsBin(op, e2) {
      var x1 := ExtractSpine(op, acc, e1, e2.l);
      var x2 := ExtractSpine(op, x1.common, x1.left, e2.r);
      var c1 := ExtractSpineHasCommonFactor(op, acc, e1, e2.l);
      var c2 := ExtractSpineHasCommonFactor(op, x1.common, x1.left, e2.r);
      c := Bin(op, c2, c1);
      SplitBoth(op, e2.l, c1, x1.right, e2.r, c2, x2.right);
      SplitTwice(op, e1, c1, x1.left, c2, x2.left);
      SplitTwice(op, OrUnit(op, x2.common), c2, OrUnit(op, x1.common), c1, OrUnit(op, acc));
      SwapFactor(op, e2, c1, c2, Bin(op, x1.right, x2.right));
      SwapFactor(op, e1, c1, c2, x2.left);
    } else if ExprEq(e1, e2) {
      c := e1;
      ExprEqIsSound(e1, e2);
      UnitIsNeutral(op, e1);
      UnitIsNeutral(op, e2);
      ExtendSplits(op, acc, e1);
    } else {
      c := Unit(op);
      UnitIsNeutral(op, e1);
      UnitIsNeutral(op, e2);
      UnitIsNeutral(op, OrUnit(op, acc));
    }
  }

  lemma SwapFactor(op: Op, e: Expr, c1: Expr, c2: Expr, f: Expr)
    requires SplitsInto(op, e, Bin(op, c1, c2), f)
    ensures SplitsInto(op, e, Bin(op, c2, c1), f)
  {
    forall a: Assignment | WellTyped(a)
      ensures Value(e, a) == ApplyOp(op, Value(Bin(op, c2, c1), a), Value(f, a))
    {
      assert Value(e, a) == ApplyOp(op, Value(Bin(op, c1, c2), a), Value(f, a));
    }
  }

  lemma ExtendSplits(op: Op, acc: Option<Expr>, e: Expr)
    ensures SplitsInto(op, OrUnit(op, Extend(op, acc, e)), e, OrUnit(op, acc))
  {
    UnitIsNeutral(op, e);
  }

  /** The extracted expression is a common factor of both arguments. */
  lemma ExtractIsCommonFactor(op: Op, e1: Expr, e2: Expr)
    ensures var x := Extract(op, e1, e2);
      SplitsInto(op, e1, OrUnit(op, x.common), x.left) && SplitsInto(op, e2, OrUnit(op, x.common), x.right)
  {
    var x := ExtractSpine(op, None, e1, e2);
    var c := ExtractSpineHasCommonFactor(op, None, e1, e2);
    forall a: Assignment | WellTyped(a)
      ensures Value(e1, a) == ApplyOp(op, Value(OrUnit(op, x.common), a), Value(Extract(op, e1, e2).left, a))
      ensures Value(e2, a) == ApplyOp(op, Value(OrUnit(op, x.common), a), Value(Extract(op, e1, e2).right, a))
    {
      assert HoldsAllowedValue(UnitSymbol(op), a(UnitSymbol(op)));
      assert Value(OrUnit(op, x.common), a) == ApplyOp(op, Value(c, a), Value(Unit(op), a));
      EliminateYNKeepsValue(x.left, a);
      EliminateYNKeepsValue(x.right, a);
    }
  }
}
