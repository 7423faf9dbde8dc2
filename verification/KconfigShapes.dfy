/** What the equality test (at91bootstrap/config/expr.c:203-245) recognises: expressions that are the
    same up to the order and the grouping of operands, at every depth; and what elimination and
    extraction therefore leave. */
module KconfigShapes {
  import opened KconfigExpr
  import opened KconfigCommon
  import opened Wrappers

  /** An expression, with the operands of each spine in no order. */
  datatype Shape =
    | SymShape(s: Symbol)
    | NotShape(x: Shape)
    | CompShape(equal: bool, left: Symbol, right: Symbol)
    | SpineShape(op: Op, parts: multiset<Shape>)

  function ShapeOf(e: Expr): Shape
    decreases Nodes(e), 0
  {
    match e
    case Sym(s) => SymShape(s)
    case Not(x) => NotShape(ShapeOf(x))
    case Comp(equal, left, right) => CompShape(equal, left, right)
    case Bin(op, l, r) => SpineShape(op, Parts(op, l) + Parts(op, r))
  }

  function Parts(op: Op, e: Expr): multiset<Shape>
    decreases Nodes(e), 1
  {
    if IsBin(op, e) then Parts(op, e.l) + Parts(op, e.r) else multiset{ShapeOf(e)}
  }

  /** How many operands have shape `c`, constants `y` and `n` left out. */
  function Count(op: Op, e: Expr, c: Shape): nat {
    if IsBin(op, e) then Count(op, e.l, c) + Count(op, e.r, c)
    else if !IsYesOrNo(e) && ShapeOf(e) == c then 1
    else 0
  }

  /** Two spines have the same operands, in any order. */
  ghost predicate SameCounts(op: Op, e1: Expr, e2: Expr) {
    forall c: Shape :: Count(op, e1, c) == Count(op, e2, c)
  }

  /** The constant that decides the whole spine is among the operands. */
  predicate HasDecider(op: Op, e: Expr) {
    if IsBin(op, e) then HasDecider(op, e.l) || HasDecider(op, e.r) else e == Unit(Dual(op))
  }

  /** No AND or OR node, not even below a NOT, has a constant `y` or `n` for a side. */
  predicate NoFoldables(e: Expr) {
    match e
    case Not(x) => NoFoldables(x)
    case Bin(_, l, r) => !IsYesOrNo(l) && !IsYesOrNo(r) && NoFoldables(l) && NoFoldables(r)
    case _ => true
  }

  /** The operands are so; constants may be among them. */
  predicate CleanOperands(op: Op, e: Expr) {
    if IsBin(op, e) then CleanOperands(op, e.l) && CleanOperands(op, e.r) else NoFoldables(e)
  }

  lemma {:induction false} CleanSpine(op: Op, e: Expr)
    requires NoFoldables(e)
    ensures CleanOperands(op, e) && EliminateYN(e) == e
    ensures !IsYesOrNo(e) ==> !HasDecider(op, e) && forall c: Shape :: Count(op, e, c) == Parts(op, e)[c]
  {
    if e.Bin? {
      CleanSpine(op, e.l);
      CleanSpine(op, e.r);
    }
  }

  // ----- elimination takes each side's operands away from the other's -----

  function Less(m: nat, n: nat): nat {
    if m > n then m - n else 0
  }

  ghost predicate StaysClean(op: Op, e: Expr, f: Expr) {
    CleanOperands(op, f) && HasDecider(op, f) == HasDecider(op, e)
  }

  /** What is left of each side, of operands with shape `c`. */
  ghost predicate Subtracts(op: Op, e1: Expr, e2: Expr, f1: Expr, f2: Expr, c: Shape) {
    StaysClean(op, e1, f1) && StaysClean(op, e2, f2) &&
    Count(op, f1, c) == Less(Count(op, e1, c), Count(op, e2, c)) &&
    Count(op, f2, c) == Less(Count(op, e2, c), Count(op, e1, c))
  }

  lemma SubtractsSwapped(op: Op, e1: Expr, e2: Expr, f1: Expr, f2: Expr, c: Shape)
    requires Subtracts(op, e1, e2, f1, f2, c)
    ensures Subtracts(op, e2, e1, f2, f1, c)
  {
  }

  lemma NothingSubtracted(op: Op, e1: Expr, e2: Expr, c: Shape)
    requires CleanOperands(op, e1) && CleanOperands(op, e2) && (Count(op, e1, c) == 0 || Count(op, e2, c) == 0)
    ensures Subtracts(op, e1, e2, e1, e2, c)
  {
  }

  lemma BothSubtracted(op: Op, e1: Expr, e2: Expr, c: Shape)
    requires !IsBin(op, e1) && !IsBin(op, e2) && !IsYesOrNo(e1) && !IsYesOrNo(e2) && ShapeOf(e1) == ShapeOf(e2)
    ensures Subtracts(op, e1, e2, Unit(op), Unit(op), c)
  {
  }

  lemma SingleSubtracts(op: Op, e1: Expr, e2: Expr, c: Shape)
    requires !IsBin(op, e1) && !IsBin(op, e2) && NoFoldables(e1) && NoFoldables(e2)
    requires ExprEq(e1, e2) <==> ShapeOf(e1) == ShapeOf(e2)
    ensures var r := EliminateEqSpine(op, e1, e2); Subtracts(op, e1, e2, r.0, r.1, c)
  {
    if !IsYesOrNo(e1) && !IsYesOrNo(e2) && ExprEq(e1, e2) {
      BothSubtracted(op, e1, e2, c);
    } else {
      NothingSubtracted(op, e1, e2, c);
    }
  }

  lemma LessTwice(m: nat, n: nat, e: nat)
    ensures Less(m, e) + Less(n, Less(e, m)) == Less(m + n, e)
    ensures Less(Less(e, m), n) == Less(e, m + n)
  {
  }

  lemma OfBoth(op: Op, l: Expr, r: Expr, c: Shape)
    ensures Count(op, Bin(op, l, r), c) == Count(op, l, c) + Count(op, r, c)
    ensures HasDecider(op, Bin(op, l, r)) == (HasDecider(op, l) || HasDecider(op, r))
    ensures CleanOperands(op, Bin(op, l, r)) == (CleanOperands(op, l) && CleanOperands(op, r))
  {
  }

  /** The left part was done against `e`, the right part against what that left of it. */
  lemma PartsSubtract(op: Op, l: Expr, r: Expr, e: Expr, l': Expr, r': Expr, f: Expr, g: Expr, c: Shape)
    requires Subtracts(op, l, e, l', f, c) && Subtracts(op, r, f, r', g, c)
    ensures Subtracts(op, Bin(op, l, r), e, Bin(op, l', r'), g, c)
  {
    OfBoth(op, l, r, c);
    OfBoth(op, l', r', c);
    LessTwice(Count(op, l, c), Count(op, r, c), Count(op, e, c));
  }

  lemma {:induction false} SpineSubtracts(op: Op, e1: Expr, e2: Expr, c: Shape)
    requires CleanOperands(op, e1) && CleanOperands(op, e2)
    ensures var r := EliminateEqSpine(op, e1, e2); Subtracts(op, e1, e2, r.0, r.1, c)
    decreases Nodes(e1) + Nodes(e2), SpineRank(op, e1, e2)
  {
    if IsBin(op, e1) {
      var (l, f) := EliminateEqSpine(op, e1.l, e2);
      var (r, g) := EliminateEqSpine(op, e1.r, f);
      SpineSubtracts(op, e1.l, e2, c);
      SpineSubtracts(op, e1.r, f, c);
      PartsSubtract(op, e1.l, e1.r, e2, l, r, f, g, c);
    } else if IsBin(op, e2) {
      var (f, l) := EliminateEqSpine(op, e1, e2.l);
      var (g, r) := EliminateEqSpine(op, f, e2.r);
      SpineSubtracts(op, e1, e2.l, c);
      SpineSubtracts(op, f, e2.r, c);
      SubtractsSwapped(op, e1, e2.l, f, l, c);
      SubtractsSwapped(op, f, e2.r, g, r, c);
      PartsSubtract(op, e2.l, e2.r, e1, l, r, f, g, c);
      SubtractsSwapped(op, e2, e1, Bin(op, l, r), g, c);
    } else {
      ExprEqExactlyWhen(e1, e2);
      SingleSubtracts(op, e1, e2, c);
    }
  }

  ghost predicate NoneLeft(op: Op, f: Expr) {
    forall c: Shape :: Count(op, f, c) == 0
  }

  /** What folding leaves of a spine: the constant that decides it, the neutral one if it has no other operand, or
      else something else, which is a symbol only if that is an operand. */
  ghost predicate FoldsTo(op: Op, f: Expr, e: Expr) {
    if HasDecider(op, f) then e == Unit(Dual(op))
    else if NoneLeft(op, f) then e == Unit(op)
    else !IsYesOrNo(e) && (e.Sym? ==> Count(op, f, SymShape(e.s)) > 0)
  }

  lemma NoneLeftOfParts(op: Op, l: Expr, r: Expr)
    ensures NoneLeft(op, Bin(op, l, r)) <==> NoneLeft(op, l) && NoneLeft(op, r)
  {
    forall c: Shape
      ensures Count(op, Bin(op, l, r), c) == 0 <==> Count(op, l, c) == 0 && Count(op, r, c) == 0
    {
    }
  }

  lemma {:induction false} FoldOfSpine(op: Op, f: Expr)
    requires CleanOperands(op, f)
    ensures FoldsTo(op, f, EliminateYN(f))
  {
    if IsBin(op, f) {
      FoldOfSpine(op, f.l);
      FoldOfSpine(op, f.r);
      NoneLeftOfParts(op, f.l, f.r);
    } else {
      CleanSpine(op, f);
      assert Count(op, f, ShapeOf(f)) == if IsYesOrNo(f) then 0 else 1;
    }
  }

  /** Two spines are recognised as equal exactly if both are decided by a constant, or neither is and they have
      the same operands, in any order. */
  lemma {:induction false} SpinesAreEqualExactlyWhen(op: Op, e1: Expr, e2: Expr)
    requires IsBin(op, e1) && IsBin(op, e2) && CleanOperands(op, e1) && CleanOperands(op, e2)
    ensures ExprEq(e1, e2) <==>
      HasDecider(op, e1) == HasDecider(op, e2) && (HasDecider(op, e1) || SameCounts(op, e1, e2))
    decreases Nodes(e1) + Nodes(e2), 1
  {
    var (f1, f2) := EliminateEqSpine(op, e1, e2);
    assert EliminateEq(e1, e2) == (EliminateYN(f1), EliminateYN(f2));
    forall c: Shape
      ensures Subtracts(op, e1, e2, f1, f2, c)
    {
      SpineSubtracts(op, e1, e2, c);
    }
    assert Subtracts(op, e1, e2, f1, f2, SymShape(SymYes));
    FoldOfSpine(op, f1);
    FoldOfSpine(op, f2);
    SameCountsExactlyWhen(op, e1, e2, f1, f2);
    if EliminateYN(f1).Sym? {
      assert Subtracts(op, e1, e2, f1, f2, SymShape(EliminateYN(f1).s));
    }
  }

  lemma SameCountExactlyWhen(op: Op, e1: Expr, e2: Expr, f1: Expr, f2: Expr, c: Shape)
    requires Subtracts(op, e1, e2, f1, f2, c)
    ensures Count(op, e1, c) == Count(op, e2, c) <==> Count(op, f1, c) == 0 && Count(op, f2, c) == 0
  {
  }

  lemma SameCountsExactlyWhen(op: Op, e1: Expr, e2: Expr, f1: Expr, f2: Expr)
    requires forall c: Shape :: Subtracts(op, e1, e2, f1, f2, c)
    ensures SameCounts(op, e1, e2) <==> NoneLeft(op, f1) && NoneLeft(op, f2)
  {
    forall c: Shape
      ensures Count(op, e1, c) == Count(op, e2, c) <==> Count(op, f1, c) == 0 && Count(op, f2, c) == 0
    {
      SameCountExactlyWhen(op, e1, e2, f1, f2, c);
    }
  }

  /** Where there is nothing to fold, equal is the same as having the same shape. */
  lemma {:induction false} ExprEqExactlyWhen(e1: Expr, e2: Expr)
    requires NoFoldables(e1) && NoFoldables(e2)
    ensures ExprEq(e1, e2) <==> ShapeOf(e1) == ShapeOf(e2)
    decreases Nodes(e1) + Nodes(e2), 2
  {
    match (e1, e2)
    case (Not(x1), Not(x2)) => ExprEqExactlyWhen(x1, x2);
    case (Bin(op, _, _), Bin(op2, _, _)) =>
      if op == op2 {
        CleanSpine(op, e1);
        CleanSpine(op, e2);
        SpinesAreEqualExactlyWhen(op, e1, e2);
        SameParts(op, e1, e2);
      }
    case _ =>
  }

  lemma SameParts(op: Op, e1: Expr, e2: Expr)
    requires IsBin(op, e1) && IsBin(op, e2)
    requires forall c: Shape :: Count(op, e1, c) == Parts(op, e1)[c] && Count(op, e2, c) == Parts(op, e2)[c]
    ensures ShapeOf(e1) == ShapeOf(e2) <==> SameCounts(op, e1, e2)
  {
    assert ShapeOf(e1) == SpineShape(op, Parts(op, e1)) && ShapeOf(e2) == SpineShape(op, Parts(op, e2));
    if SameCounts(op, e1, e2) {
      assert forall c: Shape :: Parts(op, e1)[c] == Count(op, e1, c) == Count(op, e2, c) == Parts(op, e2)[c];
      assert Parts(op, e1) == Parts(op, e2);
    }
  }

  // ----- operands in another order -----

  function CountIn(xs: seq<Expr>, c: Shape): nat {
    if xs == [] then 0 else (if !IsYesOrNo(xs[0]) && ShapeOf(xs[0]) == c then 1 else 0) + CountIn(xs[1..], c)
  }

  lemma {:induction false} CountInBoth(xs: seq<Expr>, ys: seq<Expr>, c: Shape)
    ensures CountIn(xs + ys, c) == CountIn(xs, c) + CountIn(ys, c)
  {
    if xs == [] {
      assert xs + ys == ys;
    } else {
      assert (xs + ys)[1..] == xs[1..] + ys;
      CountInBoth(xs[1..], ys, c);
    }
  }

  lemma {:induction false} CountIsOfOperands(op: Op, e: Expr, c: Shape)
    ensures Count(op, e, c) == CountIn(Operands(op, e), c)
    ensures HasDecider(op, e) <==> Unit(Dual(op)) in Operands(op, e)
  {
    if IsBin(op, e) {
      CountIsOfOperands(op, e.l, c);
      CountIsOfOperands(op, e.r, c);
      CountInBoth(Operands(op, e.l), Operands(op, e.r), c);
    } else {
      assert [e][1..] == [];
    }
  }

  lemma CountInMoved(ys: seq<Expr>, k: nat, c: Shape)
    requires k < |ys|
    ensures CountIn(ys, c) == CountIn([ys[k]], c) + CountIn(ys[..k] + ys[k + 1..], c)
  {
    assert ys == ys[..k] + ([ys[k]] + ys[k + 1..]);
    CountInBoth(ys[..k], [ys[k]] + ys[k + 1..], c);
    CountInBoth([ys[k]], ys[k + 1..], c);
    CountInBoth(ys[..k], ys[k + 1..], c);
  }

  lemma OneRemoved<T>(xs: seq<T>, ys: seq<T>, k: nat)
    requires xs != [] && k < |ys| && ys[k] == xs[0] && multiset(xs) == multiset(ys)
    ensures multiset(xs[1..]) == multiset(ys[..k] + ys[k + 1..])
  {
    assert xs == [xs[0]] + xs[1..];
    assert ys == ys[..k] + [ys[k]] + ys[k + 1..];
    assert multiset(xs[1..]) == multiset(xs) - multiset{xs[0]};
    assert multiset(ys[..k] + ys[k + 1..]) == multiset(ys) - multiset{ys[k]};
  }

  lemma {:induction false} CountInReordered(xs: seq<Expr>, ys: seq<Expr>, c: Shape)
    requires multiset(xs) == multiset(ys)
    ensures CountIn(xs, c) == CountIn(ys, c)
    decreases |xs|
  {
    if xs == [] {
      assert |ys| == |multiset(ys)| == 0;
    } else {
      assert xs[0] in multiset(ys);
      var k :| 0 <= k < |ys| && ys[k] == xs[0];
      OneRemoved(xs, ys, k);
      CountInReordered(xs[1..], ys[..k] + ys[k + 1..], c);
      CountInMoved(ys, k, c);
      CountInMoved(xs, 0, c);
      assert xs[..0] + xs[1..] == xs[1..];
    }
  }

  /** A spine is recognised with its operands in any order and grouping. */
  lemma ReorderedIsEqual(op: Op, e1: Expr, e2: Expr)
    requires IsBin(op, e1) && IsBin(op, e2) && CleanOperands(op, e1) && CleanOperands(op, e2)
    requires multiset(Operands(op, e1)) == multiset(Operands(op, e2))
    ensures ExprEq(e1, e2)
  {
    forall c: Shape
      ensures Count(op, e1, c) == Count(op, e2, c)
      ensures HasDecider(op, e1) == HasDecider(op, e2)
    {
      CountIsOfOperands(op, e1, c);
      CountIsOfOperands(op, e2, c);
      CountInReordered(Operands(op, e1), Operands(op, e2), c);
      assert Unit(Dual(op)) in multiset(Operands(op, e1)) <==> Unit(Dual(op)) in multiset(Operands(op, e2));
    }
    assert Count(op, e1, SymShape(SymYes)) == Count(op, e2, SymShape(SymYes));
    SpinesAreEqualExactlyWhen(op, e1, e2);
  }

  /** In particular with its sides swapped. */
  lemma SwappedIsEqual(op: Op, l: Expr, r: Expr)
    requires CleanOperands(op, l) && CleanOperands(op, r)
    ensures ExprEq(Bin(op, l, r), Bin(op, r, l))
  {
    assert multiset(Operands(op, l) + Operands(op, r)) == multiset(Operands(op, r) + Operands(op, l));
    ReorderedIsEqual(op, Bin(op, l, r), Bin(op, r, l));
  }

  // ----- with something to fold in the operands -----

  /** `z || a`, with `&& y` added to the first, the second or neither. */
  function Either(z: Symbol, a: Symbol, first: bool, second: bool): Expr {
    var yes := Sym(SymYes);
    Bin(OR, if first then Bin(AND, Sym(z), yes) else Sym(z), if second then Bin(AND, Sym(a), yes) else Sym(a))
  }

  lemma EithersFold(z: Symbol, a: Symbol, first: bool, second: bool)
    requires z.Named? && a.Named?
    ensures EliminateYN(Either(z, a, first, second)) == Bin(OR, Sym(z), Sym(a))
  {
    var e := Either(z, a, first, second);
    assert EliminateYN(e.l) == Sym(z) && EliminateYN(e.r) == Sym(a);
  }

  lemma Meets(op: Op, x: Expr, y: Expr)
    requires !IsBin(op, x) && !IsBin(op, y) && !IsYesOrNo(x) && ExprEq(x, y)
    ensures EliminateEqSpine(op, x, y) == (Unit(op), Unit(op))
  {
  }

  lemma Passes(op: Op, x: Expr, y: Expr)
    requires !IsBin(op, x) && !IsBin(op, y) && (IsYesOrNo(x) || !ExprEq(x, y))
    ensures EliminateEqSpine(op, x, y) == (x, y)
  {
  }

  lemma LeftThenRight(op: Op, l: Expr, r: Expr, e: Expr)
    ensures var (l', f) := EliminateEqSpine(op, l, e);
      var (r', g) := EliminateEqSpine(op, r, f);
      EliminateEqSpine(op, Bin(op, l, r), e) == (Bin(op, l', r'), g)
  {
  }

  lemma TwoLeft(op: Op, e1: Expr, e2: Expr, f1: Expr, f2: Expr)
    requires IsBin(op, e1) && IsBin(op, e2) && EliminateEqSpine(op, e1, e2) == (f1, f2)
    ensures ExprEq(e1, e2) <==> EliminateYN(f1).Sym? && EliminateYN(f1) == EliminateYN(f2)
  {
    assert EliminateEq(e1, e2) == (EliminateYN(f1), EliminateYN(f2));
  }

  /** With `&& y` on one of two operands, what is left over folds to the same symbol. */
  lemma SecondAddedIsEqual(z: Symbol, a: Symbol)
    requires z.Named? && a.Named? && z != a
    ensures ExprEq(Either(z, a, false, false), Either(z, a, false, true))
  {
    var no, sz, sa, ay := Sym(SymNo), Sym(z), Sym(a), Bin(AND, Sym(a), Sym(SymYes));
    var c := Bin(OR, sz, ay);
    Meets(OR, sz, sz);
    Passes(OR, no, ay);
    ScanBoth(OR, sz, sz, ay);
    Passes(OR, sa, no);
    Passes(OR, sa, ay);
    ScanBoth(OR, sa, no, ay);
    LeftThenRight(OR, sz, sa, c);
    TwoLeft(OR, Bin(OR, sz, sa), c, Bin(OR, no, sa), Bin(OR, no, ay));
    assert EliminateYN(ay) == sa;
  }

  lemma FirstAddedIsEqual(z: Symbol, a: Symbol)
    requires z.Named? && a.Named? && z != a
    ensures ExprEq(Either(z, a, true, false), Either(z, a, false, false))
  {
    var no, sz, sa, zy := Sym(SymNo), Sym(z), Sym(a), Bin(AND, Sym(z), Sym(SymYes));
    var b := Bin(OR, sz, sa);
    Passes(OR, zy, sz);
    Passes(OR, zy, sa);
    ScanBoth(OR, zy, sz, sa);
    Passes(OR, sa, sz);
    Meets(OR, sa, sa);
    ScanBoth(OR, sa, sz, sa);
    LeftThenRight(OR, zy, sa, b);
    TwoLeft(OR, Bin(OR, zy, sa), b, Bin(OR, zy, no), Bin(OR, sz, no));
    assert EliminateYN(zy) == sz;
  }

  /** With it on different ones, both are left over. */
  lemma TwoAddedIsNot(z: Symbol, a: Symbol)
    requires z.Named? && a.Named? && z != a
    ensures !ExprEq(Either(z, a, false, true), Either(z, a, true, false))
  {
    var sz, sa, zy, ay := Sym(z), Sym(a), Bin(AND, Sym(z), Sym(SymYes)), Bin(AND, Sym(a), Sym(SymYes));
    var d := Bin(OR, zy, sa);
    assert Count(AND, ay, SymShape(a)) == 1 && Count(AND, zy, SymShape(a)) == 0;
    SpinesAreEqualExactlyWhen(AND, ay, zy);
    Passes(OR, sz, zy);
    Passes(OR, sz, sa);
    ScanBoth(OR, sz, zy, sa);
    Passes(OR, ay, zy);
    Passes(OR, ay, sa);
    ScanBoth(OR, ay, zy, sa);
    LeftThenRight(OR, sz, ay, d);
    TwoLeft(OR, Bin(OR, sz, ay), d, Bin(OR, sz, ay), d);
    EithersFold(z, a, false, true);
  }

  /** Three operands `b`, `d`, `c` against `c`, `b`, `d`: `b` takes `c`, `d` takes `b`, and `c` meets `d`. */
  lemma FirstComeFirstServed(op: Op, b: Expr, c: Expr, d: Expr)
    requires b.Bin? && c.Bin? && d.Bin? && !IsBin(op, b) && !IsBin(op, c) && !IsBin(op, d)
    requires ExprEq(b, c) && ExprEq(d, b) && !ExprEq(c, d)
    ensures var l, u := Bin(op, b, d), Unit(op);
      EliminateEqSpine(op, Bin(op, l, c), Bin(op, c, l)) == (Bin(op, Bin(op, u, u), c), Bin(op, u, Bin(op, u, d)))
  {
    var l, u := Bin(op, b, d), Unit(op);
    Meets(op, b, c);
    Passes(op, u, b);
    Passes(op, u, d);
    ScanBoth(op, u, b, d);
    ScanBoth(op, b, c, l);
    Passes(op, d, u);
    Meets(op, d, b);
    ScanBoth(op, d, b, d);
    ScanBoth(op, d, u, l);
    Passes(op, c, u);
    Passes(op, c, d);
    ScanBoth(op, c, u, d);
    ScanBoth(op, c, u, Bin(op, u, d));
    LeftThenRight(op, b, d, Bin(op, c, l));
    LeftThenRight(op, l, c, Bin(op, c, l));
  }

  /** So without that condition the sides may not be swapped: the operands are paired off first come, first served,
      and the two that are left need not match. */
  lemma SwappedCanGoUnrecognised(z: Symbol, a: Symbol)
    requires z.Named? && a.Named? && z != a
    ensures var l, r := Bin(AND, Either(z, a, false, false), Either(z, a, true, false)), Either(z, a, false, true);
      !ExprEq(Bin(AND, l, r), Bin(AND, r, l))
  {
    var b, c, d := Either(z, a, false, false), Either(z, a, false, true), Either(z, a, true, false);
    var yes, l := Sym(SymYes), Bin(AND, b, d);
    SecondAddedIsEqual(z, a);
    FirstAddedIsEqual(z, a);
    TwoAddedIsNot(z, a);
    FirstComeFirstServed(AND, b, c, d);
    var f1, f2 := Bin(AND, Bin(AND, yes, yes), c), Bin(AND, yes, Bin(AND, yes, d));
    TwoLeft(AND, Bin(AND, l, c), Bin(AND, c, l), f1, f2);
    EithersFold(z, a, false, true);
    assert EliminateYN(Bin(AND, yes, yes)) == yes;
  }

  // ----- when nothing of the second side is left -----

  lemma LessIsZero(op: Op, e1: Expr, e2: Expr, f1: Expr, f2: Expr, c: Shape)
    requires Subtracts(op, e1, e2, f1, f2, c)
    ensures Count(op, f2, c) == 0 <==> Count(op, e2, c) <= Count(op, e1, c)
  {
  }

  /** Every operand of `e2` has one of the same shape in `e1`, each a different one. */
  ghost predicate WithinCounts(op: Op, e2: Expr, e1: Expr) {
    forall c: Shape :: Count(op, e2, c) <= Count(op, e1, c)
  }

  /** What a spine leaves of `e2`. */
  lemma RestOfSpine(op: Op, e1: Expr, e2: Expr)
    requires CleanOperands(op, e1) && CleanOperands(op, e2)
    ensures var f2 := EliminateEqSpine(op, e1, e2).1;
      CleanOperands(op, f2) && HasDecider(op, f2) == HasDecider(op, e2) &&
      (NoneLeft(op, f2) <==> WithinCounts(op, e2, e1)) && FoldsTo(op, f2, EliminateYN(f2))
  {
    var (f1, f2) := EliminateEqSpine(op, e1, e2);
    SpineSubtracts(op, e1, e2, SymShape(SymYes));
    forall c: Shape
      ensures Count(op, f2, c) == 0 <==> Count(op, e2, c) <= Count(op, e1, c)
    {
      SpineSubtracts(op, e1, e2, c);
      LessIsZero(op, e1, e2, f1, f2, c);
    }
    FoldOfSpine(op, f2);
  }

  /** Whatever meets `e2`, it only loses operands. */
  lemma {:induction false} OnlyLoses(op: Op, e1: Expr, e2: Expr)
    requires CleanOperands(op, e2)
    ensures var f2 := EliminateEqSpine(op, e1, e2).1;
      CleanOperands(op, f2) && (HasDecider(op, f2) ==> HasDecider(op, e2))
    decreases Nodes(e1) + Nodes(e2), SpineRank(op, e1, e2)
  {
    if IsBin(op, e1) {
      var f := EliminateEqSpine(op, e1.l, e2).1;
      OnlyLoses(op, e1.l, e2);
      OnlyLoses(op, e1.r, f);
    } else if IsBin(op, e2) {
      var f := EliminateEqSpine(op, e1, e2.l).0;
      OnlyLoses(op, e1, e2.l);
      OnlyLoses(op, f, e2.r);
    }
  }

  /** The number of operands that are not `y` or `n`. */
  function Size(op: Op, e: Expr): nat {
    if IsBin(op, e) then Size(op, e.l) + Size(op, e.r) else if IsYesOrNo(e) then 0 else 1
  }

  lemma {:induction false} SizeIsSeen(op: Op, e: Expr)
    requires Size(op, e) > 0
    ensures !NoneLeft(op, e)
  {
    if IsBin(op, e) {
      NoneLeftOfParts(op, e.l, e.r);
      SizeIsSeen(op, if Size(op, e.l) > 0 then e.l else e.r);
    } else {
      assert Count(op, e, ShapeOf(e)) == 1;
    }
  }

  /** A single expression takes one operand at most. */
  lemma {:induction false} SingleTakesOne(op: Op, e1: Expr, e2: Expr)
    requires !IsBin(op, e1)
    ensures var r := EliminateEqSpine(op, e1, e2);
      !IsBin(op, r.0) && (r == (e1, e2) || (r.0 == Unit(op) && Size(op, r.1) + 1 >= Size(op, e2)))
    decreases e2
  {
    if IsBin(op, e2) {
      var f := EliminateEqSpine(op, e1, e2.l).0;
      SingleTakesOne(op, e1, e2.l);
      SingleTakesOne(op, f, e2.r);
      ConstantScan(op, Unit(op), e2.r);
    }
  }

  /** What is left of a spine is not `y`: of an OR because nothing in it is, of an AND because it has more
      operands than can be taken. */
  lemma RestIsNotYes(op: Op, e1: Expr, e2: Expr)
    requires IsBin(op, e2) && NoFoldables(e2) && (op == AND ==> !IsBin(AND, e1))
    ensures !IsYes(EliminateYN(EliminateEqSpine(op, e1, e2).1))
  {
    var f2 := EliminateEqSpine(op, e1, e2).1;
    CleanSpine(op, e2);
    OnlyLoses(op, e1, e2);
    FoldOfSpine(op, f2);
    if op == AND {
      CleanSpine(op, e2.l);
      CleanSpine(op, e2.r);
      SizeOfClean(e2.l);
      SizeOfClean(e2.r);
      SingleTakesOne(op, e1, e2);
      SizeIsSeen(op, f2);
    }
  }

  lemma {:induction false} SizeOfClean(e: Expr)
    requires NoFoldables(e) && !IsYesOrNo(e)
    ensures Size(AND, e) >= 1
  {
    if IsBin(AND, e) {
      SizeOfClean(e.l);
    }
  }

  /** What the first pass over the spine of `d` leaves, and what becomes of it. */
  lemma SecondPass(d: Expr, v: Expr)
    requires d.Bin? && NoFoldables(d) && NoFoldables(v)
    ensures var f2 := EliminateEqSpine(d.op, d, v).1;
      IsYes(EliminateEq(d, v).1) <==> !(f2.Bin? && f2.op != d.op) && IsYes(EliminateYN(f2))
  {
    var (f1, f2) := EliminateEqSpine(d.op, d, v);
    CleanSpine(d.op, v);
    OnlyLoses(d.op, d, v);
    if f2.Bin? && f2.op != d.op {
      RestIsNotYes(f2.op, f1, f2);
    }
  }

  lemma RestOfSpineIsYes(op: Op, d: Expr, v: Expr)
    requires IsBin(op, d) && NoFoldables(d) && NoFoldables(v)
    ensures var f2 := EliminateEqSpine(op, d, v).1;
      IsYes(EliminateYN(f2)) <==> if op == AND then !IsNo(v) && WithinCounts(AND, v, d) else IsYes(v)
    ensures var f2 := EliminateEqSpine(op, d, v).1;
      f2.Bin? && f2.op != op ==> !IsYes(EliminateYN(f2))
  {
    var f2 := EliminateEqSpine(op, d, v).1;
    CleanSpine(op, d);
    CleanSpine(op, v);
    RestOfSpine(op, d, v);
    if f2.Bin? && f2.op != op {
      assert Count(op, f2, ShapeOf(f2)) == 1;
      assert !HasDecider(op, f2);
    }
    DeciderOfClean(op, v);
  }

  lemma DeciderOfClean(op: Op, v: Expr)
    requires NoFoldables(v)
    ensures HasDecider(op, v) <==> v == Unit(Dual(op))
  {
    CleanSpine(op, v);
  }

  /** Elimination leaves `y` of the second side exactly if that is `y`, or if the first side is an AND and
      has all the operands of the second. */
  lemma NothingLeftExactlyWhen(d: Expr, v: Expr)
    requires NoFoldables(d) && NoFoldables(v)
    ensures IsYes(EliminateEq(d, v).1) <==> IsYes(v) || (IsBin(AND, d) && !IsNo(v) && WithinCounts(AND, v, d))
  {
    if d.Bin? {
      SecondPass(d, v);
      RestOfSpineIsYes(d.op, d, v);
      if IsYes(v) {
        assert forall c: Shape :: Count(AND, v, c) == 0;
      }
    } else if v.Bin? {
      RestIsNotYes(v.op, d, v);
    }
  }

  // ----- the same for `expr_extract_eq` -----

  lemma {:induction false} ExtractionStays(op: Op, acc: Option<Expr>, e1: Expr, e2: Expr)
    ensures acc.Some? ==> ExtractSpine(op, acc, e1, e2).common.Some?
    ensures var x := ExtractSpine(op, acc, e1, e2); x.common.None? ==> x.left == e1 && x.right == e2
    decreases Nodes(e1) + Nodes(e2)
  {
    if IsBin(op, e1) {
      var x := ExtractSpine(op, acc, e1.l, e2);
      ExtractionStays(op, acc, e1.l, e2);
      ExtractionStays(op, x.common, e1.r, x.right);
    } else if IsBin(op, e2) {
      var x := ExtractSpine(op, acc, e1, e2.l);
      ExtractionStays(op, acc, e1, e2.l);
      ExtractionStays(op, x.common, x.left, e2.r);
    }
  }

  /** Extraction leaves what elimination does, unless the second side is decided by a constant. */
  lemma {:induction false} ExtractLeavesTheSame(op: Op, acc: Option<Expr>, e1: Expr, e2: Expr)
    requires CleanOperands(op, e2) && !HasDecider(op, e2)
    ensures var x := ExtractSpine(op, acc, e1, e2); EliminateEqSpine(op, e1, e2) == (x.left, x.right)
    decreases Nodes(e1) + Nodes(e2), SpineRank(op, e1, e2)
  {
    if IsBin(op, e1) {
      var x := ExtractSpine(op, acc, e1.l, e2);
      OnlyLoses(op, e1.l, e2);
      ExtractLeavesTheSame(op, acc, e1.l, e2);
      ExtractLeavesTheSame(op, x.common, e1.r, x.right);
    } else if IsBin(op, e2) {
      var x := ExtractSpine(op, acc, e1, e2.l);
      ExtractLeavesTheSame(op, acc, e1, e2.l);
      ExtractLeavesTheSame(op, x.common, x.left, e2.r);
    }
  }

  lemma RestOfFirst(op: Op, e1: Expr, e2: Expr)
    requires CleanOperands(op, e1) && CleanOperands(op, e2)
    ensures var f1 := EliminateEqSpine(op, e1, e2).0;
      CleanOperands(op, f1) && HasDecider(op, f1) == HasDecider(op, e1) &&
      (NoneLeft(op, f1) <==> WithinCounts(op, e1, e2)) && FoldsTo(op, f1, EliminateYN(f1))
  {
    var (f1, f2) := EliminateEqSpine(op, e1, e2);
    SpineSubtracts(op, e1, e2, SymShape(SymYes));
    forall c: Shape
      ensures Count(op, f1, c) == 0 <==> Count(op, e1, c) <= Count(op, e2, c)
    {
      SpineSubtracts(op, e1, e2, c);
      SubtractsSwapped(op, e1, e2, f1, f2, c);
      LessIsZero(op, e2, e1, f2, f1, c);
    }
    FoldOfSpine(op, f1);
  }

  /** Nothing is left of the first side exactly if the second has all its operands. */
  lemma AllExtractedExactlyWhen(op: Op, e1: Expr, e2: Expr)
    requires NoFoldables(e1) && NoFoldables(e2) && !IsYesOrNo(e2)
    ensures Extract(op, e1, e2).left == Unit(op) <==> e1 != Unit(Dual(op)) && WithinCounts(op, e1, e2)
  {
    var x := ExtractSpine(op, None, e1, e2);
    CleanSpine(op, e1);
    CleanSpine(op, e2);
    ExtractionStays(op, None, e1, e2);
    ExtractLeavesTheSame(op, None, e1, e2);
    RestOfFirst(op, e1, e2);
    DeciderOfClean(op, e1);
    assert Extract(op, e1, e2).left == EliminateYN(x.left);
  }
}
