/** Duplicate elimination (at91bootstrap/config/expr.c:362-712): the pairwise join rules, the two passes over a
    spine, and the loop that repeats them until nothing changes.

    `expr_eliminate_dups1` and `2` are started with both pointers at the same tree and walk every
    pair of operands of its spine, left to right. Only operands are ever overwritten, never the
    spine above them, so the tree being rewritten is modelled by its list of operands; a pointer
    into it is an index. */
module KconfigDups {
  import opened KconfigExpr
  import opened KconfigCommon
  import opened KconfigTransform
  import opened Wrappers

  // ----- expr_join_or, expr_join_and -----

  predicate IsTest(e: Expr) {
    e.Comp? || e.Sym? || e.Not?
  }

  function LeftSymbol(e: Expr): Option<Symbol> {
    match e
    case Sym(s) => Some(s)
    case Comp(_, left, _) => Some(left)
    case _ => None
  }

  /** The boolean or tristate symbol that both arguments are about. The first may be a negated
      comparison, the second only a negated symbol. */
  function SharedSymbol(e1: Expr, e2: Expr): Option<Symbol> {
    var s1 := if e1.Not? then LeftSymbol(e1.e) else LeftSymbol(e1);
    var s2 := if e2.Not? then (if e2.e.Sym? then Some(e2.e.s) else None) else LeftSymbol(e2);
    if s1.Some? && s1 == s2 && TypeOf(s1.value) in {Boolean, Tri} then s1 else None
  }

  predicate CompWith(e: Expr, equal: bool, right: Symbol) {
    e.Comp? && e.equal == equal && e.right == right
  }

  /** The two comparisons are with `x` and `y`, in either order. */
  predicate CompPair(e1: Expr, e2: Expr, equal: bool, x: Symbol, y: Symbol) {
    (CompWith(e1, equal, x) && CompWith(e2, equal, y)) || (CompWith(e1, equal, y) && CompWith(e2, equal, x))
  }

  /** One argument is the bare symbol, the other compares it with `right`. */
  predicate SymAndComp(e1: Expr, e2: Expr, equal: bool, right: Symbol) {
    (e1.Sym? && CompWith(e2, equal, right)) || (e2.Sym? && CompWith(e1, equal, right))
  }

  predicate SymAndNot(e1: Expr, e2: Expr) {
    (e1.Not? && e1.e.Sym? && e2.Sym?) || (e2.Not? && e2.e.Sym? && e1.Sym?)
  }

  function JoinOr(e1: Expr, e2: Expr): Option<Expr> {
    if ExprEq(e1, e2) then Some(e1)
    else if !IsTest(e1) || !IsTest(e2) then None
    else
      var shared := SharedSymbol(e1, e2);
      if shared.None? then None
      else
        var s := shared.value;
        if TypeOf(s) == Tri && CompPair(e1, e2, true, SymYes, SymMod) then Some(Comp(false, s, SymNo))
        else if TypeOf(s) == Tri && CompPair(e1, e2, true, SymYes, SymNo) then Some(Comp(false, s, SymMod))
        else if TypeOf(s) == Tri && CompPair(e1, e2, true, SymMod, SymNo) then Some(Comp(false, s, SymYes))
        else if TypeOf(s) == Boolean && SymAndNot(e1, e2) then Some(Sym(SymYes))
        else None
  }

  /** `(a = 'b') && (a != 'c')` over constants: `n` if 'b' is 'c', otherwise `a = 'b'`. */
  function JoinEqualUnequal(s: Symbol, b: Symbol, c: Symbol): Expr {
    if b != c then Comp(true, s, b) else Sym(SymNo)
  }

  function JoinAnd(e1: Expr, e2: Expr): Option<Expr> {
    if ExprEq(e1, e2) then Some(e1)
    else if !IsTest(e1) || !IsTest(e2) then None
    else
      var shared := SharedSymbol(e1, e2);
      if shared.None? then None else JoinTests(shared.value, e1, e2)
  }

  /** The rules for two tests of `s`. */
  function JoinTests(s: Symbol, e1: Expr, e2: Expr): Option<Expr> {
    if SymAndComp(e1, e2, true, SymYes) then Some(Comp(true, s, SymYes))
    else if SymAndComp(e1, e2, false, SymNo) then Some(Sym(s))
    else if SymAndComp(e1, e2, false, SymMod) then Some(Comp(true, s, SymYes))
    else if TypeOf(s) != Tri then None
    else if e1.Comp? && e2.Comp? && e1.equal && !e2.equal && IsConst(e1.right) && IsConst(e2.right) then
      Some(JoinEqualUnequal(s, e1.right, e2.right))
    else if e1.Comp? && e2.Comp? && !e1.equal && e2.equal && IsConst(e1.right) && IsConst(e2.right) then
      Some(JoinEqualUnequal(s, e2.right, e1.right))
    else if CompPair(e1, e2, false, SymYes, SymNo) then Some(Comp(true, s, SymMod))
    else if CompPair(e1, e2, false, SymYes, SymMod) then Some(Comp(true, s, SymNo))
    else if CompPair(e1, e2, false, SymMod, SymNo) then Some(Comp(true, s, SymYes))
    else None
  }

  function Join(op: Op, e1: Expr, e2: Expr): Option<Expr> {
    if op == OR then JoinOr(e1, e2) else JoinAnd(e1, e2)
  }

  lemma JoinOrIsExact(e1: Expr, e2: Expr, a: Assignment)
    requires WellTyped(a) && JoinOr(e1, e2).Some?
    ensures Value(JoinOr(e1, e2).value, a) == ApplyOp(OR, Value(e1, a), Value(e2, a))
  {
    if ExprEq(e1, e2) {
      ExprEqIsSound(e1, e2);
    } else {
      var s := SharedSymbol(e1, e2).value;
      assert HoldsAllowedValue(s, a(s));
      assert HoldsAllowedValue(SymYes, a(SymYes)) && HoldsAllowedValue(SymNo, a(SymNo)) &&
        HoldsAllowedValue(SymMod, a(SymMod));
    }
  }

  lemma DistinctConstantsDiffer(b: Symbol, c: Symbol, a: Assignment)
    requires WellTyped(a) && IsConst(b) && IsConst(c)
    ensures a(b).str == a(c).str <==> b == c
  {
    assert HoldsAllowedValue(b, a(b)) && HoldsAllowedValue(c, a(c));
  }

  lemma JoinAndIsExact(e1: Expr, e2: Expr, a: Assignment)
    requires WellTyped(a) && JoinAnd(e1, e2).Some?
    ensures Value(JoinAnd(e1, e2).value, a) == ApplyOp(AND, Value(e1, a), Value(e2, a))
  {
    if ExprEq(e1, e2) {
      ExprEqIsSound(e1, e2);
    } else {
      JoinTestsIsExact(SharedSymbol(e1, e2).value, e1, e2, a);
    }
  }

  /** A comparison with one of the three values compares the value. */
  lemma TestOfValue(s: Symbol, equal: bool, right: Symbol, a: Assignment)
    requires WellTyped(a) && TypeOf(s) in {Boolean, Tri} && right in {SymYes, SymMod, SymNo}
    ensures Value(Comp(equal, s, right), a) == Truth((a(s).tri == a(right).tri) == equal)
    ensures a(SymYes).tri == YES && a(SymMod).tri == MOD && a(SymNo).tri == NO
    ensures TypeOf(s) == Boolean ==> a(s).tri != MOD
  {
    assert HoldsAllowedValue(s, a(s)) && HoldsAllowedValue(right, a(right));
    assert HoldsAllowedValue(SymYes, a(SymYes)) && HoldsAllowedValue(SymNo, a(SymNo)) &&
      HoldsAllowedValue(SymMod, a(SymMod));
  }

  lemma JoinSymTest(s: Symbol, equal: bool, right: Symbol, joint: Expr, a: Assignment)
    requires WellTyped(a) && TypeOf(s) in {Boolean, Tri}
    requires (equal, right, joint) in {(true, SymYes, Comp(true, s, SymYes)), (false, SymNo, Sym(s)),
                                       (false, SymMod, Comp(true, s, SymYes))}
    ensures Value(joint, a) == ApplyOp(AND, a(s).tri, Value(Comp(equal, s, right), a))
  {
    TestOfValue(s, equal, right, a);
    TestOfValue(s, true, SymYes, a);
  }

  lemma JoinEqualUnequalIsExact(s: Symbol, b: Symbol, c: Symbol, a: Assignment)
    requires WellTyped(a) && IsConst(b) && IsConst(c)
    ensures Value(JoinEqualUnequal(s, b, c), a) ==
      ApplyOp(AND, Value(Comp(true, s, b), a), Value(Comp(false, s, c), a))
  {
    DistinctConstantsDiffer(b, c, a);
    assert HoldsAllowedValue(SymNo, a(SymNo));
  }

  lemma JoinUnequals(s: Symbol, x: Symbol, y: Symbol, z: Symbol, a: Assignment)
    requires WellTyped(a) && TypeOf(s) == Tri
    requires (x, y, z) in {(SymYes, SymNo, SymMod), (SymYes, SymMod, SymNo), (SymMod, SymNo, SymYes)}
    ensures Value(Comp(true, s, z), a) == ApplyOp(AND, Value(Comp(false, s, x), a), Value(Comp(false, s, y), a))
  {
    TestOfValue(s, false, x, a);
    TestOfValue(s, false, y, a);
    TestOfValue(s, true, z, a);
  }

  predicate Tests(e: Expr, s: Symbol) {
    e == Sym(s) || (e.Comp? && e.left == s)
  }

  /** Only bare symbols and plain comparisons are joined. */
  lemma JoinedAreTests(s: Symbol, e1: Expr, e2: Expr)
    requires SharedSymbol(e1, e2) == Some(s) && JoinTests(s, e1, e2).Some?
    ensures TypeOf(s) in {Boolean, Tri} && Tests(e1, s) && Tests(e2, s) && !(e1.Sym? && e2.Sym?)
    ensures e1.Comp? && e2.Comp? ==> TypeOf(s) == Tri
  {
  }

  lemma JoinCompsIsExact(s: Symbol, e1: Expr, e2: Expr, a: Assignment)
    requires WellTyped(a) && TypeOf(s) == Tri && e1.Comp? && e2.Comp? && e1.left == e2.left == s
    requires JoinTests(s, e1, e2).Some?
    ensures Value(JoinTests(s, e1, e2).value, a) == ApplyOp(AND, Value(e1, a), Value(e2, a))
  {
    if e1.equal != e2.equal {
      JoinEqualUnequalIsExact(s, if e1.equal then e1.right else e2.right, if e1.equal then e2.right else e1.right, a);
    } else if CompPair(e1, e2, false, SymYes, SymNo) {
      JoinUnequals(s, SymYes, SymNo, SymMod, a);
    } else if CompPair(e1, e2, false, SymYes, SymMod) {
      JoinUnequals(s, SymYes, SymMod, SymNo, a);
    } else {
      JoinUnequals(s, SymMod, SymNo, SymYes, a);
    }
  }

  lemma JoinTestsIsExact(s: Symbol, e1: Expr, e2: Expr, a: Assignment)
    requires WellTyped(a) && SharedSymbol(e1, e2) == Some(s) && JoinTests(s, e1, e2).Some?
    ensures Value(JoinTests(s, e1, e2).value, a) == ApplyOp(AND, Value(e1, a), Value(e2, a))
  {
    JoinedAreTests(s, e1, e2);
    if e1.Comp? && e2.Comp? {
      JoinCompsIsExact(s, e1, e2, a);
    } else {
      var test := if e1.Sym? then e2 else e1;
      JoinSymTest(s, test.equal, test.right, JoinTests(s, e1, e2).value, a);
    }
  }

  /** Every join rule is exact in three values. */
  lemma JoinIsExact(op: Op, e1: Expr, e2: Expr, a: Assignment)
    requires WellTyped(a) && Join(op, e1, e2).Some?
    ensures Value(Join(op, e1, e2).value, a) == ApplyOp(op, Value(e1, a), Value(e2, a))
  {
    if op == OR {
      JoinOrIsExact(e1, e2, a);
    } else {
      JoinAndIsExact(e1, e2, a);
    }
  }

  /** Two equalities of a tristate symbol always become one test. */
  lemma EqualitiesJoin(s: Symbol, x: Symbol, y: Symbol)
    requires TypeOf(s) == Tri && x in {SymYes, SymMod, SymNo} && y in {SymYes, SymMod, SymNo}
    ensures JoinOr(Comp(true, s, x), Comp(true, s, y)).Some?
  {
    ExprEqIsReflexive(Comp(true, s, x));
  }

  /** So do two tests of which one is an inequality, under `&&`. */
  lemma InequalitiesJoin(s: Symbol, equal: bool, x: Symbol, y: Symbol)
    requires TypeOf(s) == Tri && x in {SymYes, SymMod, SymNo} && y in {SymYes, SymMod, SymNo}
    ensures JoinAnd(Comp(equal, s, x), Comp(false, s, y)).Some? && JoinAnd(Comp(false, s, y), Comp(equal, s, x)).Some?
  {
    ExprEqIsReflexive(Comp(false, s, y));
  }

  // ----- expr_eliminate_dups1 -----

  predicate AreOperands(op: Op, xs: seq<Expr>) {
    forall k | 0 <= k < |xs| :: !IsBin(op, xs[k])
  }

  /** All pairs (i, j), (i, j + 1), ..., (i + 1, 0), ...: the rewritten operands and how many
      changes were counted. */
  function Dups1(op: Op, xs: seq<Expr>, i: nat, j: nat): (r: (seq<Expr>, nat))
    requires i <= |xs| && j <= |xs| && AreOperands(op, xs)
    ensures |r.0| == |xs| && AreOperands(op, r.0)
    ensures SpineLeaves(r.0) <= SpineLeaves(xs)
    decreases SpineLeaves(xs), |xs| - i, |xs| - j
  {
    if i == |xs| then (xs, 0)
    else if j == |xs| then Dups1(op, xs, i + 1, 0)
    else
      var (ys, n) := Dups1Pair(op, xs, i, j);
      var (zs, m) := Dups1(op, ys, i, j + 1);
      (zs, n + m)
  }

  /** One pair: first the inside of operand `i`, when it is a tree of the other operator, then the
      join of the two, which leaves the neutral constant at `i` and the joint operand at `j`. */
  function Dups1Pair(op: Op, xs: seq<Expr>, i: nat, j: nat): (r: (seq<Expr>, nat))
    requires i < |xs| && j < |xs| && AreOperands(op, xs)
    ensures |r.0| == |xs| && AreOperands(op, r.0)
    ensures SpineLeaves(r.0) <= SpineLeaves(xs)
    decreases SpineLeaves(xs), |xs| - i, |xs| - j, 0
  {
    if i == j then (xs, 0)
    else
      SpineLeavesAtLeast(xs, i);
      var (x, n) := if xs[i].Bin? then Dups1Tree(xs[i]) else (xs[i], 0);
      SpineLeavesUpdate(xs, i, x);
      var ys := xs[i := x];
      match Join(op, x, ys[j])
      case None => (ys, n)
      case Some(t) =>
        SpineLeavesUpdate(ys, i, Unit(op));
        SpineLeavesUpdate(ys[i := Unit(op)], j, t);
        JoinLeaves(op, x, ys[j]);
        (ys[i := Unit(op)][j := t], n + 1)
  }

  /** The pass over one tree, with both pointers at it. */
  function Dups1Tree(e: Expr): (r: (Expr, nat))
    requires e.Bin?
    ensures IsBin(e.op, r.0) && Leaves(r.0) <= Leaves(e)
    decreases Leaves(e), Leaves(e) + 1, 0
  {
    var xs := Operands(e.op, e);
    FillOperands(e.op, e);
    SpineLeavesAtLeast(xs, 0);
    var (ys, n) := Dups1(e.op, xs, 0, 0);
    FillLeaves(e.op, e, ys);
    (Fill(e.op, e, ys), n)
  }

  lemma JoinLeaves(op: Op, e1: Expr, e2: Expr)
    requires Join(op, e1, e2).Some?
    ensures Leaves(Join(op, e1, e2).value) + 1 <= Leaves(e1) + Leaves(e2)
    ensures !IsBin(op, e1) && !IsBin(op, e2) ==> !IsBin(op, Join(op, e1, e2).value)
  {
  }

  // ----- expr_eliminate_dups2 -----

  /** For each operand `i`, all nodes of the spine in the order in which the recursion reaches
      them: operands, and after its two sides also every node above them. */
  function Dups2(op: Op, e: Expr, xs: seq<Expr>, i: nat): (r: (seq<Expr>, nat))
    requires IsBin(op, e) && |xs| == |Operands(op, e)| && i <= |xs| && AreOperands(op, xs)
    ensures |r.0| == |xs| && AreOperands(op, r.0)
    ensures SpineLeaves(r.0) <= SpineLeaves(xs)
    decreases SpineLeaves(xs), |xs| - i, Nodes(e) + 1, 0
  {
    if i == |xs| then (xs, 0)
    else
      var (ys, n) := Dups2Against(op, e, xs, i, 0);
      var (zs, m) := Dups2(op, e, ys, i + 1);
      (zs, n + m)
  }

  /** Operand `i` against the part of the spine shaped like `shape`, whose operands start at
      position `from`. */
  function Dups2Against(op: Op, shape: Expr, xs: seq<Expr>, i: nat, from: nat): (r: (seq<Expr>, nat))
    requires |xs| >= 2 && i < |xs| && from + |Operands(op, shape)| <= |xs| && AreOperands(op, xs)
    ensures |r.0| == |xs| && AreOperands(op, r.0)
    ensures SpineLeaves(r.0) <= SpineLeaves(xs)
    decreases SpineLeaves(xs), |xs| - i, Nodes(shape), 1
  {
    if IsBin(op, shape) then
      var (ys, n) := Dups2Against(op, shape.l, xs, i, from);
      var (zs, m) := Dups2Against(op, shape.r, ys, i, from + |Operands(op, shape.l)|);
      var (ws, k) := Dups2Pair(op, shape, zs, i, from);
      (ws, n + m + k)
    else if from == i then (xs, 0)
    else Dups2Pair(op, shape, xs, i, from)
  }

  /** Does negating `x` leave only factors that `part` has too? */
  predicate Contradicts(op: Op, x: Expr, part: Expr) {
    Extract(op, Transform(Not(x)), part).left == Unit(op)
  }

  /** `(FOO || BAR) && (!FOO && !BAR) -> n`, and its mirror image. Only a tree of the other operator
      is looked at; it becomes the constant that decides the whole spine. */
  function Dups2Pair(op: Op, shape: Expr, xs: seq<Expr>, i: nat, from: nat): (r: (seq<Expr>, nat))
    requires |xs| >= 2 && i < |xs| && from + |Operands(op, shape)| <= |xs| && AreOperands(op, xs)
    ensures |r.0| == |xs| && AreOperands(op, r.0)
    ensures SpineLeaves(r.0) <= SpineLeaves(xs)
    decreases SpineLeaves(xs), |xs| - i, Nodes(shape), 0
  {
    if !xs[i].Bin? then (xs, 0)
    else
      SpineLeavesAtLeast(xs, i);
      var (x, n) := Dups2Tree(xs[i]);
      SpineLeavesUpdate(xs, i, x);
      var ys := xs[i := x];
      var part := Fill(op, shape, ys[from..from + |Operands(op, shape)|]);
      if Contradicts(op, x, part) then
        SpineLeavesUpdate(ys, i, Unit(Dual(op)));
        (ys[i := Unit(Dual(op))], n + 1)
      else
        (ys, n)
  }

  function Dups2Tree(e: Expr): (r: (Expr, nat))
    requires e.Bin?
    ensures IsBin(e.op, r.0) && Leaves(r.0) <= Leaves(e)
    decreases Leaves(e), Leaves(e) + 1, 0, 0
  {
    var xs := Operands(e.op, e);
    FillOperands(e.op, e);
    SpineLeavesAtLeast(xs, 0);
    var (ys, n) := Dups2(e.op, e, xs, 0);
    FillLeaves(e.op, e, ys);
    (Fill(e.op, e, ys), n)
  }

  // ----- what the passes do to the value -----

  lemma {:induction false} Dups1KeepsValue(op: Op, xs: seq<Expr>, i: nat, j: nat, a: Assignment)
    requires WellTyped(a) && i <= |xs| && j <= |xs| && AreOperands(op, xs)
    ensures SpineValue(op, Dups1(op, xs, i, j).0, a) == SpineValue(op, xs, a)
    decreases SpineLeaves(xs), |xs| - i, |xs| - j
  {
    if i < |xs| {
      if j == |xs| {
        Dups1KeepsValue(op, xs, i + 1, 0, a);
      } else {
        var ys := Dups1Pair(op, xs, i, j).0;
        Dups1PairKeepsValue(op, xs, i, j, a);
        Dups1KeepsValue(op, ys, i, j + 1, a);
      }
    }
  }

  lemma {:induction false} Dups1PairKeepsValue(op: Op, xs: seq<Expr>, i: nat, j: nat, a: Assignment)
    requires WellTyped(a) && i < |xs| && j < |xs| && AreOperands(op, xs)
    ensures SpineValue(op, Dups1Pair(op, xs, i, j).0, a) == SpineValue(op, xs, a)
    decreases SpineLeaves(xs), |xs| - i, |xs| - j, 0
  {
    if i != j {
      SpineLeavesAtLeast(xs, i);
      var x := if xs[i].Bin? then Dups1Tree(xs[i]).0 else xs[i];
      if xs[i].Bin? {
        Dups1TreeKeepsValue(xs[i], a);
      }
      SpineValueSettles(op, xs, i, x, a);
      var ys := xs[i := x];
      var t := Join(op, x, ys[j]);
      if t.Some? {
        JoinIsExact(op, x, ys[j], a);
        SpineValueJoin(op, ys, i, j, t.value, a);
      }
    }
  }

  /** The first pass is exact in three values. */
  lemma {:induction false} Dups1TreeKeepsValue(e: Expr, a: Assignment)
    requires WellTyped(a) && e.Bin?
    ensures Value(Dups1Tree(e).0, a) == Value(e, a)
    decreases Leaves(e), Leaves(e) + 1, 0
  {
    var xs := Operands(e.op, e);
    FillOperands(e.op, e);
    SpineLeavesAtLeast(xs, 0);
    Dups1KeepsValue(e.op, xs, 0, 0, a);
    FillValue(e.op, e, Dups1(e.op, xs, 0, 0).0, a);
    SpineValueOfOperands(e.op, e, a);
  }

  /** At least as far towards the deciding constant of `op`: `n` for AND, `y` for OR. */
  predicate Beyond(op: Op, x: Tristate, y: Tristate) {
    if op == AND then x <= y else x >= y
  }

  lemma InThree<T>(xs: seq<T>, from: nat, part: seq<T>)
    requires from + |part| <= |xs| && part == xs[from..from + |part|]
    ensures xs == xs[..from] + (part + xs[from + |part|..])
  {
  }

  lemma BeyondMiddle(op: Op, before: seq<Expr>, part: seq<Expr>, after: seq<Expr>, a: Assignment)
    ensures Beyond(op, SpineValue(op, before + (part + after), a), SpineValue(op, part, a))
  {
    SpineValueConcat(op, before, part + after, a);
    SpineValueConcat(op, part, after, a);
  }

  lemma SpineValueBeyondPart(op: Op, xs: seq<Expr>, from: nat, part: seq<Expr>, a: Assignment)
    requires from + |part| <= |xs| && part == xs[from..from + |part|]
    ensures Beyond(op, SpineValue(op, xs, a), SpineValue(op, part, a))
  {
    InThree(xs, from, part);
    BeyondMiddle(op, xs[..from], part, xs[from + |part|..], a);
  }

  /** When the test succeeds, the spine and the negated operand cannot both be satisfied. */
  lemma ContradictionBounds(op: Op, x: Expr, part: Expr, a: Assignment)
    requires WellTyped(a) && Contradicts(op, x, part)
    ensures Beyond(op, Value(part, a), 2 - Value(x, a))
  {
    var r := Extract(op, Transform(Not(x)), part);
    ExtractIsCommonFactor(op, Transform(Not(x)), part);
    TransformKeepsValue(Not(x), a);
    assert HoldsAllowedValue(UnitSymbol(op), a(UnitSymbol(op)));
    assert Value(Transform(Not(x)), a) == ApplyOp(op, Value(OrUnit(op, r.common), a), Value(r.left, a));
    assert Value(part, a) == ApplyOp(op, Value(OrUnit(op, r.common), a), Value(r.right, a));
  }

  lemma SpineValueBeyondOperand(op: Op, xs: seq<Expr>, i: nat, a: Assignment)
    requires WellTyped(a) && i < |xs|
    ensures Beyond(op, SpineValue(op, xs, a), Value(xs[i], a))
  {
    SpineValueSplit(op, xs, i, a);
  }

  lemma DecidedSpine(op: Op, xs: seq<Expr>, i: nat, a: Assignment)
    requires WellTyped(a) && i < |xs|
    ensures SpineValue(op, xs[i := Unit(Dual(op))], a) == UnitValue(Dual(op))
  {
    assert HoldsAllowedValue(UnitSymbol(Dual(op)), a(UnitSymbol(Dual(op))));
    SpineValueBeyondOperand(op, xs[i := Unit(Dual(op))], i, a);
  }

  lemma SpineValueBeyondShape(op: Op, shape: Expr, xs: seq<Expr>, from: nat, part: seq<Expr>, a: Assignment)
    requires from + |part| <= |xs| && part == xs[from..from + |part|] && |part| == |Operands(op, shape)|
    ensures Beyond(op, SpineValue(op, xs, a), Value(Fill(op, shape, part), a))
  {
    FillValue(op, shape, part, a);
    SpineValueBeyondPart(op, xs, from, part, a);
  }

  lemma BoundedReplacement(op: Op, xs: seq<Expr>, i: nat, a: Assignment)
    requires WellTyped(a) && i < |xs| && Beyond(op, SpineValue(op, xs, a), 2 - Value(xs[i], a))
    ensures SpineValue(op, xs[i := Unit(Dual(op))], a) == SpineValue(op, xs, a) <==> SpineValue(op, xs, a) != MOD
  {
    SpineValueBeyondOperand(op, xs, i, a);
    DecidedSpine(op, xs, i, a);
  }

  /** The value of a spine in which operand `i` is contradicted by a part of the same spine, and
      what it becomes: the replacement is exact just when the value was not `m`. */
  lemma ContradictionReplacement(op: Op, shape: Expr, xs: seq<Expr>, i: nat, from: nat, a: Assignment)
    requires WellTyped(a) && i < |xs| && from + |Operands(op, shape)| <= |xs|
    requires Contradicts(op, xs[i], Fill(op, shape, xs[from..from + |Operands(op, shape)|]))
    ensures SpineValue(op, xs[i := Unit(Dual(op))], a) == SpineValue(op, xs, a) <==> SpineValue(op, xs, a) != MOD
  {
    var part := xs[from..from + |Operands(op, shape)|];
    SpineValueBeyondShape(op, shape, xs, from, part, a);
    ContradictionBounds(op, xs[i], Fill(op, shape, part), a);
    BoundedReplacement(op, xs, i, a);
  }

  lemma {:induction false} Dups2Settles(op: Op, e: Expr, xs: seq<Expr>, i: nat, a: Assignment)
    requires IsBin(op, e) && |xs| == |Operands(op, e)| && i <= |xs| && AreOperands(op, xs)
    requires WellTyped(a)
    ensures Settles(SpineValue(op, xs, a), SpineValue(op, Dups2(op, e, xs, i).0, a))
    decreases SpineLeaves(xs), |xs| - i, Nodes(e) + 1, 0
  {
    if i < |xs| {
      Dups2AgainstSettles(op, e, xs, i, 0, a);
      Dups2Settles(op, e, Dups2Against(op, e, xs, i, 0).0, i + 1, a);
    }
  }

  lemma {:induction false} Dups2AgainstSettles(op: Op, shape: Expr, xs: seq<Expr>, i: nat, from: nat, a: Assignment)
    requires |xs| >= 2 && i < |xs| && from + |Operands(op, shape)| <= |xs| && AreOperands(op, xs)
    requires WellTyped(a)
    ensures Settles(SpineValue(op, xs, a), SpineValue(op, Dups2Against(op, shape, xs, i, from).0, a))
    decreases SpineLeaves(xs), |xs| - i, Nodes(shape), 1
  {
    if IsBin(op, shape) {
      var ys := Dups2Against(op, shape.l, xs, i, from).0;
      var zs := Dups2Against(op, shape.r, ys, i, from + |Operands(op, shape.l)|).0;
      Dups2AgainstSettles(op, shape.l, xs, i, from, a);
      Dups2AgainstSettles(op, shape.r, ys, i, from + |Operands(op, shape.l)|, a);
      Dups2PairSettles(op, shape, zs, i, from, a);
    } else if from != i {
      Dups2PairSettles(op, shape, xs, i, from, a);
    }
  }

  lemma {:induction false} Dups2PairSettles(op: Op, shape: Expr, xs: seq<Expr>, i: nat, from: nat, a: Assignment)
    requires |xs| >= 2 && i < |xs| && from + |Operands(op, shape)| <= |xs| && AreOperands(op, xs)
    requires WellTyped(a)
    ensures Settles(SpineValue(op, xs, a), SpineValue(op, Dups2Pair(op, shape, xs, i, from).0, a))
    decreases SpineLeaves(xs), |xs| - i, Nodes(shape), 0
  {
    if xs[i].Bin? {
      SpineLeavesAtLeast(xs, i);
      var x := Dups2Tree(xs[i]).0;
      Dups2TreeSettles(xs[i], a);
      SpineValueSettles(op, xs, i, x, a);
      var ys := xs[i := x];
      var part := Fill(op, shape, ys[from..from + |Operands(op, shape)|]);
      if Contradicts(op, x, part) {
        ContradictionReplacement(op, shape, ys, i, from, a);
        DecidedSpine(op, ys, i, a);
      }
    }
  }

  /** The second pass may turn `m` into something else, and nothing more. */
  lemma {:induction false} Dups2TreeSettles(e: Expr, a: Assignment)
    requires WellTyped(a) && e.Bin?
    ensures Settles(Value(e, a), Value(Dups2Tree(e).0, a))
    decreases Leaves(e), Leaves(e) + 1, 0, 0
  {
    var xs := Operands(e.op, e);
    FillOperands(e.op, e);
    SpineLeavesAtLeast(xs, 0);
    Dups2Settles(e.op, e, xs, 0, a);
    FillValue(e.op, e, Dups2(e.op, e, xs, 0).0, a);
    SpineValueOfOperands(e.op, e, a);
  }

  // ----- one round counts a change only if it makes room for folding -----

  ghost predicate SomeFoldable(xs: seq<Expr>) {
    exists x | x in xs :: IsYesOrNo(x) || HasFoldable(x)
  }

  lemma {:induction false} SomeFoldableFill(op: Op, e: Expr, xs: seq<Expr>)
    requires |xs| == |Operands(op, e)|
    ensures SomeFoldable(xs) ==> IsYesOrNo(Fill(op, e, xs)) || HasFoldable(Fill(op, e, xs))
  {
    if IsBin(op, e) {
      var n := |Operands(op, e.l)|;
      SomeFoldableFill(op, e.l, xs[..n]);
      SomeFoldableFill(op, e.r, xs[n..]);
      assert xs == xs[..n] + xs[n..];
    }
  }

  lemma SomeFoldableAt(xs: seq<Expr>, k: nat)
    requires k < |xs| && (IsYesOrNo(xs[k]) || HasFoldable(xs[k]))
    ensures SomeFoldable(xs)
  {
    assert xs[k] in xs;
  }

  /** A pair that changes nothing returns the operands untouched; one that counts leaves a constant
      behind; none removes the constants already there. */
  lemma {:induction false} Dups1PairCounts(op: Op, xs: seq<Expr>, i: nat, j: nat)
    requires i < |xs| && j < |xs| && AreOperands(op, xs)
    ensures Dups1Pair(op, xs, i, j).1 == 0 ==> Dups1Pair(op, xs, i, j).0 == xs
    ensures Dups1Pair(op, xs, i, j).1 > 0 ==> SomeFoldable(Dups1Pair(op, xs, i, j).0)
    decreases SpineLeaves(xs), |xs| - i, |xs| - j, 0
  {
    if i != j {
      SpineLeavesAtLeast(xs, i);
      var (x, n) := if xs[i].Bin? then Dups1Tree(xs[i]) else (xs[i], 0);
      if xs[i].Bin? {
        Dups1TreeCounts(xs[i]);
      }
      var ys := xs[i := x];
      match Join(op, x, ys[j])
      case None =>
        if n > 0 {
          SomeFoldableAt(ys, i);
        }
      case Some(t) => SomeFoldableAt(ys[i := Unit(op)][j := t], i);
    }
  }

  lemma {:induction false} Dups1Counts(op: Op, xs: seq<Expr>, i: nat, j: nat)
    requires i <= |xs| && j <= |xs| && AreOperands(op, xs)
    ensures Dups1(op, xs, i, j).1 == 0 ==> Dups1(op, xs, i, j).0 == xs
    ensures Dups1(op, xs, i, j).1 > 0 || SomeFoldable(xs) ==> SomeFoldable(Dups1(op, xs, i, j).0)
    decreases SpineLeaves(xs), |xs| - i, |xs| - j
  {
    if i == |xs| {
    } else if j == |xs| {
      Dups1Counts(op, xs, i + 1, 0);
    } else {
      var (ys, n) := Dups1Pair(op, xs, i, j);
      Dups1PairCounts(op, xs, i, j);
      Dups1Counts(op, ys, i, j + 1);
    }
  }

  lemma {:induction false} Dups1TreeCounts(e: Expr)
    requires e.Bin?
    ensures Dups1Tree(e).1 == 0 ==> Dups1Tree(e).0 == e
    ensures Dups1Tree(e).1 > 0 ==> HasFoldable(Dups1Tree(e).0)
    decreases Leaves(e), Leaves(e) + 1, 0
  {
    var xs := Operands(e.op, e);
    FillOperands(e.op, e);
    SpineLeavesAtLeast(xs, 0);
    Dups1Counts(e.op, xs, 0, 0);
    SomeFoldableFill(e.op, e, Dups1(e.op, xs, 0, 0).0);
  }

  lemma {:induction false} Dups2PairCounts(op: Op, shape: Expr, xs: seq<Expr>, i: nat, from: nat)
    requires |xs| >= 2 && i < |xs| && from + |Operands(op, shape)| <= |xs| && AreOperands(op, xs)
    ensures var r := Dups2Pair(op, shape, xs, i, from);
      if r.1 == 0 then r.0 == xs else SpineLeaves(r.0) < SpineLeaves(xs)
    decreases SpineLeaves(xs), |xs| - i, Nodes(shape), 0
  {
    if xs[i].Bin? {
      SpineLeavesAtLeast(xs, i);
      var (x, n) := Dups2Tree(xs[i]);
      Dups2TreeCounts(xs[i]);
      SpineLeavesUpdate(xs, i, x);
      SpineLeavesUpdate(xs[i := x], i, Unit(Dual(op)));
    }
  }

  lemma {:induction false} Dups2AgainstCounts(op: Op, shape: Expr, xs: seq<Expr>, i: nat, from: nat)
    requires |xs| >= 2 && i < |xs| && from + |Operands(op, shape)| <= |xs| && AreOperands(op, xs)
    ensures var r := Dups2Against(op, shape, xs, i, from);
      if r.1 == 0 then r.0 == xs else SpineLeaves(r.0) < SpineLeaves(xs)
    decreases SpineLeaves(xs), |xs| - i, Nodes(shape), 1
  {
    if IsBin(op, shape) {
      var ys := Dups2Against(op, shape.l, xs, i, from).0;
      var zs := Dups2Against(op, shape.r, ys, i, from + |Operands(op, shape.l)|).0;
      Dups2AgainstCounts(op, shape.l, xs, i, from);
      Dups2AgainstCounts(op, shape.r, ys, i, from + |Operands(op, shape.l)|);
      Dups2PairCounts(op, shape, zs, i, from);
    } else if from != i {
      Dups2PairCounts(op, shape, xs, i, from);
    }
  }

  lemma {:induction false} Dups2Counts(op: Op, e: Expr, xs: seq<Expr>, i: nat)
    requires IsBin(op, e) && |xs| == |Operands(op, e)| && i <= |xs| && AreOperands(op, xs)
    ensures var r := Dups2(op, e, xs, i);
      if r.1 == 0 then r.0 == xs else SpineLeaves(r.0) < SpineLeaves(xs)
    decreases SpineLeaves(xs), |xs| - i, Nodes(e) + 1, 0
  {
    if i < |xs| {
      Dups2AgainstCounts(op, e, xs, i, 0);
      Dups2Counts(op, e, Dups2Against(op, e, xs, i, 0).0, i + 1);
    }
  }

  /** The second pass counts a change only when it drops leaves. */
  lemma {:induction false} Dups2TreeCounts(e: Expr)
    requires e.Bin?
    ensures var r := Dups2Tree(e); if r.1 == 0 then r.0 == e else Leaves(r.0) < Leaves(e)
    decreases Leaves(e), Leaves(e) + 1, 0, 0
  {
    var xs := Operands(e.op, e);
    FillOperands(e.op, e);
    SpineLeavesAtLeast(xs, 0);
    Dups2Counts(e.op, e, xs, 0);
    FillLeaves(e.op, e, Dups2(e.op, e, xs, 0).0);
  }

  // ----- expr_eliminate_dups -----

  /** The body of the loop: both passes, and the number of changes they counted. */
  function Round(e: Expr): (Expr, nat) {
    if e.Bin? then
      var (f, n) := Dups1Tree(e);
      var (g, m) := Dups2Tree(f);
      (g, n + m)
    else
      (e, 0)
  }

  /** A round that counted a change has strictly fewer leaves once constants are folded; one that
      counted none changed nothing. So the loop stops. */
  lemma RoundShrinks(e: Expr)
    ensures Round(e).1 == 0 ==> Round(e).0 == e
    ensures Round(e).1 > 0 ==> Leaves(EliminateYN(Round(e).0)) < Leaves(e)
  {
    if e.Bin? {
      var f := Dups1Tree(e).0;
      Dups1TreeCounts(e);
      Dups2TreeCounts(f);
      EliminateYNShrinks(Round(e).0);
    }
  }

  lemma RoundSettles(e: Expr, a: Assignment)
    requires WellTyped(a)
    ensures Settles(Value(e, a), Value(Round(e).0, a))
  {
    if e.Bin? {
      Dups1TreeKeepsValue(e, a);
      Dups2TreeSettles(Dups1Tree(e).0, a);
    }
  }

  function EliminateDups(e: Expr): Expr
    decreases Leaves(e)
  {
    RoundShrinks(e);
    var (f, n) := Round(e);
    if n == 0 then f else EliminateDups(EliminateYN(f))
  }

  /** Wherever the expression is `y` or `n`, so is the result. */
  lemma {:induction false} EliminateDupsSettles(e: Expr, a: Assignment)
    requires WellTyped(a)
    ensures Value(e, a) != MOD ==> Value(EliminateDups(e), a) == Value(e, a)
    decreases Leaves(e)
  {
    RoundShrinks(e);
    RoundSettles(e, a);
    var (f, n) := Round(e);
    if n > 0 {
      EliminateYNKeepsValue(f, a);
      EliminateDupsSettles(EliminateYN(f), a);
    }
  }

  /** The loop ends in a tree in which a further round finds nothing. */
  lemma {:induction false} EliminateDupsIsStable(e: Expr)
    ensures Round(EliminateDups(e)) == (EliminateDups(e), 0)
    ensures EliminateDups(EliminateDups(e)) == EliminateDups(e)
    ensures Leaves(EliminateDups(e)) <= Leaves(e)
    decreases Leaves(e)
  {
    RoundShrinks(e);
    if Round(e).1 > 0 {
      EliminateDupsIsStable(EliminateYN(Round(e).0));
    }
  }

  lemma {:induction false} NoChangeMeansNoJoin(op: Op, xs: seq<Expr>, i: nat, j: nat, k: nat, m: nat)
    requires i <= |xs| && j <= |xs| && AreOperands(op, xs) && Dups1(op, xs, i, j).1 == 0
    requires k < |xs| && m < |xs| && k != m && (i < k || (i == k && j <= m))
    ensures Join(op, xs[k], xs[m]) == None
    ensures xs[k].Bin? ==> Dups1Tree(xs[k]) == (xs[k], 0)
    decreases |xs| - i, |xs| - j
  {
    if j == |xs| {
      NoChangeMeansNoJoin(op, xs, i + 1, 0, k, m);
    } else {
      Dups1PairCounts(op, xs, i, j);
      if i == k && j == m {
        SpineLeavesAtLeast(xs, i);
        if xs[i].Bin? {
          Dups1TreeCounts(xs[i]);
        }
      } else {
        NoChangeMeansNoJoin(op, xs, i, j + 1, k, m);
      }
    }
  }

  /** No two operands can be joined, in this spine and in those nested in it. In particular no operand
      occurs twice. */
  ghost predicate NoPairs(e: Expr)
    decreases Leaves(e)
  {
    e.Bin? ==>
      var xs := Operands(e.op, e);
      FillOperands(e.op, e);
      forall k | 0 <= k < |xs| ::
        (forall m | 0 <= m < |xs| && k != m :: Join(e.op, xs[k], xs[m]) == None && !ExprEq(xs[k], xs[m])) &&
        (xs[k].Bin? ==> (SpineLeavesAtLeast(xs, k); NoPairs(xs[k])))
  }

  lemma {:induction false} NoChangeMeansNoPairs(e: Expr)
    requires e.Bin? ==> Dups1Tree(e).1 == 0
    ensures NoPairs(e)
    decreases Leaves(e)
  {
    if e.Bin? {
      var xs := Operands(e.op, e);
      FillOperands(e.op, e);
      forall k | 0 <= k < |xs|
        ensures forall m | 0 <= m < |xs| && k != m :: Join(e.op, xs[k], xs[m]) == None && !ExprEq(xs[k], xs[m])
        ensures xs[k].Bin? ==> NoPairs(xs[k])
      {
        forall m | 0 <= m < |xs| && k != m
          ensures Join(e.op, xs[k], xs[m]) == None && !ExprEq(xs[k], xs[m])
        {
          NoChangeMeansNoJoin(e.op, xs, 0, 0, k, m);
        }
        if xs[k].Bin? {
          NoChangeMeansNoJoin(e.op, xs, 0, 0, k, if k == 0 then 1 else 0);
          SpineLeavesAtLeast(xs, k);
          NoChangeMeansNoPairs(xs[k]);
        }
      }
    }
  }

  /** In the result no two operands of any spine can be joined. */
  lemma EliminateDupsLeavesNoPair(e: Expr)
    ensures NoPairs(EliminateDups(e))
  {
    var r := EliminateDups(e);
    EliminateDupsIsStable(e);
    if r.Bin? {
      Dups1TreeCounts(r);
    }
    NoChangeMeansNoPairs(r);
  }

  /** `P` holds of every part of a spine but operand `i`; `shape` is the part looked at, from number `from`
      on. */
  ghost predicate AllParts(P: (Expr, nat) -> bool, op: Op, shape: Expr, from: nat, i: nat) {
    if IsBin(op, shape) then
      AllParts(P, op, shape.l, from, i) && AllParts(P, op, shape.r, from + |Operands(op, shape.l)|, i) &&
      P(shape, from)
    else from == i || P(shape, from)
  }

  lemma MiddleOfTwo(xs: seq<Expr>, from: nat, ls: seq<Expr>, rs: seq<Expr>)
    requires from + |ls + rs| <= |xs| && xs[from..from + |ls + rs|] == ls + rs
    ensures xs[from..from + |ls|] == ls && xs[from + |ls|..from + |ls| + |rs|] == rs
  {
    assert xs[from..from + |ls|] == xs[from..from + |ls + rs|][..|ls|] == ls;
    assert xs[from + |ls|..from + |ls| + |rs|] == xs[from..from + |ls + rs|][|ls|..] == rs;
  }

  /** Operand `i` against the part `shape` counts nothing. */
  ghost predicate Quiet(op: Op, shape: Expr, xs: seq<Expr>, i: nat, from: nat) {
    |xs| >= 2 && i < |xs| && from + |Operands(op, shape)| <= |xs| && AreOperands(op, xs) &&
    Dups2Pair(op, shape, xs, i, from).1 == 0
  }

  /** The part is that of the operands from `from` on. */
  ghost predicate Lies(op: Op, part: Expr, xs: seq<Expr>, from: nat) {
    from + |Operands(op, part)| <= |xs| && xs[from..from + |Operands(op, part)|] == Operands(op, part)
  }

  lemma QuietTree(op: Op, shape: Expr, xs: seq<Expr>, i: nat, from: nat)
    requires Quiet(op, shape, xs, i, from) && xs[i].Bin?
    ensures Dups2Tree(xs[i]) == (xs[i], 0)
  {
    SpineLeavesAtLeast(xs, i);
    Dups2TreeCounts(xs[i]);
  }

  lemma PairUncontradicted(op: Op, shape: Expr, xs: seq<Expr>, i: nat, from: nat)
    requires i < |xs| && xs[i].Bin? && Quiet(op, shape, xs, i, from) && Lies(op, shape, xs, from)
    ensures !Contradicts(op, xs[i], shape)
  {
    QuietTree(op, shape, xs, i, from);
    FillOperands(op, shape);
    if Contradicts(op, xs[i], shape) {
      ContradictedPair(op, shape, xs, i, from, shape);
      Dups2PairCounts(op, shape, xs, i, from);
      assert false;
    }
  }

  lemma {:induction false} AgainstIsQuiet(op: Op, shape: Expr, xs: seq<Expr>, i: nat, from: nat)
    requires |xs| >= 2 && i < |xs| && from + |Operands(op, shape)| <= |xs| && AreOperands(op, xs)
    requires Dups2Against(op, shape, xs, i, from).1 == 0
    ensures AllParts((part: Expr, at: nat) => Quiet(op, part, xs, i, at), op, shape, from, i)
    decreases shape
  {
    if IsBin(op, shape) {
      var mid := from + |Operands(op, shape.l)|;
      var (ys, n) := Dups2Against(op, shape.l, xs, i, from);
      var (zs, m) := Dups2Against(op, shape.r, ys, i, mid);
      var k := Dups2Pair(op, shape, zs, i, from).1;
      assert Dups2Against(op, shape, xs, i, from).1 == n + m + k;
      Dups2AgainstCounts(op, shape.l, xs, i, from);
      Dups2AgainstCounts(op, shape.r, ys, i, mid);
      AgainstIsQuiet(op, shape.l, xs, i, from);
      AgainstIsQuiet(op, shape.r, xs, i, mid);
    }
  }

  lemma {:induction false} AllPartsFollow(P: (Expr, nat) -> bool, Q: (Expr, nat) -> bool, op: Op, shape: Expr,
      xs: seq<Expr>, from: nat, i: nat)
    requires AllParts(P, op, shape, from, i) && Lies(op, shape, xs, from)
    requires forall part: Expr, at: nat | P(part, at) && Lies(op, part, xs, at) :: Q(part, at)
    ensures AllParts(Q, op, shape, from, i)
    decreases shape
  {
    if IsBin(op, shape) {
      MiddleOfTwo(xs, from, Operands(op, shape.l), Operands(op, shape.r));
      AllPartsFollow(P, Q, op, shape.l, xs, from, i);
      AllPartsFollow(P, Q, op, shape.r, xs, from + |Operands(op, shape.l)|, i);
    }
  }

  /** No part of the spine contradicts operand `i`. */
  ghost predicate Uncontradicted(op: Op, e: Expr, i: nat)
    requires i < |Operands(op, e)|
  {
    AllParts((part: Expr, at: nat) => !Contradicts(op, Operands(op, e)[i], part), op, e, 0, i)
  }

  lemma AgainstUncontradicted(op: Op, e: Expr, i: nat)
    requires |Operands(op, e)| >= 2 && i < |Operands(op, e)| && AreOperands(op, Operands(op, e))
    requires Operands(op, e)[i].Bin? && Dups2Against(op, e, Operands(op, e), i, 0).1 == 0
    ensures Uncontradicted(op, e, i)
  {
    var xs := Operands(op, e);
    var P := (part: Expr, at: nat) => Quiet(op, part, xs, i, at);
    var Q := (part: Expr, at: nat) => !Contradicts(op, xs[i], part);
    AgainstIsQuiet(op, e, xs, i, 0);
    forall part: Expr, at: nat | P(part, at) && Lies(op, part, xs, at)
      ensures Q(part, at)
    {
      PairUncontradicted(op, part, xs, i, at);
    }
    assert xs[0..0 + |xs|] == xs;
    AllPartsFollow(P, Q, op, e, xs, 0, i);
  }

  lemma {:induction false} SpineUncontradicted(op: Op, e: Expr, i: nat, k: nat)
    requires IsBin(op, e) && i <= k < |Operands(op, e)| && Operands(op, e)[k].Bin?
    requires |Operands(op, e)| >= 2 && AreOperands(op, Operands(op, e)) && Dups2(op, e, Operands(op, e), i).1 == 0
    ensures Uncontradicted(op, e, k)
    decreases k - i
  {
    Dups2AgainstCounts(op, e, Operands(op, e), i, 0);
    if i == k {
      AgainstUncontradicted(op, e, i);
    } else {
      SpineUncontradicted(op, e, i + 1, k);
    }
  }

  /** In the result no operand that is a tree is contradicted by a part of its spine. */
  lemma EliminateDupsLeavesNoContradiction(e: Expr, k: nat)
    requires var r := EliminateDups(e); r.Bin? && k < |Operands(r.op, r)| && Operands(r.op, r)[k].Bin?
    ensures var r := EliminateDups(e); Uncontradicted(r.op, r, k)
  {
    var r := EliminateDups(e);
    EliminateDupsIsStable(e);
    Dups1TreeCounts(r);
    FillOperands(r.op, r);
    SpineUncontradicted(r.op, r, 0, k);
  }

  /** Which tests of a symbol are joined, and to what. `p`, `q` and `t` stand for `y`, `m` and `n` in any
      order, `b` and `c` for constants. */
  lemma JoinRules(s: Symbol, p: Symbol, q: Symbol, t: Symbol, b: Symbol, c: Symbol)
    requires TypeOf(s) in {Boolean, Tri} && IsConst(b) && IsConst(c)
    requires p in {SymYes, SymMod, SymNo} && q in {SymYes, SymMod, SymNo} && t in {SymYes, SymMod, SymNo}
    requires p != q && q != t && p != t
    ensures TypeOf(s) == Tri ==>
      JoinOr(Comp(true, s, p), Comp(true, s, q)) == Some(Comp(false, s, t)) &&
      JoinAnd(Comp(false, s, p), Comp(false, s, q)) == Some(Comp(true, s, t)) &&
      JoinAnd(Comp(true, s, b), Comp(false, s, c)) == Some(if b == c then Sym(SymNo) else Comp(true, s, b)) &&
      JoinAnd(Comp(false, s, c), Comp(true, s, b)) == JoinAnd(Comp(true, s, b), Comp(false, s, c))
    ensures TypeOf(s) == Boolean ==>
      JoinOr(Sym(s), Not(Sym(s))) == Some(Sym(SymYes)) == JoinOr(Not(Sym(s)), Sym(s))
    ensures JoinAnd(Sym(s), Comp(true, s, SymYes)) == Some(Comp(true, s, SymYes)) ==
      JoinAnd(Comp(true, s, SymYes), Sym(s))
    ensures JoinAnd(Sym(s), Comp(false, s, SymNo)) == Some(Sym(s)) == JoinAnd(Comp(false, s, SymNo), Sym(s))
    ensures JoinAnd(Sym(s), Comp(false, s, SymMod)) == Some(Comp(true, s, SymYes)) ==
      JoinAnd(Comp(false, s, SymMod), Sym(s))
  {
  }

  predicate TestsTristate(e: Expr, s: Symbol) {
    e.Comp? && e.left == s && TypeOf(s) == Tri && e.right in {SymYes, SymMod, SymNo}
  }

  /** A spine without pairs tests a tristate symbol for equality at most once under `||`; under `&&` an
      inequality test is the only test of its symbol. */
  lemma NoPairsMeansOneTest(e: Expr, s: Symbol, k: nat, m: nat)
    requires NoPairs(e) && e.Bin? && k < |Operands(e.op, e)| && m < |Operands(e.op, e)|
    requires TestsTristate(Operands(e.op, e)[k], s) && TestsTristate(Operands(e.op, e)[m], s)
    requires var x, y := Operands(e.op, e)[k], Operands(e.op, e)[m];
      if e.op == OR then x.equal && y.equal else !y.equal
    ensures k == m
  {
    var x, y := Operands(e.op, e)[k], Operands(e.op, e)[m];
    if k != m {
      assert Join(e.op, x, y) == None;
      if e.op == OR {
        EqualitiesJoin(s, x.right, y.right);
      } else {
        InequalitiesJoin(s, x.equal, x.right, y.right);
      }
      assert false;
    }
  }

  /** The converse of NoChangeMeansNoJoin: without a pair to join the first pass changes nothing. */
  lemma {:induction false} NoJoinMeansNoChange(op: Op, xs: seq<Expr>, i: nat, j: nat)
    requires i <= |xs| && j <= |xs| && AreOperands(op, xs)
    requires forall k, m | 0 <= k < |xs| && 0 <= m < |xs| && k != m :: Join(op, xs[k], xs[m]) == None
    requires forall k | 0 <= k < |xs| && xs[k].Bin? :: Dups1Tree(xs[k]) == (xs[k], 0)
    ensures Dups1(op, xs, i, j) == (xs, 0)
    decreases |xs| - i, |xs| - j
  {
    if i == |xs| {
    } else if j == |xs| {
      NoJoinMeansNoChange(op, xs, i + 1, 0);
    } else {
      assert xs[i := xs[i]] == xs;
      assert Dups1Pair(op, xs, i, j) == (xs, 0);
      NoJoinMeansNoChange(op, xs, i, j + 1);
    }
  }

  /** The second pass looks only at operands that are trees. */
  lemma {:induction false} NoTreesMeansNoChange(op: Op, e: Expr, xs: seq<Expr>, i: nat)
    requires IsBin(op, e) && |xs| == |Operands(op, e)| && i <= |xs| && AreOperands(op, xs)
    requires forall k | 0 <= k < |xs| :: !xs[k].Bin?
    ensures Dups2(op, e, xs, i) == (xs, 0)
    decreases |xs| - i
  {
    if i < |xs| {
      NoTreeMeansNoChange(op, e, xs, i, 0);
      NoTreesMeansNoChange(op, e, xs, i + 1);
    }
  }

  lemma {:induction false} NoTreeMeansNoChange(op: Op, shape: Expr, xs: seq<Expr>, i: nat, from: nat)
    requires |xs| >= 2 && i < |xs| && from + |Operands(op, shape)| <= |xs| && AreOperands(op, xs)
    requires !xs[i].Bin?
    ensures Dups2Against(op, shape, xs, i, from) == (xs, 0)
  {
    if IsBin(op, shape) {
      NoTreeMeansNoChange(op, shape.l, xs, i, from);
      NoTreeMeansNoChange(op, shape.r, xs, i, from + |Operands(op, shape.l)|);
    }
  }

  lemma NegatedOr(f: Symbol, b: Symbol)
    requires TypeOf(f) == Tri && TypeOf(b) == Tri
    ensures var nf, nb := Not(Sym(f)), Not(Sym(b));
      Transform(Not(Bin(OR, Sym(f), Sym(b)))) == Bin(AND, nf, nb)
  {
    assert Transform(Bin(OR, Sym(f), Sym(b))) == Bin(OR, Sym(f), Sym(b)) by {
      TransformFixesNormal(Bin(OR, Sym(f), Sym(b)));
    }
    TransformFixesNormal(Not(Sym(f)));
    TransformFixesNormal(Not(Sym(b)));
  }

  lemma TwoSymbolsUnchanged(f: Symbol, b: Symbol)
    requires f != b && TypeOf(f) == Tri && TypeOf(b) == Tri
    ensures var x := Bin(OR, Sym(f), Sym(b)); Dups1Tree(x) == (x, 0) && Dups2Tree(x) == (x, 0)
  {
    var x, xs := Bin(OR, Sym(f), Sym(b)), [Sym(f), Sym(b)];
    assert Operands(OR, Sym(f)) == [Sym(f)] && Operands(OR, Sym(b)) == [Sym(b)];
    assert Operands(OR, x) == xs;
    NoJoinMeansNoChange(OR, xs, 0, 0);
    FillOperands(OR, x);
    NoTreesMeansNoChange(OR, x, xs, 0);
  }

  lemma NegationsContradict(f: Symbol, b: Symbol)
    requires f != b && TypeOf(f) == Tri && TypeOf(b) == Tri
    ensures Contradicts(AND, Bin(OR, Sym(f), Sym(b)), Bin(AND, Not(Sym(f)), Not(Sym(b))))
  {
    var nf, nb := Not(Sym(f)), Not(Sym(b));
    var neg := Bin(AND, nf, nb);
    NegatedOr(f, b);
    ExprEqIsReflexive(nf);
    ExprEqIsReflexive(nb);
    assert !ExprEq(Sym(f), Sym(b)) && !ExprEq(Sym(b), Sym(f));
    assert ExtractSpine(AND, None, nf, nf) == Extraction(Some(nf), Unit(AND), Unit(AND));
    assert ExtractSpine(AND, Some(nf), Unit(AND), nb) == Extraction(Some(nf), Unit(AND), nb);
    assert ExtractSpine(AND, None, nf, neg) == Extraction(Some(nf), Unit(AND), Bin(AND, Unit(AND), nb));
    assert ExtractSpine(AND, Some(nf), nb, Unit(AND)) == Extraction(Some(nf), nb, Unit(AND));
    assert ExtractSpine(AND, Some(nf), nb, nb) == Extraction(Some(Bin(AND, nf, nb)), Unit(AND), Unit(AND));
    var yy := Bin(AND, Unit(AND), Unit(AND));
    assert ExtractSpine(AND, Some(nf), nb, Bin(AND, Unit(AND), nb)) == Extraction(Some(neg), Unit(AND), yy);
    assert ExtractSpine(AND, None, neg, neg) == Extraction(Some(neg), yy, yy);
    assert EliminateYN(Unit(AND)) == Unit(AND);
  }

  /** Operand 0 of `(F || B) && (!F && !B)` is found contradicted by the part on the right. */
  lemma ContradictionIsFound(f: Symbol, b: Symbol)
    requires f != b && TypeOf(f) == Tri && TypeOf(b) == Tri
    ensures var x, nf, nb := Bin(OR, Sym(f), Sym(b)), Not(Sym(f)), Not(Sym(b));
      Dups2Against(AND, Bin(AND, nf, nb), [x, nf, nb], 0, 1).0 == [Sym(SymNo), nf, nb]
  {
    var x, nf, nb := Bin(OR, Sym(f), Sym(b)), Not(Sym(f)), Not(Sym(b));
    var neg, xs := Bin(AND, nf, nb), [x, nf, nb];
    assert xs[0 := Sym(SymNo)] == [Sym(SymNo), nf, nb];
    assert AreOperands(AND, xs) && Operands(AND, nf) == [nf] && Operands(AND, nb) == [nb];
    var ys := Dups2Pair(AND, nf, xs, 0, 1).0;
    LeafPair(f, b, xs, nf, 1);
    var zs := Dups2Pair(AND, nb, ys, 0, 2).0;
    LeafPair(f, b, ys, nb, 2);
    WholePair(f, b, zs);
  }

  /** Against one of the two negations, operand 0 stays or becomes `n`. */
  lemma LeafPair(f: Symbol, b: Symbol, xs: seq<Expr>, part: Expr, from: nat)
    requires f != b && TypeOf(f) == Tri && TypeOf(b) == Tri && |xs| == 3 && from + 1 <= 3
    requires xs[0] in {Bin(OR, Sym(f), Sym(b)), Sym(SymNo)} && AreOperands(AND, xs) && Operands(AND, part) == [part]
    ensures Dups2Pair(AND, part, xs, 0, from).0 in {xs, xs[0 := Sym(SymNo)]}
  {
    TwoSymbolsUnchanged(f, b);
    assert xs[0 := xs[0]] == xs;
  }

  /** An operand that a part of the spine contradicts, and that the pass leaves alone otherwise. */
  lemma ContradictedPair(op: Op, shape: Expr, xs: seq<Expr>, i: nat, from: nat, part: Expr)
    requires |xs| >= 2 && i < |xs| && from + |Operands(op, shape)| <= |xs| && AreOperands(op, xs)
    requires xs[i].Bin? && Dups2Tree(xs[i]) == (xs[i], 0) && Contradicts(op, xs[i], part)
    requires part == Fill(op, shape, xs[from..from + |Operands(op, shape)|])
    ensures Dups2Pair(op, shape, xs, i, from).0 == xs[i := Unit(Dual(op))]
  {
    SpineLeavesAtLeast(xs, i);
    assert xs[i := xs[i]] == xs;
  }

  lemma ContradictedByBoth(f: Symbol, b: Symbol, xs: seq<Expr>)
    requires f != b && TypeOf(f) == Tri && TypeOf(b) == Tri && |xs| == 3 && AreOperands(AND, xs)
    requires xs[0] == Bin(OR, Sym(f), Sym(b)) && |Operands(AND, Bin(AND, Not(Sym(f)), Not(Sym(b))))| == 2
    requires Fill(AND, Bin(AND, Not(Sym(f)), Not(Sym(b))), xs[1..3]) == Bin(AND, Not(Sym(f)), Not(Sym(b)))
    ensures Dups2Pair(AND, Bin(AND, Not(Sym(f)), Not(Sym(b))), xs, 0, 1).0 == xs[0 := Sym(SymNo)]
  {
    var neg := Bin(AND, Not(Sym(f)), Not(Sym(b)));
    TwoSymbolsUnchanged(f, b);
    NegationsContradict(f, b);
    ContradictedPair(AND, neg, xs, 0, 1, neg);
  }

  /** Against both, it is `n` afterwards. */
  lemma WholePair(f: Symbol, b: Symbol, xs: seq<Expr>)
    requires f != b && TypeOf(f) == Tri && TypeOf(b) == Tri && |xs| == 3
    requires xs[0] in {Bin(OR, Sym(f), Sym(b)), Sym(SymNo)} && xs[1..] == [Not(Sym(f)), Not(Sym(b))]
    ensures AreOperands(AND, xs)
    ensures Dups2Pair(AND, Bin(AND, Not(Sym(f)), Not(Sym(b))), xs, 0, 1).0 == [Sym(SymNo), Not(Sym(f)), Not(Sym(b))]
  {
    var nf, nb := Not(Sym(f)), Not(Sym(b));
    var neg := Bin(AND, nf, nb);
    assert xs[1] == nf && xs[2] == nb && xs[0 := Sym(SymNo)] == [Sym(SymNo), nf, nb];
    BothNegations(f, b);
    if xs[0].Bin? {
      assert xs[1..1 + |Operands(AND, neg)|] == [nf, nb];
      ContradictedByBoth(f, b, xs);
    } else {
      assert xs[0 := xs[0]] == xs;
    }
  }

  lemma BothNegations(f: Symbol, b: Symbol)
    ensures var nf, nb := Not(Sym(f)), Not(Sym(b));
      Operands(AND, Bin(AND, nf, nb)) == [nf, nb] && Fill(AND, Bin(AND, nf, nb), [nf, nb]) == Bin(AND, nf, nb)
  {
    var nf, nb := Not(Sym(f)), Not(Sym(b));
    assert Operands(AND, Bin(AND, nf, nb)) == [nf] + [nb] == [nf, nb];
    FillOperands(AND, Bin(AND, nf, nb));
  }

  /** In three values the result can differ: `(F || B) && (!F && !B)` is reduced to an expression
      that is `n` when F is `m` and B is `n`, although the original is `m` then. */
  lemma EliminateDupsCanLoseMod(f: Symbol, b: Symbol, a: Assignment)
    requires WellTyped(a) && f != b && TypeOf(f) == Tri && TypeOf(b) == Tri
    requires a(f).tri == MOD && a(b).tri == NO
    ensures var e := Bin(AND, Bin(OR, Sym(f), Sym(b)), Bin(AND, Not(Sym(f)), Not(Sym(b))));
      Value(e, a) == MOD && Value(EliminateDups(e), a) == NO
  {
    var x, nf, nb := Bin(OR, Sym(f), Sym(b)), Not(Sym(f)), Not(Sym(b));
    var neg := Bin(AND, nf, nb);
    var e, xs := Bin(AND, x, neg), [x, nf, nb];
    assert Operands(AND, x) == [x] && Operands(AND, neg) == [nf, nb];
    assert Operands(AND, e) == xs;
    TwoSymbolsUnchanged(f, b);
    assert !ExprEq(Sym(f), Sym(b)) && !ExprEq(Sym(b), Sym(f));
    assert !ExprEq(nf, nb) && !ExprEq(nb, nf);
    NoJoinMeansNoChange(AND, xs, 0, 0);
    assert Value(Sym(f), a) == MOD && Value(Sym(b), a) == NO && Value(nb, a) == YES;
    assert Value(x, a) == MOD && Value(nf, a) == MOD && Value(neg, a) == MOD;
    FillOperands(AND, e);
    assert Dups1Tree(e) == (e, 0);
    ContradictionIsFound(f, b);
    LostModRound(f, b, a);
    RoundShrinks(e);
    var (r, n) := Round(e);
    if n > 0 {
      EliminateYNKeepsValue(r, a);
      EliminateDupsSettles(EliminateYN(r), a);
    }
  }

  lemma LostModRound(f: Symbol, b: Symbol, a: Assignment)
    requires WellTyped(a) && f != b && TypeOf(f) == Tri && TypeOf(b) == Tri
    ensures var e := Bin(AND, Bin(OR, Sym(f), Sym(b)), Bin(AND, Not(Sym(f)), Not(Sym(b))));
      Value(Dups2Tree(e).0, a) == NO
  {
    var x, nf, nb := Bin(OR, Sym(f), Sym(b)), Not(Sym(f)), Not(Sym(b));
    var neg := Bin(AND, nf, nb);
    var e, xs, ys := Bin(AND, x, neg), [x, nf, nb], [Sym(SymNo), nf, nb];
    assert Operands(AND, x) == [x] && Operands(AND, neg) == [nf, nb];
    assert Operands(AND, e) == xs;
    ContradictionIsFound(f, b);
    assert Dups2Against(AND, x, xs, 0, 0) == (xs, 0);
    var zs := Dups2Against(AND, neg, xs, 0, 1).0;
    assert zs == ys;
    assert Dups2Against(AND, e, xs, 0, 0).0 == ys;
    assert HoldsAllowedValue(SymNo, a(SymNo));
    SpineValueBeyondOperand(AND, ys, 0, a);
    Dups2Settles(AND, e, ys, 1, a);
    FillValue(AND, e, Dups2(AND, e, xs, 0).0, a);
  }

  /** `trans_count` is one counter for the whole file. */
  class Simplifier {
    var transCount: nat

    /** The two passes of the loop, which add to the counter. */
    method RunPasses(e: Expr) returns (r: Expr)
      modifies this
      ensures r == Round(e).0 && transCount == old(transCount) + Round(e).1
    {
      r := e;
      if e.Bin? {
        var first := Dups1Tree(e);
        transCount := transCount + first.1;
        var second := Dups2Tree(first.0);
        r, transCount := second.0, transCount + second.1;
      }
    }

    /** `expr_eliminate_dups`: the counter is borrowed for the loop and handed back. */
    method ExprEliminateDups(e: Expr) returns (r: Expr)
      modifies this
      ensures r == EliminateDups(e)
      ensures transCount == old(transCount)
    {
      var oldCount := transCount;
      r := e;
      while true
        invariant EliminateDups(r) == EliminateDups(e)
        decreases Leaves(r)
      {
        RoundShrinks(r);
        transCount := 0;
        r := RunPasses(r);
        if transCount == 0 {
          break;
        }
        r := EliminateYN(r);
      }
      transCount := oldCount;
    }
  }
}
