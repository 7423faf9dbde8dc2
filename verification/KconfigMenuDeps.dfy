/** How `menu_finalize` uses the simplifiers (at91bootstrap/config/menu.c:280-336): it pushes the dependencies of
    a menu into its entries, and decides which following entries belong under a config symbol. */
module KconfigMenuDeps {
  import opened KconfigExpr
  import opened KconfigCommon
  import opened KconfigTransform
  import opened KconfigDups
  import opened KconfigLeaves
  import opened KconfigShapes
  import KconfigSymbols
  import opened Wrappers

  // ----- NULL stands for "always" -----

  function AllocAnd(e1: Option<Expr>, e2: Option<Expr>): Option<Expr> {
    match e1
    case None => e2
    case Some(x) => if e2.Some? then Some(Bin(AND, x, e2.value)) else e1
  }

  function TransformOrNull(e: Option<Expr>): Option<Expr> {
    if e.Some? then Some(Transform(e.value)) else None
  }

  function EliminateDupsOrNull(e: Option<Expr>): Option<Expr> {
    if e.Some? then Some(EliminateDups(e.value)) else None
  }

  // ----- pushing dependencies down (at91bootstrap/config/menu.c:280-297) -----

  /** `basedep` of an entry, from the dependency of the menu around it and its own. */
  function PropagatedDep(parentDep: Option<Expr>, dep: Option<Expr>): Option<Expr> {
    EliminateDupsOrNull(AllocAnd(parentDep, TransformOrNull(dep)))
  }

  /** The visibility stored in a property of the entry. */
  function PropagatedVisibility(baseDep: Option<Expr>, visible: Option<Expr>, tristate: bool): Option<Expr> {
    var dep := EliminateDupsOrNull(AllocAnd(baseDep, TransformOrNull(visible)));
    if tristate || dep.None? then dep else Some(TransBool(dep.value))
  }

  ghost predicate NoTestBelowNotOrNull(e: Option<Expr>) {
    e.Some? ==> NoTestBelowNot(e.value, false)
  }

  /** An operand that is not AND or OR, without a test below a NOT. */
  predicate NoTestLeaf(e: Expr) {
    NoTestBelowNot(e, false)
  }

  lemma {:induction false} NoTestsIsOfLeaves(e: Expr)
    ensures NoTestBelowNot(e, false) <==> AllLeaves(NoTestLeaf, e)
  {
    if e.Bin? {
      NoTestsIsOfLeaves(e.l);
      NoTestsIsOfLeaves(e.r);
    }
  }

  lemma EliminateDupsHasNoTests(e: Expr)
    requires NoTestBelowNot(e, false)
    ensures NoTestBelowNot(EliminateDups(e), false)
  {
    NoTestsIsOfLeaves(e);
    EliminateDupsKeepsLeaves(NoTestLeaf, e);
    NoTestsIsOfLeaves(EliminateDups(e));
  }

  lemma {:induction false} TransBoolLeavesNot(e: Expr)
    requires NoTestBelowNot(e, true)
    ensures TransBool(e) == e
  {
    match e
    case Not(x) => TransBoolLeavesNot(x);
    case Bin(_, l, r) =>
      TransBoolLeavesNot(l);
      TransBoolLeavesNot(r);
    case _ =>
  }

  lemma {:induction false} TransBoolHasNoTests(e: Expr)
    requires NoTestBelowNot(e, false)
    ensures NoTestBelowNot(TransBool(e), false)
  {
    match e
    case Not(x) => TransBoolLeavesNot(x);
    case Bin(_, l, r) =>
      TransBoolHasNoTests(l);
      TransBoolHasNoTests(r);
    case _ =>
  }

  lemma AndWithTransformed(base: Option<Expr>, e: Option<Expr>, a: Assignment)
    requires WellTyped(a) && NoTestBelowNotOrNull(base)
    ensures var both := AllocAnd(base, TransformOrNull(e));
      NoTestBelowNotOrNull(both) && ValueOrYes(both, a) == ApplyOp(AND, ValueOrYes(base, a), ValueOrYes(e, a))
  {
    if e.Some? {
      TransformKeepsValue(e.value, a);
      TransformIsNormal(e.value);
      NormalHasNoTestBelowNot(Transform(e.value));
    }
  }

  /** An entry's stored dependency is the conjunction of the surrounding one and its own, wherever
      that is definite; and it can be pushed further down. */
  lemma PropagatedDepIsConjunction(parentDep: Option<Expr>, dep: Option<Expr>, a: Assignment)
    requires WellTyped(a) && NoTestBelowNotOrNull(parentDep)
    ensures var r := PropagatedDep(parentDep, dep);
      NoTestBelowNotOrNull(r) &&
      Settles(ApplyOp(AND, ValueOrYes(parentDep, a), ValueOrYes(dep, a)), ValueOrYes(r, a))
  {
    AndWithTransformed(parentDep, dep, a);
    var both := AllocAnd(parentDep, TransformOrNull(dep));
    if both.Some? {
      EliminateDupsSettles(both.value, a);
      EliminateDupsHasNoTests(both.value);
    }
  }

  /** A prompt is visible exactly when the menu around it, the entry and the prompt itself all are,
      wherever that conjunction is definite. For a symbol that is not tristate only "visible or not"
      is kept. */
  lemma PropagatedVisibilityIsConjunction(
      parentDep: Option<Expr>, dep: Option<Expr>, visible: Option<Expr>, tristate: bool, a: Assignment)
    requires WellTyped(a) && NoTestBelowNotOrNull(parentDep)
    ensures var all := ApplyOp(AND, ApplyOp(AND, ValueOrYes(parentDep, a), ValueOrYes(dep, a)), ValueOrYes(visible, a));
      var r := PropagatedVisibility(PropagatedDep(parentDep, dep), visible, tristate);
      NoTestBelowNotOrNull(r) &&
      (all != MOD ==> (ValueOrYes(r, a) != NO <==> all != NO)) &&
      (all != MOD && tristate ==> ValueOrYes(r, a) == all)
  {
    PropagatedDepIsConjunction(parentDep, dep, a);
    var base := PropagatedDep(parentDep, dep);
    AndWithTransformed(base, visible, a);
    var both := AllocAnd(base, TransformOrNull(visible));
    if both.Some? {
      EliminateDupsSettles(both.value, a);
      EliminateDupsHasNoTests(both.value);
      NoTestIsTwoValued(EliminateDups(both.value), false, a);
      TransBoolKeepsNo(EliminateDups(both.value), a);
      TransBoolHasNoTests(EliminateDups(both.value));
    }
  }

  function AllNo(): Assignment {
    (s: Symbol) =>
      match s
      case SymYes => SymVal(YES, "y")
      case SymMod => SymVal(MOD, "m")
      case Quoted(text) => SymVal(NO, text)
      case _ => SymVal(NO, "n")
  }

  /** What has been pushed into an entry can be pushed on. */
  lemma ConditionsCanBePushed(parentDep: Option<Expr>, dep: Option<Expr>, visible: Option<Expr>, tristate: bool)
    requires NoTestBelowNotOrNull(parentDep)
    ensures NoTestBelowNotOrNull(PropagatedDep(parentDep, dep))
    ensures NoTestBelowNotOrNull(PropagatedVisibility(PropagatedDep(parentDep, dep), visible, tristate))
  {
    assert WellTyped(AllNo());
    PropagatedDepIsConjunction(parentDep, dep, AllNo());
    PropagatedVisibilityIsConjunction(parentDep, dep, visible, tristate, AllNo());
  }

  // ----- which entries move under a config symbol (at91bootstrap/config/menu.c:311-336) -----

  /** "Is this not `n`?", simplified. */
  function NotNo(e: Option<Expr>): Expr {
    EliminateDups(Transform(TransCompareOrNull(e, false, SymNo)))
  }

  /** Does an entry with dependency `dep` join the submenu of symbol `s`, whose prompt has
      visibility `visible`? */
  predicate NestsUnder(s: Symbol, visible: Option<Expr>, dep: Option<Expr>) {
    dep.Some? && ContainsSymbol(dep.value, s) &&
    (DependsOnSymbol(dep.value, s) || IsYes(EliminateEq(NotNo(dep), NotNo(visible)).1))
  }

  /** Comparing with `n` is two-valued, so all the simplification in between is exact: the rewritten condition
      says whether the condition, rounded up throughout, is not `n`. */
  lemma NotNoIsExact(e: Option<Expr>, a: Assignment)
    requires WellTyped(a) && (e.Some? ==> LogicalSymbols(e.value))
    ensures Value(NotNo(e), a) == Truth(e.None? || Rounded(e.value, true, a) != NO)
  {
    var c := TransCompareOrNull(e, false, SymNo);
    assert HoldsAllowedValue(SymNo, a(SymNo));
    if e.Some? {
      TransCompareRounds(e.value, false, SymNo, a);
    }
    TransformKeepsValue(c, a);
    EliminateDupsSettles(Transform(c), a);
  }

  /** So it says whether the condition itself is not `n` exactly if rounding up keeps that. */
  lemma NotNoIsRightExactlyWhen(e: Expr, a: Assignment)
    requires WellTyped(a) && LogicalSymbols(e)
    ensures Value(NotNo(Some(e)), a) == Truth(Value(e, a) != NO) <==>
            (Rounded(e, true, a) != NO <==> Value(e, a) != NO)
  {
    NotNoIsExact(Some(e), a);
  }

  function RoundedUp(e: Option<Expr>, a: Assignment): Tristate {
    if e.Some? then Rounded(e.value, true, a) else YES
  }

  /** Rounding up does not hide the symbol either. */
  lemma {:induction false} DependsMeansImpliesRounded(e: Expr, s: Symbol, a: Assignment)
    requires WellTyped(a) && DependsOnSymbol(e, s) && TypeOf(s) in {Boolean, Tri}
    requires Rounded(e, true, a) != NO
    ensures a(s).tri != NO
  {
    match e
    case Bin(AND, l, r) =>
      if DependsOnSymbol(l, s) {
        DependsMeansImpliesRounded(l, s, a);
      } else {
        DependsMeansImpliesRounded(r, s, a);
      }
    case Comp(_, _, right) =>
      assert HoldsAllowedValue(s, a(s)) && HoldsAllowedValue(right, a(right));
    case Sym(_) =>
  }

  /** What nesting always means: whenever the entry's dependency rounded up can be met, the symbol is set, or the
      visibility of its prompt rounded up is not `n`. */
  lemma NestingMeansRounded(s: Symbol, visible: Option<Expr>, dep: Option<Expr>, a: Assignment)
    requires WellTyped(a) && NestsUnder(s, visible, dep) && TypeOf(s) in {Boolean, Tri}
    requires LogicalSymbols(dep.value) && (visible.Some? ==> LogicalSymbols(visible.value))
    requires Rounded(dep.value, true, a) != NO
    ensures a(s).tri != NO || RoundedUp(visible, a) != NO
  {
    if DependsOnSymbol(dep.value, s) {
      DependsMeansImpliesRounded(dep.value, s, a);
    } else {
      NotNoIsExact(dep, a);
      NotNoIsExact(visible, a);
      EliminateEqReflectsOrder(NotNo(dep), NotNo(visible), a);
    }
  }

  /** An entry is nested under a symbol only if it cannot be there without the symbol: whenever the entry's
      dependency can be met, the symbol is set or its prompt is visible; where negated parts are two-valued. */
  lemma NestingIsJustified(s: Symbol, visible: Option<Expr>, dep: Option<Expr>, a: Assignment)
    requires WellTyped(a) && NestsUnder(s, visible, dep) && TypeOf(s) in {Boolean, Tri}
    requires LogicalSymbols(dep.value) && NegatesTwoValued(dep.value, a)
    requires visible.Some? ==> LogicalSymbols(visible.value) && NegatesTwoValued(visible.value, a)
    requires Value(dep.value, a) != NO
    ensures a(s).tri != NO || ValueOrYes(visible, a) != NO
  {
    RoundedIsExact(dep.value, true, a);
    if visible.Some? {
      RoundedIsExact(visible.value, true, a);
    }
    NestingMeansRounded(s, visible, dep, a);
  }

  // ----- which entries nest -----

  /** A test that `s` is set. */
  predicate IsSetTest(x: Expr, s: Symbol) {
    x == Sym(s) || x == Comp(true, s, SymYes) || x == Comp(true, s, SymMod) || x == Comp(false, s, SymNo)
  }

  lemma {:induction false} ContainsExactlyWhen(e: Expr, s: Symbol)
    ensures ContainsSymbol(e, s) <==> s in KconfigSymbols.ExprSymbols(e)
  {
    match e
    case Not(x) => ContainsExactlyWhen(x, s);
    case Bin(_, l, r) =>
      ContainsExactlyWhen(l, s);
      ContainsExactlyWhen(r, s);
    case _ =>
  }

  lemma {:induction false} DependsExactlyWhen(e: Expr, s: Symbol)
    ensures DependsOnSymbol(e, s) <==> exists x :: x in Operands(AND, e) && IsSetTest(x, s)
  {
    if IsBin(AND, e) {
      DependsExactlyWhen(e.l, s);
      DependsExactlyWhen(e.r, s);
      assert forall x :: x in Operands(AND, e) <==> x in Operands(AND, e.l) || x in Operands(AND, e.r);
    } else {
      assert e in Operands(AND, e);
    }
  }

  lemma {:induction false} ConstantStays(op: Op, e: Expr, c: Expr)
    requires IsYesOrNo(c)
    ensures EliminateEqSpine(op, e, c).1 == c
  {
    if IsBin(op, e) {
      ConstantStays(op, e.l, c);
      ConstantStays(op, e.r, c);
    }
  }

  /** An entry nests as soon as one conjunct of its condition tests that the symbol is set, and never if its
      condition does not mention the symbol. Under a prompt without a condition, that it does is enough. */
  lemma NestsWhenever(s: Symbol, visible: Option<Expr>, dep: Expr)
    ensures (exists x :: x in Operands(AND, dep) && IsSetTest(x, s)) ==> NestsUnder(s, visible, Some(dep))
    ensures NestsUnder(s, visible, Some(dep)) ==> s in KconfigSymbols.ExprSymbols(dep)
    ensures NestsUnder(s, None, Some(dep)) <==> s in KconfigSymbols.ExprSymbols(dep)
  {
    DependsExactlyWhen(dep, s);
    ContainsExactlyWhen(dep, s);
    if DependsOnSymbol(dep, s) {
      DependsMeansContains(dep, s);
    }
    AlwaysIsNotNo();
    YesStays(NotNo(Some(dep)));
  }

  lemma AlwaysIsNotNo()
    ensures NotNo(None) == Sym(SymYes)
  {
  }

  lemma YesStays(d: Expr)
    ensures EliminateEq(d, Sym(SymYes)).1 == Sym(SymYes)
  {
    if d.Bin? {
      ConstantStays(d.op, d, Sym(SymYes));
    }
  }

  lemma {:induction false} DependsMeansContains(e: Expr, s: Symbol)
    requires DependsOnSymbol(e, s)
    ensures ContainsSymbol(e, s)
  {
    if e.Bin? {
      DependsMeansContains(if DependsOnSymbol(e.l, s) then e.l else e.r, s);
    }
  }

  /** Otherwise the two conditions are compared, each rewritten to "is this not `n`?". With nothing left to
      fold in them, an entry nests exactly if it mentions the symbol, and a conjunct of it tests that the symbol
      is set, or the prompt's condition has become `y`, or all its conjuncts are among those of the entry. */
  lemma NestsUnderExactlyWhen(s: Symbol, visible: Option<Expr>, dep: Option<Expr>)
    requires NoFoldables(NotNo(dep)) && NoFoldables(NotNo(visible))
    ensures NestsUnder(s, visible, dep) <==>
      dep.Some? && s in KconfigSymbols.ExprSymbols(dep.value) &&
      ((exists x :: x in Operands(AND, dep.value) && IsSetTest(x, s)) ||
       IsYes(NotNo(visible)) ||
       (IsBin(AND, NotNo(dep)) && !IsNo(NotNo(visible)) && WithinCounts(AND, NotNo(visible), NotNo(dep))))
  {
    if dep.Some? {
      ContainsExactlyWhen(dep.value, s);
      DependsExactlyWhen(dep.value, s);
      NothingLeftExactlyWhen(NotNo(dep), NotNo(visible));
    }
  }

  // ----- where negated parts are not two-valued -----

  /** Two tests of different symbols are a normal form in which nothing can be joined. */
  lemma TwoTestsUnchanged(x: Expr, y: Expr)
    requires x.Comp? && y.Comp? && x.left != y.left && TypeOf(x.left) == Tri && TypeOf(y.left) == Tri
    ensures EliminateDups(Bin(AND, x, y)) == Bin(AND, x, y)
  {
    var e, xs := Bin(AND, x, y), [x, y];
    assert Operands(AND, x) == [x] && Operands(AND, y) == [y];
    assert Operands(AND, e) == xs;
    assert Join(AND, x, y) == None && Join(AND, y, x) == None;
    NoJoinMeansNoChange(AND, xs, 0, 0);
    FillOperands(AND, e);
    NoTreesMeansNoChange(AND, e, xs, 0);
  }

  /** `!t && !s` is rewritten to `t=n && s=n`. */
  lemma NegationsNotNo(s: Symbol, t: Symbol)
    requires s != t && TypeOf(s) == Tri && TypeOf(t) == Tri
    ensures NotNo(Some(Bin(AND, Not(Sym(t)), Not(Sym(s))))) == Bin(AND, Comp(true, t, SymNo), Comp(true, s, SymNo))
  {
    var dep := Bin(AND, Not(Sym(t)), Not(Sym(s)));
    var unequal := Bin(OR, Comp(false, t, SymNo), Comp(false, s, SymNo));
    assert TransCompare(Sym(t), false, SymNo) == Comp(false, t, SymNo);
    assert TransCompare(Sym(s), false, SymNo) == Comp(false, s, SymNo);
    assert TransCompare(Not(Sym(t)), true, SymNo) == unequal.l && TransCompare(Not(Sym(s)), true, SymNo) == unequal.r;
    assert TransCompare(dep, false, SymNo) == Not(unequal);
    assert Transform(unequal) == unequal;
    assert Transform(Not(Comp(false, t, SymNo))) == Comp(true, t, SymNo);
    assert Transform(Not(Comp(false, s, SymNo))) == Comp(true, s, SymNo);
    TwoTestsUnchanged(Comp(true, t, SymNo), Comp(true, s, SymNo));
  }

  lemma SharedTestCancels(x: Expr, y: Expr)
    requires x.Comp? && y.Comp? && x.left != y.left
    ensures EliminateEq(Bin(AND, x, y), x).1 == Sym(SymYes)
  {
    assert EliminateEqSpine(AND, x, x) == (Unit(AND), Unit(AND));
    assert EliminateEqSpine(AND, y, Unit(AND)) == (y, Unit(AND));
    assert EliminateEqSpine(AND, Bin(AND, x, y), x) == (Bin(AND, Unit(AND), y), Unit(AND));
  }

  lemma TestNotNo(test: Expr)
    requires test.Comp? && TypeOf(test.left) == Tri
    ensures NotNo(Some(test)) == test
  {
    assert TransCompare(test, false, SymNo) == test;
    assert Transform(test) == test;
  }

  lemma ValuesThere(s: Symbol, t: Symbol, a: Assignment)
    requires TypeOf(t) == Tri && WellTyped(a) && a(t).tri == MOD && a(s).tri == NO
    ensures Value(Bin(AND, Not(Sym(t)), Not(Sym(s))), a) == MOD && Value(Comp(true, t, SymNo), a) == NO
  {
    assert HoldsAllowedValue(t, a(t)) && HoldsAllowedValue(SymNo, a(SymNo));
    assert Value(Not(Sym(t)), a) == MOD && Value(Not(Sym(s)), a) == YES;
  }

  /** `s` has a prompt `if t=n`, and the entry after it depends on `!t && !s`: it is nested under `s`, but with `t` at
      `m` and `s` at `n` it is there while `s` is not set and not visible. */
  lemma NestingCanBeUnjustified(s: Symbol, t: Symbol, a: Assignment)
    requires s != t && TypeOf(s) == Tri && TypeOf(t) == Tri && WellTyped(a) && a(t).tri == MOD && a(s).tri == NO
    ensures var visible, dep := Some(Comp(true, t, SymNo)), Some(Bin(AND, Not(Sym(t)), Not(Sym(s))));
      NestsUnder(s, visible, dep) && Value(dep.value, a) == MOD && ValueOrYes(visible, a) == NO
  {
    var test := Comp(true, t, SymNo);
    NegationsNotNo(s, t);
    TestNotNo(test);
    SharedTestCancels(test, Comp(true, s, SymNo));
    assert ContainsSymbol(Not(Sym(s)), s);
    assert !DependsOnSymbol(Not(Sym(t)), s) && !DependsOnSymbol(Not(Sym(s)), s);
    ValuesThere(s, t, a);
  }
}
